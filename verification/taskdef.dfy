/** The task-definition document and the mutation `run` applies to the
    chosen container (index.js:44-85). JSON the action never inspects is kept
    as an `Opaque` value and carried through unchanged. */
module TaskDefinition {
  import opened Results
  import opened Pairs
  import opened Environment

  /** A JSON value the action does not look into. */
  datatype Opaque = Opaque(json: string)

  /** `dockerLabels`: a falsy value (absent when `raw` is `None`, or null,
      false, 0, "") or a string-to-string object. */
  datatype LabelsField =
    | LabelsFalsy(raw: Option<Opaque>)
    | LabelsObject(labels: map<string, string>)

  /** `environment`: anything that is not an array (absent when `raw` is
      `None`), or an array of `{name, value}` entries. */
  datatype EnvField =
    | EnvNotArray(raw: Option<Opaque>)
    | EnvArray(entries: seq<EnvEntry>)

  datatype Container = Container(
    name: string,
    image: Option<string>,
    dockerLabels: LabelsField,
    environment: EnvField,
    rest: Opaque)

  /** `containerDefinitions`: missing or not an array, or an array. */
  datatype Definitions =
    | DefinitionsNotArray(raw: Option<Opaque>)
    | DefinitionsArray(containers: seq<Container>)

  datatype Document = Document(containerDefinitions: Definitions, rest: Opaque)

  /** `containerDefinitions.find(element => element.name == containerName)`
      (index.js:47-49), as a position: the first container with that name. */
  function FindContainer(cs: seq<Container>, name: string): (r: Option<nat>)
    ensures r.None? <==> forall i :: 0 <= i < |cs| ==> cs[i].name != name
    ensures r.Some? ==> r.value < |cs| && cs[r.value].name == name
                        && forall j :: 0 <= j < r.value ==> cs[j].name != name
    decreases |cs|
  {
    if |cs| == 0 then None
    else if cs[0].name == name then Some(0)
    else match FindContainer(cs[1..], name)
      case None =>
        assert forall i :: 1 <= i < |cs| ==> cs[i] == cs[1..][i - 1];
        None
      case Some(i) =>
        assert forall j :: 1 <= j < i + 1 ==> cs[j] == cs[1..][j - 1];
        Some(i + 1)
  }

  /** The labels a field already holds; a falsy field holds none. */
  function ExistingLabels(field: LabelsField): map<string, string> {
    match field
    case LabelsFalsy(_) => map[]
    case LabelsObject(m) => m
  }

  /** index.js:58-64: a falsy label field becomes `{}`, then each pair is
      assigned in order. */
  function MergeLabels(field: LabelsField, ps: seq<Pair>): (r: LabelsField)
    ensures r.LabelsObject?
    ensures r.labels.Keys == ExistingLabels(field).Keys + Names(ps)
    ensures forall n :: n in Names(ps) ==> r.labels[n] == LastValue(ps, n)
    ensures forall n :: n in ExistingLabels(field) && n !in Names(ps) ==>
              r.labels[n] == ExistingLabels(field)[n]
  {
    LabelsObject(Assign(ExistingLabels(field), ps))
  }

  /** The entries a field already holds; a non-array field holds none. */
  function ExistingEntries(field: EnvField): seq<EnvEntry> {
    match field
    case EnvNotArray(_) => []
    case EnvArray(es) => es
  }

  /** index.js:70-84: a non-array environment becomes `[]`, then the pairs
      are upserted in order. */
  function UpsertEnvironment(field: EnvField, ps: seq<Pair>): (r: EnvField)
    ensures r.EnvArray?
    ensures Shaped(ExistingEntries(field), ps, r.entries)
  {
    UpsertShape(ExistingEntries(field), ps);
    EnvArray(Upsert(ExistingEntries(field), ps))
  }

  /** index.js:53-85 on the chosen container: the image is replaced, labels
      and environment are changed only when pairs were supplied for them,
      and nothing else about the container changes. */
  function PatchContainer(c: Container, image: string,
                          labels: Option<seq<Pair>>, env: Option<seq<Pair>>): (r: Container)
    ensures r.name == c.name && r.rest == c.rest
    ensures r.image == Some(image)
    ensures labels.None? ==> r.dockerLabels == c.dockerLabels
    ensures labels.Some? ==> r.dockerLabels.LabelsObject?
                             && Names(labels.value) <= r.dockerLabels.labels.Keys
                             && ExistingLabels(c.dockerLabels).Keys <= r.dockerLabels.labels.Keys
    ensures env.None? ==> r.environment == c.environment
    ensures env.Some? ==> r.environment.EnvArray?
                          && |ExistingEntries(c.environment)| <= |r.environment.entries|
  {
    var c := c.(image := Some(image));
    var c := if labels.Some? then c.(dockerLabels := MergeLabels(c.dockerLabels, labels.value)) else c;
    if env.Some? then c.(environment := UpsertEnvironment(c.environment, env.value)) else c
  }

  /** `after` is `before` with only container `i` changed, keeping its name
      and its uninspected fields and carrying the new image. */
  predicate PatchedOnly(before: Document, after: Document, i: nat, image: string) {
    && before.containerDefinitions.DefinitionsArray?
    && after.containerDefinitions.DefinitionsArray?
    && var cs, cs' := before.containerDefinitions.containers, after.containerDefinitions.containers;
    && after.rest == before.rest
    && |cs'| == |cs| && i < |cs|
    && (forall j :: 0 <= j < |cs| && j != i ==> cs'[j] == cs[j])
    && cs'[i].name == cs[i].name && cs'[i].rest == cs[i].rest
    && cs'[i].image == Some(image)
  }
}
