/** The validate / look up / mutate sequence of `run` (index.js:7-101), with
    the runtime around it turned into parameters: whether the task-definition
    file exists, and a `load` function standing for reading the file, the
    optional template rendering and `JSON.parse` (index.js:35-41). */
module Action {
  import opened Results
  import opened Errors
  import opened Text
  import opened Pairs
  import opened Variables
  import opened TaskDefinition

  /** The action's six inputs as text; an optional input that was not
      supplied is the empty string. */
  datatype Inputs = Inputs(
    taskDefinition: string,
    containerName: string,
    image: string,
    environmentVariables: string,
    dockerLabels: string,
    templateVariables: string)

  /** `t` is `raw` with whitespace removed from both ends: it sits in `raw`
      with only whitespace around it and has none at its own ends. */
  ghost predicate TrimmedFrom(raw: string, t: string) {
    Trimmed(t) && exists lo: nat :: PaddedAt(raw, t, lo)
  }

  /** `TrimmedFrom` admits exactly one result, `String.prototype.trim`'s. */
  lemma {:induction false} TrimmedFromUnique(raw: string, t: string)
    ensures TrimmedFrom(raw, t) <==> t == Trim(raw)
  {
    if TrimmedFrom(raw, t) {
      var lo: nat :| PaddedAt(raw, t, lo);
      assert raw == raw[..lo] + t + raw[lo + |t|..];
      TrimOfPadded(raw[..lo], t, raw[lo + |t|..]);
    }
    if t == Trim(raw) {
      TrimIsInfix(raw);
    }
  }

  /** `core.getInput` on each input (index.js:10-15, 26): by default it
      trims each value on its own, so every input the run sees is its raw
      value with surrounding whitespace removed, and inputs a workflow
      passes already trimmed are seen unchanged. */
  function GetInputs(raw: Inputs): (inputs: Inputs)
    ensures Given(inputs)
    ensures TrimmedFrom(raw.taskDefinition, inputs.taskDefinition)
    ensures TrimmedFrom(raw.containerName, inputs.containerName)
    ensures TrimmedFrom(raw.image, inputs.image)
    ensures TrimmedFrom(raw.environmentVariables, inputs.environmentVariables)
    ensures TrimmedFrom(raw.dockerLabels, inputs.dockerLabels)
    ensures TrimmedFrom(raw.templateVariables, inputs.templateVariables)
    ensures Given(raw) ==> inputs == raw
  {
    TrimIsInfix(raw.taskDefinition);
    TrimIsInfix(raw.containerName);
    TrimIsInfix(raw.image);
    TrimIsInfix(raw.environmentVariables);
    TrimIsInfix(raw.dockerLabels);
    TrimIsInfix(raw.templateVariables);
    Inputs(Trim(raw.taskDefinition), Trim(raw.containerName), Trim(raw.image),
           Trim(raw.environmentVariables), Trim(raw.dockerLabels), Trim(raw.templateVariables))
  }

  /** Every input is as `core.getInput` leaves it. */
  predicate Given(inputs: Inputs) {
    && Trimmed(inputs.taskDefinition) && Trimmed(inputs.containerName) && Trimmed(inputs.image)
    && Trimmed(inputs.environmentVariables) && Trimmed(inputs.dockerLabels)
    && Trimmed(inputs.templateVariables)
  }

  /** A trimmed, non-empty pair block never starts with a blank line. This is
      why `Mutate` may treat every blank line of the environment block as
      fatal: only a first entry can be pushed onto an empty environment list
      without `find` calling its callback on it (index.js:76, 82). */
  lemma {:induction false} TrimmedBlockStartsUsable(text: string)
    requires text != [] && Trimmed(text)
    ensures Trim(Split(text, '\n')[0]) != []
  {
    var first := Split(text, '\n')[0];
    assert |first| > 0 && first[0] == text[0] by {
      match IndexOf(text, '\n')
      case None =>
      case Some(i) => assert i != 0;
    }
    TrimEmptyIffBlank(first);
  }

  /** The flat variable map the template is rendered against. */
  type Context = map<string, string>

  /** The lines of a pair block a consumer can use: none malformed, none blank. */
  predicate UsableLines(text: string) {
    forall i :: 0 <= i < |Split(text, '\n')| ==>
      !Malformed(Split(text, '\n')[i]) && Trim(Split(text, '\n')[i]) != []
  }

  /** `parseVariables(text)` followed by a consumer reading `.name` of every
      entry: it yields pairs only when every line is a `NAME=value` line. */
  function PairsOf(text: string): (r: Result<seq<Pair>, Error>)
    ensures r.Success? <==> UsableLines(text)
    ensures r.Success? ==> |r.value| == |Split(text, '\n')|
                           && forall i :: 0 <= i < |r.value| ==>
                                ParsedFrom(Some(r.value[i]), Split(text, '\n')[i])
    ensures r.Failure? ==> r.error == UndefinedEntry || r.error.MalformedLine?
    ensures r.Failure? && FirstMalformed(Split(text, '\n')) == |Split(text, '\n')| ==>
              r.error == UndefinedEntry
    ensures FirstMalformed(Split(text, '\n')) < |Split(text, '\n')| ==>
              r == Failure(MalformedLine(Trim(Split(text, '\n')[FirstMalformed(Split(text, '\n'))])))
  {
    match ParseVariables(text)
    case Failure(e) =>
      MalformedNotUsable(text);
      Failure(e)
    case Success(entries) =>
      DefinedIffUsable(text, entries);
      RequireDefined(entries)
  }

  lemma {:induction false} MalformedNotUsable(text: string)
    requires ParseVariables(text).Failure?
    ensures !UsableLines(text)
  {
    var lines := Split(text, '\n');
    var k := FirstMalformed(lines);
    assert Malformed(lines[k]);
  }

  lemma {:induction false} DefinedIffUsable(text: string, entries: seq<Option<Pair>>)
    requires ParseVariables(text) == Success(entries)
    ensures (forall i :: 0 <= i < |entries| ==> entries[i].Some?) <==> UsableLines(text)
  {
    var lines := Split(text, '\n');
    assert |entries| == |lines|;
    assert forall i :: 0 <= i < |lines| ==> !Malformed(lines[i]);
    assert forall i :: 0 <= i < |entries| ==> ParsedFrom(entries[i], lines[i]);
  }

  /** An optional pair block: skipped when empty (JavaScript's falsy `""`),
      parsed otherwise (index.js:55, 67). */
  function OptionalPairs(text: string): (r: Result<Option<seq<Pair>>, Error>)
    ensures text == [] ==> r == Success(None)
    ensures text != [] ==> (r.Success? <==> UsableLines(text))
    ensures text != [] && r.Success? ==> r.value.Some? && PairsOf(text) == Success(r.value.value)
    ensures r.Failure? ==> PairsOf(text) == Failure(r.error)
  {
    if text == [] then Success(None)
    else
      var ps :- PairsOf(text);
      Success(Some(ps))
  }

  /** index.js:29-33: when template variables are given, every name maps to
      the value of its last line. */
  function TemplateContext(text: string): (r: Result<Option<Context>, Error>)
    ensures text == [] ==> r == Success(None)
    ensures text != [] ==> (r.Success? <==> UsableLines(text))
    ensures text != [] && r.Success? ==>
              var ps := PairsOf(text).value;
              && r.value.Some?
              && r.value.value.Keys == Names(ps)
              && forall n :: n in Names(ps) ==> r.value.value[n] == LastValue(ps, n)
    ensures r.Failure? ==> PairsOf(text) == Failure(r.error)
  {
    var ps :- OptionalPairs(text);
    if ps.None? then Success(None) else Success(Some(Assign(map[], ps.value)))
  }

  /** Reading, optionally rendering and parsing the task-definition file
      (index.js:35-41): the document, or the message of the library error. */
  type Loader = Option<Context> -> Result<Document, string>

  /** index.js:18-41: the existence check, the template context, then the
      document as `load` produces it from that context; a loader error is
      reported as such and as nothing else. */
  function Loaded(inputs: Inputs, fileExists: bool, load: Loader): (r: Result<Document, Error>)
    ensures !fileExists ==> r == Failure(MissingFile(inputs.taskDefinition))
    ensures fileExists && TemplateContext(inputs.templateVariables).Failure? ==>
              r == Failure(TemplateContext(inputs.templateVariables).error)
    ensures fileExists && TemplateContext(inputs.templateVariables).Success? ==>
              var l := load(TemplateContext(inputs.templateVariables).value);
              && (l.Success? ==> r == Success(l.value))
              && (l.Failure? ==> r == Failure(LoadFailed(l.error)))
    ensures r.Failure? ==> !r.error.NotAnArray? && !r.error.ContainerNotFound?
  {
    if !fileExists then Failure(MissingFile(inputs.taskDefinition))
    else
      var context :- TemplateContext(inputs.templateVariables);
      match load(context)
      case Success(doc) => Success(doc)
      case Failure(reason) => Failure(LoadFailed(reason))
  }

  /** index.js:44-85 on a loaded document: the shape check, the container
      lookup, then the image, label and environment changes to that one
      container. The label and environment blocks are parsed after the lookup
      and before any change, which reports the same first error as the
      source, since the changes themselves cannot fail. The environment
      block is trimmed, as `core.getInput` leaves it, so a blank line in it
      always comes after a first entry (`TrimmedBlockStartsUsable`) and
      `find` reads `.name` of it. */
  function Mutate(doc: Document, inputs: Inputs): (r: Result<Document, Error>)
    requires Trimmed(inputs.environmentVariables)
    ensures !doc.containerDefinitions.DefinitionsArray? ==> r == Failure(NotAnArray)
    ensures doc.containerDefinitions.DefinitionsArray?
            && FindContainer(doc.containerDefinitions.containers, inputs.containerName).None? ==>
              r == Failure(ContainerNotFound)
    ensures doc.containerDefinitions.DefinitionsArray?
            && FindContainer(doc.containerDefinitions.containers, inputs.containerName).Some?
            && OptionalPairs(inputs.dockerLabels).Failure? ==>
              r == Failure(OptionalPairs(inputs.dockerLabels).error)
    ensures doc.containerDefinitions.DefinitionsArray?
            && FindContainer(doc.containerDefinitions.containers, inputs.containerName).Some?
            && OptionalPairs(inputs.dockerLabels).Success?
            && OptionalPairs(inputs.environmentVariables).Failure? ==>
              r == Failure(OptionalPairs(inputs.environmentVariables).error)
    ensures r.Success? ==>
              PatchedOnly(doc, r.value,
                          FindContainer(doc.containerDefinitions.containers, inputs.containerName).value,
                          inputs.image)
  {
    if !doc.containerDefinitions.DefinitionsArray? then Failure(NotAnArray)
    else
      var cs := doc.containerDefinitions.containers;
      match FindContainer(cs, inputs.containerName)
      case None => Failure(ContainerNotFound)
      case Some(i) =>
        var labels :- OptionalPairs(inputs.dockerLabels);
        var env :- OptionalPairs(inputs.environmentVariables);
        var c := PatchContainer(cs[i], inputs.image, labels, env);
        Success(doc.(containerDefinitions := DefinitionsArray(cs[i := c])))
  }

  /** The run gets past the mutation exactly when the document has a
      container list holding the named container and each supplied pair
      block has only `NAME=value` lines; a blank line counts as unusable. */
  lemma MutateSucceedsIff(doc: Document, inputs: Inputs)
    requires Trimmed(inputs.environmentVariables)
    ensures Mutate(doc, inputs).Success? <==>
              && doc.containerDefinitions.DefinitionsArray?
              && FindContainer(doc.containerDefinitions.containers, inputs.containerName).Some?
              && (inputs.dockerLabels == [] || UsableLines(inputs.dockerLabels))
              && (inputs.environmentVariables == [] || UsableLines(inputs.environmentVariables))
  {
  }

  /** `run`: the patched document that is written out, or the first error
      the run fails with; nothing is written unless every step succeeds.
      `raw` is what the workflow passes; the run sees it through
      `core.getInput`. */
  function Run(raw: Inputs, fileExists: bool, load: Loader): (r: Result<Document, Error>)
    ensures !fileExists ==> r == Failure(MissingFile(GetInputs(raw).taskDefinition))
    ensures r.Success? ==> fileExists && TemplateContext(GetInputs(raw).templateVariables).Success?
    ensures Loaded(GetInputs(raw), fileExists, load).Failure? ==>
              r == Loaded(GetInputs(raw), fileExists, load)
    ensures Loaded(GetInputs(raw), fileExists, load).Success? ==>
              r == Mutate(Loaded(GetInputs(raw), fileExists, load).value, GetInputs(raw))
  {
    var inputs := GetInputs(raw);
    var doc :- Loaded(inputs, fileExists, load);
    Mutate(doc, inputs)
  }
}

module ActionFacts {
  import opened Text
  import opened TaskDefinition
  import opened Action

  /** On success the chosen container's labels are the merge of the supplied
      label pairs (or untouched when none were supplied), and likewise its
      environment is the upsert of the supplied environment pairs. */
  lemma MutateLabelsAndEnvironment(doc: Document, inputs: Inputs)
    requires Trimmed(inputs.environmentVariables)
    requires Mutate(doc, inputs).Success?
    ensures var cs := doc.containerDefinitions.containers;
            var i := FindContainer(cs, inputs.containerName).value;
            var c, c' := cs[i], Mutate(doc, inputs).value.containerDefinitions.containers[i];
            && (inputs.dockerLabels == [] ==> c'.dockerLabels == c.dockerLabels)
            && (inputs.dockerLabels != [] ==>
                  c'.dockerLabels == MergeLabels(c.dockerLabels, PairsOf(inputs.dockerLabels).value))
            && (inputs.environmentVariables == [] ==> c'.environment == c.environment)
            && (inputs.environmentVariables != [] ==>
                  c'.environment == UpsertEnvironment(c.environment, PairsOf(inputs.environmentVariables).value))
  {
    var cs := doc.containerDefinitions.containers;
    var i := FindContainer(cs, inputs.containerName).value;
    var labels, env := OptionalPairs(inputs.dockerLabels).value, OptionalPairs(inputs.environmentVariables).value;
    assert Mutate(doc, inputs).value.containerDefinitions.containers[i]
           == PatchContainer(cs[i], inputs.image, labels, env);
  }
}
