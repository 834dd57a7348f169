# Render task definition: a Dafny model

This project models the pure core of a CI action that patches a container
task definition. The action reads a JSON task definition. It finds the first
container definition whose `name` is the requested container name and
replaces that container's `image`. It can also merge `NAME=value` label
pairs into its `dockerLabels` and upsert `NAME=value` environment pairs into
its `environment` list. The template variables are folded into a flat
context map, which is used to render the file before it is parsed.

The model covers these parts of `index.js`:

- `parseVariables` (lines 104-122), together with the three JavaScript
  string operations it relies on: `trim`, `indexOf` and `split`.
- The template-context fold (lines 28-33).
- The validate, look-up and mutate section of `run` (lines 44-85).
- The order in which `run` checks, loads, mutates and fails (lines 7-101).

The model is written as pure functions over immutable datatypes. Every
thrown error becomes a `Failure` of a `Result`.

Modules, one per file:

- `Results` (results.dfy): `Option` and `Result`.
- `Errors` (errors.dfy): the error kinds and their messages.
- `Text` (text.dfy): `Trim`, `IndexOf`, `Split` and their characterisations.
  The `Join` inverse and the whitespace set from sections 12.2 and 12.3 of
  ECMA-262 live here too.
- `Pairs` (pairs.dfy): `Pair`, and "last write wins" assignment into a
  string map. The template context and the label merge share it.
- `Variables` (variables.dfy): `parseVariables`, line by line, and the
  consumers' dereference of each entry.
- `Environment`, `EnvironmentFacts` (environment.dfy): the environment
  upsert, its closed form, and the facts derived from that closed form.
- `TaskDefinition` (taskdef.dfy): the document datatypes, the container
  lookup, and the per-container patch.
- `Action`, `ActionFacts` (action.dfy): the `run` pipeline.
- `WorkedCases` (worked_cases.dfy): small concrete runs of the model, and
  the blank-line behaviour on concrete input.

Behaviour worth stating explicitly, since the code and its comments
suggest otherwise:

- **Blank lines.** The comment `// Skip if empty` at index.js:108 suggests
  that blank lines in a `NAME=value` block are skipped. In fact the
  `return;` there makes `map` keep an `undefined` entry for the line. The
  label merge (index.js:63) and the template context (index.js:32) read
  `variable.name` of that entry and throw a TypeError. The environment
  upsert (index.js:76) reads it inside the `find` callback, which runs only
  when the environment list is not empty. Every input passes through
  `core.getInput`, which trims it (index.js:10-15, 26). A trimmed,
  non-empty block therefore starts with a non-blank line, and by the time
  a blank line is reached the list holds at least that line's entry. So a
  blank line inside any block fails the whole run.
  `Action.GetInputs`, `Action.TrimmedBlockStartsUsable`,
  `Variables.RequireDefined`, `Action.PairsOf` and
  `WorkedCases.BlankBetweenFails` model this.
- **Duplicate entries.** The environment lookup updates only the *first*
  entry with a matching name. Entries that already share a name are never
  collapsed.

## Model

| member | source | states |
|---|---|---|
| Text.Trim | index.js:107 | the trimmed line has no `trim` whitespace at either end and is no longer than the input |
| Text.TrimIsInfix | index.js:107 | what `trim` keeps is a contiguous part of the line with only whitespace before and after it |
| Text.TrimOfPadded | index.js:107 | whitespace around an already-trimmed core is removed and the core is kept whole, so `trim` is fully determined |
| Text.TrimIdempotent | index.js:107 | trimming a trimmed line changes nothing |
| Text.TrimEmptyIffBlank | index.js:107-109 | a line trims to the empty string exactly when every character is whitespace, which is the "skip if empty" test |
| Text.IndexOf | index.js:111-113 | `indexOf("=")` returns "none" exactly when there is no `=`; otherwise it returns the position of the first `=`, with none before it |
| Text.IndexOfAfterPrefix | index.js:111 | in `a + "=" + b` where `a` has no `=`, the first `=` is at position `|a|` |
| Text.Split | index.js:105 | `split('\n')` returns at least one piece, no piece contains a newline, and joining the pieces with newlines gives back the input |
| Text.SplitJoin | index.js:105 | splitting newline-free pieces joined by newlines gives back exactly those pieces |
| Text.SplitCount | index.js:105 | the number of pieces is the number of newlines plus one |
| Errors.Message | index.js:113-115 | the message for a malformed line starts with `Cannot parse the line '` and continues with the trimmed line; the missing-file message ends with the given path |
| Pairs.LastValueIsLastOccurrence | index.js:30-33 | the value a name ends up with is the value of the last pair carrying that name |
| Pairs.Assign | index.js:30-33 | after the assignments, the keys are the old keys plus the supplied names; each supplied name maps to its last value; every other key keeps its old value |
| Pairs.AssignIdempotent | index.js:62-64 | assigning the same pairs twice gives the same map as assigning them once |
| Variables.ParseLine | index.js:106-120 | a line succeeds exactly when it is blank or contains `=`; a blank line gives no entry; otherwise the name has no `=` and name + `=` + value is the trimmed line; a line without `=` fails and carries the trimmed line |
| Variables.CutUnique | index.js:111-120 | cutting at the first `=` is unambiguous: the name and value are determined by the line |
| Variables.ParsedFromUnique | index.js:111-120 | at most one entry fits a line, so the name is the text before the first `=` and any later `=` belongs to the value |
| Variables.ParseLineOfPadded | index.js:107-120 | `NAME=value` with surrounding whitespace parses back to exactly (NAME, value) when NAME has no `=` |
| Variables.ParseLines | index.js:105-121 | the parse succeeds exactly when no line is malformed; on success there is one entry per line, each describing its line; on failure the error carries the first malformed line, trimmed |
| Variables.ParseVariables | index.js:104-122 | `parseVariables` gives newline count plus one entries, one per `'\n'`-separated line; blank lines give empty entries and are not dropped; the first malformed line is reported |
| Variables.RequireDefined | index.js:31-32 | reading `.name` of every entry succeeds exactly when no entry is empty; it then yields the pairs in order; otherwise it raises the undefined-entry error |
| Environment.FindEntry | index.js:76 | `find` by name gives "none" exactly when no entry has the name; otherwise it gives the first entry with that name |
| Environment.UpsertStepFound | index.js:76-79 | a pair whose name has an entry updates that entry in place, and the closed form still holds |
| Environment.UpsertStepNew | index.js:80-83 | a pair whose name has no entry is appended, and the closed form still holds |
| Environment.UpsertOne | index.js:76-83 | one upsert step: afterwards `find` by the pair's name picks an entry holding the pair's value; the list grows by one exactly when the name had no entry; existing entries keep their names, and only the entry `find` picked before may change |
| Environment.Upsert | index.js:74-84 | the `forEach` only grows the list, by at most one entry per pair, and every existing entry keeps its position and name |
| Environment.UpsertShape | index.js:74-84 | the upsert result has a closed form: existing entries stay in place with their names, and only the first entry of a supplied name takes the name's last value; the new names follow, once each, in first-mention order, each with its last value |
| EnvironmentFacts.UpsertUpdatesInPlace | index.js:74-79 | existing entries keep their order and names; the first entry of each supplied name gets the name's last value; every other existing entry, including later duplicates, is unchanged |
| EnvironmentFacts.UpsertAppendsNewNames | index.js:80-83 | after the existing entries come exactly the supplied names that had no entry, in input order, each with its last value |
| EnvironmentFacts.UpsertLength | index.js:74-84 | the list grows by the number of distinct supplied names that had no entry |
| EnvironmentFacts.UpsertLastWriteWins | index.js:74-84 | afterwards every supplied name has an entry, and the entry `find` returns holds the name's last value |
| EnvironmentFacts.UpsertIdempotent | index.js:74-84 | upserting the same pairs twice gives the same list as upserting them once |
| EnvironmentFacts.UpsertKeepsNamesUnique | index.js:74-84 | if names were unique before, they are unique after: a repeated input name updates the entry it appended earlier instead of adding a second one |
| TaskDefinition.FindContainer | index.js:47-52 | the lookup gives "none" exactly when no container has the name; otherwise it gives the first container with the name |
| TaskDefinition.MergeLabels | index.js:55-64 | the result is a label object (a falsy field counts as `{}`); its keys are the old keys plus the supplied names; each supplied name maps to its last value; other labels are kept |
| TaskDefinition.UpsertEnvironment | index.js:67-84 | the result is an array (a non-array field counts as `[]`), and it is the upsert's closed form of the old entries |
| TaskDefinition.PatchContainer | index.js:53-85 | the container keeps its name and its uninspected fields; the image becomes the new image; labels and environment change only when pairs are supplied; then the labels hold every old key and every supplied name, and the environment list does not shrink |
| Action.GetInputs | index.js:10-15 | each input the run sees is its own raw value with the whitespace around it removed, field by field; inputs that were already trimmed are seen unchanged |
| Action.TrimmedFromUnique | index.js:10-15 | "the raw value with surrounding whitespace removed" has exactly one solution, `trim` of the raw value, so each input is pinned down |
| Action.TrimmedBlockStartsUsable | index.js:70-83 | a trimmed, non-empty block has a non-blank first line, so a blank line never reaches an empty environment list |
| Action.PairsOf | index.js:104-122 | parsing and then dereferencing every entry succeeds exactly when every line is a non-blank `NAME=value` line; each pair is the one its line describes; a malformed line anywhere is reported first, as the first malformed line trimmed; with no malformed line, a failure is the undefined-entry error |
| Action.OptionalPairs | index.js:55-67 | an empty block is skipped; a non-empty block succeeds exactly when all its lines are usable, and then gives the pairs |
| Action.TemplateContext | index.js:28-33 | no template variables means no context; otherwise the context exists exactly when all lines are usable; its keys are the supplied names, each mapped to its last value |
| Action.Loaded | index.js:18-41 | a missing file fails first; a template-variable error comes next; otherwise the result is the loader's document, or its error reported as a load failure; loading never reports a shape or not-found error |
| Action.Mutate | index.js:44-85 | for a trimmed environment block: a missing or non-array `containerDefinitions` fails with the shape error; no matching container fails with the not-found error; a malformed or blank line in the label block fails with that block's error, checked before the environment block, whose error comes next; on success only the first matching container changes, it keeps its name and other fields, it carries the new image, and the document's other fields are unchanged |
| Action.MutateSucceedsIff | index.js:44-85 | for a trimmed environment block, the mutation succeeds exactly when the list is an array, holds the named container, and every supplied label and environment block has only usable lines |
| Action.Run | index.js:8-101 | the inputs are trimmed first; a missing file fails with the missing-file error for the trimmed path; a failing template context or load is the run's error; otherwise the run's outcome is the mutation of the loaded document, its error or its result |
| ActionFacts.MutateLabelsAndEnvironment | index.js:55-85 | on success the chosen container's labels are the merge of the supplied label pairs, and its environment is the upsert of the supplied environment pairs; each is unchanged when its block is empty |
| WorkedCases.TwoLinePairs | index.js:104-122 | two plain `NAME=value` lines parse to exactly their two pairs |
| WorkedCases.BlankBetweenFails | index.js:104-109 | a blank line between two well-formed lines fails with the undefined-entry error, although no line is malformed |
| WorkedCases.ExampleEnvironment | index.js:67-84 | `FOO=bar` and `BAZ=qux` on a container without `environment` give the two entries in input order |
| WorkedCases.ExampleBlankLine | index.js:104-109 | the block `FOO=bar`, blank line, `BAZ=qux` fails with the undefined-entry error |
| WorkedCases.ExampleImage | index.js:44-53 | a one-container document named `app` gets image `new:tag` and nothing else changes |
| WorkedCases.ExampleMissingContainer | index.js:47-52 | asking for a container name that is absent fails with the not-found error |

## Left out

- Actions runtime I/O is not modelled: `core.setOutput`, `core.setFailed`
  and `console.log`. Of `core.getInput`, only its default trimming is
  modelled (`Action.GetInputs`). Its missing-required-input error belongs
  to the runtime library, which is not part of this model.
- Action.Mutate: requires a trimmed environment block, as `core.getInput`
  delivers it. For an untrimmed block whose first line is blank, on a
  container with no or an empty `environment`, the source would push
  `undefined` and succeed. No run can pass such a block, so the model does
  not describe it.
- Path resolution against `GITHUB_WORKSPACE` is not modelled, and
  `fs.existsSync` becomes the boolean `fileExists`.
- Reading the file, `require`, Liquid rendering and `JSON.parse` are all
  one injected function `load` from the optional context to a document or
  an error message, which becomes a `LoadFailed` error. These are foreign
  library calls and file I/O.
- The temporary file (`tmp.fileSync`), `JSON.stringify` and
  `writeFileSync` are not modelled. `Run`'s successful result is the
  document that would be written. The JSON-text round trip is therefore out
  of scope.
- JSON is an abstract datatype. Fields the action never inspects are an
  `Opaque` value carried through unchanged.
- The model assumes container names and environment-entry names are
  strings. JavaScript's loose `==` on other types is left out.
- Array elements that are not objects (a `null` container or environment
  entry, which would throw) are left out, for the same reason.
- Environment entries are `{name, value}` only. Other fields on an entry
  are not carried.
- `dockerLabels` is either falsy or a string map. A truthy non-object
  value, on which assignments are silently dropped, is left out.
- Labels form an unordered map. JavaScript's property order in the
  serialized output and special keys such as `__proto__` are left out.
- The context map likewise ignores special keys such as `__proto__`.
- Strings are sequences of Unicode scalar values rather than UTF-16 code
  units. `trim`, `indexOf` and `split` on the characters involved behave the
  same; unpaired surrogates are not represented.
- The label merge or environment upsert may already have applied pairs
  before a later entry throws. Those partial in-memory changes are not
  modelled because nothing is written after an error.
- Errors.Message: the undefined-entry message is Node's current TypeError
  text, which differs between Node versions.
- TaskDefinition.PatchContainer: for labels and environment, its own
  contract states only that old label keys are kept, supplied names are present, and the environment list does not shrink. The full
  merge and upsert results are stated by `TaskDefinition.MergeLabels`,
  `TaskDefinition.UpsertEnvironment` and
  `ActionFacts.MutateLabelsAndEnvironment`.
