/** The errors the action can raise, each with the message it reports when
    the run is marked as failed (index.js:100). */
module Errors {

  datatype Error =
    | MissingFile(path: string)
      // index.js:22-24, the task-definition file does not exist
    | MalformedLine(line: string)
      // index.js:113-115, a non-blank line without `=`; carries the trimmed line
    | UndefinedEntry
      // the TypeError raised when a consumer reads `.name` of a blank line's
      // `undefined` entry (index.js:32, 63, 76)
    | LoadFailed(reason: string)
      // index.js:36-41, reading, rendering or JSON-parsing the document failed
    | NotAnArray
      // index.js:44-46
    | ContainerNotFound
      // index.js:50-52

  const ParsePrefix: string := "Cannot parse the line '"
  const ParseSuffix: string := "'. Pairs must be of the form NAME=value."
  const MissingPrefix: string := "Task definition file does not exist: "
  const UndefinedText: string := "Cannot read properties of undefined (reading 'name')"
  const NotAnArrayText: string :=
    "Invalid task definition format: containerDefinitions section is not present or is not an array"
  const NotFoundText: string :=
    "Invalid task definition: Could not find container definition with matching name"

  /** The text reported for an error. */
  function Message(e: Error): (m: string)
    ensures e.MalformedLine? ==> |ParsePrefix| + |e.line| <= |m|
                                 && m[..|ParsePrefix|] == ParsePrefix
                                 && m[|ParsePrefix|..|ParsePrefix| + |e.line|] == e.line
    ensures e.MissingFile? ==> |e.path| <= |m| && m[|m| - |e.path|..] == e.path
  {
    match e
    case MissingFile(p) =>
      Embeds(MissingPrefix, p, []);
      MissingPrefix + p
    case MalformedLine(l) =>
      Embeds(ParsePrefix, l, ParseSuffix);
      ParsePrefix + l + ParseSuffix
    case UndefinedEntry => UndefinedText
    case LoadFailed(reason) => reason
    case NotAnArray => NotAnArrayText
    case ContainerNotFound => NotFoundText
  }

  /** Where the pieces of a concatenated message sit. */
  lemma Embeds(a: string, b: string, c: string)
    ensures (a + b + c)[..|a|] == a
    ensures (a + b + c)[|a|..|a| + |b|] == b
    ensures c == [] ==> (a + b)[|a + b| - |b|..] == b
  {
  }
}
