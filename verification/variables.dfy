/** `parseVariables` (index.js:104-122): newline-separated `NAME=value`
    lines become one entry per line, `None` for a blank line, and the first
    line without `=` aborts the parse. */
module Variables {
  import opened Results
  import opened Errors
  import opened Text
  import opened Pairs

  /** A line that is neither blank nor splittable at `=`. */
  predicate Malformed(line: string) {
    Trim(line) != [] && '=' !in Trim(line)
  }

  /** `entry` is what a well-formed `line` means: nothing for a blank line,
      otherwise a name free of `=` and the rest of the trimmed line after it. */
  predicate ParsedFrom(entry: Option<Pair>, line: string) {
    && (entry.None? <==> Trim(line) == [])
    && (entry.Some? ==> '=' !in entry.value.name
                        && entry.value.name + "=" + entry.value.value == Trim(line))
  }

  /** The callback `parseVariables` maps over the lines (index.js:105-121). */
  function ParseLine(line: string): (r: Result<Option<Pair>, Error>)
    ensures r.Success? <==> !Malformed(line)
    ensures r.Success? ==> ParsedFrom(r.value, line)
    ensures r.Failure? ==> r.error == MalformedLine(Trim(line))
  {
    var t := Trim(line);
    if |t| == 0 then Success(None)
    else match IndexOf(t, '=')
      case None => Failure(MalformedLine(t))
      case Some(i) =>
        CutAtFirst(t, i);
        Success(Some(Pair(t[..i], t[i + 1..])))
  }

  /** Cutting a line at its first `=` gives a name free of `=` and a value
      that glue back to the line. */
  lemma {:induction false} CutAtFirst(t: string, i: nat)
    requires i < |t| && t[i] == '=' && '=' !in t[..i]
    ensures t[..i] + "=" + t[i + 1..] == t
  {
    assert t == t[..i] + [t[i]] + t[i + 1..];
  }

  /** Cutting at a character absent from the left part is unambiguous. */
  lemma {:induction false} CutUnique(n1: string, v1: string, n2: string, v2: string)
    requires '=' !in n1 && '=' !in n2
    requires n1 + "=" + v1 == n2 + "=" + v2
    ensures n1 == n2 && v1 == v2
  {
    var t := n1 + "=" + v1;
    IndexOfAfterPrefix(n1, '=', v1);
    IndexOfAfterPrefix(n2, '=', v2);
    assert n1 == t[..|n1|] == n2;
    assert v1 == t[|n1| + 1..] == v2;
  }

  /** `ParsedFrom` pins the entry down: the name ends at the FIRST `=`, and
      any later `=` belongs to the value. */
  lemma {:induction false} ParsedFromUnique(a: Option<Pair>, b: Option<Pair>, line: string)
    requires ParsedFrom(a, line) && ParsedFrom(b, line)
    ensures a == b
  {
    if a.Some? {
      CutUnique(a.value.name, a.value.value, b.value.name, b.value.value);
    }
  }

  /** Writing a pair back as `NAME=value`, with any surrounding whitespace,
      parses to the same pair. */
  lemma {:induction false} ParseLineOfPadded(pre: string, name: string, value: string, post: string)
    requires AllTrimmable(pre) && AllTrimmable(post)
    requires '=' !in name
    requires Trimmed(name + "=" + value)
    ensures ParseLine(pre + (name + "=" + value) + post) == Success(Some(Pair(name, value)))
  {
    var line := pre + (name + "=" + value) + post;
    TrimOfPadded(pre, name + "=" + value, post);
    var r := ParseLine(line);
    assert '=' in Trim(line) by {
      assert Trim(line)[|name|] == '=';
    }
    ParsedFromUnique(r.value, Some(Pair(name, value)), line);
  }

  /** The position of the first malformed line, `|lines|` when there is none. */
  function FirstMalformed(lines: seq<string>): (k: nat)
    ensures k <= |lines|
    ensures forall j :: 0 <= j < k ==> !Malformed(lines[j])
    ensures k < |lines| ==> Malformed(lines[k])
    decreases |lines|
  {
    if |lines| == 0 || Malformed(lines[0]) then 0
    else
      assert forall j :: 1 <= j < |lines| ==> lines[j] == lines[1..][j - 1];
      1 + FirstMalformed(lines[1..])
  }

  /** The `map` over the lines; JavaScript evaluates the callbacks in order,
      so the first malformed line is the one reported. */
  function ParseLines(lines: seq<string>): (r: Result<seq<Option<Pair>>, Error>)
    ensures r.Success? <==> FirstMalformed(lines) == |lines|
    ensures r.Success? ==> |r.value| == |lines|
                           && forall i :: 0 <= i < |lines| ==> ParsedFrom(r.value[i], lines[i])
    ensures r.Failure? ==> r.error == MalformedLine(Trim(lines[FirstMalformed(lines)]))
    decreases |lines|
  {
    if |lines| == 0 then Success([])
    else match ParseLine(lines[0])
      case Failure(e) => Failure(e)
      case Success(head) =>
        match ParseLines(lines[1..])
        case Failure(e) =>
          FirstMalformedCons(lines);
          Failure(e)
        case Success(tail) =>
          FirstMalformedCons(lines);
          ParsedCons(lines, head, tail);
          Success([head] + tail)
  }

  lemma FirstMalformedCons(lines: seq<string>)
    requires |lines| > 0 && !Malformed(lines[0])
    ensures FirstMalformed(lines) == 1 + FirstMalformed(lines[1..])
    ensures FirstMalformed(lines[1..]) < |lines[1..]| ==>
              lines[FirstMalformed(lines)] == lines[1..][FirstMalformed(lines[1..])]
  {
  }

  lemma {:induction false} ParsedCons(lines: seq<string>, head: Option<Pair>, tail: seq<Option<Pair>>)
    requires |lines| > 0 && ParsedFrom(head, lines[0]) && |tail| == |lines| - 1
    requires forall i :: 0 <= i < |tail| ==> ParsedFrom(tail[i], lines[1..][i])
    ensures forall i :: 0 <= i < |lines| ==> ParsedFrom(([head] + tail)[i], lines[i])
  {
    forall i | 0 <= i < |lines|
      ensures ParsedFrom(([head] + tail)[i], lines[i])
    {
      if i > 0 {
        assert lines[i] == lines[1..][i - 1];
        assert ([head] + tail)[i] == tail[i - 1];
      }
    }
  }

  /** `parseVariables`: one entry per `'\n'`-separated line. */
  function ParseVariables(text: string): (r: Result<seq<Option<Pair>>, Error>)
    ensures r.Success? ==> |r.value| == Count(text, '\n') + 1
    ensures r.Success? <==> FirstMalformed(Split(text, '\n')) == |Split(text, '\n')|
    ensures r.Failure? ==> r.error == MalformedLine(Trim(Split(text, '\n')[FirstMalformed(Split(text, '\n'))]))
    ensures r.Success? ==> |r.value| == |Split(text, '\n')|
                           && forall i :: 0 <= i < |r.value| ==> ParsedFrom(r.value[i], Split(text, '\n')[i])
  {
    SplitCount(text, '\n');
    ParseLines(Split(text, '\n'))
  }

  /** The consumers' `variable.name` on every entry (index.js:32, 63, 76):
      an `undefined` entry from a blank line raises a TypeError. */
  function RequireDefined(entries: seq<Option<Pair>>): (r: Result<seq<Pair>, Error>)
    ensures r.Success? <==> forall i :: 0 <= i < |entries| ==> entries[i].Some?
    ensures r.Success? ==> |r.value| == |entries|
                           && forall i :: 0 <= i < |entries| ==> entries[i] == Some(r.value[i])
    ensures r.Failure? ==> r.error == UndefinedEntry
    decreases |entries|
  {
    if |entries| == 0 then Success([])
    else match entries[0]
      case None => Failure(UndefinedEntry)
      case Some(p) =>
        var rest :- RequireDefined(entries[1..]);
        assert forall i :: 1 <= i < |entries| ==> entries[i] == entries[1..][i - 1];
        Success([p] + rest)
  }
}
