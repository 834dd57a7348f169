/** Small concrete runs of the model: typical label, environment and image
    changes, and the blank-line behaviour. */
module WorkedCases {
  import opened Results
  import opened Errors
  import opened Text
  import opened Pairs
  import opened Variables
  import opened Environment
  import opened TaskDefinition
  import opened Action

  /** A pair as the single line `name=value`. */
  function LineOf(p: Pair): string {
    p.name + "=" + p.value
  }

  /** A pair whose line reads back as itself and fits on one line. */
  predicate Plain(p: Pair) {
    '=' !in p.name && '\n' !in LineOf(p) && Trimmed(LineOf(p))
  }

  lemma {:induction false} PlainLine(p: Pair)
    requires Plain(p)
    ensures !Malformed(LineOf(p)) && Trim(LineOf(p)) != []
    ensures ParsedFrom(Some(p), LineOf(p))
  {
    var line := LineOf(p);
    assert [] + line + [] == line;
    ParseLineOfPadded([], p.name, p.value, []);
  }

  lemma {:induction false} SplitTwo(a: string, b: string)
    requires '\n' !in a && '\n' !in b
    ensures Split(a + "\n" + b, '\n') == [a, b]
  {
    var parts := [a, b];
    assert parts[1..] == [b];
    assert Join(parts, '\n') == a + "\n" + b;
    SplitJoin(parts, '\n');
  }

  lemma {:induction false} SplitThree(a: string, b: string, c: string)
    requires '\n' !in a && '\n' !in b && '\n' !in c
    ensures Split(a + "\n" + b + "\n" + c, '\n') == [a, b, c]
  {
    var parts := [a, b, c];
    assert parts[1..] == [b, c] && [b, c][1..] == [c];
    assert Join([b, c], '\n') == b + "\n" + c;
    assert Join(parts, '\n') == a + "\n" + (b + "\n" + c);
    assert a + "\n" + (b + "\n" + c) == a + "\n" + b + "\n" + c;
    SplitJoin(parts, '\n');
  }

  /** No line of the list is malformed. */
  lemma NoneMalformed(lines: seq<string>)
    requires forall i :: 0 <= i < |lines| ==> !Malformed(lines[i])
    ensures FirstMalformed(lines) == |lines|
  {
  }

  lemma TwoUsableLines(text: string, x: string, y: string)
    requires Split(text, '\n') == [x, y]
    requires !Malformed(x) && Trim(x) != []
    requires !Malformed(y) && Trim(y) != []
    ensures UsableLines(text)
  {
  }

  lemma FirstOfTwo(text: string, x: string, y: string)
    requires Split(text, '\n') == [x, y] && PairsOf(text).Success?
    ensures |PairsOf(text).value| == 2 && ParsedFrom(Some(PairsOf(text).value[0]), x)
  {
  }

  lemma SecondOfTwo(text: string, x: string, y: string)
    requires Split(text, '\n') == [x, y] && PairsOf(text).Success?
    ensures |PairsOf(text).value| == 2 && ParsedFrom(Some(PairsOf(text).value[1]), y)
  {
  }

  /** Two parsed lines give exactly the pairs they were parsed from. */
  lemma {:induction false} PairsOfTwo(text: string, x: string, y: string, a: Pair, b: Pair)
    requires Split(text, '\n') == [x, y] && PairsOf(text).Success?
    requires ParsedFrom(Some(a), x) && ParsedFrom(Some(b), y)
    ensures PairsOf(text) == Success([a, b])
  {
    var ps := PairsOf(text).value;
    assert ps[0] == a by {
      FirstOfTwo(text, x, y);
      ParsedFromUnique(Some(ps[0]), Some(a), x);
    }
    assert ps[1] == b by {
      SecondOfTwo(text, x, y);
      ParsedFromUnique(Some(ps[1]), Some(b), y);
    }
    FirstOfTwo(text, x, y);
    assert ps == [a, b];
  }

  /** Two plain lines parse to their two pairs. */
  lemma {:induction false} TwoLinePairs(a: Pair, b: Pair)
    requires Plain(a) && Plain(b)
    ensures PairsOf(LineOf(a) + "\n" + LineOf(b)) == Success([a, b])
  {
    var text := LineOf(a) + "\n" + LineOf(b);
    SplitTwo(LineOf(a), LineOf(b));
    PlainLine(a);
    PlainLine(b);
    TwoUsableLines(text, LineOf(a), LineOf(b));
    PairsOfTwo(text, LineOf(a), LineOf(b), a, b);
  }

  /** A blank line between two plain lines aborts, although no line is
      malformed: its `undefined` entry is dereferenced. */
  lemma {:induction false} BlankBetweenFails(a: Pair, b: Pair)
    requires Plain(a) && Plain(b)
    ensures PairsOf(LineOf(a) + "\n" + "" + "\n" + LineOf(b)) == Failure(UndefinedEntry)
  {
    var text := LineOf(a) + "\n" + "" + "\n" + LineOf(b);
    var lines := Split(text, '\n');
    assert lines == [LineOf(a), "", LineOf(b)] by {
      SplitThree(LineOf(a), "", LineOf(b));
    }
    assert FirstMalformed(lines) == |lines| by {
      PlainLine(a);
      PlainLine(b);
      assert !Malformed("");
      NoneMalformed(lines);
    }
    assert Trim(lines[1]) == [];
  }

  lemma {:induction false} FooBarPlain()
    ensures Plain(Pair("FOO", "bar")) && Plain(Pair("BAZ", "qux"))
  {
    assert LineOf(Pair("FOO", "bar")) == "FOO=bar";
    assert LineOf(Pair("BAZ", "qux")) == "BAZ=qux";
  }

  /** `FOO=bar` and `BAZ=qux` on two lines parse to two pairs. */
  lemma {:induction false} ExamplePairs()
    ensures PairsOf("FOO=bar\nBAZ=qux") == Success([Pair("FOO", "bar"), Pair("BAZ", "qux")])
  {
    var foo, baz := Pair("FOO", "bar"), Pair("BAZ", "qux");
    assert LineOf(foo) + "\n" + LineOf(baz) == "FOO=bar\nBAZ=qux";
    FooBarPlain();
    TwoLinePairs(foo, baz);
  }

  /** Upserted into a container without an `environment` field, those
      pairs give the two entries in input order. */
  lemma {:induction false} ExampleEnvironment()
    ensures PairsOf("FOO=bar\nBAZ=qux") == Success([Pair("FOO", "bar"), Pair("BAZ", "qux")])
    ensures UpsertEnvironment(EnvNotArray(None), [Pair("FOO", "bar"), Pair("BAZ", "qux")])
            == EnvArray([EnvEntry("FOO", "bar"), EnvEntry("BAZ", "qux")])
  {
    ExamplePairs();
    ExampleUpsert();
  }

  lemma {:induction false} ExampleUpsert()
    ensures Upsert([], [Pair("FOO", "bar"), Pair("BAZ", "qux")])
            == [EnvEntry("FOO", "bar"), EnvEntry("BAZ", "qux")]
  {
    var ps := [Pair("FOO", "bar"), Pair("BAZ", "qux")];
    var e1 := [EnvEntry("FOO", "bar")];
    var e2 := e1 + [EnvEntry("BAZ", "qux")];
    assert ps[1..] == [Pair("BAZ", "qux")] && ps[1..][1..] == [];
    assert UpsertOne([], ps[0]) == e1;
    assert FindEntry(e1, "BAZ").None?;
    assert UpsertOne(e1, ps[1]) == e2;
    assert Upsert(e2, ps[1..][1..]) == e2;
    assert Upsert(e1, ps[1..]) == e2;
  }

  /** The same lines with a blank line between them fail the parse. */
  lemma {:induction false} ExampleBlankLine()
    ensures PairsOf("FOO=bar\n\nBAZ=qux") == Failure(UndefinedEntry)
  {
    var foo, baz := Pair("FOO", "bar"), Pair("BAZ", "qux");
    assert LineOf(foo) + "\n" + "" + "\n" + LineOf(baz) == "FOO=bar\n\nBAZ=qux";
    FooBarPlain();
    BlankBetweenFails(foo, baz);
  }

  /** The one-container document gets the new image and nothing else. */
  lemma {:induction false} ExampleImage()
    ensures var app := Container("app", Some("old"), LabelsFalsy(None), EnvNotArray(None), Opaque(""));
            var doc := Document(DefinitionsArray([app]), Opaque(""));
            var inputs := Inputs("task-definition.json", "app", "new:tag", "", "", "");
            Mutate(doc, inputs) == Success(doc.(containerDefinitions := DefinitionsArray([app.(image := Some("new:tag"))])))
  {
    var app := Container("app", Some("old"), LabelsFalsy(None), EnvNotArray(None), Opaque(""));
    assert FindContainer([app], "app") == Some(0);
    assert PatchContainer(app, "new:tag", None, None) == app.(image := Some("new:tag"));
    assert [app][0 := app.(image := Some("new:tag"))] == [app.(image := Some("new:tag"))];
  }

  /** A container name with no match fails the run. */
  lemma ExampleMissingContainer()
    ensures var app := Container("app", Some("old"), LabelsFalsy(None), EnvNotArray(None), Opaque(""));
            var doc := Document(DefinitionsArray([app]), Opaque(""));
            var inputs := Inputs("task-definition.json", "web", "new:tag", "", "", "");
            Mutate(doc, inputs) == Failure(ContainerNotFound)
  {
  }
}
