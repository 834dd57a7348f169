/** The environment upsert of index.js:67-84: for each pair, the first entry
    with that name gets the pair's value, and a name with no entry is
    appended as a new `{name, value}` entry. */
module Environment {
  import opened Results
  import opened Pairs

  datatype EnvEntry = EnvEntry(name: string, value: string)

  function EnvNames(env: seq<EnvEntry>): set<string> {
    set i | 0 <= i < |env| :: env[i].name
  }

  /** No earlier entry shares the name of entry `i`. */
  predicate IsFirst(env: seq<EnvEntry>, i: int)
    requires 0 <= i < |env|
  {
    forall j :: 0 <= j < i ==> env[j].name != env[i].name
  }

  /** `environment.find((e) => e.name == n)` (index.js:76), as a position. */
  function FindEntry(env: seq<EnvEntry>, n: string): (r: Option<nat>)
    ensures r.None? <==> n !in EnvNames(env)
    ensures r.Some? ==> r.value < |env| && env[r.value].name == n && IsFirst(env, r.value)
    decreases |env|
  {
    if |env| == 0 then None
    else if env[0].name == n then Some(0)
    else match FindEntry(env[1..], n)
      case None =>
        assert forall i :: 1 <= i < |env| ==> env[i] == env[1..][i - 1];
        None
      case Some(i) =>
        assert env[i + 1] == env[1..][i];
        Some(i + 1)
  }

  /** One iteration of the `forEach` at index.js:74-84: afterwards `find`
      by the pair's name picks an entry holding the pair's value. An entry
      is appended only for a name that had none, existing entries keep
      their names, and no entry other than the one `find` picked changes. */
  function UpsertOne(env: seq<EnvEntry>, p: Pair): (r: seq<EnvEntry>)
    ensures |r| == if p.name in EnvNames(env) then |env| else |env| + 1
    ensures forall k :: 0 <= k < |env| ==> r[k].name == env[k].name
    ensures forall k :: 0 <= k < |env| && r[k] != env[k] ==> FindEntry(env, p.name) == Some(k)
    ensures FindEntry(r, p.name).Some? && r[FindEntry(r, p.name).value] == EnvEntry(p.name, p.value)
  {
    match FindEntry(env, p.name)
    case Some(i) =>
      var r := env[i := env[i].(value := p.value)];
      assert forall k :: 0 <= k < |env| ==> r[k].name == env[k].name;
      FoundAgain(env, r, p.name, i);
      r
    case None =>
      var r := env + [EnvEntry(p.name, p.value)];
      assert forall k :: 0 <= k < |env| ==> r[k] == env[k];
      assert r[|env|].name == p.name;
      AppendedFound(env, r, p.name);
      r
  }

  /** A list with the same names position by position is searched alike. */
  lemma {:induction false} FoundAgain(env: seq<EnvEntry>, r: seq<EnvEntry>, n: string, i: nat)
    requires FindEntry(env, n) == Some(i)
    requires |r| == |env| && forall k :: 0 <= k < |env| ==> r[k].name == env[k].name
    ensures FindEntry(r, n) == Some(i)
  {
    assert n in EnvNames(r) by { assert r[i].name == n; }
    var f := FindEntry(r, n).value;
    assert IsFirst(r, i);
    assert !(f < i) && !(i < f);
  }

  /** A name absent from `env` is found at the entry appended for it. */
  lemma {:induction false} AppendedFound(env: seq<EnvEntry>, r: seq<EnvEntry>, n: string)
    requires n !in EnvNames(env)
    requires |r| == |env| + 1 && r[|env|].name == n
    requires forall k :: 0 <= k < |env| ==> r[k] == env[k]
    ensures FindEntry(r, n) == Some(|env|)
  {
    assert n in EnvNames(r) by { assert r[|env|].name == n; }
    assert forall k :: 0 <= k < |env| ==> env[k].name in EnvNames(env);
  }

  /** The whole `forEach`: the pairs applied in input order. The list only
      grows, by at most one entry per pair, and the existing entries keep
      their positions and names. */
  function Upsert(env: seq<EnvEntry>, ps: seq<Pair>): (r: seq<EnvEntry>)
    ensures |env| <= |r| <= |env| + |ps|
    ensures forall k :: 0 <= k < |env| ==> r[k].name == env[k].name
    decreases |ps|
  {
    if |ps| == 0 then env else Upsert(UpsertOne(env, ps[0]), ps[1..])
  }

  /** The names of `ps` not in `known`, each once, in order of first mention. */
  function NewNames(known: set<string>, ps: seq<Pair>): (ns: seq<string>)
    ensures forall i :: 0 <= i < |ns| ==> ns[i] in Names(ps) && ns[i] !in known
    ensures forall i, j :: 0 <= i < j < |ns| ==> ns[i] != ns[j]
    decreases |ps|
  {
    if |ps| == 0 then []
    else if ps[0].name in known then NewNames(known, ps[1..])
    else [ps[0].name] + NewNames(known + {ps[0].name}, ps[1..])
  }

  /** Every name of `ps` outside `known` is listed. */
  lemma {:induction false} NewNamesComplete(known: set<string>, ps: seq<Pair>, n: string)
    requires n in Names(ps) && n !in known
    ensures n in NewNames(known, ps)
    decreases |ps|
  {
    if ps[0].name in known || ps[0].name != n {
      NewNamesComplete(if ps[0].name in known then known else known + {ps[0].name}, ps[1..], n);
    }
  }

  /** Nothing is new when every name is already known. */
  lemma {:induction false} NoNewNames(known: set<string>, ps: seq<Pair>)
    requires Names(ps) <= known
    ensures NewNames(known, ps) == []
    decreases |ps|
  {
    if |ps| > 0 {
      assert ps[0].name in known;
      NoNewNames(known, ps[1..]);
    }
  }

  /** What upserting `ps` does to an entry that was already there. */
  function Settle(e: EnvEntry, first: bool, ps: seq<Pair>): EnvEntry {
    if first && e.name in Names(ps) then e.(value := LastValue(ps, e.name)) else e
  }

  /** The closed form of `Upsert(env, ps) == r`: existing entries stay in
      place, keep their names, and only the first entry of a supplied name
      takes that name's last value; after them come the new names, once
      each, in order of first mention, each with its last value. */
  ghost predicate Shaped(env: seq<EnvEntry>, ps: seq<Pair>, r: seq<EnvEntry>) {
    var nn := NewNames(EnvNames(env), ps);
    && |r| == |env| + |nn|
    && (forall i :: 0 <= i < |env| ==> r[i] == Settle(env[i], IsFirst(env, i), ps))
    && (forall j :: 0 <= j < |nn| ==> r[|env| + j] == EnvEntry(nn[j], LastValue(ps, nn[j])))
  }

  /** The three parts of `Shaped`, assembled. */
  lemma {:induction false} ShapedIntro(env: seq<EnvEntry>, ps: seq<Pair>, r: seq<EnvEntry>, nn: seq<string>)
    requires nn == NewNames(EnvNames(env), ps) && |r| == |env| + |nn|
    requires forall i :: 0 <= i < |env| ==> r[i] == Settle(env[i], IsFirst(env, i), ps)
    requires forall j :: 0 <= j < |nn| ==> r[|env| + j] == EnvEntry(nn[j], LastValue(ps, nn[j]))
    ensures Shaped(env, ps, r)
  {
  }

  /** One pair's effect on an existing entry, seen through `Settle`: the
      remaining pairs settle the stepped entry as all pairs settle the old. */
  lemma {:induction false} SettleStep(e: EnvEntry, first: bool, ps: seq<Pair>, stepped: EnvEntry)
    requires |ps| > 0
    requires stepped == if first && e.name == ps[0].name then e.(value := ps[0].value) else e
    ensures Settle(stepped, first, ps[1..]) == Settle(e, first, ps)
  {
  }

  /** Only the entry `find` returns is the first entry with its name. */
  lemma {:induction false} FirstOfName(env: seq<EnvEntry>, n: string, i: int)
    requires FindEntry(env, n).Some? && 0 <= i < |env|
    ensures i == FindEntry(env, n).value <==> IsFirst(env, i) && env[i].name == n
  {
    var f := FindEntry(env, n).value;
    assert IsFirst(env, i) && env[i].name == n ==> !(i < f) && !(f < i);
  }

  /** Updating a found entry keeps every name, so names and first entries
      are unchanged. */
  lemma {:induction false} FoundKeepsNames(env: seq<EnvEntry>, p: Pair)
    requires FindEntry(env, p.name).Some?
    ensures |UpsertOne(env, p)| == |env|
    ensures forall i :: 0 <= i < |env| ==> UpsertOne(env, p)[i].name == env[i].name
    ensures EnvNames(UpsertOne(env, p)) == EnvNames(env)
    ensures forall i :: 0 <= i < |env| ==> IsFirst(UpsertOne(env, p), i) == IsFirst(env, i)
  {
    var e' := UpsertOne(env, p);
    assert forall i :: 0 <= i < |env| ==> e'[i].name == env[i].name;
  }

  /** Appending an absent name leaves the old entries and their first
      entries alone. */
  lemma {:induction false} NewKeepsEntries(env: seq<EnvEntry>, p: Pair)
    requires FindEntry(env, p.name).None?
    ensures UpsertOne(env, p) == env + [EnvEntry(p.name, p.value)]
    ensures EnvNames(UpsertOne(env, p)) == EnvNames(env) + {p.name}
    ensures forall i :: 0 <= i < |env| ==> IsFirst(UpsertOne(env, p), i) == IsFirst(env, i)
    ensures IsFirst(UpsertOne(env, p), |env|)
  {
    var e' := UpsertOne(env, p);
    assert forall i :: 0 <= i < |env| ==> e'[i] == env[i];
    assert e'[|env|].name == p.name;
  }

  lemma {:induction false} UpsertStepFound(env: seq<EnvEntry>, ps: seq<Pair>, r: seq<EnvEntry>)
    requires |ps| > 0 && FindEntry(env, ps[0].name).Some?
    requires Shaped(UpsertOne(env, ps[0]), ps[1..], r)
    ensures Shaped(env, ps, r)
  {
    FoundStepOld(env, ps, r);
    FoundKeepsNames(env, ps[0]);
    var e' := UpsertOne(env, ps[0]);
    assert NewNames(EnvNames(env), ps) == NewNames(EnvNames(e'), ps[1..]);
    TailOf(e', ps[1..], r);
    FoundTail(env, e', ps, r);
    ShapedIntro(env, ps, r, NewNames(EnvNames(env), ps));
  }

  /** A step that keeps every name leaves the new names and their entries
      as they were; only their last values are now taken over all pairs. */
  lemma {:induction false} FoundTail(env: seq<EnvEntry>, e: seq<EnvEntry>, ps: seq<Pair>, r: seq<EnvEntry>)
    requires |ps| > 0 && |e| == |env|
    requires NewNames(EnvNames(env), ps) == NewNames(EnvNames(e), ps[1..])
    requires var nn := NewNames(EnvNames(e), ps[1..]);
             && |r| == |e| + |nn|
             && forall j :: 0 <= j < |nn| ==> r[|e| + j] == EnvEntry(nn[j], LastValue(ps[1..], nn[j]))
    ensures var nn := NewNames(EnvNames(env), ps);
            && |r| == |env| + |nn|
            && forall j :: 0 <= j < |nn| ==> r[|env| + j] == EnvEntry(nn[j], LastValue(ps, nn[j]))
  {
    var nn := NewNames(EnvNames(e), ps[1..]);
    forall j | 0 <= j < |nn|
      ensures r[|env| + j] == EnvEntry(nn[j], LastValue(ps, nn[j]))
    {
      assert nn[j] in Names(ps[1..]);
    }
  }

  /** Existing entries under a pair whose name has an entry: the found entry
      takes the pair's value and is settled by the rest like all others. */
  lemma {:induction false} FoundStepOld(env: seq<EnvEntry>, ps: seq<Pair>, r: seq<EnvEntry>)
    requires |ps| > 0 && FindEntry(env, ps[0].name).Some?
    requires Shaped(UpsertOne(env, ps[0]), ps[1..], r)
    ensures forall i :: 0 <= i < |env| ==> r[i] == Settle(env[i], IsFirst(env, i), ps)
  {
    var p := ps[0];
    var e' := UpsertOne(env, p);
    FoundKeepsNames(env, p);
    forall i | 0 <= i < |env|
      ensures r[i] == Settle(env[i], IsFirst(env, i), ps)
    {
      FirstOfName(env, p.name, i);
      SettleStep(env[i], IsFirst(env, i), ps, e'[i]);
    }
  }

  /** Existing entries under a pair whose name is new: they are settled as
      the remaining pairs settle them. */
  lemma {:induction false} NewStepOld(env: seq<EnvEntry>, ps: seq<Pair>, r: seq<EnvEntry>)
    requires |ps| > 0 && FindEntry(env, ps[0].name).None?
    requires Shaped(UpsertOne(env, ps[0]), ps[1..], r)
    ensures |env| <= |r|
    ensures forall i :: 0 <= i < |env| ==> r[i] == Settle(env[i], IsFirst(env, i), ps)
  {
    var e' := UpsertOne(env, ps[0]);
    NewKeepsEntries(env, ps[0]);
    forall i | 0 <= i < |env|
      ensures r[i] == Settle(env[i], IsFirst(env, i), ps)
    {
      assert e'[i] == env[i];
      SettleStep(env[i], IsFirst(env, i), ps, e'[i]);
    }
  }

  /** A name with no entry heads the new names, before the rest's. */
  lemma {:induction false} NewNamesHead(env: seq<EnvEntry>, ps: seq<Pair>)
    requires |ps| > 0 && FindEntry(env, ps[0].name).None?
    ensures NewNames(EnvNames(env), ps)
            == [ps[0].name] + NewNames(EnvNames(UpsertOne(env, ps[0])), ps[1..])
  {
    NewKeepsEntries(env, ps[0]);
  }

  /** The new name's entry: appended with the pair's value, then settled
      by the remaining pairs to the name's last value. */
  lemma {:induction false} NewStepHead(env: seq<EnvEntry>, ps: seq<Pair>, r: seq<EnvEntry>)
    requires |ps| > 0 && FindEntry(env, ps[0].name).None?
    requires Shaped(UpsertOne(env, ps[0]), ps[1..], r)
    ensures |env| < |r| && r[|env|] == EnvEntry(ps[0].name, LastValue(ps, ps[0].name))
  {
    var e' := UpsertOne(env, ps[0]);
    NewKeepsEntries(env, ps[0]);
    assert r[|env|] == Settle(e'[|env|], IsFirst(e', |env|), ps[1..]);
  }

  /** The new-names part of `Shaped` on its own. */
  lemma {:induction false} TailOf(e: seq<EnvEntry>, ps: seq<Pair>, r: seq<EnvEntry>)
    requires Shaped(e, ps, r)
    ensures var nn := NewNames(EnvNames(e), ps);
            && |r| == |e| + |nn|
            && forall j :: 0 <= j < |nn| ==> r[|e| + j] == EnvEntry(nn[j], LastValue(ps, nn[j]))
  {
  }

  /** New names listed for the remaining pairs, one place further on, are
      the tail of those listed for all pairs, with unchanged last values. */
  lemma {:induction false} ShiftedTail(env: seq<EnvEntry>, e: seq<EnvEntry>, ps: seq<Pair>, r: seq<EnvEntry>)
    requires |ps| > 0 && |e| == |env| + 1
    requires NewNames(EnvNames(env), ps) == [ps[0].name] + NewNames(EnvNames(e), ps[1..])
    requires var nn' := NewNames(EnvNames(e), ps[1..]);
             && |r| == |e| + |nn'|
             && forall j :: 0 <= j < |nn'| ==> r[|e| + j] == EnvEntry(nn'[j], LastValue(ps[1..], nn'[j]))
    ensures var nn := NewNames(EnvNames(env), ps);
            && |r| == |env| + |nn|
            && forall j :: 1 <= j < |nn| ==> r[|env| + j] == EnvEntry(nn[j], LastValue(ps, nn[j]))
  {
    var nn, nn' := NewNames(EnvNames(env), ps), NewNames(EnvNames(e), ps[1..]);
    forall j | 1 <= j < |nn|
      ensures r[|env| + j] == EnvEntry(nn[j], LastValue(ps, nn[j]))
    {
      assert nn[j] == nn'[j - 1] && nn[j] in Names(ps[1..]);
      assert r[|e| + (j - 1)] == EnvEntry(nn'[j - 1], LastValue(ps[1..], nn'[j - 1]));
    }
  }

  lemma {:induction false} UpsertStepNew(env: seq<EnvEntry>, ps: seq<Pair>, r: seq<EnvEntry>)
    requires |ps| > 0 && FindEntry(env, ps[0].name).None?
    requires Shaped(UpsertOne(env, ps[0]), ps[1..], r)
    ensures Shaped(env, ps, r)
  {
    var e' := UpsertOne(env, ps[0]);
    NewStepOld(env, ps, r);
    NewStepHead(env, ps, r);
    NewNamesHead(env, ps);
    TailOf(e', ps[1..], r);
    ShiftedTail(env, e', ps, r);
  }

  /** `Upsert` always has the closed form `Shaped` describes. */
  lemma {:induction false} UpsertShape(env: seq<EnvEntry>, ps: seq<Pair>)
    ensures Shaped(env, ps, Upsert(env, ps))
    decreases |ps|
  {
    if |ps| == 0 {
      assert NewNames(EnvNames(env), ps) == [];
    } else {
      UpsertShape(UpsertOne(env, ps[0]), ps[1..]);
      if FindEntry(env, ps[0].name).Some? {
        UpsertStepFound(env, ps, Upsert(env, ps));
      } else {
        UpsertStepNew(env, ps, Upsert(env, ps));
      }
    }
  }
}

module EnvironmentFacts {
  import opened Results
  import opened Pairs
  import opened Environment

  /** Existing entries keep their positions and names; the first entry of a
      supplied name takes that name's last value and every other existing
      entry, including a later duplicate of the name, is left as it was. */
  lemma {:induction false} UpsertUpdatesInPlace(env: seq<EnvEntry>, ps: seq<Pair>)
    ensures |env| <= |Upsert(env, ps)|
    ensures forall i :: 0 <= i < |env| ==> Upsert(env, ps)[i].name == env[i].name
    ensures forall i :: 0 <= i < |env| && IsFirst(env, i) && env[i].name in Names(ps) ==>
              Upsert(env, ps)[i].value == LastValue(ps, env[i].name)
    ensures forall i :: 0 <= i < |env| && !(IsFirst(env, i) && env[i].name in Names(ps)) ==>
              Upsert(env, ps)[i] == env[i]
  {
    UpsertShape(env, ps);
  }

  /** After the existing entries come exactly the names that had no entry,
      once each, in order of first mention, each with its last value. */
  lemma {:induction false} UpsertAppendsNewNames(env: seq<EnvEntry>, ps: seq<Pair>)
    ensures var r, nn := Upsert(env, ps), NewNames(EnvNames(env), ps);
            |r| == |env| + |nn|
            && forall j :: 0 <= j < |nn| ==> r[|env| + j] == EnvEntry(nn[j], LastValue(ps, nn[j]))
  {
    UpsertShape(env, ps);
  }

  lemma {:induction false} NewNamesLength(known: set<string>, ps: seq<Pair>)
    ensures |NewNames(known, ps)| == |Names(ps) - known|
    decreases |ps|
  {
    if |ps| > 0 {
      var p := ps[0];
      if p.name in known {
        NewNamesLength(known, ps[1..]);
        assert Names(ps) - known == Names(ps[1..]) - known;
      } else {
        NewNamesLength(known + {p.name}, ps[1..]);
        assert Names(ps) - known == {p.name} + (Names(ps[1..]) - (known + {p.name}));
      }
    }
  }

  /** The environment grows by the number of distinct supplied names that
      had no entry. */
  lemma {:induction false} UpsertLength(env: seq<EnvEntry>, ps: seq<Pair>)
    ensures |Upsert(env, ps)| == |env| + |Names(ps) - EnvNames(env)|
  {
    UpsertShape(env, ps);
    NewNamesLength(EnvNames(env), ps);
  }

  /** After the upsert every supplied name has an entry, and the entry the
      source's `find` would pick holds the name's last value. */
  lemma {:induction false} UpsertLastWriteWins(env: seq<EnvEntry>, ps: seq<Pair>, n: string)
    requires n in Names(ps)
    ensures FindEntry(Upsert(env, ps), n).Some?
    ensures Upsert(env, ps)[FindEntry(Upsert(env, ps), n).value].value == LastValue(ps, n)
  {
    var r := Upsert(env, ps);
    UpsertShape(env, ps);
    SettledNamesPresent(env, ps, r);
    assert n in EnvNames(r);
    var i := FindEntry(r, n).value;
    SettledFirstsHoldLastValues(env, ps, r, i);
  }

  /** Every supplied name has an entry in a shaped result. */
  lemma {:induction false} SettledNamesPresent(env: seq<EnvEntry>, ps: seq<Pair>, r: seq<EnvEntry>)
    requires Shaped(env, ps, r)
    ensures Names(ps) <= EnvNames(r)
  {
    var nn := NewNames(EnvNames(env), ps);
    forall n | n in Names(ps)
      ensures n in EnvNames(r)
    {
      if n in EnvNames(env) {
        var i :| 0 <= i < |env| && env[i].name == n;
        assert r[i].name == n;
      } else {
        NewNamesComplete(EnvNames(env), ps, n);
        var j :| 0 <= j < |nn| && nn[j] == n;
        assert r[|env| + j].name == n;
      }
    }
  }

  /** In a shaped result, the first entry of each supplied name holds the
      name's last value. */
  lemma {:induction false} SettledFirstsHoldLastValues(env: seq<EnvEntry>, ps: seq<Pair>, r: seq<EnvEntry>, i: int)
    requires Shaped(env, ps, r)
    requires 0 <= i < |r| && IsFirst(r, i) && r[i].name in Names(ps)
    ensures r[i].value == LastValue(ps, r[i].name)
  {
    if i < |env| {
      SettledPrefixNames(env, ps, r, i);
      assert r[i] == Settle(env[i], IsFirst(env, i), ps);
    } else {
      var nn := NewNames(EnvNames(env), ps);
      assert r[|env| + (i - |env|)] == EnvEntry(nn[i - |env|], LastValue(ps, nn[i - |env|]));
    }
  }

  lemma {:induction false} SettledPrefixNames(env: seq<EnvEntry>, ps: seq<Pair>, r: seq<EnvEntry>, i: int)
    requires Shaped(env, ps, r)
    requires 0 <= i < |env| && IsFirst(r, i)
    ensures IsFirst(env, i)
  {
    forall j | 0 <= j < i
      ensures env[j].name != env[i].name
    {
      assert r[j].name == env[j].name;
    }
  }

  /** A shaped upsert of a list that already has every supplied name, with
      each first entry holding its last value, changes nothing. */
  lemma {:induction false} SettledFixpoint(r: seq<EnvEntry>, ps: seq<Pair>, r2: seq<EnvEntry>)
    requires Shaped(r, ps, r2)
    requires Names(ps) <= EnvNames(r)
    requires forall i :: 0 <= i < |r| && IsFirst(r, i) && r[i].name in Names(ps) ==>
               r[i].value == LastValue(ps, r[i].name)
    ensures r2 == r
  {
    NoNewNames(EnvNames(r), ps);
    forall i | 0 <= i < |r|
      ensures r2[i] == r[i]
    {
      assert r2[i] == Settle(r[i], IsFirst(r, i), ps);
    }
  }

  /** Upserting the same pairs twice is upserting them once. */
  lemma {:induction false} UpsertIdempotent(env: seq<EnvEntry>, ps: seq<Pair>)
    ensures Upsert(Upsert(env, ps), ps) == Upsert(env, ps)
  {
    var r := Upsert(env, ps);
    UpsertShape(env, ps);
    UpsertShape(r, ps);
    SettledNamesPresent(env, ps, r);
    forall i | 0 <= i < |r| && IsFirst(r, i) && r[i].name in Names(ps)
      ensures r[i].value == LastValue(ps, r[i].name)
    {
      SettledFirstsHoldLastValues(env, ps, r, i);
    }
    SettledFixpoint(r, ps, Upsert(r, ps));
  }

  predicate NamesUnique(env: seq<EnvEntry>) {
    forall i, j :: 0 <= i < j < |env| ==> env[i].name != env[j].name
  }

  /** The upsert never creates a second entry for a name: a repeated name in
      the input updates the entry its first mention appended. */
  lemma {:induction false} UpsertKeepsNamesUnique(env: seq<EnvEntry>, ps: seq<Pair>)
    requires NamesUnique(env)
    ensures NamesUnique(Upsert(env, ps))
  {
    var r := Upsert(env, ps);
    UpsertShape(env, ps);
    var nn := NewNames(EnvNames(env), ps);
    forall i, j | 0 <= i < j < |r|
      ensures r[i].name != r[j].name
    {
      if j < |env| {
      } else if i < |env| {
        assert r[i].name in EnvNames(env);
        assert r[j].name == nn[j - |env|];
      } else {
        assert r[i].name == nn[i - |env|];
        assert r[j].name == nn[j - |env|];
      }
    }
  }
}
