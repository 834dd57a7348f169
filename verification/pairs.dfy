/** `NAME=value` pairs and the "last write wins" assignment of a pair list
    into a string map, shared by the template context (index.js:30-33) and
    the label merge (index.js:62-64). */
module Pairs {

  datatype Pair = Pair(name: string, value: string)

  /** The names a pair list mentions. */
  function Names(ps: seq<Pair>): (ns: set<string>)
    ensures forall i :: 0 <= i < |ps| ==> ps[i].name in ns
  {
    if |ps| == 0 then {} else {ps[0].name} + Names(ps[1..])
  }

  /** Every name in `Names(ps)` is carried by some pair. */
  lemma {:induction false} NamesCarried(ps: seq<Pair>, n: string)
    requires n in Names(ps)
    ensures exists i :: 0 <= i < |ps| && ps[i].name == n
    decreases |ps|
  {
    if ps[0].name != n {
      NamesCarried(ps[1..], n);
      var i :| 0 <= i < |ps[1..]| && ps[1..][i].name == n;
      assert ps[i + 1].name == n;
    }
  }

  /** The value a name ends up with when the pairs are applied in order. */
  function LastValue(ps: seq<Pair>, n: string): string
    requires n in Names(ps)
    decreases |ps|
  {
    if n in Names(ps[1..]) then LastValue(ps[1..], n) else ps[0].value
  }

  /** `LastValue` is the value of the last pair carrying the name. */
  lemma {:induction false} LastValueIsLastOccurrence(ps: seq<Pair>, n: string)
    requires n in Names(ps)
    ensures exists j :: 0 <= j < |ps| && ps[j] == Pair(n, LastValue(ps, n))
                        && forall k :: j < k < |ps| ==> ps[k].name != n
    decreases |ps|
  {
    if n in Names(ps[1..]) {
      LastValueIsLastOccurrence(ps[1..], n);
      var j :| 0 <= j < |ps[1..]| && ps[1..][j] == Pair(n, LastValue(ps[1..], n))
               && forall k :: j < k < |ps[1..]| ==> ps[1..][k].name != n;
      assert ps[j + 1] == ps[1..][j];
      forall k | j + 1 < k < |ps|
        ensures ps[k].name != n
      {
        assert ps[k] == ps[1..][k - 1];
      }
    } else {
      assert ps[0].name == n;
      forall k | 0 < k < |ps|
        ensures ps[k].name != n
      {
        assert ps[k] == ps[1..][k - 1];
      }
    }
  }

  /** Applying the pairs in order, `m[name] = value` each time. */
  function Assign(m: map<string, string>, ps: seq<Pair>): (r: map<string, string>)
    ensures r.Keys == m.Keys + Names(ps)
    ensures forall n :: n in Names(ps) ==> r[n] == LastValue(ps, n)
    ensures forall n :: n in m && n !in Names(ps) ==> r[n] == m[n]
    decreases |ps|
  {
    if |ps| == 0 then m else Assign(m[ps[0].name := ps[0].value], ps[1..])
  }

  /** Assigning the same pairs a second time changes nothing. */
  lemma AssignIdempotent(m: map<string, string>, ps: seq<Pair>)
    ensures Assign(Assign(m, ps), ps) == Assign(m, ps)
  {
  }
}
