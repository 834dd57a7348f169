/** The three JavaScript string operations `parseVariables` relies on:
    `String.prototype.trim`, `indexOf` of one character and `split` on a
    one-character separator (index.js:105, 107, 111). */
module Text {
  import opened Results

  /** The characters `trim` removes: ECMAScript WhiteSpace (section 12.2 of
      ECMA-262) and LineTerminator (section 12.3). */
  predicate IsTrimmable(c: char) {
    || c == '\t' || c == '\n' || c == '\U{B}' || c == '\U{C}' || c == '\r'
    || c == ' ' || c == '\U{A0}' || c == '\U{1680}'
    || ('\U{2000}' <= c <= '\U{200A}')
    || c == '\U{2028}' || c == '\U{2029}' || c == '\U{202F}' || c == '\U{205F}'
    || c == '\U{3000}' || c == '\U{FEFF}'
  }

  predicate AllTrimmable(s: string) {
    forall k :: 0 <= k < |s| ==> IsTrimmable(s[k])
  }

  /** Neither end of `s` is a character `trim` would remove. */
  predicate Trimmed(s: string) {
    s == [] || (!IsTrimmable(s[0]) && !IsTrimmable(s[|s| - 1]))
  }

  /** `String.prototype.trim`: whitespace is dropped from the front, then
      from the back, one character at a time. */
  function Trim(s: string): (r: string)
    ensures Trimmed(r)
    ensures |r| <= |s|
    decreases |s|
  {
    if |s| > 0 && IsTrimmable(s[0]) then Trim(s[1..])
    else if |s| > 0 && IsTrimmable(s[|s| - 1]) then Trim(s[..|s| - 1])
    else s
  }

  /** `t` sits in `s` at `lo` with only whitespace before and after it. */
  predicate PaddedAt(s: string, t: string, lo: nat) {
    && lo + |t| <= |s| && s[lo..lo + |t|] == t
    && AllTrimmable(s[..lo]) && AllTrimmable(s[lo + |t|..])
  }

  lemma {:induction false} PaddedAtFront(s: string, t: string, lo: nat)
    requires |s| > 0 && IsTrimmable(s[0]) && PaddedAt(s[1..], t, lo)
    ensures PaddedAt(s, t, lo + 1)
  {
    assert s[lo + 1..lo + 1 + |t|] == s[1..][lo..lo + |t|];
    assert s[..lo + 1] == [s[0]] + s[1..][..lo];
    assert s[lo + 1 + |t|..] == s[1..][lo + |t|..];
  }

  lemma {:induction false} PaddedAtBack(s: string, t: string, lo: nat)
    requires |s| > 0 && IsTrimmable(s[|s| - 1]) && PaddedAt(s[..|s| - 1], t, lo)
    ensures PaddedAt(s, t, lo)
  {
    var s' := s[..|s| - 1];
    assert s[lo..lo + |t|] == s'[lo..lo + |t|];
    assert s[..lo] == s'[..lo];
    assert s[lo + |t|..] == s'[lo + |t|..] + [s[|s| - 1]];
  }

  /** What `trim` keeps is an infix of its input with only whitespace
      around it. */
  lemma {:induction false} TrimIsInfix(s: string)
    ensures exists lo :: PaddedAt(s, Trim(s), lo)
    decreases |s|
  {
    var r := Trim(s);
    if |s| > 0 && IsTrimmable(s[0]) {
      TrimIsInfix(s[1..]);
      var lo: nat :| PaddedAt(s[1..], r, lo);
      PaddedAtFront(s, r, lo);
    } else if |s| > 0 && IsTrimmable(s[|s| - 1]) {
      TrimIsInfix(s[..|s| - 1]);
      var lo: nat :| PaddedAt(s[..|s| - 1], r, lo);
      PaddedAtBack(s, r, lo);
    } else {
      assert s[0..0 + |r|] == r;
      assert PaddedAt(s, r, 0);
    }
  }

  /** `trim` is determined by its characterisation: surrounding whitespace
      around a trimmed core is removed and the core kept whole. */
  lemma {:induction false} TrimOfPadded(pre: string, t: string, post: string)
    requires AllTrimmable(pre) && AllTrimmable(post) && Trimmed(t)
    ensures Trim(pre + t + post) == t
    decreases |pre| + |post|
  {
    var s := pre + t + post;
    if |pre| > 0 {
      assert s[0] == pre[0];
      assert s[1..] == pre[1..] + t + post;
      assert AllTrimmable(pre[1..]) by {
        assert forall k :: 0 <= k < |pre| - 1 ==> pre[1..][k] == pre[k + 1];
      }
      TrimOfPadded(pre[1..], t, post);
    } else if |post| > 0 {
      var post' := post[..|post| - 1];
      assert AllTrimmable(post') by {
        assert forall k :: 0 <= k < |post'| ==> post'[k] == post[k];
      }
      if t == [] {
        assert s == post;
        assert s[1..] == [] + [] + post[1..];
        assert AllTrimmable(post[1..]) by {
          assert forall k :: 0 <= k < |post| - 1 ==> post[1..][k] == post[k + 1];
        }
        TrimOfPadded([], [], post[1..]);
      } else {
        assert s[0] == t[0];
        assert s[|s| - 1] == post[|post| - 1];
        assert s[..|s| - 1] == [] + t + post';
        TrimOfPadded([], t, post');
      }
    } else {
      assert s == t;
    }
  }

  /** Trimming twice is trimming once. */
  lemma {:induction false} TrimIdempotent(s: string)
    ensures Trim(Trim(s)) == Trim(s)
  {
    var t := Trim(s);
    assert [] + t + [] == t;
    TrimOfPadded([], t, []);
  }

  /** A line is blank (trims to nothing) exactly when it is all whitespace. */
  lemma {:induction false} TrimEmptyIffBlank(s: string)
    ensures Trim(s) == [] <==> AllTrimmable(s)
  {
    if AllTrimmable(s) {
      assert s + [] + [] == s;
      TrimOfPadded(s, [], []);
    }
    if Trim(s) == [] {
      TrimIsInfix(s);
      var lo: nat :| PaddedAt(s, Trim(s), lo);
      assert s[lo + |Trim(s)|..] == s[lo..];
      assert forall k :: 0 <= k < |s| ==> s[k] == (if k < lo then s[..lo][k] else s[lo..][k - lo]);
    }
  }

  /** `indexOf` of one character: the first position holding `c`, `None`
      where JavaScript answers -1. */
  function IndexOf(s: string, c: char): (r: Option<nat>)
    ensures r.None? <==> c !in s
    ensures r.Some? ==> r.value < |s| && s[r.value] == c && c !in s[..r.value]
  {
    if |s| == 0 then None
    else if s[0] == c then Some(0)
    else match IndexOf(s[1..], c)
      case None => None
      case Some(i) =>
        assert s[..i + 1] == [s[0]] + s[1..][..i];
        Some(i + 1)
  }

  /** The first occurrence of `c` in `a + [c] + b`, when `a` has none, ends `a`. */
  lemma {:induction false} IndexOfAfterPrefix(a: string, c: char, b: string)
    requires c !in a
    ensures IndexOf(a + [c] + b, c) == Some(|a|)
  {
    assert (a + [c] + b)[|a|] == c;
  }

  /** The inverse of `Split`: the pieces glued back with the separator. */
  function Join(parts: seq<string>, sep: char): string {
    if |parts| == 0 then []
    else if |parts| == 1 then parts[0]
    else parts[0] + [sep] + Join(parts[1..], sep)
  }

  /** Number of occurrences of `c` in `s`. */
  function Count(s: string, c: char): nat {
    if |s| == 0 then 0 else (if s[0] == c then 1 else 0) + Count(s[1..], c)
  }

  /** `split` on a one-character separator: never empty, no piece holds the
      separator, and gluing the pieces back gives the input. */
  function Split(s: string, sep: char): (parts: seq<string>)
    ensures |parts| >= 1
    ensures forall i :: 0 <= i < |parts| ==> sep !in parts[i]
    ensures Join(parts, sep) == s
    decreases |s|
  {
    match IndexOf(s, sep)
    case None => [s]
    case Some(i) =>
      var rest := Split(s[i + 1..], sep);
      assert s == s[..i] + [sep] + s[i + 1..];
      [s[..i]] + rest
  }

  /** `Split` undoes `Join` on separator-free pieces. */
  lemma {:induction false} SplitJoin(parts: seq<string>, sep: char)
    requires |parts| >= 1
    requires forall i :: 0 <= i < |parts| ==> sep !in parts[i]
    ensures Split(Join(parts, sep), sep) == parts
    decreases |parts|
  {
    if |parts| > 1 {
      var s := Join(parts, sep);
      IndexOfAfterPrefix(parts[0], sep, Join(parts[1..], sep));
      assert s[|parts[0]| + 1..] == Join(parts[1..], sep);
      assert s[..|parts[0]|] == parts[0];
      SplitJoin(parts[1..], sep);
      assert parts == [parts[0]] + parts[1..];
    }
  }

  lemma {:induction false} CountAppend(a: string, b: string, c: char)
    ensures Count(a + b, c) == Count(a, c) + Count(b, c)
    decreases |a|
  {
    if |a| == 0 {
      assert a + b == b;
    } else {
      assert (a + b)[1..] == a[1..] + b;
      CountAppend(a[1..], b, c);
    }
  }

  lemma {:induction false} CountAbsent(s: string, c: char)
    requires c !in s
    ensures Count(s, c) == 0
    decreases |s|
  {
    if |s| > 0 {
      assert forall k :: 0 <= k < |s| - 1 ==> s[1..][k] == s[k + 1];
      CountAbsent(s[1..], c);
    }
  }

  /** One piece per separator, plus one. */
  lemma {:induction false} SplitCount(s: string, sep: char)
    ensures |Split(s, sep)| == Count(s, sep) + 1
    decreases |s|
  {
    match IndexOf(s, sep)
    case None =>
      CountAbsent(s, sep);
    case Some(i) =>
      SplitCount(s[i + 1..], sep);
      assert s == s[..i] + ([sep] + s[i + 1..]);
      CountAppend(s[..i], [sep] + s[i + 1..], sep);
      CountAppend([sep], s[i + 1..], sep);
      CountAbsent(s[..i], sep);
  }
}
