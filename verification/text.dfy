/** Character-level string operations used by the query parser and the path
    helpers: first occurrence, splitting on a separator and joining back,
    occurrence counting, substring and suffix tests. */
module Text {
  import opened Basics

  /** Index of the first `c` in `s`, or `|s|` when `c` does not occur. */
  function Find(s: string, c: char): (i: nat)
    ensures i <= |s|
    ensures i == |s| <==> c !in s
    ensures i < |s| ==> s[i] == c && c !in s[..i]
  {
    var i := IndexWhere(s, ch => ch == c);
    assert i < |s| ==> c !in s[..i] by {
      if i < |s| {
        forall j | 0 <= j < i ensures s[..i][j] != c { assert s[..i][j] == s[j]; }
      }
    }
    i
  }

  /** Kotlin's `indexOf(c, from)`: the first index at or after `from` holding `c`, or -1. */
  function IndexOf(s: string, c: char, from: nat): (i: int)
    requires from <= |s|
    ensures i == -1 || from <= i < |s|
    ensures i == -1 ==> forall j | from <= j < |s| :: s[j] != c
    ensures i != -1 ==> s[i] == c && forall j | from <= j < i :: s[j] != c
  {
    var k := Find(s[from..], c);
    assert forall j | from <= j < from + k :: s[j] == s[from..][j - from];
    if from + k == |s| then -1 else from + k
  }

  /** Number of occurrences of `c` in `s`. */
  function Count(s: string, c: char): nat
  {
    if |s| == 0 then 0 else (if s[0] == c then 1 else 0) + Count(s[1..], c)
  }

  lemma {:induction false} CountAppend(a: string, b: string, c: char)
    ensures Count(a + b, c) == Count(a, c) + Count(b, c)
  {
    if |a| == 0 {
      assert a + b == b;
    } else {
      assert (a + b)[1..] == a[1..] + b;
      CountAppend(a[1..], b, c);
    }
  }

  lemma {:induction false} CountAbsent(s: string, c: char)
    requires c !in s
    ensures Count(s, c) == 0
  {
    if |s| > 0 {
      assert c !in s[1..] by {
        forall j | 0 <= j < |s[1..]| ensures s[1..][j] != c { assert s[1..][j] == s[j + 1]; }
      }
      CountAbsent(s[1..], c);
    }
  }

  /** The pieces of `s` between occurrences of `sep`, scanning left to right like
      the query parser; none of them contains `sep`. */
  function Split(s: string, sep: char): (parts: seq<string>)
    ensures |parts| >= 1
    ensures forall k | 0 <= k < |parts| :: sep !in parts[k]
    decreases |s|
  {
    var i := Find(s, sep);
    if i == |s| then [s]
    else [s[..i]] + Split(s[i + 1..], sep)
  }

  /** There is one more piece than there are separators. */
  lemma {:induction false} SplitCount(s: string, sep: char)
    ensures |Split(s, sep)| == Count(s, sep) + 1
    decreases |s|
  {
    var i := Find(s, sep);
    if i == |s| {
      CountAbsent(s, sep);
    } else {
      SplitCount(s[i + 1..], sep);
      assert s == s[..i] + [sep] + s[i + 1..];
      CountAppend(s[..i] + [sep], s[i + 1..], sep);
      CountAppend(s[..i], [sep], sep);
      CountAbsent(s[..i], sep);
    }
  }

  /** The pieces joined with `sep` between consecutive pieces. */
  function Join(parts: seq<string>, sep: char): string
  {
    if |parts| == 0 then ""
    else if |parts| == 1 then parts[0]
    else parts[0] + [sep] + Join(parts[1..], sep)
  }

  /** Splitting and re-joining gives back the original string. */
  lemma {:induction false} JoinSplit(s: string, sep: char)
    ensures Join(Split(s, sep), sep) == s
    decreases |s|
  {
    var i := Find(s, sep);
    if i < |s| {
      var rest := Split(s[i + 1..], sep);
      var parts := [s[..i]] + rest;
      assert Split(s, sep) == parts;
      assert parts[1..] == rest;
      assert Join(parts, sep) == s[..i] + [sep] + Join(rest, sep);
      JoinSplit(s[i + 1..], sep);
      assert s == s[..i] + [sep] + s[i + 1..];
    }
  }

  /** Unfolding of `Split` at the first separator. */
  lemma SplitFirst(s: string, sep: char)
    ensures Find(s, sep) == |s| ==> Split(s, sep) == [s]
    ensures Find(s, sep) < |s| ==>
      Split(s, sep) == [s[..Find(s, sep)]] + Split(s[Find(s, sep) + 1..], sep)
  {
  }

  /** Splitting a suffix `s[pos..]` whose first separator is at `amp`. */
  lemma SplitAt(s: string, pos: nat, amp: nat, sep: char)
    requires pos <= amp < |s|
    requires Find(s[pos..], sep) == amp - pos
    ensures Split(s[pos..], sep) == [s[pos..amp]] + Split(s[amp + 1..], sep)
  {
    var t := s[pos..];
    var a := amp - pos;
    SplitFirst(t, sep);
    assert t[..a] == s[pos..amp];
    assert t[a + 1..] == s[amp + 1..];
  }

  /** `f` occurs in `s` starting at index `k`. */
  predicate OccursAt(f: string, s: string, k: int)
  {
    0 <= k && k + |f| <= |s| && s[k..k + |f|] == f
  }

  /** `f` is a substring of `s` (Kotlin `contains`). */
  predicate Contains(s: string, f: string)
  {
    exists k | 0 <= k <= |s| :: OccursAt(f, s, k)
  }

  /** `s` ends with `f` (Kotlin `endsWith`). */
  predicate EndsWith(s: string, f: string)
  {
    |f| <= |s| && s[|s| - |f|..] == f
  }
}
