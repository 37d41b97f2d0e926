/** Assertion modes over a recorded sequence: `times(count, exactly)`,
    `index(i)` and `last()`. Each mode is a pure verdict on the items and an
    opaque item predicate; only the shape of the mismatch is kept, not its text. */
module AssertionModes {

  datatype Mode = Times(count: int, exactly: bool) | Index(index: int) | Last

  /** `times(count)` with its default `exactly = true`. */
  const DefaultMode: Mode := Times(1, true)

  /** Why a mode rejected the items. */
  datatype Mismatch =
    | CountMismatch(matched: int, notMatched: seq<nat>)
    | WasEmpty
    | IndexNotInRange
    | ItemMismatch(at: nat)

  datatype Verdict = Pass | Fail(why: Mismatch)

  /** Number of items the predicate accepts. */
  function CountWhere<T>(items: seq<T>, matcher: T -> bool): (n: nat)
    ensures n <= |items|
    ensures n == |items| <==> forall i | 0 <= i < |items| :: matcher(items[i])
  {
    if |items| == 0 then 0
    else (if matcher(items[0]) then 1 else 0) + CountWhere(items[1..], matcher)
  }

  /** The indices at or after `from` whose item the predicate rejects, ascending
      (the `filterMatched` helper, which despite its name keeps the misses). */
  function NotMatchedFrom<T>(items: seq<T>, matcher: T -> bool, from: nat): (r: seq<nat>)
    requires from <= |items|
    ensures forall k | 0 <= k < |r| :: from <= r[k] < |items| && !matcher(items[r[k]])
    ensures forall i | from <= i < |items| && !matcher(items[i]) :: i in r
    ensures forall k, l | 0 <= k < l < |r| :: r[k] < r[l]
    decreases |items| - from
  {
    if from == |items| then []
    else (if matcher(items[from]) then [] else [from]) + NotMatchedFrom(items, matcher, from + 1)
  }

  function NotMatched<T>(items: seq<T>, matcher: T -> bool): (r: seq<nat>)
    ensures forall k | 0 <= k < |r| :: r[k] < |items| && !matcher(items[r[k]])
    ensures forall i | 0 <= i < |items| && !matcher(items[i]) :: i in r
    ensures forall k, l | 0 <= k < l < |r| :: r[k] < r[l]
  {
    NotMatchedFrom(items, matcher, 0)
  }

  lemma {:induction false} NotMatchedFromCount<T>(items: seq<T>, matcher: T -> bool, from: nat)
    requires from <= |items|
    ensures |NotMatchedFrom(items, matcher, from)| + CountWhere(items[from..], matcher) == |items| - from
    decreases |items| - from
  {
    if from < |items| {
      NotMatchedFromCount(items, matcher, from + 1);
      assert items[from..][0] == items[from];
      assert items[from..][1..] == items[from + 1..];
    }
  }

  /** The count `times` reports: size minus the number of misses, which is the
      number of accepted items. */
  lemma MatchedCount<T>(items: seq<T>, matcher: T -> bool)
    ensures |items| - |NotMatched(items, matcher)| == CountWhere(items, matcher)
  {
    NotMatchedFromCount(items, matcher, 0);
    assert items[0..] == items;
  }

  /** `AssertionMode.matches` for each mode. */
  function Check<T>(mode: Mode, matcher: T -> bool, items: seq<T>): (v: Verdict)
    ensures mode.Times? ==>
      (v.Pass? <==>
        CountWhere(items, matcher) == mode.count &&
        (mode.exactly ==> forall i | 0 <= i < |items| :: matcher(items[i])))
    ensures mode.Times? && v.Fail? ==>
      v.why.CountMismatch? && v.why.matched == CountWhere(items, matcher) &&
      v.why.notMatched == NotMatched(items, matcher)
    ensures mode.Index? ==>
      (v.Pass? <==> 0 <= mode.index < |items| && matcher(items[mode.index]))
    ensures mode.Last? ==> (v.Pass? <==> |items| > 0 && matcher(items[|items| - 1]))
    ensures |items| == 0 && !mode.Times? ==> v == Fail(WasEmpty)
  {
    match mode
    case Times(count, exactly) =>
      var notMatched := NotMatched(items, matcher);
      var matched := |items| - |notMatched|;
      MatchedCount(items, matcher);
      if count != matched || (exactly && |notMatched| > 0) then Fail(CountMismatch(matched, notMatched))
      else Pass
    case Index(index) =>
      if |items| == 0 then Fail(WasEmpty)
      else if !(0 <= index < |items|) then Fail(IndexNotInRange)
      else if !matcher(items[index]) then Fail(ItemMismatch(index))
      else Pass
    case Last =>
      if |items| == 0 then Fail(WasEmpty)
      else if !matcher(items[|items| - 1]) then Fail(ItemMismatch(|items| - 1))
      else Pass
  }

  /** `times(n)` (exactly) passes iff there are exactly n items and all match. */
  lemma TimesExactly<T>(count: int, matcher: T -> bool, items: seq<T>)
    ensures Check(Times(count, true), matcher, items).Pass? <==>
      |items| == count && forall i | 0 <= i < |items| :: matcher(items[i])
  {
  }

  /** `times(n, exactly = false)` counts the matching items and tolerates the rest. */
  lemma TimesLoose<T>(count: int, matcher: T -> bool, items: seq<T>, stranger: T)
    requires !matcher(stranger)
    ensures Check(Times(count, false), matcher, items + [stranger]) ==
      if CountWhere(items, matcher) == count then Pass
      else Fail(CountMismatch(CountWhere(items, matcher), NotMatched(items + [stranger], matcher)))
  {
    CountWhereAppend(items, [stranger], matcher);
    assert CountWhere([stranger], matcher) == 0;
  }

  lemma {:induction false} CountWhereAppend<T>(a: seq<T>, b: seq<T>, matcher: T -> bool)
    ensures CountWhere(a + b, matcher) == CountWhere(a, matcher) + CountWhere(b, matcher)
  {
    if |a| == 0 {
      assert a + b == b;
    } else {
      assert (a + b)[0] == a[0];
      assert (a + b)[1..] == a[1..] + b;
      CountWhereAppend(a[1..], b, matcher);
    }
  }

  /** `last()` gives the same verdict as `index(size - 1)`, including on the
      empty sequence. */
  lemma LastIsIndexOfLast<T>(matcher: T -> bool, items: seq<T>)
    ensures Check(Last, matcher, items) == Check(Index(|items| - 1), matcher, items)
  {
  }

  /** The default mode demands exactly one recorded item, and that it match. */
  lemma DefaultModeMeans<T>(matcher: T -> bool, items: seq<T>)
    ensures Check(DefaultMode, matcher, items).Pass? <==> |items| == 1 && matcher(items[0])
  {
    TimesExactly(1, matcher, items);
  }
}
