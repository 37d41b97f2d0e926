/** Small generic building blocks shared by the routing model: failure-compatible
    wrappers and a few sequence operations (first index, removal at an index,
    flattening of optional values). */
module Basics {

  datatype Option<+T> = None | Some(value: T)

  datatype Result<+R, +E> = Success(value: R) | Failure(error: E)

  /** Index of the first element satisfying `p`, or `|s|` when none does. */
  function IndexWhere<T>(s: seq<T>, p: T -> bool): (i: nat)
    ensures i <= |s|
    ensures i < |s| ==> p(s[i])
    ensures forall j | 0 <= j < i :: !p(s[j])
  {
    if |s| == 0 then 0
    else if p(s[0]) then 0
    else 1 + IndexWhere(s[1..], p)
  }

  /** The first-index function is the only index with its two defining properties. */
  lemma IndexWhereUnique<T>(s: seq<T>, p: T -> bool, i: nat)
    requires i <= |s|
    requires i < |s| ==> p(s[i])
    requires forall j | 0 <= j < i :: !p(s[j])
    ensures IndexWhere(s, p) == i
  {
  }

  /** `s` with the element at index `i` deleted; everything else keeps its order. */
  function RemoveAt<T>(s: seq<T>, i: nat): (r: seq<T>)
    requires i < |s|
    ensures |r| == |s| - 1
    ensures forall j | 0 <= j < i :: r[j] == s[j]
    ensures forall j | i <= j < |r| :: r[j] == s[j + 1]
  {
    s[..i] + s[i + 1..]
  }

  /** `s` without its first element satisfying `p`; `s` itself when none does. */
  function RemoveFirst<T>(s: seq<T>, p: T -> bool): (r: seq<T>)
    ensures (forall k | 0 <= k < |s| :: !p(s[k])) ==> r == s
    ensures forall i | 0 <= i < |s| && p(s[i]) && (forall k | 0 <= k < i :: !p(s[k])) ::
      r == RemoveAt(s, i)
  {
    var i := IndexWhere(s, p);
    if i == |s| then s else RemoveAt(s, i)
  }

  /** When exactly one element satisfies `p`, removing the first such element
      leaves none behind. */
  lemma RemoveFirstSole<T>(s: seq<T>, p: T -> bool, i: nat)
    requires i < |s| && p(s[i])
    requires forall k | 0 <= k < |s| && k != i :: !p(s[k])
    ensures RemoveFirst(s, p) == RemoveAt(s, i)
    ensures forall k | 0 <= k < |RemoveFirst(s, p)| :: !p(RemoveFirst(s, p)[k])
  {
    var r := RemoveAt(s, i);
    forall k | 0 <= k < |r| ensures !p(r[k]) {
      if k >= i { assert r[k] == s[k + 1]; }
    }
  }

  /** The values of the `Some` entries of `s`, in order. */
  function Somes<T>(s: seq<Option<T>>): (r: seq<T>)
    ensures |r| <= |s|
    ensures |r| == 0 <==> forall j | 0 <= j < |s| :: s[j].None?
  {
    if |s| == 0 then []
    else match s[0]
      case None => Somes(s[1..])
      case Some(v) => [v] + Somes(s[1..])
  }

  /** `Somes` of a sequence with one more entry in front. */
  lemma SomesCons<T>(x: Option<T>, s: seq<Option<T>>)
    ensures Somes([x] + s) == (if x.Some? then [x.value] else []) + Somes(s)
  {
    assert ([x] + s)[1..] == s;
  }

  /** Every `Some` entry's value is kept. */
  lemma {:induction false} SomesKeeps<T>(s: seq<Option<T>>)
    ensures forall j | 0 <= j < |s| && s[j].Some? :: s[j].value in Somes(s)
  {
    if |s| > 0 {
      SomesKeeps(s[1..]);
      assert forall j | 1 <= j < |s| :: s[j] == s[1..][j - 1];
    }
  }

  lemma {:induction false} SomesAppend<T>(a: seq<Option<T>>, b: seq<Option<T>>)
    ensures Somes(a + b) == Somes(a) + Somes(b)
  {
    if |a| == 0 {
      assert a + b == b;
    } else {
      assert (a + b)[1..] == a[1..] + b;
      SomesAppend(a[1..], b);
    }
  }
}
