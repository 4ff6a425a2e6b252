/** Generic sequence helpers mirroring the JavaScript array methods the store
    uses: `find` (first match), `filter`, and the length of a filtered array. */
module Seqs {
  import opened Wrappers

  /** Index of the first element satisfying `p`, as `Array.prototype.find`
      locates it; `None` when no element does. */
  function FirstIndex<T>(s: seq<T>, p: T -> bool): (r: Option<nat>)
    ensures r.Some? ==> r.value < |s| && p(s[r.value])
    ensures r.Some? ==> forall j :: 0 <= j < r.value ==> !p(s[j])
    ensures r.None? <==> forall j :: 0 <= j < |s| ==> !p(s[j])
  {
    if |s| == 0 then None
    else if p(s[0]) then Some(0)
    else
      match FirstIndex(s[1..], p)
      case None => None
      case Some(i) => Some(i + 1)
  }

  /** The elements of `s` satisfying `p`, in order (`Array.prototype.filter`):
      every kept value keeps its multiplicity, every other value is dropped. */
  function Filter<T(!new)>(s: seq<T>, p: T -> bool): (r: seq<T>)
    ensures |r| <= |s|
    ensures forall x :: multiset(r)[x] == if p(x) then multiset(s)[x] else 0
    ensures forall x :: x in r <==> x in s && p(x)
  {
    if |s| == 0 then []
    else
      assert s == [s[0]] + s[1..];
      if p(s[0]) then [s[0]] + Filter(s[1..], p) else Filter(s[1..], p)
  }

  /** Number of elements of `s` satisfying `p`. */
  function Count<T>(s: seq<T>, p: T -> bool): (n: nat)
    ensures n <= |s|
    ensures n == 0 <==> forall j :: 0 <= j < |s| ==> !p(s[j])
  {
    if |s| == 0 then 0
    else (if p(s[0]) then 1 else 0) + Count(s[1..], p)
  }

  /** Appending one element adds one to the count exactly when it satisfies `p`. */
  lemma {:induction false} CountAppend<T>(s: seq<T>, x: T, p: T -> bool)
    ensures Count(s + [x], p) == Count(s, p) + (if p(x) then 1 else 0)
  {
    if |s| == 0 {
      assert s + [x] == [x];
    } else {
      assert (s + [x])[1..] == s[1..] + [x];
      CountAppend(s[1..], x, p);
    }
  }

  /** Replacing one element changes the count by the difference of the two
      elements' contributions. */
  lemma {:induction false} CountUpdate<T>(s: seq<T>, k: nat, y: T, p: T -> bool)
    requires k < |s|
    ensures Count(s[k := y], p) + (if p(s[k]) then 1 else 0)
         == Count(s, p) + (if p(y) then 1 else 0)
  {
    if k == 0 {
      assert s[k := y][1..] == s[1..];
    } else {
      assert s[k := y][1..] == s[1..][k - 1 := y];
      CountUpdate(s[1..], k - 1, y, p);
    }
  }

  /** Two sequences whose elements answer two tests alike have the same first
      match. */
  lemma FirstIndexAgrees<T, U>(s: seq<T>, p: T -> bool, t: seq<U>, q: U -> bool)
    requires |s| == |t|
    requires forall j :: 0 <= j < |s| ==> p(s[j]) == q(t[j])
    ensures FirstIndex(s, p) == FirstIndex(t, q)
  {
  }

  /** Filtering distributes over concatenation: the kept elements of the
      first part come first, in their order, followed by those of the second. */
  lemma {:induction false} FilterAppend<T(!new)>(a: seq<T>, b: seq<T>, p: T -> bool)
    ensures Filter(a + b, p) == Filter(a, p) + Filter(b, p)
  {
    if |a| == 0 {
      assert a + b == b;
    } else {
      assert (a + b)[0] == a[0];
      assert (a + b)[1..] == a[1..] + b;
      FilterAppend(a[1..], b, p);
    }
  }

  /** Cutting the input anywhere cuts the output in the same place: the order
      of the kept elements is the order of the input. */
  lemma FilterSplits<T(!new)>(s: seq<T>, p: T -> bool)
    ensures forall k :: 0 <= k <= |s| ==> Filter(s, p) == Filter(s[..k], p) + Filter(s[k..], p)
  {
    forall k | 0 <= k <= |s|
      ensures Filter(s, p) == Filter(s[..k], p) + Filter(s[k..], p)
    {
      assert s == s[..k] + s[k..];
      FilterAppend(s[..k], s[k..], p);
    }
  }
}
