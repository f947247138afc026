/** Sorting by a total order: the contract of the library sorts, and why it leaves one result. */
module Sorting {

  ghost predicate TotalOrder<T(!new)>(le: (T, T) -> bool) {
    && (forall a, b :: le(a, b) || le(b, a))
    && (forall a, b :: le(a, b) && le(b, a) ==> a == b)
    && (forall a, b, c :: le(a, b) && le(b, c) ==> le(a, c))
  }

  ghost predicate SortedBy<T(!new)>(le: (T, T) -> bool, xs: seq<T>) {
    forall i, j | 0 <= i < j < |xs| :: le(xs[i], xs[j])
  }

  lemma HeadIsLeast<T(!new)>(le: (T, T) -> bool, xs: seq<T>, x: T)
    requires TotalOrder(le) && SortedBy(le, xs) && x in xs
    ensures le(xs[0], x)
  {
    var i :| 0 <= i < |xs| && xs[i] == x;
    assert i == 0 || le(xs[0], xs[i]);
  }

  lemma TailMultiset<T>(xs: seq<T>)
    requires xs != []
    ensures multiset(xs[1..]) == multiset(xs) - multiset{xs[0]}
  {
    assert xs == [xs[0]] + xs[1..];
  }

  /** The only sorted arrangement of a multiset under a total order. */
  lemma {:induction false} SortedIsUnique<T(!new)>(le: (T, T) -> bool, xs: seq<T>, ys: seq<T>)
    requires TotalOrder(le) && SortedBy(le, xs) && SortedBy(le, ys)
    requires multiset(xs) == multiset(ys)
    ensures xs == ys
  {
    if xs == [] {
      assert |multiset(ys)| == 0;
    } else {
      assert |multiset(ys)| == |multiset(xs)| > 0;
      assert xs[0] in multiset(ys) && ys[0] in multiset(xs);
      HeadIsLeast(le, xs, ys[0]);
      HeadIsLeast(le, ys, xs[0]);
      assert xs[0] == ys[0];
      TailMultiset(xs);
      TailMultiset(ys);
      SortedIsUnique(le, xs[1..], ys[1..]);
      assert xs == [xs[0]] + xs[1..] && ys == [ys[0]] + ys[1..];
    }
  }

  lemma SortedTogether<T(!new)>(le: (T, T) -> bool, xs: seq<T>, ys: seq<T>)
    requires SortedBy(le, xs) && SortedBy(le, ys)
    requires forall i, j | 0 <= i < |xs| && 0 <= j < |ys| :: le(xs[i], ys[j])
    ensures SortedBy(le, xs + ys)
  {
    var r := xs + ys;
    forall i, j | 0 <= i < j < |r| ensures le(r[i], r[j]) {
      if j < |xs| {
        assert r[i] == xs[i] && r[j] == xs[j];
      } else if i < |xs| {
        assert r[i] == xs[i] && r[j] == ys[j - |xs|];
      } else {
        assert r[i] == ys[i - |xs|] && r[j] == ys[j - |xs|];
      }
    }
  }

  lemma InsertedInOrder<T(!new)>(le: (T, T) -> bool, xs: seq<T>, x: T, i: nat)
    requires TotalOrder(le) && SortedBy(le, xs) && i <= |xs|
    requires forall k | 0 <= k < i :: le(xs[k], x)
    requires i < |xs| ==> !le(xs[i], x)
    ensures SortedBy(le, xs[..i] + [x] + xs[i..])
  {
    var a, b := xs[..i], xs[i..];
    forall k | 0 <= k < |b| ensures le(x, b[k]) {
      assert b[k] == xs[i + k] && le(x, xs[i]) && (0 < k ==> le(xs[i], xs[i + k]));
    }
    forall j, k | 0 <= j < |a| && 0 <= k < |b| ensures le(a[j], b[k]) {
      assert a[j] == xs[j] && b[k] == xs[i + k];
    }
    hide TotalOrder;
    assert SortedBy(le, a) && SortedBy(le, b);
    SortedTogether(le, a, [x]);
    SortedTogether(le, a + [x], b);
  }

  method Insert<T(!new)>(le: (T, T) -> bool, xs: seq<T>, x: T) returns (r: seq<T>)
    requires TotalOrder(le) && SortedBy(le, xs)
    ensures SortedBy(le, r) && multiset(r) == multiset(xs) + multiset{x}
  {
    var i := 0;
    while i < |xs| && le(xs[i], x)
      invariant 0 <= i <= |xs|
      invariant forall k | 0 <= k < i :: le(xs[k], x)
    {
      i := i + 1;
    }
    r := xs[..i] + [x] + xs[i..];
    InsertedInOrder(le, xs, x, i);
    hide TotalOrder, SortedBy;
    assert xs == xs[..i] + xs[i..];
  }

  method Sort<T(!new)>(le: (T, T) -> bool, xs: seq<T>) returns (r: seq<T>)
    requires TotalOrder(le)
    ensures SortedBy(le, r) && multiset(r) == multiset(xs)
  {
    r := [];
    for i := 0 to |xs|
      invariant SortedBy(le, r) && multiset(r) == multiset(xs[..i])
    {
      r := Insert(le, r, xs[i]);
      assert xs[..i + 1] == xs[..i] + [xs[i]];
    }
    assert xs[..|xs|] == xs;
  }
}
