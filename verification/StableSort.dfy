/** Stable sorting by an integer key, as the standard library's sort methods provide it. */
module StableSort {

  ghost predicate SortedBy<T>(xs: seq<T>, key: T -> int) {
    forall i, j :: 0 <= i < j < |xs| ==> key(xs[i]) <= key(xs[j])
  }

  /** The elements with a given key, in order. */
  function WithKey<T>(xs: seq<T>, key: T -> int, k: int): seq<T> {
    if xs == [] then []
    else WithKey(xs[..|xs| - 1], key, k) + if key(xs[|xs| - 1]) == k then [xs[|xs| - 1]] else []
  }

  /** `ys` is `xs` rearranged without changing the order of elements with equal keys. */
  ghost predicate Rearranged<T>(xs: seq<T>, ys: seq<T>, key: T -> int) {
    && multiset(xs) == multiset(ys)
    && forall k :: WithKey(ys, key, k) == WithKey(xs, key, k)
  }

  lemma {:induction false} WithKeyConcat<T>(xs: seq<T>, ys: seq<T>, key: T -> int, k: int)
    ensures WithKey(xs + ys, key, k) == WithKey(xs, key, k) + WithKey(ys, key, k)
  {
    if ys == [] {
      assert xs + ys == xs;
    } else {
      var n := |ys| - 1;
      WithKeyConcat(xs, ys[..n], key, k);
      assert (xs + ys)[..|xs| + n] == xs + ys[..n];
    }
  }

  lemma {:induction false} WithKeyAbsent<T>(xs: seq<T>, key: T -> int, k: int)
    requires forall i :: 0 <= i < |xs| ==> key(xs[i]) != k
    ensures WithKey(xs, key, k) == []
  {
    if xs != [] { WithKeyAbsent(xs[..|xs| - 1], key, k); }
  }

  /** Inserting after everything that is not larger keeps equal elements in order. */
  lemma InsertStable<T>(xs: seq<T>, x: T, at: nat, key: T -> int, k: int)
    requires at <= |xs| && forall j :: at <= j < |xs| ==> key(xs[j]) > key(x)
    ensures WithKey(xs[..at] + [x] + xs[at..], key, k) == WithKey(xs + [x], key, k)
  {
    assert xs == xs[..at] + xs[at..];
    WithKeyConcat(xs[..at], xs[at..], key, k);
    WithKeyConcat(xs, [x], key, k);
    WithKeyConcat(xs[..at], [x], key, k);
    WithKeyConcat(xs[..at] + [x], xs[at..], key, k);
    if key(x) == k { WithKeyAbsent(xs[at..], key, k); } else { WithKeyAbsent([x], key, k); }
  }

  lemma RearrangedSnoc<T>(xs: seq<T>, ys: seq<T>, x: T, zs: seq<T>, key: T -> int)
    requires Rearranged(xs, ys, key) && Rearranged(ys + [x], zs, key)
    ensures Rearranged(xs + [x], zs, key)
  {
    forall k ensures WithKey(zs, key, k) == WithKey(xs + [x], key, k) {
      WithKeyConcat(ys, [x], key, k);
      WithKeyConcat(xs, [x], key, k);
    }
  }

  lemma InsertRearranges<T>(ys: seq<T>, x: T, at: nat, key: T -> int)
    requires at <= |ys| && forall j :: at <= j < |ys| ==> key(ys[j]) > key(x)
    ensures Rearranged(ys + [x], ys[..at] + [x] + ys[at..], key)
  {
    hide WithKey;
    assert ys == ys[..at] + ys[at..];
    forall k ensures WithKey(ys[..at] + [x] + ys[at..], key, k) == WithKey(ys + [x], key, k) {
      InsertStable(ys, x, at, key, k);
    }
  }

  lemma InsertSorted<T>(ys: seq<T>, x: T, at: nat, key: T -> int)
    requires at <= |ys| && SortedBy(ys, key)
    requires forall j :: at <= j < |ys| ==> key(ys[j]) > key(x)
    requires at > 0 ==> key(ys[at - 1]) <= key(x)
    ensures SortedBy(ys[..at] + [x] + ys[at..], key)
  {
    var zs := ys[..at] + [x] + ys[at..];
    forall i, j | 0 <= i < j < |zs| ensures key(zs[i]) <= key(zs[j]) {
      assert zs[i] == if i < at then ys[i] else if i == at then x else ys[i - 1];
      assert zs[j] == if j < at then ys[j] else if j == at then x else ys[j - 1];
    }
  }

  method InsertByKey<T>(ys: seq<T>, x: T, key: T -> int) returns (zs: seq<T>)
    requires SortedBy(ys, key)
    ensures SortedBy(zs, key) && Rearranged(ys + [x], zs, key)
  {
    hide Rearranged;
    hide WithKey;
    var at := |ys|;
    while at > 0 && key(ys[at - 1]) > key(x)
      invariant 0 <= at <= |ys|
      invariant forall j :: at <= j < |ys| ==> key(ys[j]) > key(x)
    {
      at := at - 1;
    }
    zs := ys[..at] + [x] + ys[at..];
    InsertSorted(ys, x, at, key);
    InsertRearranges(ys, x, at, key);
  }

  method SortByKey<T>(xs: seq<T>, key: T -> int) returns (ys: seq<T>)
    ensures SortedBy(ys, key) && Rearranged(xs, ys, key)
  {
    hide *;
    ys := [];
    SortedEmpty<T>(key);
    for i := 0 to |xs|
      invariant SortedBy(ys, key) && Rearranged(xs[..i], ys, key)
    {
      var zs := InsertByKey(ys, xs[i], key);
      RearrangedSnoc(xs[..i], ys, xs[i], zs, key);
      assert xs[..i + 1] == xs[..i] + [xs[i]];
      ys := zs;
    }
    assert xs[..|xs|] == xs;
  }

  lemma SortedEmpty<T>(key: T -> int)
    ensures SortedBy([], key) && Rearranged([], [], key)
  {
  }

  lemma {:induction false} WithKeyPresent<T>(xs: seq<T>, key: T -> int, k: int)
    requires WithKey(xs, key, k) != []
    ensures exists i :: 0 <= i < |xs| && key(xs[i]) == k
  {
    if forall i :: 0 <= i < |xs| ==> key(xs[i]) != k { WithKeyAbsent(xs, key, k); }
  }

  /** The largest key of one is not above the largest key of the other. */
  lemma LastKeyAtMost<T>(xs: seq<T>, ys: seq<T>, key: T -> int)
    requires xs != [] && SortedBy(xs, key) && SortedBy(ys, key)
    requires forall k :: WithKey(xs, key, k) == WithKey(ys, key, k)
    ensures ys != [] && key(xs[|xs| - 1]) <= key(ys[|ys| - 1])
  {
    WithKeyPresent(ys, key, key(xs[|xs| - 1]));
  }

  lemma SnocEqual<T>(xs: seq<T>, x: T, ys: seq<T>, y: T)
    requires xs + [x] == ys + [y]
    ensures xs == ys && x == y
  {
    var zs := xs + [x];
    assert zs[|zs| - 1] == x && zs[..|zs| - 1] == xs && zs[..|zs| - 1] == ys;
  }

  lemma WithoutLast<T>(xs: seq<T>, ys: seq<T>, key: T -> int, k: int)
    requires xs != [] && ys != [] && xs[|xs| - 1] == ys[|ys| - 1] && WithKey(xs, key, k) == WithKey(ys, key, k)
    ensures WithKey(xs[..|xs| - 1], key, k) == WithKey(ys[..|ys| - 1], key, k)
  {
    var m, n := |xs| - 1, |ys| - 1;
    if key(xs[m]) == k {
      SnocEqual(WithKey(xs[..m], key, k), xs[m], WithKey(ys[..n], key, k), ys[n]);
    } else {
      assert WithKey(xs, key, k) == WithKey(xs[..m], key, k);
      assert WithKey(ys, key, k) == WithKey(ys[..n], key, k);
    }
  }

  /** What stable sorting returns is determined by its input. */
  lemma {:induction false} StableOrderIsUnique<T>(xs: seq<T>, ys: seq<T>, key: T -> int)
    requires SortedBy(xs, key) && SortedBy(ys, key)
    requires forall k :: WithKey(xs, key, k) == WithKey(ys, key, k)
    ensures xs == ys
    decreases |xs|
  {
    if xs != [] {
      LastKeyAtMost(xs, ys, key);
      LastKeyAtMost(ys, xs, key);
      var m, n := |xs| - 1, |ys| - 1;
      assert key(xs[m]) == key(ys[n]);
      var top := key(xs[m]);
      assert WithKey(xs, key, top) == WithKey(ys, key, top);
      SnocEqual(WithKey(xs[..m], key, top), xs[m], WithKey(ys[..n], key, top), ys[n]);
      forall k ensures WithKey(xs[..m], key, k) == WithKey(ys[..n], key, k) {
        assert WithKey(xs, key, k) == WithKey(ys, key, k);
        WithoutLast(xs, ys, key, k);
      }
      StableOrderIsUnique(xs[..m], ys[..n], key);
      assert xs == xs[..m] + [xs[m]] && ys == ys[..n] + [ys[n]];
    } else if ys != [] {
      LastKeyAtMost(ys, xs, key);
    }
  }
}
