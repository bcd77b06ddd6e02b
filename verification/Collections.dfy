/** Selecting by key, and Python's stable list.sort(key=...). */
module Collections {

  /** The elements with key `k`, in order. */
  function With<T, K(==)>(xs: seq<T>, key: T -> K, k: K): seq<T> {
    if xs == [] then []
    else if key(xs[0]) == k then [xs[0]] + With(xs[1..], key, k)
    else With(xs[1..], key, k)
  }

  function Without<T, K(==)>(xs: seq<T>, key: T -> K, k: K): seq<T> {
    if xs == [] then []
    else if key(xs[0]) == k then Without(xs[1..], key, k)
    else [xs[0]] + Without(xs[1..], key, k)
  }

  lemma {:induction false} InWith<T, K>(xs: seq<T>, key: T -> K, k: K)
    ensures forall x :: x in With(xs, key, k) <==> x in xs && key(x) == k
  {
    if xs != [] {
      InWith(xs[1..], key, k);
      assert xs == [xs[0]] + xs[1..];
    }
  }

  lemma InWithOne<T, K>(xs: seq<T>, key: T -> K, k: K, x: T)
    ensures x in With(xs, key, k) <==> x in xs && key(x) == k
  {
    InWith(xs, key, k);
  }

  lemma {:induction false} WithAt<T, K>(xs: seq<T>, key: T -> K, k: K, i: nat)
    requires i < |With(xs, key, k)|
    ensures With(xs, key, k)[i] in xs && key(With(xs, key, k)[i]) == k
  {
    if key(xs[0]) != k {
      WithAt(xs[1..], key, k, i);
    } else if i > 0 {
      WithAt(xs[1..], key, k, i - 1);
    }
  }

  lemma {:induction false} InWithout<T, K>(xs: seq<T>, key: T -> K, k: K)
    ensures forall x :: x in Without(xs, key, k) <==> x in xs && key(x) != k
    ensures |Without(xs, key, k)| <= |xs|
  {
    if xs != [] {
      InWithout(xs[1..], key, k);
      assert xs == [xs[0]] + xs[1..];
    }
  }

  lemma InWithoutOne<T, K>(xs: seq<T>, key: T -> K, k: K, x: T)
    ensures x in Without(xs, key, k) <==> x in xs && key(x) != k
  {
    InWithout(xs, key, k);
  }

  lemma {:induction false} WithConcat<T, K>(xs: seq<T>, ys: seq<T>, key: T -> K, k: K)
    ensures With(xs + ys, key, k) == With(xs, key, k) + With(ys, key, k)
  {
    if xs == [] {
      assert xs + ys == ys;
    } else {
      WithConcat(xs[1..], ys, key, k);
      assert (xs + ys)[1..] == xs[1..] + ys;
      assert [xs[0]] + (With(xs[1..], key, k) + With(ys, key, k)) == [xs[0]] + With(xs[1..], key, k) + With(ys, key, k);
    }
  }

  lemma {:induction false} WithOfWithout<T, K>(xs: seq<T>, key: T -> K, k: K, j: K)
    requires j != k
    ensures With(Without(xs, key, k), key, j) == With(xs, key, j)
  {
    if xs != [] {
      WithOfWithout(xs[1..], key, k, j);
      if key(xs[0]) != k {
        assert ([xs[0]] + Without(xs[1..], key, k))[1..] == Without(xs[1..], key, k);
      }
    }
  }

  lemma WithOne<T, K>(x: T, key: T -> K, k: K)
    ensures With([x], key, k) == if key(x) == k then [x] else []
  {
    assert [x][1..] == [];
  }

  lemma NoElements<T(!new)>(xs: seq<T>)
    ensures xs == [] <==> forall x :: x !in xs
  {
    assert xs == [] || xs[0] in xs;
  }

  function Map<A, B>(xs: seq<A>, f: A -> B): (ys: seq<B>)
    ensures |ys| == |xs| && forall k | 0 <= k < |xs| :: ys[k] == f(xs[k])
  {
    if xs == [] then [] else Map(xs[..|xs| - 1], f) + [f(xs[|xs| - 1])]
  }

  /** The keys in order of first appearance, as a dict keeps them. */
  function FirstSeen<T, K(==)>(xs: seq<T>, key: T -> K): seq<K> {
    if xs == [] then []
    else
      var before, k := FirstSeen(xs[..|xs| - 1], key), key(xs[|xs| - 1]);
      if k in before then before else before + [k]
  }

  lemma {:induction false} FirstSeenAreThose<T, K(!new)>(xs: seq<T>, key: T -> K)
    ensures forall k :: k in FirstSeen(xs, key) <==> With(xs, key, k) != []
    ensures forall i, j | 0 <= i < j < |FirstSeen(xs, key)| :: FirstSeen(xs, key)[i] != FirstSeen(xs, key)[j]
  {
    if xs != [] {
      var before, last := xs[..|xs| - 1], xs[|xs| - 1];
      FirstSeenAreThose(before, key);
      assert xs == before + [last];
      forall k
        ensures k in FirstSeen(xs, key) <==> With(xs, key, k) != []
      {
        WithConcat(before, [last], key, k);
        WithOne(last, key, k);
      }
    }
  }

  // ----- sorting

  /** A sort key: a tuple of two numbers, compared as Python compares tuples. */
  datatype Rank = Rank(first: int, second: int)

  predicate AtMost(a: Rank, b: Rank) {
    a.first < b.first || (a.first == b.first && a.second <= b.second)
  }

  ghost predicate SortedBy<T(!new)>(xs: seq<T>, rank: T -> Rank) {
    forall i, j | 0 <= i < j < |xs| :: AtMost(rank(xs[i]), rank(xs[j]))
  }

  /** Sorted, and elements of equal rank keep their order. */
  ghost predicate IsStableSort<T(!new)>(ys: seq<T>, xs: seq<T>, rank: T -> Rank) {
    SortedBy(ys, rank) && forall k :: With(ys, rank, k) == With(xs, rank, k)
  }

  function Insert<T>(x: T, ys: seq<T>, rank: T -> Rank): seq<T> {
    if ys == [] || AtMost(rank(x), rank(ys[0])) then [x] + ys else [ys[0]] + Insert(x, ys[1..], rank)
  }

  function Sorted<T>(xs: seq<T>, rank: T -> Rank): seq<T> {
    if xs == [] then [] else Insert(xs[0], Sorted(xs[1..], rank), rank)
  }

  lemma {:induction false} InsertSorts<T(!new)>(x: T, ys: seq<T>, rank: T -> Rank)
    requires SortedBy(ys, rank)
    ensures SortedBy(Insert(x, ys, rank), rank)
    ensures forall y :: y in Insert(x, ys, rank) <==> y == x || y in ys
  {
    if ys != [] && !AtMost(rank(x), rank(ys[0])) {
      InsertSorts(x, ys[1..], rank);
      var rest := Insert(x, ys[1..], rank);
      assert ys == [ys[0]] + ys[1..];
      forall y | y in rest
        ensures AtMost(rank(ys[0]), rank(y))
      {
      }
    }
  }

  lemma {:induction false} InsertIsStable<T(!new)>(x: T, ys: seq<T>, rank: T -> Rank, k: Rank)
    requires SortedBy(ys, rank)
    ensures With(Insert(x, ys, rank), rank, k) == With([x] + ys, rank, k)
  {
    assert ([x] + ys)[1..] == ys;
    if ys != [] && !AtMost(rank(x), rank(ys[0])) {
      InsertIsStable(x, ys[1..], rank, k);
      var rest := Insert(x, ys[1..], rank);
      assert ([ys[0]] + rest)[1..] == rest && ([x] + ys[1..])[1..] == ys[1..];
    }
  }

  lemma {:induction false} SortedIsStable<T(!new)>(xs: seq<T>, rank: T -> Rank)
    ensures IsStableSort(Sorted(xs, rank), xs, rank)
    ensures forall x :: x in Sorted(xs, rank) <==> x in xs
  {
    if xs != [] {
      SortedIsStable(xs[1..], rank);
      var rest := Sorted(xs[1..], rank);
      InsertSorts(xs[0], rest, rank);
      assert xs == [xs[0]] + xs[1..];
      forall k
        ensures With(Sorted(xs, rank), rank, k) == With(xs, rank, k)
      {
        InsertIsStable(xs[0], rest, rank, k);
        assert ([xs[0]] + rest)[1..] == rest;
      }
    }
  }

  lemma {:induction false} LeastFirst<T(!new)>(ys: seq<T>, zs: seq<T>, rank: T -> Rank)
    requires SortedBy(ys, rank) && SortedBy(zs, rank) && forall k :: With(ys, rank, k) == With(zs, rank, k)
    requires ys != []
    ensures zs != [] && ys[0] == zs[0]
    ensures forall k :: With(ys[1..], rank, k) == With(zs[1..], rank, k)
  {
    assert ys[0] in With(ys, rank, rank(ys[0]));
    InWith(zs, rank, rank(ys[0]));
    assert With(zs, rank, rank(zs[0])) == With(ys, rank, rank(zs[0]));
    assert zs[0] in With(zs, rank, rank(zs[0]));
    InWith(ys, rank, rank(zs[0]));
    assert rank(ys[0]) == rank(zs[0]);
    assert With(ys, rank, rank(ys[0]))[0] == ys[0] && With(zs, rank, rank(ys[0]))[0] == zs[0];
    forall k
      ensures With(ys[1..], rank, k) == With(zs[1..], rank, k)
    {
      if k == rank(ys[0]) {
        assert With(ys[1..], rank, k) == With(ys, rank, k)[1..] && With(zs[1..], rank, k) == With(zs, rank, k)[1..];
      } else {
        assert With(ys[1..], rank, k) == With(ys, rank, k) && With(zs[1..], rank, k) == With(zs, rank, k);
      }
    }
  }

  lemma {:induction false} SameRuns<T(!new)>(ys: seq<T>, zs: seq<T>, rank: T -> Rank)
    requires SortedBy(ys, rank) && SortedBy(zs, rank) && forall k :: With(ys, rank, k) == With(zs, rank, k)
    ensures ys == zs
  {
    if ys == [] {
      if zs != [] {
        LeastFirst(zs, ys, rank);
      }
    } else {
      LeastFirst(ys, zs, rank);
      SameRuns(ys[1..], zs[1..], rank);
      assert ys == [ys[0]] + ys[1..] && zs == [zs[0]] + zs[1..];
    }
  }

  /** Nothing else is a stable sort: the result is determined. */
  lemma StableSortIsUnique<T(!new)>(ys: seq<T>, zs: seq<T>, xs: seq<T>, rank: T -> Rank)
    requires IsStableSort(ys, xs, rank) && IsStableSort(zs, xs, rank)
    ensures ys == zs
  {
    SameRuns(ys, zs, rank);
  }
}
