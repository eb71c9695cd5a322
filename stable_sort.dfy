/**
 * Array.prototype.sort as the solvers use it.  Every comparator in the
 * solvers is `(a, b) => key(a) - key(b)` for a numeric key that is either a
 * natural number or Infinity; Infinity - Infinity is NaN, which the sort
 * reads as "equal", so the comparator is the order of Cost below.  The sort
 * is stable (required since the 2019 edition of ECMA-262), so its result is
 * the unique arrangement that is sorted, is a permutation of the input and
 * keeps the input order among entries with equal keys (IsStableSortOf and
 * StableSortUnique).  SortBy and InsertBy construct that arrangement.
 */
module StableSort {

  /** A comparator key: a natural number, or Infinity, which is above every number. */
  datatype Cost = Finite(n: nat) | Infinity

  predicate CostLe(a: Cost, b: Cost) {
    b.Infinity? || (a.Finite? && a.n <= b.n)
  }

  predicate SortedBy<T>(xs: seq<T>, key: T -> Cost) {
    forall i, j :: 0 <= i < j < |xs| ==> CostLe(key(xs[i]), key(xs[j]))
  }

  /** The entries of xs whose key is k, in their order in xs. */
  function WithKey<T>(xs: seq<T>, key: T -> Cost, k: Cost): seq<T>
  {
    if xs == [] then []
    else WithKey(xs[..|xs| - 1], key, k) + (if key(xs[|xs| - 1]) == k then [xs[|xs| - 1]] else [])
  }

  /** ys is what a stable sort of xs by key leaves. */
  ghost predicate IsStableSortOf<T>(xs: seq<T>, ys: seq<T>, key: T -> Cost) {
    SortedBy(ys, key) && multiset(ys) == multiset(xs) &&
    forall k :: WithKey(ys, key, k) == WithKey(xs, key, k)
  }

  /** x placed after the last entry, counted from the right, whose key is not above x's. */
  function InsertBy<T>(xs: seq<T>, x: T, key: T -> Cost): (r: seq<T>)
    ensures |r| == |xs| + 1
  {
    if xs == [] || CostLe(key(xs[|xs| - 1]), key(x)) then xs + [x]
    else InsertBy(xs[..|xs| - 1], x, key) + [xs[|xs| - 1]]
  }

  /** Where InsertBy puts x. */
  function InsertionPoint<T>(xs: seq<T>, x: T, key: T -> Cost): (i: nat)
    ensures i <= |xs|
  {
    if xs == [] || CostLe(key(xs[|xs| - 1]), key(x)) then |xs|
    else InsertionPoint(xs[..|xs| - 1], x, key)
  }

  /** Insertion sort: each entry inserted, in input order, into the sorted prefix. */
  function SortBy<T>(xs: seq<T>, key: T -> Cost): (r: seq<T>)
    ensures |r| == |xs|
  {
    if xs == [] then []
    else InsertBy(SortBy(xs[..|xs| - 1], key), xs[|xs| - 1], key)
  }

  // ---------------------------------------------------------------------
  // Facts about the order and the filter

  lemma CostLeFacts(a: Cost, b: Cost, c: Cost)
    ensures CostLe(a, a)
    ensures CostLe(a, b) && CostLe(b, c) ==> CostLe(a, c)
    ensures CostLe(a, b) || CostLe(b, a)
    ensures CostLe(a, b) && CostLe(b, a) ==> a == b
  {
  }

  lemma WithKeySnoc<T>(xs: seq<T>, x: T, key: T -> Cost, k: Cost)
    ensures WithKey(xs + [x], key, k) == WithKey(xs, key, k) + (if key(x) == k then [x] else [])
  {
    assert (xs + [x])[..|xs|] == xs;
  }

  lemma {:induction false} WithKeyMember<T>(xs: seq<T>, key: T -> Cost, k: Cost, y: T)
    ensures y in WithKey(xs, key, k) <==> y in xs && key(y) == k
    decreases |xs|
  {
    if xs != [] {
      var pre := xs[..|xs| - 1];
      WithKeyMember(pre, key, k, y);
      assert xs == pre + [xs[|xs| - 1]];
    }
  }

  lemma SortedPrefix<T>(xs: seq<T>, key: T -> Cost)
    requires SortedBy(xs, key) && xs != []
    ensures SortedBy(xs[..|xs| - 1], key)
  {
    var pre := xs[..|xs| - 1];
    forall i, j | 0 <= i < j < |pre| ensures CostLe(key(pre[i]), key(pre[j])) {
      assert pre[i] == xs[i] && pre[j] == xs[j];
    }
  }

  /** The first entry of a sorted sequence has the least key: what dequeue relies on. */
  lemma FirstIsLeast<T>(xs: seq<T>, key: T -> Cost)
    requires SortedBy(xs, key) && xs != []
    ensures forall y :: y in xs ==> CostLe(key(xs[0]), key(y))
  {
    forall y | y in xs ensures CostLe(key(xs[0]), key(y)) {
      var i :| 0 <= i < |xs| && xs[i] == y;
      CostLeFacts(key(xs[0]), key(y), key(y));
    }
  }

  // ---------------------------------------------------------------------
  // InsertBy

  lemma {:induction false} InsertByPerm<T>(xs: seq<T>, x: T, key: T -> Cost)
    ensures multiset(InsertBy(xs, x, key)) == multiset(xs) + multiset{x}
    decreases |xs|
  {
    if xs != [] && !CostLe(key(xs[|xs| - 1]), key(x)) {
      var pre, last := xs[..|xs| - 1], xs[|xs| - 1];
      InsertByPerm(pre, x, key);
      assert xs == pre + [last];
    }
  }

  lemma InsertByMember<T>(xs: seq<T>, x: T, key: T -> Cost, y: T)
    ensures y in InsertBy(xs, x, key) <==> y in xs || y == x
  {
    InsertByPerm(xs, x, key);
    assert y in InsertBy(xs, x, key) <==> y in multiset(InsertBy(xs, x, key));
  }

  lemma {:induction false} InsertBySorted<T>(xs: seq<T>, x: T, key: T -> Cost)
    requires SortedBy(xs, key)
    ensures SortedBy(InsertBy(xs, x, key), key)
    decreases |xs|
  {
    var r := InsertBy(xs, x, key);
    if xs == [] {
    } else if CostLe(key(xs[|xs| - 1]), key(x)) {
      forall i, j | 0 <= i < j < |r| ensures CostLe(key(r[i]), key(r[j])) {
        if j == |xs| {
          CostLeFacts(key(xs[i]), key(xs[|xs| - 1]), key(x));
        } else {
          assert r[i] == xs[i] && r[j] == xs[j];
        }
      }
    } else {
      var pre, last := xs[..|xs| - 1], xs[|xs| - 1];
      SortedPrefix(xs, key);
      InsertBySorted(pre, x, key);
      var ins := InsertBy(pre, x, key);
      assert r == ins + [last];
      forall i, j | 0 <= i < j < |r| ensures CostLe(key(r[i]), key(r[j])) {
        if j == |ins| {
          assert r[i] == ins[i] && r[j] == last;
          InsertByMember(pre, x, key, ins[i]);
          CostLeFacts(key(x), key(last), key(last));
          if ins[i] != x {
            var k :| 0 <= k < |pre| && pre[k] == ins[i];
            assert xs[k] == ins[i];
          }
        } else {
          assert r[i] == ins[i] && r[j] == ins[j];
        }
      }
    }
  }

  lemma {:induction false} InsertByStable<T>(xs: seq<T>, x: T, key: T -> Cost, k: Cost)
    ensures WithKey(InsertBy(xs, x, key), key, k) == WithKey(xs + [x], key, k)
    decreases |xs|
  {
    if xs == [] || CostLe(key(xs[|xs| - 1]), key(x)) {
    } else {
      var pre, last := xs[..|xs| - 1], xs[|xs| - 1];
      var ins := InsertBy(pre, x, key);
      InsertByStable(pre, x, key, k);
      CostLeFacts(key(last), key(x), key(x));
      assert key(last) != key(x);
      WithKeySnoc(ins, last, key, k);
      WithKeySnoc(pre, x, key, k);
      WithKeySnoc(pre, last, key, k);
      WithKeySnoc(pre + [last], x, key, k);
      assert pre + [last] == xs;
    }
  }

  /** Pushing onto a sorted array and sorting it is InsertBy. */
  lemma InsertByIsStableSort<T>(xs: seq<T>, x: T, key: T -> Cost)
    requires SortedBy(xs, key)
    ensures IsStableSortOf(xs + [x], InsertBy(xs, x, key), key)
  {
    InsertBySorted(xs, x, key);
    InsertByPerm(xs, x, key);
    forall k ensures WithKey(InsertBy(xs, x, key), key, k) == WithKey(xs + [x], key, k) {
      InsertByStable(xs, x, key, k);
    }
  }

  /**
   * In a sorted sequence x goes in after every entry whose key is at most
   * x's, so after the entries of equal key, and before every entry whose
   * key is above x's.
   */
  lemma {:induction false} InsertByPlacement<T>(xs: seq<T>, x: T, key: T -> Cost)
    requires SortedBy(xs, key)
    ensures var i := InsertionPoint(xs, x, key);
      InsertBy(xs, x, key) == xs[..i] + [x] + xs[i..] &&
      (forall j :: 0 <= j < i ==> CostLe(key(xs[j]), key(x))) &&
      (forall j :: i <= j < |xs| ==> !CostLe(key(xs[j]), key(x)))
    decreases |xs|
  {
    if xs == [] {
    } else if CostLe(key(xs[|xs| - 1]), key(x)) {
      forall j | 0 <= j < |xs| ensures CostLe(key(xs[j]), key(x)) {
        CostLeFacts(key(xs[j]), key(xs[|xs| - 1]), key(x));
      }
      assert xs[..|xs|] == xs;
    } else {
      var pre, last := xs[..|xs| - 1], xs[|xs| - 1];
      SortedPrefix(xs, key);
      InsertByPlacement(pre, x, key);
      var i := InsertionPoint(pre, x, key);
      assert InsertionPoint(xs, x, key) == i;
      assert xs[..i] == pre[..i];
      assert xs[i..] == pre[i..] + [last];
      forall j | i <= j < |xs| ensures !CostLe(key(xs[j]), key(x)) {
        if j < |pre| {
          assert xs[j] == pre[j];
        }
      }
    }
  }

  // ---------------------------------------------------------------------
  // SortBy and uniqueness

  lemma {:induction false} SortByIsStableSort<T>(xs: seq<T>, key: T -> Cost)
    ensures IsStableSortOf(xs, SortBy(xs, key), key)
    decreases |xs|
  {
    if xs != [] {
      var pre, last := xs[..|xs| - 1], xs[|xs| - 1];
      var s := SortBy(pre, key);
      SortByIsStableSort(pre, key);
      InsertByIsStableSort(s, last, key);
      assert xs == pre + [last];
      forall k ensures WithKey(SortBy(xs, key), key, k) == WithKey(xs, key, k) {
        WithKeySnoc(s, last, key, k);
        WithKeySnoc(pre, last, key, k);
      }
    }
  }

  /** Two sorted sequences with the same entries of every key, in the same order, are equal. */
  lemma {:induction false} SameFiltersSame<T>(ys: seq<T>, zs: seq<T>, key: T -> Cost)
    requires SortedBy(ys, key) && SortedBy(zs, key)
    requires forall k :: WithKey(ys, key, k) == WithKey(zs, key, k)
    ensures ys == zs
    decreases |ys| + |zs|
  {
    if ys == [] {
      NoEntries(zs, key);
    } else if zs == [] {
      NoEntries(ys, key);
    } else {
      var ys', y := ys[..|ys| - 1], ys[|ys| - 1];
      var zs', z := zs[..|zs| - 1], zs[|zs| - 1];
      assert ys == ys' + [y] && zs == zs' + [z];
      LastIsGreatest(ys, key, z);
      LastIsGreatest(zs, key, y);
      CostLeFacts(key(y), key(z), key(z));
      var K := key(y);
      assert key(z) == K;
      WithKeySnoc(ys', y, key, K);
      WithKeySnoc(zs', z, key, K);
      var fy, fz := WithKey(ys, key, K), WithKey(zs, key, K);
      assert fy == fz;
      assert fy[|fy| - 1] == y && fz[|fz| - 1] == z;
      forall k ensures WithKey(ys', key, k) == WithKey(zs', key, k) {
        WithKeySnoc(ys', y, key, k);
        WithKeySnoc(zs', z, key, k);
        assert WithKey(ys, key, k) == WithKey(zs, key, k);
        var a, b := WithKey(ys', key, k), WithKey(zs', key, k);
        if key(y) == k {
          assert WithKey(ys, key, k) == a + [y] && WithKey(zs, key, k) == b + [y];
          assert a == (a + [y])[..|a|] && b == (b + [y])[..|b|];
        } else {
          assert WithKey(ys, key, k) == a && WithKey(zs, key, k) == b;
        }
      }
      SortedPrefix(ys, key);
      SortedPrefix(zs, key);
      SameFiltersSame(ys', zs', key);
    }
  }

  /** A sequence with no entry of any key is empty. */
  lemma NoEntries<T>(xs: seq<T>, key: T -> Cost)
    requires forall k :: WithKey(xs, key, k) == []
    ensures xs == []
  {
    if xs != [] {
      var x := xs[|xs| - 1];
      WithKeyMember(xs, key, key(x), x);
      assert false;
    }
  }

  /** An entry of the other sequence has a key at most the last key of ys. */
  lemma LastIsGreatest<T>(ys: seq<T>, key: T -> Cost, z: T)
    requires SortedBy(ys, key) && ys != []
    requires WithKey(ys, key, key(z)) != []
    ensures CostLe(key(z), key(ys[|ys| - 1]))
  {
    var w := WithKey(ys, key, key(z))[0];
    WithKeyMember(ys, key, key(z), w);
    var i :| 0 <= i < |ys| && ys[i] == w;
    CostLeFacts(key(w), key(w), key(w));
  }

  /** A stable sort's result is unique. */
  lemma StableSortUnique<T>(xs: seq<T>, ys: seq<T>, zs: seq<T>, key: T -> Cost)
    requires IsStableSortOf(xs, ys, key) && IsStableSortOf(xs, zs, key)
    ensures ys == zs
  {
    SameFiltersSame(ys, zs, key);
  }

  /** So pushing onto a sorted sequence and sorting it all again is InsertBy. */
  lemma SortSnocIsInsert<T>(xs: seq<T>, x: T, key: T -> Cost)
    requires SortedBy(xs, key)
    ensures SortBy(xs + [x], key) == InsertBy(xs, x, key)
  {
    SortByIsStableSort(xs + [x], key);
    InsertByIsStableSort(xs, x, key);
    StableSortUnique(xs + [x], SortBy(xs + [x], key), InsertBy(xs, x, key), key);
  }
}
