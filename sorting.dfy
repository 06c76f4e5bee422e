/** The stable sort that ECMA-262 (since its 2019 edition) requires of
    `Array.prototype.sort`, for a comparator returning a negative, zero or
    positive number. It is modelled as insertion sort: `SortUnique` shows that
    for a consistent comparator every stable sort yields the same sequence, so
    the choice of algorithm is invisible. */
module Sorting {
  import opened Lists

  function Sign(x: int): int {
    if x < 0 then -1 else if x > 0 then 1 else 0
  }

  /** Swapping the arguments flips the sign of the comparison. */
  ghost predicate Flips<T>(cmp: (T, T) -> int, a: T, b: T) {
    Sign(cmp(a, b)) == -Sign(cmp(b, a))
  }

  /** "Not after" carries over from `a, b` and `b, c` to `a, c`. */
  ghost predicate Chains<T>(cmp: (T, T) -> int, a: T, b: T, c: T) {
    cmp(a, b) <= 0 && cmp(b, c) <= 0 ==> cmp(a, c) <= 0
  }

  /** What ECMA-262 calls a consistent comparator: swapping the arguments flips
      the sign, and "not after" is transitive. */
  ghost predicate Consistent<T(!new)>(cmp: (T, T) -> int) {
    && (forall a, b :: Flips(cmp, a, b))
    && (forall a, b, c :: Chains(cmp, a, b, c))
  }

  lemma Flip<T(!new)>(cmp: (T, T) -> int, a: T, b: T)
    requires Consistent(cmp)
    ensures Sign(cmp(a, b)) == -Sign(cmp(b, a))
  {
    assert Flips(cmp, a, b);
  }

  lemma Chain<T(!new)>(cmp: (T, T) -> int, a: T, b: T, c: T)
    requires Consistent(cmp) && cmp(a, b) <= 0 && cmp(b, c) <= 0
    ensures cmp(a, c) <= 0
  {
    assert Chains(cmp, a, b, c);
  }

  /** No element is placed after an element that the comparator puts before it. */
  ghost predicate Sorted<T>(s: seq<T>, cmp: (T, T) -> int) {
    forall i, j :: 0 <= i < j < |s| ==> cmp(s[i], s[j]) <= 0
  }

  /** The test "compares equal to x". */
  function TieWith<T>(cmp: (T, T) -> int, x: T): T -> bool {
    y => cmp(x, y) == 0
  }

  /** The elements of `s` that compare equal to `x`, in the order of `s`. */
  function Ties<T>(cmp: (T, T) -> int, x: T, s: seq<T>): seq<T> {
    Filter(TieWith(cmp, x), s)
  }

  /** Inserts `x` after the last element of the sorted `s` that is not after it. */
  function Insert<T>(s: seq<T>, x: T, cmp: (T, T) -> int): (r: seq<T>)
    ensures |r| == |s| + 1
  {
    if s == [] || cmp(s[|s| - 1], x) <= 0 then s + [x]
    else Insert(s[..|s| - 1], x, cmp) + [s[|s| - 1]]
  }

  /** Insertion sort, inserting the elements from first to last. */
  function Sort<T>(s: seq<T>, cmp: (T, T) -> int): (r: seq<T>)
    ensures |r| == |s|
  {
    if s == [] then [] else Insert(Sort(s[..|s| - 1], cmp), s[|s| - 1], cmp)
  }

  lemma {:induction false} InsertMultiset<T>(s: seq<T>, x: T, cmp: (T, T) -> int)
    ensures multiset(Insert(s, x, cmp)) == multiset(s) + multiset{x}
  {
    if s != [] && cmp(s[|s| - 1], x) > 0 {
      assert s == s[..|s| - 1] + [s[|s| - 1]];
      InsertMultiset(s[..|s| - 1], x, cmp);
    }
  }

  /** The sort is a permutation of its input. */
  lemma {:induction false} SortMultiset<T>(s: seq<T>, cmp: (T, T) -> int)
    ensures multiset(Sort(s, cmp)) == multiset(s)
  {
    if s != [] {
      assert s == s[..|s| - 1] + [s[|s| - 1]];
      SortMultiset(s[..|s| - 1], cmp);
      InsertMultiset(Sort(s[..|s| - 1], cmp), s[|s| - 1], cmp);
    }
  }

  /** The sort holds the same elements as its input. */
  lemma SortMembers<T>(s: seq<T>, cmp: (T, T) -> int)
    ensures forall x :: x in Sort(s, cmp) <==> x in s
  {
    SortMultiset(s, cmp);
    forall x ensures x in Sort(s, cmp) <==> x in s {
      assert x in Sort(s, cmp) <==> x in multiset(Sort(s, cmp));
      assert x in s <==> x in multiset(s);
    }
  }

  lemma Reflexive<T(!new)>(cmp: (T, T) -> int, x: T)
    requires Consistent(cmp)
    ensures cmp(x, x) == 0
  {
    Flip(cmp, x, x);
  }

  lemma {:induction false} InsertSorted<T(!new)>(s: seq<T>, x: T, cmp: (T, T) -> int)
    requires Consistent(cmp) && Sorted(s, cmp)
    ensures Sorted(Insert(s, x, cmp), cmp)
    decreases |s|
  {
    if s == [] || cmp(s[|s| - 1], x) <= 0 {
      var r := s + [x];
      forall i, j | 0 <= i < j < |r| ensures cmp(r[i], r[j]) <= 0 {
        if j == |s| && i < |s| - 1 {
          Chain(cmp, s[i], s[|s| - 1], x);
        }
      }
    } else {
      var init, last := s[..|s| - 1], s[|s| - 1];
      assert Sorted(init, cmp);
      InsertSorted(init, x, cmp);
      var p := Insert(init, x, cmp);
      InsertMultiset(init, x, cmp);
      Flip(cmp, last, x);
      forall e | e in p ensures cmp(e, last) <= 0 {
        assert e in multiset(p);
        if e != x {
          assert e in multiset(init);
          var k :| 0 <= k < |init| && init[k] == e;
          assert cmp(s[k], s[|s| - 1]) <= 0;
        }
      }
      var r := p + [last];
      assert Insert(s, x, cmp) == r;
      forall i, j | 0 <= i < j < |r| ensures cmp(r[i], r[j]) <= 0 {
        if j == |p| {
          assert r[i] in p;
        }
      }
    }
  }

  /** The sort orders its result by the comparator. */
  lemma {:induction false} SortSorted<T(!new)>(s: seq<T>, cmp: (T, T) -> int)
    requires Consistent(cmp)
    ensures Sorted(Sort(s, cmp), cmp)
  {
    if s != [] {
      SortSorted(s[..|s| - 1], cmp);
      InsertSorted(Sort(s[..|s| - 1], cmp), s[|s| - 1], cmp);
    }
  }

  /** Inserting `x` adds it to the end of the run of elements equal to it. */
  lemma {:induction false} InsertTies<T(!new)>(s: seq<T>, x: T, y: T, cmp: (T, T) -> int)
    requires Consistent(cmp)
    ensures Ties(cmp, y, Insert(s, x, cmp)) == Ties(cmp, y, s) + Ties(cmp, y, [x])
    decreases |s|
  {
    var f := TieWith(cmp, y);
    if s == [] || cmp(s[|s| - 1], x) <= 0 {
      FilterConcat(f, s, [x]);
    } else {
      var init, last := s[..|s| - 1], s[|s| - 1];
      assert s == init + [last];
      InsertTies(init, x, y, cmp);
      FilterConcat(f, Insert(init, x, cmp), [last]);
      FilterConcat(f, init, [last]);
      FilterSingleton(f, x);
      FilterSingleton(f, last);
      if cmp(y, x) == 0 && cmp(y, last) == 0 {
        Flip(cmp, y, last);
        Chain(cmp, last, y, x);
        assert false;
      }
    }
  }

  /** Stability: the elements equal to any `y` keep their relative order. */
  lemma {:induction false} SortStable<T(!new)>(s: seq<T>, y: T, cmp: (T, T) -> int)
    requires Consistent(cmp)
    ensures Ties(cmp, y, Sort(s, cmp)) == Ties(cmp, y, s)
  {
    if s != [] {
      var init, last := s[..|s| - 1], s[|s| - 1];
      assert s == init + [last];
      SortStable(init, y, cmp);
      InsertTies(Sort(init, cmp), last, y, cmp);
      FilterConcat(TieWith(cmp, y), init, [last]);
    }
  }

  /** In a sorted sequence no element is after the last one. */
  lemma LastIsGreatest<T(!new)>(p: seq<T>, x: T, cmp: (T, T) -> int)
    requires Consistent(cmp) && Sorted(p, cmp) && x in multiset(p)
    ensures cmp(x, p[|p| - 1]) <= 0
  {
    var i :| 0 <= i < |p| && p[i] == x;
    if i == |p| - 1 {
      Reflexive(cmp, x);
    }
  }

  /** If two nonempty sequences end in elements equal to each other and agree
      on the elements equal to the first, they end in the same element. */
  lemma SameLast<T(!new)>(p: seq<T>, q: seq<T>, cmp: (T, T) -> int)
    requires Consistent(cmp) && p != [] && q != []
    requires cmp(p[|p| - 1], q[|q| - 1]) == 0
    requires Ties(cmp, p[|p| - 1], p) == Ties(cmp, p[|p| - 1], q)
    ensures p[|p| - 1] == q[|q| - 1]
  {
    var pl, ql := p[|p| - 1], q[|q| - 1];
    var p', q' := p[..|p| - 1], q[..|q| - 1];
    assert p == p' + [pl] && q == q' + [ql];
    Reflexive(cmp, pl);
    var f := TieWith(cmp, pl);
    FilterSnoc(f, p', pl);
    FilterSnoc(f, q', ql);
    var tp, tq := Filter(f, p'), Filter(f, q');
    assert tp + [pl] == tq + [ql];
    assert |tp| == |tq|;
    assert (tp + [pl])[|tp|] == pl;
  }

  lemma CancelSuffix<T>(a: seq<T>, b: seq<T>, t: seq<T>)
    requires a + t == b + t
    ensures a == b
  {
    assert |a| == |b|;
    assert a == (a + t)[..|a|];
    assert b == (b + t)[..|b|];
  }

  /** Removing the same last element keeps every class of equal elements in agreement. */
  lemma TiesDropLast<T(!new)>(p': seq<T>, q': seq<T>, l: T, cmp: (T, T) -> int)
    requires forall y :: Ties(cmp, y, p' + [l]) == Ties(cmp, y, q' + [l])
    ensures forall y :: Ties(cmp, y, p') == Ties(cmp, y, q')
  {
    forall y ensures Ties(cmp, y, p') == Ties(cmp, y, q') {
      FilterSnoc(TieWith(cmp, y), p', l);
      FilterSnoc(TieWith(cmp, y), q', l);
      assert Ties(cmp, y, p' + [l]) == Ties(cmp, y, q' + [l]);
      CancelSuffix(Ties(cmp, y, p'), Ties(cmp, y, q'), if cmp(y, l) == 0 then [l] else []);
    }
  }

  /** Two permutations of each other, both sorted, that agree on the elements
      equal to the last of `p`, end in the same element. */
  lemma LastAgree<T(!new)>(p: seq<T>, q: seq<T>, cmp: (T, T) -> int)
    requires Consistent(cmp) && p != [] && multiset(p) == multiset(q)
    requires Sorted(p, cmp) && Sorted(q, cmp)
    requires Ties(cmp, p[|p| - 1], p) == Ties(cmp, p[|p| - 1], q)
    ensures |q| == |p| && q[|q| - 1] == p[|p| - 1]
  {
    assert |p| == |multiset(p)| == |q|;
    var l, m := p[|p| - 1], q[|q| - 1];
    assert m in multiset(q) && l in multiset(p);
    LastIsGreatest(p, m, cmp);
    LastIsGreatest(q, l, cmp);
    Flip(cmp, l, m);
    SameLast(p, q, cmp);
  }

  lemma SortedPrefix<T>(p: seq<T>, k: nat, cmp: (T, T) -> int)
    requires Sorted(p, cmp) && k <= |p|
    ensures Sorted(p[..k], cmp)
  {
  }

  lemma MultisetDropLast<T>(p: seq<T>, q: seq<T>)
    requires p != [] && multiset(p) == multiset(q) && |q| == |p| && q[|q| - 1] == p[|p| - 1]
    ensures multiset(p[..|p| - 1]) == multiset(q[..|q| - 1])
  {
    var n := |p|;
    assert p == p[..n - 1] + [p[n - 1]];
    assert q == q[..n - 1] + [q[n - 1]];
    assert multiset(p[..n - 1]) == multiset(p) - multiset{p[n - 1]};
    assert multiset(q[..n - 1]) == multiset(q) - multiset{q[n - 1]};
  }

  /** A sorted, stable rearrangement is unique: any two sequences that are
      permutations of each other, both sorted, and agree on the order of every
      class of equal elements, are the same sequence. */
  lemma {:induction false} SortUnique<T(!new)>(p: seq<T>, q: seq<T>, cmp: (T, T) -> int)
    requires Consistent(cmp)
    requires multiset(p) == multiset(q)
    requires Sorted(p, cmp) && Sorted(q, cmp)
    requires forall y :: Ties(cmp, y, p) == Ties(cmp, y, q)
    ensures p == q
    decreases |p|
  {
    assert |p| == |multiset(p)| == |q|;
    if p != [] {
      var n := |p|;
      var l := p[n - 1];
      assert Ties(cmp, l, p) == Ties(cmp, l, q);
      LastAgree(p, q, cmp);
      var p', q' := p[..n - 1], q[..n - 1];
      assert p == p' + [l] && q == q' + [l];
      MultisetDropLast(p, q);
      TiesDropLast(p', q', l, cmp);
      SortedPrefix(p, n - 1, cmp);
      SortedPrefix(q, n - 1, cmp);
      SortUnique(p', q', cmp);
    }
  }

  /** Whatever a stable sort returns is what `Sort` returns. */
  lemma StableSortIsSort<T(!new)>(s: seq<T>, r: seq<T>, cmp: (T, T) -> int)
    requires Consistent(cmp)
    requires multiset(r) == multiset(s) && Sorted(r, cmp)
    requires forall y :: Ties(cmp, y, r) == Ties(cmp, y, s)
    ensures r == Sort(s, cmp)
  {
    SortSorted(s, cmp);
    SortMultiset(s, cmp);
    forall y ensures Ties(cmp, y, r) == Ties(cmp, y, Sort(s, cmp)) {
      SortStable(s, y, cmp);
    }
    SortUnique(r, Sort(s, cmp), cmp);
  }

  lemma SortSnoc<T>(s: seq<T>, x: T, cmp: (T, T) -> int)
    ensures Sort(s + [x], cmp) == Insert(Sort(s, cmp), x, cmp)
  {
    assert (s + [x])[..|s|] == s;
  }

  /** One step of the shifting loop: moving past an element that belongs after `x`. */
  lemma InsertShift<T>(done: seq<T>, j: nat, x: T, cmp: (T, T) -> int)
    requires 0 < j <= |done| && cmp(done[j - 1], x) > 0
    ensures Insert(done[..j], x, cmp) + done[j..] == Insert(done[..j - 1], x, cmp) + done[j - 1..]
  {
    assert done[..j][..j - 1] == done[..j - 1];
    assert done[j - 1..] == [done[j - 1]] + done[j..];
  }

  lemma InsertStop<T>(done: seq<T>, j: nat, x: T, cmp: (T, T) -> int)
    requires j <= |done| && (j == 0 || cmp(done[j - 1], x) <= 0)
    ensures Insert(done[..j], x, cmp) == done[..j] + [x]
  {
  }

  /** A sequence that agrees with `d[..j] + [x] + d[j..]` at every index is it. */
  lemma Spliced<T>(b: seq<T>, d: seq<T>, j: nat, x: T)
    requires j <= |d| && |b| == |d| + 1 && b[j] == x
    requires forall k :: 0 <= k < j ==> b[k] == d[k]
    requires forall k :: j < k <= |d| ==> b[k] == d[k - 1]
    ensures b == d[..j] + [x] + d[j..]
  {
    var r := d[..j] + [x] + d[j..];
    assert forall k :: 0 <= k < |b| ==> b[k] == r[k];
  }

  /** Moves `a[i]` left past the elements of `a[..i]` that the comparator puts
      after it, the inner loop of insertion sort. */
  method InsertLast<T>(a: array<T>, i: nat, cmp: (T, T) -> int)
    requires i < a.Length
    modifies a
    ensures a[..i + 1] == Insert(old(a[..i]), old(a[i]), cmp)
    ensures forall k :: i < k < a.Length ==> a[k] == old(a[k])
  {
    var x := a[i];
    ghost var done := a[..i];
    var j := i;
    assert done[..j] == done && done[j..] == [];
    while j > 0 && cmp(a[j - 1], x) > 0
      invariant 0 <= j <= i
      invariant forall k :: 0 <= k < j ==> a[k] == done[k]
      invariant forall k :: j < k <= i ==> a[k] == done[k - 1]
      invariant forall k :: i < k < a.Length ==> a[k] == old(a[k])
      invariant Insert(done, x, cmp) == Insert(done[..j], x, cmp) + done[j..]
    {
      InsertShift(done, j, x, cmp);
      a[j] := a[j - 1];
      j := j - 1;
      assert a[j + 1] == done[j];
    }
    a[j] := x;
    Spliced(a[..i + 1], done, j, x);
    InsertStop(done, j, x, cmp);
  }

  /** Sorts the array in place by insertion. */
  method SortInPlace<T>(a: array<T>, cmp: (T, T) -> int)
    modifies a
    ensures a[..] == Sort(old(a[..]), cmp)
  {
    ghost var orig := a[..];
    var i := 0;
    while i < a.Length
      invariant 0 <= i <= a.Length
      invariant a[..i] == Sort(orig[..i], cmp)
      invariant forall k :: i <= k < a.Length ==> a[k] == orig[k]
    {
      InsertLast(a, i, cmp);
      SortSnoc(orig[..i], orig[i], cmp);
      assert orig[..i + 1] == orig[..i] + [orig[i]];
      i := i + 1;
    }
    assert a[..] == a[..a.Length];
    assert orig == orig[..a.Length];
  }

  /** Copies `s` into a fresh array and sorts it there, as `list.sort(cmp)`
      does to the fresh array that `filter` returns. */
  method SortedCopy<T>(s: seq<T>, cmp: (T, T) -> int) returns (r: seq<T>)
    ensures r == Sort(s, cmp)
  {
    if |s| == 0 {
      return [];
    }
    var a := new T[|s|](i requires 0 <= i < |s| => s[i]);
    assert a[..] == s;
    SortInPlace(a, cmp);
    r := a[..];
  }
}
