/** Sequence helpers shared by the tracker model: Option, the order-keeping
    filter that Array.prototype.filter performs, reversal and distinctness. */
module Lists {

  datatype Option<T> = None | Some(value: T)

  /** The elements of `s` that satisfy `f`, in their original order. */
  function Filter<T>(f: T -> bool, s: seq<T>): (r: seq<T>)
    ensures |r| <= |s|
  {
    if s == [] then [] else (if f(s[0]) then [s[0]] else []) + Filter(f, s[1..])
  }

  /** How often the filter keeps each element: as often as it occurs if it passes, never otherwise. */
  lemma {:induction false} FilterCount<T>(f: T -> bool, s: seq<T>)
    ensures forall x :: multiset(Filter(f, s))[x] == if f(x) then multiset(s)[x] else 0
  {
    if s != [] {
      FilterCount(f, s[1..]);
      var h := if f(s[0]) then [s[0]] else [];
      var t := Filter(f, s[1..]);
      assert Filter(f, s) == h + t;
      assert s == [s[0]] + s[1..];
      forall x ensures multiset(Filter(f, s))[x] == if f(x) then multiset(s)[x] else 0 {
        assert multiset(Filter(f, s))[x] == multiset(h)[x] + multiset(t)[x];
        assert multiset(s)[x] == multiset([s[0]])[x] + multiset(s[1..])[x];
      }
    }
  }

  /** The filter keeps exactly the elements that pass, each as often as it occurs. */
  lemma FilterMultiset<T>(f: T -> bool, s: seq<T>)
    ensures multiset(Filter(f, s)) <= multiset(s)
    ensures forall x :: x in multiset(Filter(f, s)) ==> f(x)
    ensures forall x :: x in multiset(s) && f(x) ==> multiset(Filter(f, s))[x] == multiset(s)[x]
  {
    FilterCount(f, s);
  }

  /** An element is kept exactly when it occurs in `s` and passes `f`. */
  lemma FilterMembers<T>(f: T -> bool, s: seq<T>)
    ensures forall i :: 0 <= i < |Filter(f, s)| ==> Filter(f, s)[i] in s && f(Filter(f, s)[i])
    ensures forall i :: 0 <= i < |s| && f(s[i]) ==> s[i] in Filter(f, s)
  {
    FilterMultiset(f, s);
    var r := Filter(f, s);
    forall i | 0 <= i < |r| ensures r[i] in s && f(r[i]) {
      assert r[i] in multiset(r);
    }
    forall i | 0 <= i < |s| && f(s[i]) ensures s[i] in r {
      assert s[i] in multiset(s);
      assert multiset(r)[s[i]] > 0;
    }
  }

  lemma FilterSingleton<T>(f: T -> bool, x: T)
    ensures Filter(f, [x]) == if f(x) then [x] else []
  {
    assert [x][1..] == [];
  }

  /** Filtering distributes over concatenation: relative order is kept. */
  lemma {:induction false} FilterConcat<T>(f: T -> bool, a: seq<T>, b: seq<T>)
    ensures Filter(f, a + b) == Filter(f, a) + Filter(f, b)
  {
    if a == [] {
      assert a + b == b;
    } else {
      var ab := a + b;
      assert ab[0] == a[0] && ab[1..] == a[1..] + b;
      FilterConcat(f, a[1..], b);
      var h := if f(a[0]) then [a[0]] else [];
      assert Filter(f, ab) == h + Filter(f, a[1..] + b);
      assert Filter(f, a) == h + Filter(f, a[1..]);
    }
  }

  /** Appending one element: the filter of `s + [x]` extends that of `s` by `x` if `x` passes. */
  lemma FilterSnoc<T>(f: T -> bool, s: seq<T>, x: T)
    ensures Filter(f, s + [x]) == Filter(f, s) + (if f(x) then [x] else [])
  {
    FilterConcat(f, s, [x]);
    FilterSingleton(f, x);
  }

  /** A filter that every element passes changes nothing. */
  lemma {:induction false} FilterAll<T>(f: T -> bool, s: seq<T>)
    requires forall i :: 0 <= i < |s| ==> f(s[i])
    ensures Filter(f, s) == s
  {
    if s != [] {
      FilterAll(f, s[1..]);
    }
  }

  /** A filter that no element passes leaves nothing. */
  lemma {:induction false} FilterNone<T>(f: T -> bool, s: seq<T>)
    requires forall i :: 0 <= i < |s| ==> !f(s[i])
    ensures Filter(f, s) == []
  {
    if s != [] {
      FilterNone(f, s[1..]);
    }
  }

  /** Two filters in a row are one filter by the conjunction. */
  lemma {:induction false} FilterFilter<T>(f: T -> bool, g: T -> bool, h: T -> bool, s: seq<T>)
    requires forall x :: h(x) == (f(x) && g(x))
    ensures Filter(g, Filter(f, s)) == Filter(h, s)
  {
    if s != [] {
      FilterFilter(f, g, h, s[1..]);
      var head := if f(s[0]) then [s[0]] else [];
      FilterConcat(g, head, Filter(f, s[1..]));
      if f(s[0]) {
        FilterSingleton(g, s[0]);
      }
    }
  }

  function Reverse<T>(s: seq<T>): (r: seq<T>)
    ensures |r| == |s|
    ensures forall i :: 0 <= i < |s| ==> r[i] == s[|s| - 1 - i]
  {
    if s == [] then [] else Reverse(s[1..]) + [s[0]]
  }

  predicate Distinct<T(==)>(s: seq<T>) {
    forall i, j :: 0 <= i < j < |s| ==> s[i] != s[j]
  }

  lemma {:induction false} DistinctCount<T>(s: seq<T>, x: T)
    requires Distinct(s)
    ensures multiset(s)[x] <= 1
  {
    if s != [] {
      var init := s[..|s| - 1];
      assert s == init + [s[|s| - 1]];
      assert Distinct(init);
      DistinctCount(init, x);
      assert s[|s| - 1] !in init;
    }
  }

  /** Rearranging a sequence without duplicates leaves it without duplicates. */
  lemma DistinctPermutation<T>(s: seq<T>, t: seq<T>)
    requires Distinct(s) && multiset(s) == multiset(t)
    ensures Distinct(t)
  {
    forall i, j | 0 <= i < j < |t| ensures t[i] != t[j] {
      if t[i] == t[j] {
        var x := t[i];
        assert t == t[..j] + [t[j]] + t[j + 1..];
        assert x in t[..j];
        assert multiset(t)[x] >= 2;
        DistinctCount(s, x);
        assert false;
      }
    }
  }
}
