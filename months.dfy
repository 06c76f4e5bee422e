/** The month selector: the months it offers, the order it shows them in,
    and the month a selection stands for. */
module Months {
  import opened Lists
  import opened Text
  import opened Sorting
  import opened Transactions

  /** The selector value that stands for the month of today's date. */
  const CURRENT := "current"

  /** Code-point order of strings, the model of the default `sort()`, is a
      consistent comparator. */
  lemma LexConsistent()
    ensures Consistent(LexCompare)
  {
    forall a: string, b: string ensures Flips(LexCompare, a, b) {
      LexAntisymmetric(a, b);
    }
    forall a: string, b: string, c: string ensures Chains(LexCompare, a, b, c) {
      if LexCompare(a, b) <= 0 && LexCompare(b, c) <= 0 {
        LexTransitive(a, b, c);
      }
    }
  }

  /** Some record's date lies in month `m`. */
  predicate HasMonth(tx: seq<Transaction>, m: string) {
    exists i :: 0 <= i < |tx| && MonthKey(tx[i].date) == m
  }

  /** One more record adds its own month. */
  lemma HasMonthStep(tx: seq<Transaction>, i: int)
    requires 0 <= i < |tx|
    ensures forall m :: HasMonth(tx[..i + 1], m) <==> HasMonth(tx[..i], m) || m == MonthKey(tx[i].date)
  {
    var p, q := tx[..i], tx[..i + 1];
    forall m ensures HasMonth(q, m) <==> HasMonth(p, m) || m == MonthKey(tx[i].date) {
      if HasMonth(q, m) {
        var j :| 0 <= j < |q| && MonthKey(q[j].date) == m;
        if j < i {
          assert p[j] == q[j];
        }
      }
      if HasMonth(p, m) {
        var j :| 0 <= j < |p| && MonthKey(p[j].date) == m;
        assert q[j] == p[j];
      }
      assert q[i] == tx[i];
    }
  }

  predicate StrictlyAscending(s: seq<string>) {
    forall i, j :: 0 <= i < j < |s| ==> LexCompare(s[i], s[j]) < 0
  }

  /** A sorted sequence without duplicates is strictly ascending. */
  lemma SortedDistinctAscending(s: seq<string>)
    requires Sorted(s, LexCompare) && Distinct(s)
    ensures StrictlyAscending(s)
  {
    forall i, j | 0 <= i < j < |s| ensures LexCompare(s[i], s[j]) < 0 {
      LexZeroIffEqual(s[i], s[j]);
    }
  }

  /** The distinct non-empty month keys of the records, in order of first
      appearance, as `new Set(...)` keeps them. */
  method MonthKeys(tx: seq<Transaction>) returns (keys: seq<string>)
    ensures Distinct(keys)
    ensures forall m :: m in keys <==> m != "" && HasMonth(tx, m)
  {
    keys := [];
    var i := 0;
    while i < |tx|
      invariant 0 <= i <= |tx|
      invariant Distinct(keys)
      invariant forall m :: m in keys <==> m != "" && HasMonth(tx[..i], m)
    {
      var k := MonthKey(tx[i].date);
      if k != "" && k !in keys {
        keys := keys + [k];
      }
      HasMonthStep(tx, i);
      i := i + 1;
    }
    assert tx[..i] == tx;
  }

  /** Sorting a list without duplicates gives a strictly ascending list of the same strings. */
  lemma SortSet(s: seq<string>)
    requires Distinct(s)
    ensures StrictlyAscending(Sort(s, LexCompare)) && Distinct(Sort(s, LexCompare))
    ensures forall m :: m in Sort(s, LexCompare) <==> m in s
  {
    var r := Sort(s, LexCompare);
    SortMultiset(s, LexCompare);
    LexConsistent();
    SortSorted(s, LexCompare);
    DistinctPermutation(s, r);
    SortedDistinctAscending(r);
    forall m ensures m in r <==> m in s {
      assert m in r <==> m in multiset(r);
      assert m in s <==> m in multiset(s);
    }
  }

  /** `buildMonthFilter`'s list: the records' months and the current month,
      without duplicates, in ascending order. */
  method AvailableMonths(tx: seq<Transaction>, today: string) returns (months: seq<string>)
    ensures StrictlyAscending(months)
    ensures MonthKey(today) in months
    ensures forall m :: m in months <==> m == MonthKey(today) || (m != "" && HasMonth(tx, m))
  {
    var keys := MonthKeys(tx);
    var sorted := SortedCopy(keys, LexCompare);
    SortSet(keys);
    var current := MonthKey(today);
    if current !in sorted {
      sorted := sorted + [current];
    }
    assert Distinct(sorted);
    months := SortedCopy(sorted, LexCompare);
    SortSet(sorted);
  }

  /** The order the options are shown in: newest month first. */
  function Presented(months: seq<string>): seq<string> {
    Reverse(months)
  }

  /** Shown in reverse, an ascending month list is strictly descending and
      offers the same months. */
  lemma PresentedDescending(months: seq<string>)
    requires StrictlyAscending(months)
    ensures forall i, j :: 0 <= i < j < |months| ==> LexCompare(Presented(months)[i], Presented(months)[j]) > 0
    ensures forall m :: m in Presented(months) <==> m in months
  {
    var r := Presented(months);
    forall i, j | 0 <= i < j < |r| ensures LexCompare(r[i], r[j]) > 0 {
      ReversedPair(months, i, j);
    }
    PresentedSame(months);
  }

  lemma ReversedPair(months: seq<string>, i: int, j: int)
    requires StrictlyAscending(months) && 0 <= i < j < |months|
    ensures LexCompare(Presented(months)[i], Presented(months)[j]) > 0
  {
    var n := |months|;
    var r := Reverse(months);
    var a, b := months[n - 1 - j], months[n - 1 - i];
    assert r[i] == b && r[j] == a;
    assert LexCompare(a, b) < 0;
    LexAntisymmetric(a, b);
    assert LexCompare(r[i], r[j]) > 0;
  }

  lemma PresentedSame(months: seq<string>)
    ensures forall m :: m in Presented(months) <==> m in months
  {
    var r := Presented(months);
    var n := |months|;
    forall m ensures m in r <==> m in months {
      if m in months {
        var k :| 0 <= k < n && months[k] == m;
        assert r[n - 1 - k] == m;
      }
    }
  }

  /** `getActiveMonth`: the sentinel stands for the month of today's date, any
      other selection is used as it is. */
  function ActiveMonth(selection: string, today: string): (m: string)
    ensures selection == CURRENT ==> m == MonthKey(today)
    ensures selection != CURRENT ==> m == selection
  {
    if selection == CURRENT then MonthKey(today) else selection
  }
}
