/** The month summary (income, expense, balance) and the per-category expense
    totals that the bars and the advice are built from. */
module Aggregates {
  import opened Lists
  import opened Sorting
  import opened Transactions
  import opened Filters

  /** `reduce((s, t) => s + t.amount, 0)`: the amounts added up from the left. */
  function Sum(s: seq<Transaction>): int {
    if s == [] then 0 else Sum(s[..|s| - 1]) + s[|s| - 1].amount
  }

  lemma SumSnoc(s: seq<Transaction>, t: Transaction)
    ensures Sum(s + [t]) == Sum(s) + t.amount
  {
    assert (s + [t])[..|s|] == s;
  }

  /** The sum of a concatenation is the sum of the sums. */
  lemma {:induction false} SumConcat(a: seq<Transaction>, b: seq<Transaction>)
    ensures Sum(a + b) == Sum(a) + Sum(b)
    decreases |b|
  {
    if b == [] {
      assert a + b == a;
    } else {
      var b', l := b[..|b| - 1], b[|b| - 1];
      assert a + b == (a + b') + [l];
      SumConcat(a, b');
      SumSnoc(a + b', l);
    }
  }

  /** Amounts that are all at least zero add up to at least zero. */
  lemma {:induction false} SumNonNegative(s: seq<Transaction>)
    requires forall i :: 0 <= i < |s| ==> s[i].amount >= 0
    ensures Sum(s) >= 0
  {
    if s != [] {
      SumNonNegative(s[..|s| - 1]);
    }
  }

  /** `state.tx.filter(t => monthKey(t.date) === m)`. */
  function MonthTx(tx: seq<Transaction>, m: string): seq<Transaction> {
    Filter(InMonth(m), tx)
  }

  datatype Summary = Summary(income: int, expense: int, balance: int)

  /** `renderSummary`'s three figures for month `m`. */
  function Summarize(tx: seq<Transaction>, m: string): (r: Summary)
    ensures r.balance == r.income - r.expense
  {
    var monthTx := MonthTx(tx, m);
    var income := Sum(Filter(OfKind(INCOME), monthTx));
    var expense := Sum(Filter(OfKind(EXPENSE), monthTx));
    Summary(income, expense, income - expense)
  }

  /** A month without records shows zero income, expense and balance. */
  lemma SummaryOfEmptyMonth(tx: seq<Transaction>, m: string)
    requires forall i :: 0 <= i < |tx| ==> MonthKey(tx[i].date) != m
    ensures MonthTx(tx, m) == []
    ensures Summarize(tx, m) == Summary(0, 0, 0)
  {
    FilterNone(InMonth(m), tx);
  }

  /** The sum of one type's records grows by the amount of an appended record of that type. */
  lemma KindSumSnoc(s: seq<Transaction>, t: Transaction, kind: string)
    ensures Sum(Filter(OfKind(kind), s + [t])) == Sum(Filter(OfKind(kind), s)) + if t.kind == kind then t.amount else 0
  {
    var f := Filter(OfKind(kind), s);
    FilterSnoc(OfKind(kind), s, t);
    SumSnoc(f, t);
    assert f + [] == f;
  }

  /** Adding a record changes only its own month, and there only the figure of its type. */
  lemma SummaryAfterAdd(tx: seq<Transaction>, t: Transaction, m: string)
    ensures Summarize(tx + [t], m).income ==
      Summarize(tx, m).income + if MonthKey(t.date) == m && t.kind == INCOME then t.amount else 0
    ensures Summarize(tx + [t], m).expense ==
      Summarize(tx, m).expense + if MonthKey(t.date) == m && t.kind == EXPENSE then t.amount else 0
  {
    var monthTx := MonthTx(tx, m);
    FilterSnoc(InMonth(m), tx, t);
    if MonthKey(t.date) == m {
      KindSumSnoc(monthTx, t, INCOME);
      KindSumSnoc(monthTx, t, EXPENSE);
    } else {
      assert MonthTx(tx + [t], m) == monthTx;
    }
  }

  /** With no negative amounts stored, income and expense are never negative. */
  lemma SummaryNonNegative(tx: seq<Transaction>, m: string)
    requires AllWellFormed(tx)
    ensures Summarize(tx, m).income >= 0 && Summarize(tx, m).expense >= 0
  {
    var monthTx := MonthTx(tx, m);
    FilterMembers(InMonth(m), tx);
    NonNegativeFilter(tx, InMonth(m));
    NonNegativeFilter(monthTx, OfKind(INCOME));
    NonNegativeFilter(monthTx, OfKind(EXPENSE));
    SumNonNegative(Filter(OfKind(INCOME), monthTx));
    SumNonNegative(Filter(OfKind(EXPENSE), monthTx));
  }

  lemma NonNegativeFilter(s: seq<Transaction>, f: Transaction -> bool)
    requires forall i :: 0 <= i < |s| ==> s[i].amount >= 0
    ensures forall i :: 0 <= i < |Filter(f, s)| ==> Filter(f, s)[i].amount >= 0
  {
    FilterMembers(f, s);
    forall i | 0 <= i < |Filter(f, s)| ensures Filter(f, s)[i].amount >= 0 {
      var k :| 0 <= k < |s| && s[k] == Filter(f, s)[i];
    }
  }

  // ----- Category totals -----

  /** `renderBars`' single test: month `m` and type expense. */
  function IsMonthExpense(m: string): Transaction -> bool {
    (t: Transaction) => MonthKey(t.date) == m && t.kind == EXPENSE
  }

  /** The expense records of month `m`, as `renderBars` selects them. */
  function MonthExpenses(tx: seq<Transaction>, m: string): seq<Transaction> {
    Filter(IsMonthExpense(m), tx)
  }

  /** `renderBars` (one combined filter) and `renderAdvice` (month, then type)
      select the same records in the same order. */
  lemma BarsMatchAdvice(tx: seq<Transaction>, m: string)
    ensures MonthExpenses(tx, m) == Filter(OfKind(EXPENSE), MonthTx(tx, m))
  {
    FilterFilter(InMonth(m), OfKind(EXPENSE), IsMonthExpense(m), tx);
  }

  /** A record that is not an expense never reaches the category totals. */
  lemma IncomeNeverCounts(tx: seq<Transaction>, t: Transaction, m: string)
    requires t.kind != EXPENSE
    ensures MonthExpenses(tx + [t], m) == MonthExpenses(tx, m)
  {
    FilterSnoc(IsMonthExpense(m), tx, t);
  }

  function InCategory(c: string): Transaction -> bool {
    (t: Transaction) => t.category == c
  }

  /** The total of the records of category `c`. */
  function CategorySum(s: seq<Transaction>, c: string): int {
    Sum(Filter(InCategory(c), s))
  }

  lemma CategorySumSnoc(s: seq<Transaction>, t: Transaction, c: string)
    ensures CategorySum(s + [t], c) == CategorySum(s, c) + if t.category == c then t.amount else 0
  {
    var f := Filter(InCategory(c), s);
    FilterSnoc(InCategory(c), s, t);
    SumSnoc(f, t);
    assert f + [] == f;
  }

  predicate HasCategory(s: seq<Transaction>, c: string) {
    exists i :: 0 <= i < |s| && s[i].category == c
  }

  /** A category no record has totals zero. */
  lemma {:induction false} CategorySumAbsent(s: seq<Transaction>, c: string)
    requires !HasCategory(s, c)
    ensures CategorySum(s, c) == 0
  {
    if s != [] {
      var s' := s[..|s| - 1];
      assert s == s' + [s[|s| - 1]];
      assert !HasCategory(s', c);
      CategorySumAbsent(s', c);
      CategorySumSnoc(s', s[|s| - 1], c);
    }
  }

  /** The object's keys in the order they were first set: each category once,
      in order of its first record. */
  function Categories(s: seq<Transaction>): seq<string> {
    if s == [] then []
    else
      var cs := Categories(s[..|s| - 1]);
      var c := s[|s| - 1].category;
      if c in cs then cs else cs + [c]
  }

  lemma CategoriesSnoc(s: seq<Transaction>, t: Transaction)
    ensures Categories(s + [t]) == if t.category in Categories(s) then Categories(s) else Categories(s) + [t.category]
  {
    assert (s + [t])[..|s|] == s;
  }

  /** Each category of the records occurs exactly once. */
  lemma {:induction false} CategoriesSpec(s: seq<Transaction>)
    ensures Distinct(Categories(s))
    ensures forall c :: c in Categories(s) <==> HasCategory(s, c)
  {
    if s != [] {
      var s', t := s[..|s| - 1], s[|s| - 1];
      assert s == s' + [t];
      CategoriesSpec(s');
      forall c ensures HasCategory(s, c) <==> HasCategory(s', c) || c == t.category {
        if HasCategory(s, c) && c != t.category {
          var i :| 0 <= i < |s| && s[i].category == c;
          assert s'[i].category == c;
        }
        if HasCategory(s', c) {
          var i :| 0 <= i < |s'| && s'[i].category == c;
          assert s[i].category == c;
        }
      }
    }
  }

  /** `s[k]` is the first record of category `c`. */
  predicate FirstAt(s: seq<Transaction>, c: string, k: int) {
    0 <= k < |s| && s[k].category == c && forall i :: 0 <= i < k ==> s[i].category != c
  }

  /** A category that already has a record first occurs before a record appended after it. */
  lemma FirstInPrefix(s: seq<Transaction>, t: Transaction, c: string, k: int)
    requires HasCategory(s, c) && FirstAt(s + [t], c, k)
    ensures FirstAt(s, c, k)
  {
    var i :| 0 <= i < |s| && s[i].category == c;
    assert (s + [t])[i].category == c;
    forall i' | 0 <= i' < k ensures s[i'].category != c {
      assert (s + [t])[i'] == s[i'];
    }
  }

  /** The keys are in order of each category's first record: a key listed
      before another has its first record earlier. */
  lemma {:induction false} CategoriesOrder(s: seq<Transaction>, i: int, j: int, ki: int, kj: int)
    requires 0 <= i < j < |Categories(s)|
    requires FirstAt(s, Categories(s)[i], ki) && FirstAt(s, Categories(s)[j], kj)
    ensures ki < kj
  {
    var s', t := s[..|s| - 1], s[|s| - 1];
    assert s == s' + [t];
    var cs := Categories(s');
    CategoriesSpec(s');
    var ci, cj := Categories(s)[i], Categories(s)[j];
    if j < |cs| {
      assert ci == cs[i] && cj == cs[j];
      FirstInPrefix(s', t, ci, ki);
      FirstInPrefix(s', t, cj, kj);
      CategoriesOrder(s', i, j, ki, kj);
    } else {
      assert cj == t.category && cj !in cs && ci == cs[i];
      FirstInPrefix(s', t, ci, ki);
      assert !HasCategory(s', cj);
    }
  }

  /** One pair of `Object.entries(totals)`. */
  datatype Entry = Entry(category: string, total: int)

  /** Categories paired with their totals. */
  function EntriesFor(s: seq<Transaction>, cs: seq<string>): seq<Entry> {
    seq(|cs|, i requires 0 <= i < |cs| => Entry(cs[i], CategorySum(s, cs[i])))
  }

  /** `Object.entries(totals)` before sorting. */
  function EntriesOf(s: seq<Transaction>): seq<Entry> {
    EntriesFor(s, Categories(s))
  }

  /** The comparator `(a, b) => b[1] - a[1]`. */
  function ByTotalDesc(): (Entry, Entry) -> int {
    (a: Entry, b: Entry) => b.total - a.total
  }

  lemma ByTotalDescConsistent()
    ensures Consistent(ByTotalDesc())
  {
    var cmp := ByTotalDesc();
    forall a, b ensures Flips(cmp, a, b) {
    }
    forall a, b, c ensures Chains(cmp, a, b, c) {
    }
  }

  /** The entries sorted by descending total. */
  function Totals(s: seq<Transaction>): seq<Entry> {
    Sort(EntriesOf(s), ByTotalDesc())
  }

  /** The accumulation loop `totals[c] = (totals[c] || 0) + t.amount`, with
      the object's key order kept beside the map. */
  method CategoryTotals(s: seq<Transaction>) returns (totals: map<string, int>, keys: seq<string>)
    ensures keys == Categories(s)
    ensures forall c :: c in totals <==> c in keys
    ensures forall c :: c in totals ==> totals[c] == CategorySum(s, c)
  {
    totals, keys := map[], [];
    var i := 0;
    while i < |s|
      invariant 0 <= i <= |s|
      invariant keys == Categories(s[..i])
      invariant forall c :: c in totals <==> c in keys
      invariant forall c :: c in totals ==> totals[c] == CategorySum(s[..i], c)
    {
      var t := s[i];
      ghost var wasKey := t.category in totals;
      var before := if t.category in totals then totals[t.category] else 0;
      if t.category !in totals {
        keys := keys + [t.category];
      }
      totals := totals[t.category := before + t.amount];
      ghost var next := s[..i + 1];
      assert next == s[..i] + [t];
      CategoriesSnoc(s[..i], t);
      assert keys == Categories(next);
      forall c | c in totals ensures totals[c] == CategorySum(next, c) {
        CategorySumSnoc(s[..i], t, c);
        if c == t.category && !wasKey {
          CategoriesSpec(s[..i]);
          CategorySumAbsent(s[..i], c);
        }
      }
      i := i + 1;
    }
    assert s[..i] == s;
  }

  /** `Object.entries(totals).sort((a, b) => b[1] - a[1])`: the loop's totals
      listed in key order, then sorted by descending total. */
  method RankEntries(s: seq<Transaction>, totals: map<string, int>, keys: seq<string>)
    returns (entries: seq<Entry>)
    requires keys == Categories(s)
    requires forall c :: c in totals <==> c in keys
    requires forall c :: c in totals ==> totals[c] == CategorySum(s, c)
    ensures entries == Totals(s)
  {
    var pairs := seq(|keys|, i requires 0 <= i < |keys| && keys[i] in totals => Entry(keys[i], totals[keys[i]]));
    assert pairs == EntriesOf(s);
    entries := SortedCopy(pairs, ByTotalDesc());
  }

  /** `renderBars`' entries for month `m`. */
  method RenderBars(tx: seq<Transaction>, m: string) returns (entries: seq<Entry>)
    ensures entries == Totals(MonthExpenses(tx, m))
  {
    var monthTx := Filter(IsMonthExpense(m), tx);
    var totals, keys := CategoryTotals(monthTx);
    entries := RankEntries(monthTx, totals, keys);
  }

  /** `totals[c] || 0` after the loop is the category's sum. */
  lemma LookupIsCategorySum(s: seq<Transaction>, totals: map<string, int>, keys: seq<string>, c: string)
    requires keys == Categories(s)
    requires forall c :: c in totals <==> c in keys
    requires forall c :: c in totals ==> totals[c] == CategorySum(s, c)
    ensures (if c in totals then totals[c] else 0) == CategorySum(s, c)
  {
    if c !in totals {
      CategoriesSpec(s);
      CategorySumAbsent(s, c);
    }
  }

  /** The sum of the entries' totals. */
  function Total(es: seq<Entry>): int {
    if es == [] then 0 else Total(es[..|es| - 1]) + es[|es| - 1].total
  }

  lemma {:induction false} TotalConcat(a: seq<Entry>, b: seq<Entry>)
    ensures Total(a + b) == Total(a) + Total(b)
    decreases |b|
  {
    if b == [] {
      assert a + b == a;
    } else {
      var b', l := b[..|b| - 1], b[|b| - 1];
      assert a + b == (a + b') + [l];
      assert (a + b)[..|a + b| - 1] == a + b';
      TotalConcat(a, b');
    }
  }

  /** Reordering the entries does not change their sum. */
  lemma {:induction false} TotalPermutation(p: seq<Entry>, q: seq<Entry>)
    requires multiset(p) == multiset(q)
    ensures Total(p) == Total(q)
    decreases |p|
  {
    if p == [] {
      assert |q| == |multiset(q)| == 0;
    } else {
      var n, x := |p|, p[|p| - 1];
      assert x in multiset(q);
      var k :| 0 <= k < |q| && q[k] == x;
      var left, right := q[..k], q[k + 1..];
      assert q == left + [x] + right;
      assert p == p[..n - 1] + [x];
      assert multiset(q) == multiset(left) + multiset{x} + multiset(right);
      assert multiset(p[..n - 1]) == multiset(p) - multiset{x};
      assert multiset(left + right) == multiset(q) - multiset{x};
      TotalPermutation(p[..n - 1], left + right);
      TotalConcat(left + [x], right);
      TotalConcat(left, [x]);
      TotalConcat(left, right);
      assert [x][..0] == [];
    }
  }

  /** The category sums of the categories `cs`, added up. */
  function CatTotal(s: seq<Transaction>, cs: seq<string>): int {
    if cs == [] then 0 else CatTotal(s, cs[..|cs| - 1]) + CategorySum(s, cs[|cs| - 1])
  }

  lemma {:induction false} TotalEntriesFor(s: seq<Transaction>, cs: seq<string>)
    ensures Total(EntriesFor(s, cs)) == CatTotal(s, cs)
  {
    if cs != [] {
      assert EntriesFor(s, cs)[..|cs| - 1] == EntriesFor(s, cs[..|cs| - 1]);
      TotalEntriesFor(s, cs[..|cs| - 1]);
    }
  }

  lemma {:induction false} CatTotalEmpty(cs: seq<string>)
    ensures CatTotal([], cs) == 0
  {
    if cs != [] {
      CatTotalEmpty(cs[..|cs| - 1]);
    }
  }

  lemma {:induction false} CatTotalSnoc(s: seq<Transaction>, t: Transaction, cs: seq<string>)
    requires Distinct(cs)
    ensures CatTotal(s + [t], cs) == CatTotal(s, cs) + if t.category in cs then t.amount else 0
  {
    if cs != [] {
      var cs', c := cs[..|cs| - 1], cs[|cs| - 1];
      assert cs == cs' + [c];
      assert Distinct(cs');
      assert c !in cs';
      CatTotalSnoc(s, t, cs');
      CategorySumSnoc(s, t, c);
    }
  }

  /** Adding up the category sums over a list that names every category once gives the sum of all records. */
  lemma {:induction false} CatTotalAll(s: seq<Transaction>, cs: seq<string>)
    requires Distinct(cs)
    requires forall c :: HasCategory(s, c) ==> c in cs
    ensures CatTotal(s, cs) == Sum(s)
    decreases |s|
  {
    if s == [] {
      CatTotalEmpty(cs);
    } else {
      var s', t := s[..|s| - 1], s[|s| - 1];
      assert s == s' + [t];
      forall c | HasCategory(s', c) ensures c in cs {
        var i :| 0 <= i < |s'| && s'[i].category == c;
        assert s[i].category == c;
      }
      CatTotalAll(s', cs);
      CatTotalSnoc(s', t, cs);
      assert HasCategory(s, t.category) by {
        assert s[|s| - 1].category == t.category;
      }
    }
  }

  /** The category totals add up to the total of the records. */
  lemma TotalsSum(s: seq<Transaction>)
    ensures Total(Totals(s)) == Sum(s)
  {
    SortMultiset(EntriesOf(s), ByTotalDesc());
    TotalPermutation(Totals(s), EntriesOf(s));
    TotalEntriesFor(s, Categories(s));
    CategoriesSpec(s);
    CatTotalAll(s, Categories(s));
  }

  /** Every entry of the sorted list is an entry of the unsorted one, and back. */
  lemma TotalsMembers(s: seq<Transaction>)
    ensures forall x :: x in Totals(s) <==> x in EntriesOf(s)
  {
    var r, e := Totals(s), EntriesOf(s);
    SortMultiset(e, ByTotalDesc());
    forall x ensures x in r <==> x in e {
      assert x in r <==> x in multiset(r);
      assert x in e <==> x in multiset(e);
    }
  }

  /** Each entry's total is the sum of its category's records. */
  lemma TotalsAreSums(s: seq<Transaction>)
    ensures var r := Totals(s);
      forall i :: 0 <= i < |r| ==> r[i].total == CategorySum(s, r[i].category) && HasCategory(s, r[i].category)
  {
    var r, e, cs := Totals(s), EntriesOf(s), Categories(s);
    TotalsMembers(s);
    CategoriesSpec(s);
    forall i | 0 <= i < |r| ensures r[i].total == CategorySum(s, r[i].category) && HasCategory(s, r[i].category) {
      assert r[i] in e;
      var k :| 0 <= k < |e| && e[k] == r[i];
      assert e[k].category == cs[k] && cs[k] in cs;
    }
  }

  /** Every category of the records has an entry. */
  lemma TotalsCoverCategories(s: seq<Transaction>)
    ensures forall c :: HasCategory(s, c) ==> exists i :: 0 <= i < |Totals(s)| && Totals(s)[i].category == c
  {
    var r, e, cs := Totals(s), EntriesOf(s), Categories(s);
    TotalsMembers(s);
    CategoriesSpec(s);
    forall c | HasCategory(s, c) ensures exists i :: 0 <= i < |r| && r[i].category == c {
      var k :| 0 <= k < |cs| && cs[k] == c;
      assert e[k] in e;
      var i :| 0 <= i < |r| && r[i] == e[k];
      assert r[i].category == c;
    }
  }

  /** No category has two entries. */
  lemma TotalsDistinct(s: seq<Transaction>)
    ensures var r := Totals(s);
      forall i, j :: 0 <= i < j < |r| ==> r[i].category != r[j].category
  {
    var r, e, cs := Totals(s), EntriesOf(s), Categories(s);
    CategoriesSpec(s);
    assert Distinct(e) by {
      forall i, j | 0 <= i < j < |e| ensures e[i] != e[j] {
        assert e[i].category == cs[i] && e[j].category == cs[j];
      }
    }
    SortMultiset(e, ByTotalDesc());
    DistinctPermutation(e, r);
    TotalsAreSums(s);
  }

  /** The entries run from the largest total down, so the first is the largest. */
  lemma TotalsOrdered(s: seq<Transaction>)
    ensures var r := Totals(s);
      && (forall i, j :: 0 <= i < j < |r| ==> r[i].total >= r[j].total)
      && (r != [] ==> forall i :: 0 <= i < |r| ==> r[i].total <= r[0].total)
  {
    ByTotalDescConsistent();
    SortSorted(EntriesOf(s), ByTotalDesc());
  }

  /** Entries with equal totals stay in the order their categories first occur. */
  lemma TotalsStable(s: seq<Transaction>, y: Entry)
    ensures Ties(ByTotalDesc(), y, Totals(s)) == Ties(ByTotalDesc(), y, EntriesOf(s))
  {
    ByTotalDescConsistent();
    SortStable(EntriesOf(s), y, ByTotalDesc());
  }

  /** There are entries exactly when there are records. */
  lemma TotalsEmpty(s: seq<Transaction>)
    ensures Totals(s) == [] <==> s == []
  {
  }

  /** The month's category totals add up to the month's expense. */
  lemma ExpenseTotals(tx: seq<Transaction>, m: string)
    ensures Total(Totals(MonthExpenses(tx, m))) == Summarize(tx, m).expense
  {
    BarsMatchAdvice(tx, m);
    TotalsSum(MonthExpenses(tx, m));
  }
}
