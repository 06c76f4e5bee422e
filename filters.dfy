/** `applyFilters`: the records of the active month, optionally of one type,
    in one of the four orders of the sort selector. */
module Filters {
  import opened Lists
  import opened Text
  import opened Sorting
  import opened Transactions
  import opened Months

  /** The type selector value that keeps both types. */
  const ALL := "all"

  datatype Order = Newest | Oldest | Biggest | Smallest

  /** The sort selector's values; any other value leaves the list unsorted. */
  function ParseOrder(s: string): Option<Order> {
    if s == "new" then Some(Newest)
    else if s == "old" then Some(Oldest)
    else if s == "big" then Some(Biggest)
    else if s == "small" then Some(Smallest)
    else None
  }

  /** The comparators passed to `list.sort`. `x || y` on numbers is `x`
      unless `x` is zero, so the amount only breaks ties between equal dates.
      They implement the four orders: date descending or ascending with the
      larger amount first on the same date, amount descending, and amount
      ascending; and they return zero exactly on records the order cannot
      tell apart. */
  function Compare(o: Order, a: Transaction, b: Transaction): (r: int)
    ensures r <= 0 <==> NotAfter(o, a, b)
    ensures r == 0 <==> SameKey(o, a, b)
  {
    LexAntisymmetric(a.date, b.date);
    LexZeroIffEqual(a.date, b.date);
    match o
    case Newest =>
      var c := LexCompare(b.date, a.date);
      if c != 0 then c else b.amount - a.amount
    case Oldest =>
      var c := LexCompare(a.date, b.date);
      if c != 0 then c else b.amount - a.amount
    case Biggest => b.amount - a.amount
    case Smallest => a.amount - b.amount
  }

  function Comparator(o: Order): (Transaction, Transaction) -> int {
    (a: Transaction, b: Transaction) => Compare(o, a, b)
  }

  /** Each order stated directly: `a` may be listed before `b`. */
  predicate NotAfter(o: Order, a: Transaction, b: Transaction) {
    match o
    case Newest => LexCompare(a.date, b.date) > 0 || (a.date == b.date && a.amount >= b.amount)
    case Oldest => LexCompare(a.date, b.date) < 0 || (a.date == b.date && a.amount >= b.amount)
    case Biggest => a.amount >= b.amount
    case Smallest => a.amount <= b.amount
  }

  /** The records an order cannot tell apart. */
  predicate SameKey(o: Order, a: Transaction, b: Transaction) {
    match o
    case Newest => a.date == b.date && a.amount == b.amount
    case Oldest => a.date == b.date && a.amount == b.amount
    case Biggest => a.amount == b.amount
    case Smallest => a.amount == b.amount
  }

  lemma NotAfterTransitive(o: Order, a: Transaction, b: Transaction, c: Transaction)
    requires NotAfter(o, a, b) && NotAfter(o, b, c)
    ensures NotAfter(o, a, c)
  {
    match o
    case Newest =>
      if LexCompare(a.date, b.date) > 0 && LexCompare(b.date, c.date) > 0 {
        LexAntisymmetric(a.date, b.date);
        LexAntisymmetric(b.date, c.date);
        LexAntisymmetric(a.date, c.date);
        LexStrictTransitive(c.date, b.date, a.date);
      }
    case Oldest =>
      if LexCompare(a.date, b.date) < 0 && LexCompare(b.date, c.date) < 0 {
        LexStrictTransitive(a.date, b.date, c.date);
      }
    case Biggest =>
    case Smallest =>
  }

  /** Every sort choice passes `sort` a consistent comparator. */
  lemma ComparatorConsistent(o: Order)
    ensures Consistent(Comparator(o))
  {
    var cmp := Comparator(o);
    forall a, b ensures Flips(cmp, a, b) {
      LexAntisymmetric(a.date, b.date);
    }
    forall a, b, c ensures Chains(cmp, a, b, c) {
      if cmp(a, b) <= 0 && cmp(b, c) <= 0 {
        NotAfterTransitive(o, a, b, c);
      }
    }
  }

  /** The month test `t => monthKey(t.date) === m`. */
  function InMonth(m: string): Transaction -> bool {
    (t: Transaction) => MonthKey(t.date) == m
  }

  /** The type test `t => t.type === type`. */
  function OfKind(kind: string): Transaction -> bool {
    (t: Transaction) => t.kind == kind
  }

  /** The month filter, then the type filter unless every type is wanted. */
  function Selected(tx: seq<Transaction>, m: string, kind: string): seq<Transaction> {
    var list := Filter(InMonth(m), tx);
    if kind == ALL then list else Filter(OfKind(kind), list)
  }

  /** Whether a record belongs in the list for month `m` and type `kind`. */
  predicate Shown(t: Transaction, m: string, kind: string) {
    MonthKey(t.date) == m && (kind == ALL || t.kind == kind)
  }

  function ShownIn(m: string, kind: string): Transaction -> bool {
    (t: Transaction) => Shown(t, m, kind)
  }

  /** The two filters in a row are one filter by `Shown`, so they keep the
      records' order. */
  lemma SelectedIsOneFilter(tx: seq<Transaction>, m: string, kind: string)
    ensures Selected(tx, m, kind) == Filter(ShownIn(m, kind), tx)
  {
    if kind == ALL {
      assert forall t :: ShownIn(m, kind)(t) == InMonth(m)(t);
      FilterFilter(InMonth(m), (t: Transaction) => true, ShownIn(m, kind), tx);
      FilterAll((t: Transaction) => true, Filter(InMonth(m), tx));
    } else {
      FilterFilter(InMonth(m), OfKind(kind), ShownIn(m, kind), tx);
    }
  }

  /** Every selected record belongs to the month and type. */
  lemma SelectedShown(tx: seq<Transaction>, m: string, kind: string)
    ensures forall t :: t in Selected(tx, m, kind) ==> Shown(t, m, kind)
  {
    SelectedIsOneFilter(tx, m, kind);
    var r := Filter(ShownIn(m, kind), tx);
    FilterMembers(ShownIn(m, kind), tx);
    forall t | t in r ensures Shown(t, m, kind) {
      var i :| 0 <= i < |r| && r[i] == t;
    }
  }

  /** The filtered, sorted list `applyFilters` returns: only records of the
      active month and type, as many as the store holds. */
  function View(tx: seq<Transaction>, selection: string, today: string, kind: string, sort: string): (list: seq<Transaction>)
    ensures forall i :: 0 <= i < |list| ==> Shown(list[i], ActiveMonth(selection, today), kind)
    ensures |list| == |Filter(ShownIn(ActiveMonth(selection, today), kind), tx)|
  {
    var m := ActiveMonth(selection, today);
    var list := Selected(tx, m, kind);
    SelectedShown(tx, m, kind);
    SelectedIsOneFilter(tx, m, kind);
    match ParseOrder(sort)
    case None => list
    case Some(o) => SortMembers(list, Comparator(o)); Sort(list, Comparator(o))
  }

  /** `applyFilters`, with today's date passed in. */
  method ApplyFilters(tx: seq<Transaction>, selection: string, today: string, kind: string, sort: string)
    returns (list: seq<Transaction>)
    ensures list == View(tx, selection, today, kind, sort)
  {
    var m := ActiveMonth(selection, today);
    list := Filter(InMonth(m), tx);
    if kind != ALL {
      list := Filter(OfKind(kind), list);
    }
    var order := ParseOrder(sort);
    if order.Some? {
      list := SortedCopy(list, Comparator(order.value));
    }
  }

  /** The list holds exactly the records of the active month (and type), each
      as often as in the store. */
  lemma ViewContents(tx: seq<Transaction>, selection: string, today: string, kind: string, sort: string, t: Transaction)
    ensures var m := ActiveMonth(selection, today);
      multiset(View(tx, selection, today, kind, sort))[t] == if Shown(t, m, kind) then multiset(tx)[t] else 0
  {
    var m := ActiveMonth(selection, today);
    var list := Selected(tx, m, kind);
    SelectedIsOneFilter(tx, m, kind);
    FilterMultiset(ShownIn(m, kind), tx);
    if Shown(t, m, kind) && t !in multiset(tx) {
      assert t !in multiset(list);
    }
    match ParseOrder(sort)
    case None =>
    case Some(o) => SortMultiset(list, Comparator(o));
  }

  /** An unrecognised sort value leaves the filtered records in insertion order. */
  lemma ViewUnsorted(tx: seq<Transaction>, selection: string, today: string, kind: string, sort: string)
    requires ParseOrder(sort) == None
    ensures View(tx, selection, today, kind, sort) == Filter(ShownIn(ActiveMonth(selection, today), kind), tx)
  {
    SelectedIsOneFilter(tx, ActiveMonth(selection, today), kind);
  }

  /** A recognised sort value lists the records in the order it names. */
  lemma ViewSorted(tx: seq<Transaction>, selection: string, today: string, kind: string, sort: string, o: Order)
    requires ParseOrder(sort) == Some(o)
    ensures var v := View(tx, selection, today, kind, sort);
      forall i, j :: 0 <= i < j < |v| ==> NotAfter(o, v[i], v[j])
  {
    var list := Selected(tx, ActiveMonth(selection, today), kind);
    var v := Sort(list, Comparator(o));
    ComparatorConsistent(o);
    SortSorted(list, Comparator(o));
    assert forall i, j :: 0 <= i < j < |v| ==> Compare(o, v[i], v[j]) <= 0;
  }

  /** Records the order cannot tell apart keep their insertion order: for each
      record `y`, the records with `y`'s key appear in the list as they appear
      in the store. */
  lemma ViewStable(tx: seq<Transaction>, selection: string, today: string, kind: string, sort: string, o: Order, y: Transaction)
    requires ParseOrder(sort) == Some(o)
    ensures var m := ActiveMonth(selection, today);
      Ties(Comparator(o), y, View(tx, selection, today, kind, sort)) ==
      Ties(Comparator(o), y, Filter(ShownIn(m, kind), tx))
  {
    var m := ActiveMonth(selection, today);
    ComparatorConsistent(o);
    SortStable(Selected(tx, m, kind), y, Comparator(o));
    SelectedIsOneFilter(tx, m, kind);
  }

  /** Two records of the same day, 500 entered before 900: the "new" order shows 900 first. */
  lemma SameDayNewestFirst()
    ensures var a := Transaction("a", EXPENSE, "Lunch", 500, "Food", "2026-02-10");
      var b := Transaction("b", EXPENSE, "Dinner", 900, "Food", "2026-02-10");
      View([a, b], CURRENT, "2026-02-14", ALL, "new") == [b, a]
  {
    var a := Transaction("a", EXPENSE, "Lunch", 500, "Food", "2026-02-10");
    var b := Transaction("b", EXPENSE, "Dinner", 900, "Food", "2026-02-10");
    var m := ActiveMonth(CURRENT, "2026-02-14");
    assert m == "2026-02";
    assert MonthKey(a.date) == m;
    assert Filter(InMonth(m), [a, b]) == [a, b] by {
      FilterAll(InMonth(m), [a, b]);
    }
    LexZeroIffEqual(b.date, a.date);
    assert Compare(Newest, a, b) > 0;
    assert Sort([a, b], Comparator(Newest)) == Insert([a], b, Comparator(Newest)) by {
      assert [a, b][..1] == [a];
      assert Sort([a], Comparator(Newest)) == [a];
    }
    assert Insert([a], b, Comparator(Newest)) == [b, a] by {
      assert [a][..0] == [];
    }
  }
}
