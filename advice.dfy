/** `renderAdvice`: one piece of advice chosen by a fixed chain of rules over
    the active month's records, the first rule that applies winning. */
module Advice {
  import opened Lists
  import opened Transactions
  import opened Filters
  import opened Aggregates

  /** The category names `renderAdvice` looks up in its totals. */
  const COFFEE := "\U{041A}\U{043E}\U{0444}\U{0435}/\U{0448}\U{0430}\U{0439}"
  const FUN := "\U{041E}\U{0439}\U{044B}\U{043D}-\U{0441}\U{0430}\U{0443}\U{044B}\U{049B}"
  const FOOD := "\U{0422}\U{0430}\U{043C}\U{0430}\U{049B}"
  const TRANSPORT := "\U{041A}\U{04E9}\U{043B}\U{0456}\U{043A}"

  const COFFEE_LIMIT := 15000
  const FUN_LIMIT := 25000
  const FOOD_LIMIT := 50000
  const TRANSPORT_LIMIT := 20000

  /** The rule that fired, with the category, amount and mode its message is
      written from; the wording itself is not modelled. */
  datatype Advice =
    | NeedMoreData
    | NoExpenses
    | Overspent(category: string, total: int, shame: bool)
    | TopCategory(category: string, total: int, shame: bool)
    | KeepGoing

  /** The `if`/`else` chain over the computed figures. */
  function Ladder(count: int, expense: int, coffee: int, fun: int, food: int, transport: int,
                  top: Option<Entry>, shame: bool): Advice
  {
    if count < 2 then NeedMoreData
    else if expense == 0 then NoExpenses
    else if coffee >= COFFEE_LIMIT then Overspent(COFFEE, coffee, shame)
    else if fun >= FUN_LIMIT then Overspent(FUN, fun, shame)
    else if food >= FOOD_LIMIT then Overspent(FOOD, food, shame)
    else if transport >= TRANSPORT_LIMIT then Overspent(TRANSPORT, transport, shame)
    else if top.Some? then TopCategory(top.value.category, top.value.total, shame)
    else KeepGoing
  }

  /** The month's expense records, as `renderAdvice` selects them. */
  function ExpenseTx(tx: seq<Transaction>, m: string): seq<Transaction> {
    Filter(OfKind(EXPENSE), MonthTx(tx, m))
  }

  /** The first entry of the sorted totals, if there is one: there is
      exactly when there are records. */
  function Top(s: seq<Transaction>): (top: Option<Entry>)
    ensures top.None? <==> s == []
  {
    TotalsEmpty(s);
    if Totals(s) == [] then None else Some(Totals(s)[0])
  }

  /** The advice for month `m` in the given mode. The closing generic message
      is never chosen: a non-zero expense means there is an expense record,
      so a top category exists. */
  function AdviceFor(tx: seq<Transaction>, m: string, shame: bool): (advice: Advice)
    ensures advice != KeepGoing
  {
    var e := ExpenseTx(tx, m);
    Ladder(|MonthTx(tx, m)|, Sum(e),
      CategorySum(e, COFFEE), CategorySum(e, FUN), CategorySum(e, FOOD), CategorySum(e, TRANSPORT),
      Top(e), shame)
  }

  /** `renderAdvice`, returning the rule instead of setting the text. */
  method RenderAdvice(tx: seq<Transaction>, m: string, shame: bool) returns (advice: Advice)
    ensures advice == AdviceFor(tx, m, shame)
  {
    var monthTx := Filter(InMonth(m), tx);
    var expenseTx := Filter(OfKind(EXPENSE), monthTx);
    var expense := Sum(expenseTx);
    if |monthTx| < 2 {
      return NeedMoreData;
    }
    var cat, keys := CategoryTotals(expenseTx);
    var entries := RankEntries(expenseTx, cat, keys);
    var top := if entries == [] then None else Some(entries[0]);
    var coffee := if COFFEE in cat then cat[COFFEE] else 0;
    var food := if FOOD in cat then cat[FOOD] else 0;
    var fun := if FUN in cat then cat[FUN] else 0;
    var transport := if TRANSPORT in cat then cat[TRANSPORT] else 0;
    LookupIsCategorySum(expenseTx, cat, keys, COFFEE);
    LookupIsCategorySum(expenseTx, cat, keys, FOOD);
    LookupIsCategorySum(expenseTx, cat, keys, FUN);
    LookupIsCategorySum(expenseTx, cat, keys, TRANSPORT);
    advice := Ladder(|monthTx|, expense, coffee, fun, food, transport, top, shame);
  }

  /** The threshold rules in the order they are tried. */
  const RULES: seq<(string, int)> :=
    [(COFFEE, COFFEE_LIMIT), (FUN, FUN_LIMIT), (FOOD, FOOD_LIMIT), (TRANSPORT, TRANSPORT_LIMIT)]

  /** Threshold rule `i` applies: its category reached its limit (inclusive). */
  predicate Over(e: seq<Transaction>, i: nat)
    requires i < |RULES|
  {
    CategorySum(e, RULES[i].0) >= RULES[i].1
  }

  /** Fewer than two records in the month: more data is asked for, whatever else holds. */
  lemma AdviceNeedsData(tx: seq<Transaction>, m: string, shame: bool)
    ensures AdviceFor(tx, m, shame) == NeedMoreData <==> |MonthTx(tx, m)| < 2
  {
  }

  /** Otherwise a month whose expenses add up to zero gets the no-expense message. */
  lemma AdviceNoExpenses(tx: seq<Transaction>, m: string, shame: bool)
    ensures AdviceFor(tx, m, shame) == NoExpenses <==>
      |MonthTx(tx, m)| >= 2 && Sum(ExpenseTx(tx, m)) == 0
  {
  }

  /** The four category names differ from each other. */
  lemma CategoryNamesDistinct()
    ensures COFFEE != FUN && COFFEE != FOOD && COFFEE != TRANSPORT
    ensures FUN != FOOD && FUN != TRANSPORT && FOOD != TRANSPORT
  {
    assert COFFEE[0] != FUN[0] && COFFEE[1] != FOOD[1] && COFFEE[1] != TRANSPORT[1];
    assert FUN[0] != FOOD[0] && FUN[0] != TRANSPORT[0] && FOOD[0] != TRANSPORT[0];
  }

  /** The rules of `RULES` spelled out. */
  lemma OverSpelled(e: seq<Transaction>)
    ensures Over(e, 0) <==> CategorySum(e, COFFEE) >= COFFEE_LIMIT
    ensures Over(e, 1) <==> CategorySum(e, FUN) >= FUN_LIMIT
    ensures Over(e, 2) <==> CategorySum(e, FOOD) >= FOOD_LIMIT
    ensures Over(e, 3) <==> CategorySum(e, TRANSPORT) >= TRANSPORT_LIMIT
    ensures (forall j :: 0 <= j < |RULES| ==> !Over(e, j)) <==> !Over(e, 0) && !Over(e, 1) && !Over(e, 2) && !Over(e, 3)
  {
  }

  /** The chain on its own figures: threshold rule `i` fires exactly when
      the earlier ones did not and its figure reached its limit. */
  lemma LadderOverspent(count: int, expense: int, sums: seq<int>, top: Option<Entry>, shame: bool, i: nat)
    requires |sums| == |RULES| && i < |RULES|
    ensures Ladder(count, expense, sums[0], sums[1], sums[2], sums[3], top, shame) == Overspent(RULES[i].0, sums[i], shame) <==>
      && count >= 2 && expense != 0
      && (forall j :: 0 <= j < i ==> sums[j] < RULES[j].1)
      && sums[i] >= RULES[i].1
  {
    CategoryNamesDistinct();
    if i == 1 {
      assert (forall j :: 0 <= j < i ==> sums[j] < RULES[j].1) <==> sums[0] < RULES[0].1;
    } else if i == 2 {
      assert (forall j :: 0 <= j < i ==> sums[j] < RULES[j].1) <==> sums[0] < RULES[0].1 && sums[1] < RULES[1].1;
    } else if i == 3 {
      assert (forall j :: 0 <= j < i ==> sums[j] < RULES[j].1) <==> sums[0] < RULES[0].1 && sums[1] < RULES[1].1 && sums[2] < RULES[2].1;
    }
  }

  /** Threshold rule `i` fires exactly when the earlier rules did not and its
      category reached its limit; the advice then carries that category's total. */
  lemma AdviceOverspent(tx: seq<Transaction>, m: string, shame: bool, i: nat)
    requires i < |RULES|
    ensures var e := ExpenseTx(tx, m);
      AdviceFor(tx, m, shame) == Overspent(RULES[i].0, CategorySum(e, RULES[i].0), shame) <==>
        && |MonthTx(tx, m)| >= 2 && Sum(e) != 0
        && (forall j :: 0 <= j < i ==> !Over(e, j))
        && Over(e, i)
  {
    var e := ExpenseTx(tx, m);
    var sums := seq(|RULES|, j requires 0 <= j < |RULES| => CategorySum(e, RULES[j].0));
    assert sums[0] == CategorySum(e, COFFEE) && sums[1] == CategorySum(e, FUN);
    assert sums[2] == CategorySum(e, FOOD) && sums[3] == CategorySum(e, TRANSPORT);
    assert forall j :: 0 <= j < |RULES| ==> (Over(e, j) <==> sums[j] >= RULES[j].1);
    LadderOverspent(|MonthTx(tx, m)|, Sum(e), sums, Top(e), shame, i);
  }

  /** With no threshold reached, the advice names the top category and its
      total, which no other category of the month exceeds. */
  lemma AdviceTop(tx: seq<Transaction>, m: string, shame: bool)
    ensures var e := ExpenseTx(tx, m);
      AdviceFor(tx, m, shame).TopCategory? <==>
        |MonthTx(tx, m)| >= 2 && Sum(e) != 0 && forall j :: 0 <= j < |RULES| ==> !Over(e, j)
    ensures var e := ExpenseTx(tx, m); var a := AdviceFor(tx, m, shame);
      a.TopCategory? ==>
        && a.shame == shame
        && a.total == CategorySum(e, a.category) && HasCategory(e, a.category)
        && forall c :: HasCategory(e, c) ==> CategorySum(e, c) <= a.total
  {
    var e := ExpenseTx(tx, m);
    OverSpelled(e);
    var a := AdviceFor(tx, m, shame);
    if a.TopCategory? {
      var r := Totals(e);
      assert r != [] && a.category == r[0].category && a.total == r[0].total;
      TotalsAreSums(e);
      TotalsOrdered(e);
      TotalsCoverCategories(e);
      forall c | HasCategory(e, c) ensures CategorySum(e, c) <= a.total {
        var i :| 0 <= i < |r| && r[i].category == c;
        assert r[i].total == CategorySum(e, c);
      }
    }
  }

  /** The advice with its mode replaced. */
  function WithMode(a: Advice, shame: bool): Advice {
    match a
    case Overspent(c, v, _) => Overspent(c, v, shame)
    case TopCategory(c, v, _) => TopCategory(c, v, shame)
    case _ => a
  }

  /** The mode changes only the tone: the same rule fires, for the same
      category and amount, in either mode. */
  lemma ModeOnlyTone(tx: seq<Transaction>, m: string, shame: bool)
    ensures AdviceFor(tx, m, shame) == WithMode(AdviceFor(tx, m, !shame), shame)
    ensures var a := AdviceFor(tx, m, shame); (a.Overspent? || a.TopCategory?) ==> a.shame == shame
  {
  }

  /** One 16000 coffee expense alone asks for more data; a second 1000 coffee
      expense in the same month brings the category to 17000 and fires the
      coffee rule. */
  lemma CoffeeScenario(shame: bool)
    ensures var c1 := Transaction("1", EXPENSE, "Coffee", 16000, COFFEE, "2026-02-03");
      var c2 := Transaction("2", EXPENSE, "Tea", 1000, COFFEE, "2026-02-04");
      && AdviceFor([c1], "2026-02", shame) == NeedMoreData
      && AdviceFor([c1, c2], "2026-02", shame) == Overspent(COFFEE, 17000, shame)
  {
    var c1 := Transaction("1", EXPENSE, "Coffee", 16000, COFFEE, "2026-02-03");
    var c2 := Transaction("2", EXPENSE, "Tea", 1000, COFFEE, "2026-02-04");
    var m := "2026-02";
    assert MonthKey(c1.date) == m && MonthKey(c2.date) == m;
    FilterAll(InMonth(m), [c1]);
    FilterAll(InMonth(m), [c1, c2]);
    FilterAll(OfKind(EXPENSE), [c1, c2]);
    FilterAll(InCategory(COFFEE), [c1, c2]);
    assert Sum([c1, c2]) == 17000 by {
      SumSnoc([c1], c2);
      SumSnoc([], c1);
      assert [c1, c2] == [c1] + [c2];
    }
  }

  /** A month with no records shows zeros, has no category totals, and asks for more data. */
  lemma EmptyMonthScenario(tx: seq<Transaction>, m: string, shame: bool)
    requires forall i :: 0 <= i < |tx| ==> MonthKey(tx[i].date) != m
    ensures Summarize(tx, m) == Summary(0, 0, 0)
    ensures Totals(MonthExpenses(tx, m)) == []
    ensures AdviceFor(tx, m, shame) == NeedMoreData
  {
    SummaryOfEmptyMonth(tx, m);
    BarsMatchAdvice(tx, m);
  }
}
