/** Transaction records, the month key taken from their date, the validation
    and rounding the entry form applies before a record is appended, and
    removal by id. */
module Transactions {
  import opened Lists
  import opened Text

  const INCOME := "income"
  const EXPENSE := "expense"

  /** One stored record. `kind` holds the record's `type` field. */
  datatype Transaction = Transaction(
    id: string, kind: string, title: string, amount: int, category: string, date: string)

  /** The value `Number(text)` gives for the amount field. */
  datatype Number = NaN | Infinity | NegativeInfinity | Finite(value: real)

  /** `Math.round`: the nearest integer, with halves rounded up. */
  function Round(v: real): (r: int)
    ensures r as real - 0.5 <= v < r as real + 0.5
  {
    (v + 0.5).Floor
  }

  /** A rounded amount is positive exactly when the input is at least one half. */
  lemma RoundPositive(v: real)
    ensures Round(v) > 0 <==> v >= 0.5
    ensures v >= 0.0 ==> Round(v) >= 0
  {
  }

  /** `monthKey`: the first seven characters (`YYYY-MM`) of a date, or the
      whole of a shorter one. */
  function MonthKey(date: string): (k: string)
    ensures |k| <= 7 && |k| <= |date| && k == date[..|k|]
    ensures |k| == 7 || k == date
  {
    date[..if |date| < 7 then |date| else 7]
  }

  predicate IsPrefix(p: string, s: string) {
    |p| <= |s| && s[..|p|] == p
  }

  /** A date falls in a seven-character month key exactly when it starts with it. */
  lemma MonthKeyMatch(date: string, m: string)
    requires |m| == 7
    ensures MonthKey(date) == m <==> IsPrefix(m, date)
  {
  }

  /** Only the empty date has the empty month key, which `filter(Boolean)` drops. */
  lemma MonthKeyEmpty(date: string)
    ensures MonthKey(date) == "" <==> date == ""
  {
  }

  /** Taking the month key of a month key changes nothing. */
  lemma MonthKeyIdempotent(date: string)
    ensures MonthKey(MonthKey(date)) == MonthKey(date)
  {
    var k := MonthKey(date);
    assert k[..|k|] == k;
  }

  /** A date not after another has a month key not after the other's, so
      listing by date lists by month too. */
  lemma MonthKeyMonotone(a: string, b: string)
    requires LexCompare(a, b) <= 0
    ensures LexCompare(MonthKey(a), MonthKey(b)) <= 0
  {
    LexPrefixMonotone(a, b, 7);
  }

  /** What the entry form hands over on submit: the checked type, the raw
      title, the amount as `Number(text)`, the category and the date field. */
  datatype Draft = Draft(kind: string, title: string, amount: Number, category: string, date: string)

  /** The submit handler's check: a title that is not blank once trimmed, a
      date, and a finite amount above zero. */
  predicate Accepts(d: Draft) {
    Trim(d.title) != "" && d.date != "" && d.amount.Finite? && d.amount.value > 0.0
  }

  /** The record appended for an accepted draft under the fresh id. */
  function NewRecord(d: Draft, id: string): (t: Transaction)
    requires Accepts(d)
    ensures WellFormed(t)
    ensures t.amount as real - 0.5 <= d.amount.value < t.amount as real + 0.5
  {
    TrimIdempotent(d.title);
    Transaction(id, d.kind, Trim(d.title), Round(d.amount.value), d.category, d.date)
  }

  /** What every record entered through the form looks like. */
  predicate WellFormed(t: Transaction) {
    t.title != "" && Trim(t.title) == t.title && t.date != "" && t.amount >= 0
  }

  predicate AllWellFormed(tx: seq<Transaction>) {
    forall i :: 0 <= i < |tx| ==> WellFormed(tx[i])
  }

  /** A draft is refused exactly when its title is all white space, its date
      is empty, or its amount is not a finite number above zero. */
  lemma AcceptsIff(d: Draft)
    ensures Accepts(d) <==>
      && (exists i :: 0 <= i < |d.title| && !IsSpace(d.title[i]))
      && d.date != ""
      && d.amount.Finite? && d.amount.value > 0.0
  {
    TrimEmptyIff(d.title);
  }

  /** The appended record carries the fresh id, the trimmed title and the
      rounded amount; it is well formed, and its amount is zero when the
      input was below one half. */
  lemma NewRecordFields(d: Draft, id: string)
    requires Accepts(d)
    ensures var t := NewRecord(d, id);
      && WellFormed(t)
      && t.id == id && t.kind == d.kind && t.category == d.category && t.date == d.date
      && t.title == Trim(d.title)
      && t.amount as real - 0.5 <= d.amount.value < t.amount as real + 0.5
      && (t.amount > 0 <==> d.amount.value >= 0.5)
  {
    TrimIdempotent(d.title);
    RoundPositive(d.amount.value);
  }

  /** Validation looks at the typed amount, not the stored one: 0.3 is
      accepted and stored as 0. */
  lemma TinyAmountStoredAsZero(id: string)
    ensures var d := Draft(EXPENSE, "Coffee", Finite(0.3), "Food", "2026-02-01");
      Accepts(d) && NewRecord(d, id).amount == 0
  {
    var d := Draft(EXPENSE, "Coffee", Finite(0.3), "Food", "2026-02-01");
    assert !IsSpace('C') && !IsSpace('e');
    assert TrimStart(d.title) == d.title;
    assert TrimEnd(d.title) == d.title;
  }

  /** No two records share an id. */
  predicate UniqueIds(tx: seq<Transaction>) {
    forall i, j :: 0 <= i < j < |tx| ==> tx[i].id != tx[j].id
  }

  predicate IdAbsent(tx: seq<Transaction>, id: string) {
    forall i :: 0 <= i < |tx| ==> tx[i].id != id
  }

  /** Appending a record under an id not yet in use keeps the ids unique. */
  lemma AppendUnique(tx: seq<Transaction>, t: Transaction)
    requires UniqueIds(tx) && IdAbsent(tx, t.id)
    ensures UniqueIds(tx + [t])
  {
  }

  /** The test `x => x.id !== id` of the delete handler. */
  function HasOtherId(id: string): Transaction -> bool {
    (t: Transaction) => t.id != id
  }

  /** The list after deleting `id`: no longer, and without a record of that id. */
  function Without(tx: seq<Transaction>, id: string): (r: seq<Transaction>)
    ensures |r| <= |tx|
    ensures IdAbsent(r, id)
  {
    FilterMembers(HasOtherId(id), tx);
    Filter(HasOtherId(id), tx)
  }

  /** Deleting keeps exactly the records with another id, each as often as before. */
  lemma WithoutMembers(tx: seq<Transaction>, id: string, t: Transaction)
    ensures multiset(Without(tx, id))[t] == if t.id == id then 0 else multiset(tx)[t]
    ensures t in Without(tx, id) <==> t in tx && t.id != id
  {
    FilterMultiset(HasOtherId(id), tx);
    if t.id != id && t in tx {
      assert t in multiset(tx);
    }
    assert t in Without(tx, id) <==> t in multiset(Without(tx, id));
  }

  /** Deleting an id that no record has leaves the list as it was. */
  lemma WithoutAbsent(tx: seq<Transaction>, id: string)
    requires IdAbsent(tx, id)
    ensures Without(tx, id) == tx
  {
    FilterAll(HasOtherId(id), tx);
  }

  /** Deleting keeps the relative order: it acts on each part of a list separately. */
  lemma WithoutConcat(a: seq<Transaction>, b: seq<Transaction>, id: string)
    ensures Without(a + b, id) == Without(a, id) + Without(b, id)
  {
    FilterConcat(HasOtherId(id), a, b);
  }

  /** Deleting the same id twice is deleting it once. */
  lemma WithoutIdempotent(tx: seq<Transaction>, id: string)
    ensures Without(Without(tx, id), id) == Without(tx, id)
  {
    var r := Without(tx, id);
    FilterMembers(HasOtherId(id), tx);
    assert IdAbsent(r, id);
    WithoutAbsent(r, id);
  }

  /** Deleting the id of a record just added under a fresh id undoes the add. */
  lemma DeleteUndoesAdd(tx: seq<Transaction>, d: Draft, id: string)
    requires Accepts(d) && IdAbsent(tx, id)
    ensures Without(tx + [NewRecord(d, id)], id) == tx
  {
    WithoutConcat(tx, [NewRecord(d, id)], id);
    WithoutAbsent(tx, id);
    FilterSingleton(HasOtherId(id), NewRecord(d, id));
  }

  /** With unique ids a delete removes at most one record and keeps the ids unique. */
  lemma {:induction false} WithoutUnique(tx: seq<Transaction>, id: string)
    requires UniqueIds(tx)
    ensures UniqueIds(Without(tx, id))
    ensures |tx| - 1 <= |Without(tx, id)| <= |tx|
    ensures !IdAbsent(tx, id) ==> |Without(tx, id)| == |tx| - 1
    ensures IdAbsent(tx, id) ==> |Without(tx, id)| == |tx|
  {
    if IdAbsent(tx, id) {
      WithoutAbsent(tx, id);
    }
    if tx != [] {
      var rest := tx[1..];
      assert UniqueIds(rest);
      WithoutUnique(rest, id);
      var head := if tx[0].id != id then [tx[0]] else [];
      assert Without(tx, id) == head + Without(rest, id);
      FilterMembers(HasOtherId(id), rest);
      var r := Without(rest, id);
      forall i | 0 <= i < |r| ensures r[i].id != tx[0].id {
        assert r[i] in rest;
      }
      if tx[0].id == id {
        assert IdAbsent(rest, id);
        WithoutAbsent(rest, id);
      } else if !IdAbsent(tx, id) {
        var k :| 0 <= k < |tx| && tx[k].id == id;
        assert k > 0 && rest[k - 1].id == id;
      }
    }
  }
}
