# Expense tracker model

A Dafny model of the logic of `3.js`, a single-page expense tracker. The user
records income and expense transactions (type, title, amount, category,
date). The page shows the records of one month, filtered by type and sorted
in one of four orders. It also shows that month's income, expense and
balance, bars of the expense per category, and one piece of advice chosen by
a fixed chain of rules. A "shame mode" switch changes only the tone of that
advice. The state `{ shameMode, tx }` is kept in the browser's local storage.

The modules follow the parts of the script:

- `Lists`: order-keeping filter (`Array.prototype.filter`), reversal and distinctness.
- `Text`: code-point string order and `String.prototype.trim`.
- `Sorting`: the stable sort ECMA-262 requires of `Array.prototype.sort`
  since its 2019 edition. It is written as insertion sort, on a sequence
  and in place on an array. `SortUnique` proves that any sorted, stable
  permutation equals it, so modelling the engine's sort this way loses nothing.
- `Transactions`: the record, `monthKey`, the submit handler's validation and
  rounding, and delete-by-id as a filter.
- `Store`: `loadState`'s normalisation of the stored value, and the class
  `Tracker` holding the page state together with its four handlers
  (submit, delete, reset, mode switch).
- `Months`: `buildMonthFilter`'s month list and `getActiveMonth`.
- `Filters`: `applyFilters` and its four comparators.
- `Aggregates`: `renderSummary`'s sums, and the per-category totals with
  their descending order used by `renderBars` and `renderAdvice`.
- `Advice`: `renderAdvice`'s rule chain.
- `Html`: `escapeHtml`.

Today's date and the fresh id from `uid()` are parameters. Advice is
returned as the rule that fired, with its category, amount and mode, in
place of the message text.

## Model

| member | source | states |
|---|---|---|
| Transactions.MonthKey | 3.js:42-44 | the key is the first seven characters of the date, or the whole date when it is shorter |
| Transactions.MonthKeyMatch | 3.js:42-44 | a date has a given seven-character month key exactly when the date starts with it |
| Transactions.MonthKeyEmpty | 3.js:43 | only the empty date has the empty key, the one `filter(Boolean)` drops |
| Transactions.MonthKeyIdempotent | 3.js:42-44 | taking the key of a key changes nothing |
| Transactions.MonthKeyMonotone | 3.js:42-44 | a date not after another in string order has a month key not after the other's |
| Transactions.Round | 3.js:113 | `Math.round` gives the integer within one half below or above the input, rounding halves up |
| Transactions.RoundPositive | 3.js:104-113 | the rounded amount is positive exactly when the input is at least 0.5, and never negative for a non-negative input |
| Transactions.Accepts | 3.js:104 | the submit handler's test: a title not blank once trimmed, a non-empty date, and a finite amount above zero |
| Transactions.AcceptsIff | 3.js:99-107 | a draft is refused exactly when its title is all white space, its date is empty, or its amount is not finite or not above zero |
| Transactions.NewRecord | 3.js:109-116 | the record pushed for an accepted draft is well formed, and its amount lies within one half of the entered amount |
| Transactions.NewRecordFields | 3.js:109-116 | the appended record has the fresh id, the form's type, category and date, the trimmed title, and an amount within one half of the entered one that is positive exactly when the entry was at least 0.5; it is well formed |
| Transactions.TinyAmountStoredAsZero | 3.js:104-113 | an amount of 0.3 passes validation and is stored as 0 |
| Transactions.AppendUnique | 3.js:109-110 | appending under an id not in use keeps ids unique |
| Transactions.Without | 3.js:236 | `filter` by `HasOtherId`, the test `x => x.id !== id`: the list after a delete is no longer than before and holds no record with the deleted id |
| Transactions.WithoutMembers | 3.js:236 | after a delete, each record with another id occurs as often as before, and no record with the id remains |
| Transactions.WithoutAbsent | 3.js:236 | deleting an id no record has leaves the list unchanged |
| Transactions.WithoutConcat | 3.js:236 | deleting acts on each part of a list separately, so relative order is kept |
| Transactions.WithoutIdempotent | 3.js:236 | deleting the same id twice equals deleting it once |
| Transactions.DeleteUndoesAdd | 3.js:236 | deleting the id of a record just added under a fresh id gives back the list from before the add |
| Transactions.WithoutUnique | 3.js:236 | with unique ids, a delete keeps ids unique and removes exactly one record when the id is present; a delete of an id no record has removes none |
| Store.Load | 3.js:57-69 | the mode is off only when stored as exactly `false`; a stored list that is not an array, missing or unparseable storage all give no records |
| Store.Save | 3.js:71-73 | what `saveState` writes reads back, through `loadState`'s normalisation, as the same state |
| Store.LoadDefault | 3.js:58-68 | missing or unparseable storage starts in shame mode with no records |
| Store.Tracker.constructor | 3.js:75-79 | the page state is the loaded state, and the checkbox shows its mode |
| Store.Tracker.Submit | 3.js:95-118 | a refused draft changes nothing; an accepted one appends exactly the new record at the end; the mode is untouched |
| Store.Tracker.Delete | 3.js:236 | the records become the old list without the id's records; the mode is untouched |
| Store.Tracker.Reset | 3.js:84 | the records are cleared and the mode stays as the checkbox shows it |
| Store.Tracker.SetShameMode | 3.js:89-90 | the mode becomes the checkbox value; records are untouched |
| Store.SubmitKeepsInvariants | 3.js:99-116 | a submit keeps every record well formed and, with a fresh id, ids unique |
| Store.DeleteKeepsWellFormed | 3.js:236 | a delete keeps every record well formed |
| Text.LexCompare | 3.js:169-171 | three-way code-point comparison, the model of `localeCompare` on dates at 3.js:169 and 3.js:171 and of the default `sort()` at 3.js:130; the `Lex` lemmas below and `Months.LexConsistent` state its laws |
| Text.LexAntisymmetric | 3.js:169-171 | comparing the other way round negates the result |
| Text.LexZeroIffEqual | 3.js:169-171 | the comparison is zero exactly on equal strings, so `\|\|` falls through to the amount only on equal dates |
| Text.LexTransitive | 3.js:130 | "not after" is transitive |
| Text.LexStrictTransitive | 3.js:130 | "before" followed by "not after" is "before" |
| Text.LexPrefixMonotone | 3.js:42-44 | cutting two ordered strings to the same length keeps them ordered |
| Text.IsSpace | 3.js:99 | the characters `trim` removes: ECMAScript WhiteSpace and LineTerminator |
| Text.Trim | 3.js:99 | `String.prototype.trim`: white space cut from both ends; `TrimSpec` states its meaning |
| Text.TrimSpec | 3.js:99 | the trimmed title is a contiguous piece of the input that neither starts nor ends with white space, and only white space was cut off around it |
| Text.TrimEmptyIff | 3.js:99-104 | the trimmed title is empty exactly when every character is white space |
| Text.TrimIdempotent | 3.js:99 | trimming an already trimmed title changes nothing |
| Months.LexConsistent | 3.js:130 | the default `sort()` order on strings is a consistent comparator |
| Months.MonthKeys | 3.js:130 | the month keys of the records without duplicates, holding exactly the non-empty keys some record has |
| Months.SortSet | 3.js:130 | sorting a duplicate-free list gives a strictly ascending list of the same strings |
| Months.AvailableMonths | 3.js:129-133 | the month list is strictly ascending and holds the current month and exactly the non-empty months of the records besides it |
| Months.PresentedDescending | 3.js:141 | the options are shown in strictly descending order and offer the same months |
| Months.Presented | 3.js:141 | `months.slice().reverse()`, the order the options are shown in; `PresentedDescending` states its meaning |
| Months.ActiveMonth | 3.js:153-157 | the `current` selection stands for today's month key; any other selection is used as it is |
| Filters.ParseOrder | 3.js:168-176 | the `sort === "new"/"old"/"big"/"small"` dispatch; any other value picks no order, and `ViewUnsorted` and `ViewSorted` state what each choice does |
| Filters.Compare | 3.js:169-175 | each comparator orders by date descending or ascending with the larger amount first on one date, by amount descending, or by amount ascending; it returns zero exactly on records it cannot tell apart |
| Filters.ComparatorConsistent | 3.js:168-176 | all four comparators are consistent |
| Filters.Selected | 3.js:164-166 | the month filter (`InMonth`) and then, unless the type is `all`, the type filter (`OfKind`); `SelectedIsOneFilter` and `SelectedShown` state its meaning |
| Filters.SelectedIsOneFilter | 3.js:164-166 | the month filter and then the type filter equal one filter by both conditions |
| Filters.SelectedShown | 3.js:164-166 | every record the two filters keep belongs to the active month and the chosen type |
| Filters.View | 3.js:159-179 | the view lists only records of the active month and chosen type, and as many as the store holds |
| Filters.ApplyFilters | 3.js:159-179 | the returned list is the filtered and sorted view |
| Filters.ViewContents | 3.js:159-166 | the view holds each record of the active month and chosen type as often as the store does, and nothing else |
| Filters.ViewUnsorted | 3.js:168-178 | an unrecognised sort value leaves the filtered records in insertion order |
| Filters.ViewSorted | 3.js:168-176 | a recognised sort value lists the records in the order it names |
| Filters.ViewStable | 3.js:168-176 | records the order cannot tell apart stay in insertion order |
| Filters.SameDayNewestFirst | 3.js:168-169 | two same-day records entered as 500 then 900 are listed 900 first under `new` |
| Sorting.Sort | 3.js:168-176 | insertion sort with the given comparator, keeping the length; its meaning is the four lemmas below |
| Sorting.SortMultiset | 3.js:168-176 | the sort is a permutation of its input |
| Sorting.SortSorted | 3.js:168-176 | with a consistent comparator the result is ordered by it |
| Sorting.SortStable | 3.js:168-176 | the elements equal to any element keep their relative order |
| Sorting.SortUnique | 3.js:168-176 | two sorted, stable permutations of each other are equal |
| Sorting.StableSortIsSort | 3.js:168-176 | any sorted, stable permutation of the input equals the model's sort |
| Sorting.InsertLast | 3.js:168-176 | one shifting pass inserts the next element into the sorted prefix and leaves the rest of the array alone |
| Sorting.SortInPlace | 3.js:168-176 | the array ends up holding the sort of its old contents |
| Sorting.SortedCopy | 3.js:168-176 | sorting a copy in an array gives the sort of the sequence |
| Aggregates.Sum | 3.js:193-194 | `reduce((s, t) => s + t.amount, 0)`: the amounts added from the left; its laws are the next lemmas |
| Aggregates.SumConcat | 3.js:193-194 | the sum of two lists joined is the sum of their sums |
| Aggregates.MonthTx | 3.js:191 | the month filter `InMonth` that `renderSummary` at 3.js:191 and `renderAdvice` at 3.js:287 both apply |
| Aggregates.Summarize | 3.js:189-195 | the balance is income minus expense |
| Aggregates.SummaryOfEmptyMonth | 3.js:189-195 | a month without records shows zero income, expense and balance |
| Aggregates.SummaryAfterAdd | 3.js:191-194 | an added record changes only its own month's figure for its own type, by its amount |
| Aggregates.SummaryNonNegative | 3.js:193-194 | with well-formed records, income and expense are never negative |
| Aggregates.MonthExpenses | 3.js:254 | `renderBars`' one combined month-and-expense filter (`IsMonthExpense`); `BarsMatchAdvice` ties it to `renderAdvice`'s two filters |
| Aggregates.BarsMatchAdvice | 3.js:254 | the bars' one combined filter and the advice's two filters select the same records in the same order |
| Aggregates.IncomeNeverCounts | 3.js:254 | a record that is not an expense never changes the category totals |
| Aggregates.EntriesOf | 3.js:261 | `Object.entries(totals)` before sorting, at 3.js:261 and 3.js:302: each key in insertion order with its category sum (`InCategory`) |
| Aggregates.ByTotalDesc | 3.js:261 | the comparator `(a,b)=>b[1]-a[1]` of 3.js:261 and 3.js:302 |
| Aggregates.CategorySum | 3.js:256-259 | the total of one category, the sum of its records' amounts; `LookupIsCategorySum` ties it to the loop's object |
| Aggregates.Categories | 3.js:256-259 | the keys in the order the loop first sets them; `CategoriesSpec` states their meaning |
| Aggregates.Totals | 3.js:256-261 | the entries sorted by descending total; the `Totals` lemmas below state their meaning |
| Aggregates.CategoriesSpec | 3.js:256-259 | the object's keys are each category of the records exactly once |
| Aggregates.CategoriesOrder | 3.js:256-259 | a key listed before another has its first record earlier: the keys come in order of each category's first record |
| Aggregates.CategorySumAbsent | 3.js:307-310 | a category no record has totals zero |
| Aggregates.CategoryTotals | 3.js:256-259 | after the loop, the keys are `Categories` (in first-encounter order, by `CategoriesOrder`), and each total is that category's sum |
| Aggregates.RankEntries | 3.js:261 | the loop's totals listed and sorted by descending total are the ranked totals |
| Aggregates.RenderBars | 3.js:252-261 | the bars' entries are the ranked totals of the month's expense records |
| Aggregates.LookupIsCategorySum | 3.js:307-310 | `totals[c] \|\| 0` is the category's sum, zero for a category with no record |
| Aggregates.TotalsSum | 3.js:256-261 | the category totals add up to the sum of the records |
| Aggregates.TotalsAreSums | 3.js:256-261 | each entry's total is the sum of its category, and the category has a record |
| Aggregates.TotalsCoverCategories | 3.js:256-261 | every category of the records has an entry |
| Aggregates.TotalsDistinct | 3.js:256-261 | no category has two entries |
| Aggregates.TotalsOrdered | 3.js:261 | the totals do not increase along the list, so the first entry has the largest total |
| Aggregates.TotalsStable | 3.js:261 | entries with equal totals stay in the keys' order, which `CategoriesOrder` shows is first-encounter order |
| Aggregates.TotalsEmpty | 3.js:261 | there are no entries exactly when there are no records |
| Aggregates.ExpenseTotals | 3.js:289-302 | the month's category totals add up to the month's expense |
| Advice.Ladder | 3.js:314-338 | the `if`/`else` chain over the computed figures, in the source's order; `LadderOverspent` states its threshold rules |
| Advice.ExpenseTx | 3.js:289 | `renderAdvice`'s type filter on the month's records |
| Advice.Top | 3.js:298-302 | the first of the sorted totals, present exactly when the records ranked are not empty |
| Advice.AdviceFor | 3.js:285-338 | the advice for a month and mode; it is never the closing generic message, because a non-zero expense means a top category exists |
| Advice.RenderAdvice | 3.js:285-338 | the rule the handler picks is the model's advice for the month and mode |
| Advice.AdviceNeedsData | 3.js:292-295 | more data is asked for exactly when the month has fewer than two records |
| Advice.AdviceNoExpenses | 3.js:314-315 | otherwise the no-expense message comes exactly when the expense is zero |
| Advice.LadderOverspent | 3.js:314-331 | on its figures, threshold rule `i` fires exactly when the earlier rules did not and its figure reached its limit |
| Advice.AdviceOverspent | 3.js:316-331 | threshold rule `i` (coffee 15000, fun 25000, food 50000, transport 20000, in that order, inclusive) fires exactly when the earlier ones did not and its category reached its limit, with that category's total |
| Advice.AdviceTop | 3.js:332-335 | the top category is named exactly when no threshold rule fires; its total is its sum, and no category of the month has more |
| Advice.ModeOnlyTone | 3.js:304-337 | switching the mode picks the same rule, category and amount; only the tone follows the mode |
| Advice.CoffeeScenario | 3.js:292-319 | one 16000 coffee expense asks for more data; adding a 1000 tea expense in the category fires the coffee rule at 17000 |
| Advice.EmptyMonthScenario | 3.js:189-295 | for a month without records, `renderSummary` (3.js:189-195) shows zeros, `renderBars` (3.js:252-266) has no entries, and `renderAdvice` (3.js:292-295) asks for more data |
| Html.ReplaceAll | 3.js:245-249 | `replaceAll` with a one-character pattern: each occurrence, left to right, replaced by the reference |
| Html.Escape | 3.js:243-250 | the five `replaceAll` calls in the source's order; the lemmas below state their meaning |
| Html.EscapeOne | 3.js:243-250 | a single character becomes its character reference, or stays itself |
| Html.EscapeIsEach | 3.js:243-250 | because `&` is replaced first, the chain escapes each character exactly once |
| Html.EscapeSafe | 3.js:243-250 | the escaped text holds no `<`, `>`, `"` or `'` |
| Html.UnescapeEscape | 3.js:243-250 | decoding the five references gives back the original text |
| Html.EscapeInjective | 3.js:243-250 | different texts stay different once escaped |
| Html.EscapePlain | 3.js:243-250 | text without special characters is shown as it is |
| Html.AmpersandOrderMatters | 3.js:244-246 | replacing `&` after `<` would escape the reference for `<` a second time |

## Left out

- The DOM: building the list, the month options, the bars and the legend,
  `innerHTML`, event wiring, `alert`, `confirm` and `form.reset()`. The
  handlers are modelled from the point where they change the state.
- Storage I/O. `localStorage`, `sessionStorage`, `JSON.parse` and
  `JSON.stringify` are not modelled. Only the normalisation of a parsed value
  is modelled (`Store.Load`), with the storage contents as an input.
- `uid()` and `todayISO()`: the fresh id and today's date are parameters.
- Floating point. Amounts are mathematical integers after `Math.round` on a
  mathematical real. Doubles, integers above 2^53 and the rounding of sums
  are not modelled.
- `fmtMoney`, `monthLabel`, the message texts and the bar-width percentage.
  These produce display text or use float division.
- `localeCompare` collation: dates are compared by code points, which is
  chronological for well-formed `YYYY-MM-DD` dates. The default `sort()`
  compares UTF-16 code units; the model compares code points. The two differ
  only on characters outside the Basic Multilingual Plane.
- Strings are sequences of Unicode characters here, where JavaScript's are
  UTF-16 code units. So `slice(0, 7)` in `monthKey` (3.js:43) is modelled as
  seven characters; it differs on a date holding a character outside the
  Basic Multilingual Plane. Lone surrogates in stored text cannot be
  represented. `trim`, `replaceAll` and key equality compare characters of
  that plane only, so they are unaffected.
- `Object.entries` puts integer-like keys first. A category named after an
  `Object.prototype` member (`__proto__`, `toString`, `constructor`) makes
  `totals[c] || 0` at 3.js:258 and 3.js:300 read an inherited value instead
  of 0, and `__proto__` never becomes a key. The model treats every category
  as a plain key, in first-encounter order.
- `buildMonthFilter` restores the saved month selection. A value that
  matches no option makes the select's value `""`. The model takes the
  selection as given.
- The `type` read with `FormData` would be `null` if no radio button were
  checked; the model takes the form's type as a string.
- Records loaded from storage are trusted as they are, as the code does. A
  record with a missing or non-string `date`, or a non-number `amount`
  (which `+` at 3.js:193 would concatenate as text), is not modelled.
- Where the code's behaviour is easy to miss:
  - The code stores `Math.round(amount)`. An amount between 0 and 0.5 passes
    validation and is stored as 0 (`Transactions.TinyAmountStoredAsZero`),
    so stored amounts are non-negative, not positive.
  - The stored title is the trimmed title.
  - A refused draft gets one alert for all fields; `Store.Tracker.Submit`
    returns only whether it was accepted, with no field named.
  - The four category names are the keys `renderAdvice` looks up at
    3.js:307-310.
- `Store.Tracker.Valid` requires the checkbox to show the mode. This assumes
  `form.reset()` (3.js:119) leaves the mode checkbox alone, that is, the
  checkbox sits outside the entry form. The page's HTML is not part of this
  model.
