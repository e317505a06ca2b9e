# Shared monthly expense ledger — a Dafny model

The application keeps, for one browser session, a ledger per calendar month
under a key `"YYYY-MM"`. A ledger holds categories (id, label, colour) and
entries (id, category id, description, owner `lion` or `primo`, amount).
Besides the ledgers, the state holds the month on screen and a module-level
id counter that starts at 200. It mints every entry id except those of the
first month's seed entries (ids 1 to 8), every `cat_<n>` category id and
every toast id. It also holds an activity log capped at 31
lines and a toast buffer capped at two. The event handlers are:

- start a month, from the seed template or as a copy of the previous month;
- edit, add and remove entries;
- rename, add and remove categories;
- delete a month from the history tab.

Derived figures are the current month's totals per owner and per category,
the previous month's totals, and three history series over the sorted month
keys. A small up/down indicator compares two totals.

The model is in nine modules:

- `Wrappers`: `Option`.
- `Seqs`: `filter`, `find`, `slice(-n)` and distinct keys.
- `Strings`: white space, `trim`, `split`, `replace` with a one-character
  pattern, and the `<` order on strings that `sort()` uses.
- `Decimal`: digit strings, `String(n)` and `padStart`.
- `MonthKeys`: `monthKey`, month navigation and the key parse of the history rows.
- `Amounts`: `parseVal` and the text the inline amount editor starts from.
- `Ledgers`: the datatypes, `SEED_DATA`, `COLORS`, the edit each handler
  makes to one ledger, and the ledger invariant with its preservation
  lemmas.
- `Aggregation`: the `totals` and `prevTotals` loops, `histKeys`/`hist`,
  `Delta`, and the history-row comparison.
- `Store`: the class `LedgerStore`. Its fields are the React state plus the
  `_uid` counter, and its methods are the event handlers.

Amounts are exact `real`s. The ledger invariant (`Ledgers.WellFormed`)
says five things:

- a month has at least one category;
- category ids and entry ids are distinct;
- every category has at least one entry;
- every entry id is at most the counter;
- every category id is a seed id or a `cat_<n>` with `n` at most the counter.

`LedgerStore.Valid` requires it of every stored month, together with the
bounds of the two buffers. Every handler keeps it.

Where the intended behaviour differs from what the code does, the model
follows the code:

- `initMonth` overwrites an existing ledger for the month on screen; it is
  not a no-op. The screen only offers it for an empty month.
- `initMonth` gives fresh ids to the entries in the seed path as well as in
  the copy path.
- `addEntry` does not check that the category exists.
- An amount may be negative: `parseVal("-5")` is -5, not 0.

## Model

| member | source | states |
|---|---|---|
| Seqs.SliceLast | src/App.jsx:348-350 | `slice(-n)` keeps the last `n` elements, or all of them when there are fewer |
| Strings.TrimEmpty | src/App.jsx:404 | a typed name trims to the empty string exactly when every character is white space |
| Strings.TrimStartShape | src/App.jsx:404 | trimming the front drops only a run of leading white space and stops at a non-space character |
| Strings.TrimEndShape | src/App.jsx:404 | trimming the back drops only a run of trailing white space and stops at a non-space character |
| Decimal.NatToStringValue | src/App.jsx:6 | `String(n)` is a digit string whose value is `n` |
| Decimal.PadStart2Value | src/App.jsx:6 | `padStart(2, "0")` keeps the digits' value |
| Decimal.FixedOrder | src/App.jsx:439 | fixed-width digit strings compare as strings exactly as their numbers compare |
| MonthKeys.KeyRoundTrip | src/App.jsx:891-892 | `split("-").map(Number)` on `monthKey(y, m)` gives back `yr = y` and `mIdx = m` |
| MonthKeys.MonthPartFixed | src/App.jsx:6 | the month half of a key is always two digits |
| MonthKeys.KeyOrder | src/App.jsx:439 | for four-digit years, string order on keys is calendar order, and two keys are equal exactly when the months are |
| MonthKeys.PrevMonthOf | src/App.jsx:362 | stepping back keeps the month index in 0..11 |
| MonthKeys.NextMonthOf | src/App.jsx:363 | stepping forward keeps the month index in 0..11 |
| MonthKeys.NavigationInverse | src/App.jsx:362-363 | next after previous, and previous after next, return to the same month |
| MonthKeys.PrevKeyIsPredecessor | src/App.jsx:327 | `prevKey` is below the current key, and no key of a four-digit year lies strictly between them |
| Amounts.Strip | src/App.jsx:5 | after `replace(/[R$\s.]/g, "")` no `R`, `$`, white space or `.` is left, and a character appears in the result exactly when it appears in the input and is not one of those |
| Amounts.StripIsFilter | src/App.jsx:5 | `replace(/[R$\s.]/g, "")` is the filter of the other characters: each is kept, in order and as often as it occurs |
| Strings.ReplaceFirstAt | src/App.jsx:5 | `replace(",", ".")` turns the first comma into a point and leaves every other character, later commas included, where it was |
| Strings.ReplaceFirstAbsent | src/App.jsx:5 | `replace(",", ".")` leaves a text without a comma unchanged |
| Amounts.SanitizeShape | src/App.jsx:5 | the sanitised text has exactly one `.` when the input has a comma and none otherwise; no `R`, `$` or space remains |
| Amounts.DigitPrefix | src/App.jsx:5 | `parseFloat` reads the longest leading run of digits |
| Amounts.UnsignedPrefix | src/App.jsx:5 | an unsigned magnitude is never negative |
| Amounts.NoDigitsParsesToZero | src/App.jsx:5 | within the modelled decimal grammar (no `Infinity`, no exponent), an input without a digit is NaN for `parseFloat`, and `\|\| 0` makes it 0 |
| Amounts.NoMinusNonNegative | src/App.jsx:5 | an input without a minus sign never parses to a negative amount |
| Amounts.ParsePlainDecimal | src/App.jsx:5 | a plain `digits.digits` string parses to its decimal value |
| Amounts.SanitizeEditText | src/App.jsx:700 | sanitising the editor's `toFixed(2).replace(".", ",")` text only turns its comma into a point |
| Amounts.EditTextRoundTrip | src/App.jsx:700 | committing the editor's unchanged text for `c` cents stores exactly `c / 100` |
| Ledgers.CategoryName | src/App.jsx:388 | `find(...)?.label` is absent exactly when no category has the id, and otherwise it is the label of a category with that id |
| Ledgers.ApplyField | src/App.jsx:380-382 | an edit never changes an entry's id or category |
| Ledgers.ReMintedFresh | src/App.jsx:368 | re-minted ids are strictly increasing and above the counter's old value, and everything else about each entry is kept |
| Ledgers.SeedIdsDistinct | src/App.jsx:10-27 | the seed's category ids and entry ids are distinct |
| Ledgers.SeedIdsBounded | src/App.jsx:10-30 | the seed's entry ids are at most the counter's start value 200 |
| Ledgers.SeedWellFormed | src/App.jsx:10-30 | the seed month satisfies the ledger invariant at the counter's start value |
| Ledgers.WellFormedMonotone | src/App.jsx:29-30 | the invariant survives any increase of the counter |
| Ledgers.MintedCatIdFresh | src/App.jsx:405 | `cat_<uid()>` differs from every category id already in use |
| Ledgers.CountAfterDelete | src/App.jsx:395-396 | deleting one entry lowers only its own category's count, by one |
| Ledgers.CountAfterAppend | src/App.jsx:389 | appending an entry raises only its own category's count, by one |
| Ledgers.WithoutIdDeletesOne | src/App.jsx:396 | with distinct ids, `filter(e => e.id !== entId)` deletes exactly that entry |
| Ledgers.OtherCategoryDeletesOne | src/App.jsx:416 | with distinct ids, `filter(c => c.id !== catId)` deletes exactly that category |
| Ledgers.UpdateEntryKeeps | src/App.jsx:382 | setting a field of one entry keeps the invariant |
| Ledgers.UpdateEntrySpec | src/App.jsx:380-382 | the entry with that id (ids are distinct) gets the field, every other entry and every category is kept, nothing changes when the id is absent, and the invariant holds |
| Ledgers.UpdateEntryInKeeps | src/App.jsx:382 | the `updateEntry` callback keeps the invariant |
| Ledgers.AddEntryKeeps | src/App.jsx:386-389 | appending an entry with a fresh id keeps the invariant |
| Ledgers.RemoveEntryKeeps | src/App.jsx:392-398 | once the guard has seen another entry in the same category, deleting the entry keeps the invariant |
| Ledgers.RemoveEntrySpec | src/App.jsx:392-398 | the removal is refused exactly when the id is absent or its entry is its category's only one; otherwise exactly that entry goes, the categories are kept and the invariant holds |
| Ledgers.RenameCategoryKeeps | src/App.jsx:400 | relabelling a category keeps the invariant |
| Ledgers.RenameCategorySpec | src/App.jsx:399-400 | the category with that id (ids are distinct) is relabelled, every other category and every entry is kept, and the invariant holds |
| Ledgers.RenameCategoryInKeeps | src/App.jsx:400 | the `updateCatLabel` callback keeps the invariant |
| Ledgers.AddCategoryKeeps | src/App.jsx:403-410 | the new `cat_<n>` category with its one entry keeps the invariant at the counter two higher |
| Ledgers.RemoveCategoryKeeps | src/App.jsx:414-416 | with two or more categories, removing one with its entries keeps the invariant |
| Ledgers.RemoveCategorySpec | src/App.jsx:414-416 | exactly that category and exactly the entries naming it go, and the other entries keep their relative order; an unknown id changes no category; the invariant holds |
| Seqs.FilterPosition | src/App.jsx:416 | `filter` puts each kept element after the kept elements that came before it, so the kept elements keep their relative order |
| Ledgers.ReMintKeeps | src/App.jsx:366-368 | a well-formed source month with fresh ids is well formed at the advanced counter |
| Ledgers.AllWellFormedMonotone | src/App.jsx:29-30 | every stored month stays well formed as the counter grows |
| Ledgers.AllWellFormedStore | src/App.jsx:369 | storing one well-formed month keeps every month well formed |
| Ledgers.AllWellFormedDelete | src/App.jsx:930 | deleting a month keeps every other month well formed |
| Ledgers.AllAfterInit | src/App.jsx:365-369 | after `initMonth`'s store, every month is well formed at the advanced counter |
| Ledgers.AllAfterUpdateEntry | src/App.jsx:380-382 | after `updateEntry`'s mutate, every month is well formed |
| Ledgers.AllAfterAddEntry | src/App.jsx:386-389 | after `addEntry`'s mutate, every month is well formed |
| Ledgers.AllAfterRemoveEntry | src/App.jsx:392-396 | after `removeEntry`'s mutate past its guards, every month is well formed |
| Ledgers.AllAfterRenameCategory | src/App.jsx:399-400 | after `updateCatLabel`'s mutate, every month is well formed |
| Ledgers.AllAfterAddCategory | src/App.jsx:403-410 | after `addCategory`'s mutate, every month is well formed |
| Ledgers.AllAfterRemoveCategory | src/App.jsx:414-416 | after `removeCategory`'s mutate past its guard, every month is well formed |
| Aggregation.SumAppend | src/App.jsx:443 | the `reduce` sum grows by the appended entry's value |
| Aggregation.CatTotalAppend | src/App.jsx:425 | one more entry adds its value to its own category's total only |
| Aggregation.OwnerTotalAppend | src/App.jsx:426 | one more entry adds its value to its own owner's total only |
| Aggregation.CatTotalAbsent | src/App.jsx:425 | a category no entry names totals 0 |
| Aggregation.OwnerSplit | src/App.jsx:426 | the `else` branch (not lion) and the `"primo"` filter of the history agree: the two owner totals add up to the sum of all entries |
| Aggregation.CatKeys | src/App.jsx:425 | `byCat`'s keys are exactly the category ids the entries name, each once |
| Aggregation.SumCatsIsSum | src/App.jsx:420-429 | the per-category totals add up to the grand total |
| Aggregation.CatIdSetAppend | src/App.jsx:425 | one more entry adds only its category id to `byCat`'s keys |
| Aggregation.ByCatStepAt | src/App.jsx:425 | after one step of the loop, the value at each key of `byCat` is that category's new total |
| Aggregation.ByCatStep | src/App.jsx:425 | one step of the loop keeps `byCat` exact: its keys are the category ids seen, and each value is that category's total |
| Aggregation.OwnersStep | src/App.jsx:426 | one step of the loop keeps `lion` and `primo` equal to the owner totals |
| Aggregation.ComputeTotals | src/App.jsx:420-429 | a missing month gives zeros and an empty `byCat`; otherwise lion and primo are the owner totals, grand is the sum of all entries, `byCat` holds each category's total, and its values add up to grand |
| Aggregation.ComputePrevTotals | src/App.jsx:431-437 | null exactly when the previous month is absent; otherwise the owner totals, with their sum as grand |
| Aggregation.OwnerSums | src/App.jsx:434-435 | the `prevTotals` loop computes the two owner totals |
| Aggregation.RunningOwnerTotals | src/App.jsx:434-435 | two running sums, each adding an entry's value when the entry belongs to its owner, end at the two owner totals |
| Aggregation.SeedTotals | src/App.jsx:17-26 | the seed month totals 3173.12 for lion, 2384.68 for primo and 5557.80 in all |
| Aggregation.Insert | src/App.jsx:439 | inserting a new key into a strictly sorted key list keeps it strictly sorted and adds exactly that key |
| Aggregation.SortedKeys | src/App.jsx:439 | `Object.keys(allData).sort()` lists every stored key once, in ascending string order |
| Aggregation.SortedUnique | src/App.jsx:439 | a set of keys has only one strictly sorted listing |
| Aggregation.Hist | src/App.jsx:440-444 | every history series has one figure per sorted key |
| Aggregation.HistAgreesWithTotals | src/App.jsx:440-444 | each month's grand figure is its lion figure plus its primo figure, and each figure is the owner total of that month |
| Aggregation.SortedKeysAfterDelete | src/App.jsx:930 | after a month is deleted, the sorted keys are the old ones without that key |
| Aggregation.HistAfterDelete | src/App.jsx:930 | after a month is deleted, each history series loses exactly that month's position |
| Aggregation.DeleteMonthHistory | src/App.jsx:930 | deleting a month removes only its key from the sorted keys and only its position from each series; every other month's figures are unchanged |
| Aggregation.DeltaOf | src/App.jsx:148-151 | `Delta` shows nothing exactly when the previous total is null or 0; otherwise up exactly when `cur > prev`, and down otherwise, including when equal |
| Aggregation.DeltaSign | src/App.jsx:150-151 | for a positive previous total, the arrow and the sign of the percentage agree; for a negative one they are opposite |
| Aggregation.ReverseTwice | src/App.jsx:889 | reversing the reversed keys gives back the sorted keys |
| Aggregation.ReverseNewestFirst | src/App.jsx:889 | over the sorted keys, `slice().reverse()` lists the same keys in strictly descending string order, newest first |
| Aggregation.CompareKeyAsWrittenIs | src/App.jsx:896 | as written, row `idx` is compared with sorted key `idx + 1`, not with the row below it |
| Aggregation.CompareKeyAsWrittenTwoMonths | src/App.jsx:896 | as written, with two months the newest row's comparison key is its own key and the oldest row has none; any non-zero total compared with itself shows down |
| Aggregation.RowDeltaAsWrittenTwoMonths | src/App.jsx:893-897 | as written, with two months the newest row shows down exactly when its total is not zero and nothing when it is zero; the oldest row shows nothing |
| Aggregation.PrevRowKeyIsPredecessor | src/App.jsx:896 | the intended comparison month is the greatest stored key below the row's key, and only the oldest row has none |
| Aggregation.RowDeltaMeaning | src/App.jsx:893-897 | with the intended comparison month, a row shows nothing exactly when it is the oldest row or the month before it totals 0; otherwise it shows up exactly when its total exceeds that month's |
| Store.LedgerStore.constructor | src/App.jsx:309-317 | the initial state: the clock's month holds the seed, the counter is 200, the log holds the start message, and there are no toasts |
| Store.LedgerStore.Uid | src/App.jsx:29-30 | `uid()` increments the counter and returns its new value |
| Store.LedgerStore.AddLog | src/App.jsx:347-351 | the log keeps its last 30 lines and gains the message; the toasts keep their last one and gain one with a fresh id; the caps and the invariant hold |
| Store.LedgerStore.Mutate | src/App.jsx:376-378 | the callback is applied to the month on screen, and a month without a ledger is left alone |
| Store.LedgerStore.PrevMonth | src/App.jsx:362 | January goes to December of the year before, and the new key is the old `prevKey` |
| Store.LedgerStore.NextMonth | src/App.jsx:363 | December goes to January of the year after |
| Store.LedgerStore.InitMonth | src/App.jsx:365-374 | only the current key changes. It receives the previous month's ledger when copying is asked for and that month exists, and the seed otherwise. Every entry gets a fresh, increasing id above the old counter. The message is logged |
| Store.LedgerStore.StoreCopy | src/App.jsx:366-369 | the source ledger with fresh ids is stored under the current key, and all months stay well formed |
| Store.LedgerStore.MintIds | src/App.jsx:368 | the `map` gives the i-th entry the id `counter + 1 + i` and advances the counter by the number of entries |
| Store.LedgerStore.UpdateEntry | src/App.jsx:380-385 | one field of the entry with that id is set in the month on screen, the edit is logged, and the invariant holds |
| Store.LedgerStore.AddEntry | src/App.jsx:386-391 | a lion entry worth 0 with the next id is appended to the month on screen. The log line carries the category's label, or nothing when the id is unknown |
| Store.LedgerStore.AppendEntry | src/App.jsx:387-389 | the id is minted before the entry is pushed, and all months stay well formed |
| Store.LedgerStore.RemoveEntry | src/App.jsx:392-398 | when the id is absent or its entry is its category's last one, nothing changes and nothing is logged; otherwise exactly that entry goes and the removal is logged |
| Store.LedgerStore.UpdateCatLabel | src/App.jsx:399-402 | the category is relabelled in the month on screen, and the new label is logged |
| Store.LedgerStore.AddCategory | src/App.jsx:403-413 | a name that trims to nothing changes nothing. Otherwise it adds `cat_<n>` with colour `COLORS[count % 8]` and one lion entry worth 0 with the next id, and logs the name |
| Store.LedgerStore.AddNamedCategory | src/App.jsx:405-411 | the non-blank branch: the category, its entry, the three counter steps and the log line |
| Store.LedgerStore.InsertCategory | src/App.jsx:405-410 | `cat_<uid()>`, then the category and its entry, whose id is the next `uid()` |
| Store.LedgerStore.RemoveCategory | src/App.jsx:414-418 | with one category or none, nothing changes; otherwise the category goes with exactly the entries naming it, and the removal is logged |
| Store.LedgerStore.DeleteMonth | src/App.jsx:928-932 | without confirmation nothing changes; with it, only that month's key goes and the deletion is logged |

## Left out

- React rendering, styling, the tabs and their state, the typing prompt,
  the glitch timer, the animated counters, the clock, the sparkline and the
  donut chart: they hold no ledger data.
- `fmt` (`Intl.NumberFormat`), `MONTHS_PT`, and the text of the log and
  toast messages. A log line is a `LogMsg` value carrying what the message
  shows; its timestamp is left out.
- Floating point. Amounts are exact reals, so sums have no rounding, and
  `toFixed(1)` in `Delta` is not modelled (only its sign, in `DeltaSign`).
- `parseFloat` beyond an optional sign, digits and one point: exponents
  and `Infinity`. For such text the model reads only the plain decimal
  prefix (`"1e3"` gives 1, `"Infinity"` gives 0).
- `clone`: ledgers are immutable values, so the deep copy is the identity.
- `new Date()` is the constructor's `year`/`month` parameters.
- `window.confirm` is the `confirmed` parameter of `DeleteMonth`.
- `flashRow`, `removeToast`, the toast timer, and the history row's click
  that navigates to its month: timers and navigation, not ledger data.
- The label field is called `name`, because `label` is a Dafny keyword.
- Owners other than `lion` and `primo`: the owner is a two-valued datatype,
  so `updateEntry` cannot store any other string.
- Store.LedgerStore.InsertCategory: the category id's `uid()` is minted
  before the mutate and the entry's inside its updater. The model assumes
  that React runs the updater at once, before `addLog` mints the toast id.
- Store.LedgerStore.RemoveEntry: requires a ledger for the month on screen.
  The source reads `monthData.entries` without a null check, and throws
  when it is missing.
- Store.LedgerStore.RemoveCategory: requires a ledger for the month on
  screen, for the same reason (`monthData.categories`).
- Store.LedgerStore.AddCategory: requires a ledger for the month on screen
  when the name is not blank (`monthData.categories.length`), for the same
  reason.
- MonthKeys.KeyRoundTrip: stated for years 0 and up only. A negative
  year's key starts with `-`, and `split("-")` then gives a different first
  piece.
- MonthKeys.KeyOrder: stated for four-digit years only. Below 1000 the
  string order of keys is not calendar order.
- The `Delta` a history row shows is modelled twice: `RowDeltaAsWritten`
  with the comparison month as written, and `RowDelta` with the corrected
  one. Its rendering for a row whose key has no ledger is not modelled;
  `histKeys` only lists keys that have one.

## Findings

| source | as written | input that shows it | evidently intended | confidence | as-written member | corrected member |
|---|---|---|---|---|---|---|
| src/App.jsx:896 | `arr[arr.length-1-idx-1]` over the keys reversed to newest first picks sorted key `idx + 1`, not the row listed below | two stored months, `2024-01` and `2024-02`: the `2024-02` row is compared with itself and shows down whenever its total is not zero, and the `2024-01` row shows no delta | `arr[idx + 1]`, the chronologically previous stored month | not executed | Aggregation.RowDeltaAsWrittenTwoMonths | Aggregation.PrevRowKeyIsPredecessor |
