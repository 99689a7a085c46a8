# Neta list store

A model of the list store behind a single-page "neta" (idea) list widget. The page keeps
one mutable list of items `{id, text, deadline, isPermanent}` in memory, mirrors it to
local storage, purges items whose deadline has passed, shows the list sorted with
permanent items last, and backs it up to and restores it from a JSON file.

The model has these modules:

- `Wrappers`: `Option` and `Result`.
- `Seqs`: `Filter`, the model of `Array.prototype.filter`, with lemmas. Every matching
  occurrence is kept, every other one is dropped, order is kept, nothing is dropped
  exactly when everything matches, and filtering is idempotent.
- `Text`: `String.prototype.trim` over ECMAScript white space and line terminators.
- `Items`: the item record and the pure computations of the handlers. These are the
  sweep's keep rule (`Live`, `Swept`), deletion by id (`WithoutId`), the add button's
  validation (`NewItem`), the export guard (`ExportFile`) and the import merge
  (`ImportMerge`). Deadlines and "today" are day numbers (days since 1970-01-01). A
  null deadline reads as the epoch, as `new Date(null)` does.
- `Display`: the sort comparator and the display order, which is a stable insertion sort
  by that comparator. It is proved a permutation, sorted, dated-before-permanent,
  ascending by deadline, stable and idempotent. The module also holds the rendered rows:
  the label, the expired mark and the empty-list placeholder.
- `LocalTime`: the expiry test evaluated on instants, as the browser does. It backs the
  finding below.
- `App`: the class `NetaPage`. Its fields are the in-memory list, the stored copy, the
  rendered view and the add form. Its methods are the page's handlers: start-up, the
  periodic sweep, render, delete, add, the permanent checkbox, export, the import button
  and the import file.

Rendering sorts the in-memory list in place after the list has been saved. So the stored
copy keeps the unsorted order, and the in-memory list is in display order. The method
contracts state this.

`Array.prototype.sort` is stable, so display order keeps ties in their original order
(`Display.DisplayOrderStable`).

## Model

| member | source | states |
|---|---|---|
| Seqs.Filter | script.js:98-105 | the kept elements all satisfy the predicate and there are no more of them than in the input |
| Seqs.FilterCount | script.js:98-105 | each value occurs as often as in the input when it satisfies the predicate, and not at all otherwise |
| Seqs.FilterSubsequence | script.js:98-105 | the result is an order-preserving subsequence of the input |
| Seqs.FilterKeepsAll | script.js:96-108 | the length is unchanged exactly when every element satisfies the predicate, and then the result is the input itself |
| Seqs.FilterIdempotent | script.js:98-105 | filtering twice with one predicate is filtering once |
| Text.TrimStart | script.js:116 | drops only a leading run of white space, and the result does not start with white space |
| Text.TrimEnd | script.js:116 | drops only a trailing run of white space, and the result does not end with white space |
| Text.Trim | script.js:116 | the trimmed text has no white space at either end, and it is empty exactly when the input is all white space |
| Text.TrimIsInfix | script.js:116 | the trimmed text is the infix of the input that starts after its leading white space, and only white space lies before and after it |
| Text.StartIsSuffix | script.js:116 | stripping the start keeps a suffix of the input, and everything dropped is white space |
| Text.EndIsPrefix | script.js:116 | stripping the end keeps a prefix of its input, and everything dropped is white space |
| Text.TrimIdempotent | script.js:116 | trimming a trimmed text changes nothing |
| Items.DeadlineDay | script.js:102 | `new Date(item.deadline)` as a day: the deadline's own day when there is one, the epoch for a null deadline |
| Items.Live | script.js:98-105 | the sweep's keep rule: kept iff permanent or the deadline day is today or later; a dated item with a null deadline counts as due at the epoch |
| Items.Swept | script.js:98-105 | every item the sweep leaves is permanent or due today or later, and none is added |
| Items.SweptKeeps | script.js:98-104 | the sweep keeps every copy of a permanent item whatever the day, keeps every copy of a dated item due today or later, and drops every copy of a dated item due before today |
| Items.SweptInOrder | script.js:98-105 | the items left keep their relative order |
| Items.SweptCountChanges | script.js:96-111 | the count changes exactly when some item is past its deadline, and otherwise the sweep returns the list unchanged |
| Items.SweptIdempotent | script.js:98-105 | sweeping twice on the same day is sweeping once |
| Items.WithoutId | script.js:74 | no item with the deleted id remains and none is added |
| Items.WithoutIdRemovesExactly | script.js:74 | deletion removes every item with the id and only those, and the rest keep their order |
| Items.NewItem | script.js:116-134 | text that trims to nothing is refused with EmptyText; otherwise a non-permanent item without a date is refused with MissingDeadline; otherwise the item has the fresh id and the trimmed text, its deadline is null exactly when it is permanent, and it is well formed |
| Items.StoreKeepsWellFormed | script.js:74-136 | sweeping, deleting and appending a built item keep every item well formed |
| Items.ExportFile | script.js:158-163 | export is refused exactly when the list is empty, and otherwise the file holds the whole list |
| Items.Reid | script.js:200-203 | each imported record gets the i-th fresh id, and its other fields are unchanged |
| Items.ImportMerge | script.js:198-213 | a failed parse and a non-array are refused with their own errors; an array gives the old list followed by the re-identified records in order, one per record |
| Items.ExportImportRoundTrip | script.js:163-206 | importing the export of a non-empty list into an empty list gives back the same text, deadline and permanent flag for every item, in order |
| Items.ImportKeepsMalformedRecords | script.js:200-206 | import accepts a dated record without a deadline unchanged; imported records are not validated |
| Display.Compare | script.js:23-28 | two permanent items tie, a permanent item sorts after a dated one, and two dated items compare by deadline (negative, zero, positive as the first deadline is earlier, equal, later) |
| Display.CompareIsConsistent | script.js:23-28 | the comparator is antisymmetric in sign, total and transitive, so it is a consistent sort order |
| Display.Insert | script.js:23-28 | insertion adds exactly the one element |
| Display.SortedCons | script.js:23-28 | a sorted list stays sorted when an element that sorts before all of it is put in front |
| Display.InsertBound | script.js:23-28 | an element that sorts before the inserted one and before the whole list also sorts before the result |
| Display.InsertSorted | script.js:23-28 | inserting into a sorted list gives a sorted list |
| Display.DisplayOrder | script.js:23-28 | the display order is a permutation of the list and is sorted by the comparator |
| Display.DisplayOrderLayout | script.js:23-28 | after sorting, every dated item comes before every permanent item and dated items are in non-decreasing deadline order |
| Display.InsertKeepsTies | script.js:23-28 | insertion keeps the relative order of the items that tie with any given item |
| Display.DisplayOrderStable | script.js:23-28 | items that tie under the comparator keep their original relative order |
| Display.DisplayOrderOfSorted | script.js:23-28 | sorting a list already in display order leaves it unchanged |
| Display.DisplayOrderIdempotent | script.js:224-225 | rendering twice, as start-up does after a sweep that removed items, sorts once |
| Display.Expired | script.js:57-60 | the expired mark: a dated item due before today; it holds exactly when the sweep's keep rule fails |
| Display.RowOf | script.js:51-60 | a row shows the permanent label exactly for permanent items, and it is marked expired exactly when the sweep would drop the item |
| Display.ViewOf | script.js:32-60 | an empty list shows the placeholder; otherwise there is one row per item in list order |
| Display.BuildView | script.js:37-83 | the row-building loop produces the view of the list |
| Display.NothingExpiredAfterSweep | script.js:57-60 | no item left by a sweep shows as expired when rendered on the same day |
| LocalTime.KeptAsWritten | script.js:94-104 | the keep test as the browser evaluates it: permanent items are kept, and a dated item is kept iff midnight UTC of its deadline day is not before local midnight of today |
| LocalTime.AsWrittenAgreesEastOfUtc | script.js:94-104 | at UTC and east of it, comparing the deadline instant with local midnight is comparing days |
| LocalTime.AsWrittenDropsDeadlineDayWestOfUtc | script.js:102-104 | west of UTC, comparing instants drops a dated item on its own deadline day |
| LocalTime.NewYorkDeadlineDay | script.js:102-104 | at UTC-5 an item due on day 20000 is dropped on day 20000 |
| App.NetaPage.constructor | script.js:16 | start-up loads the stored list (nothing stored gives the empty list), sweeps, saves only if something was dropped, and shows the swept list in display order |
| App.NetaPage.StartUp | script.js:224-225 | the sweep then the render at start-up: the swept list is saved only if something was dropped, and memory holds it in display order, sorted once, with the view rebuilt |
| App.NetaPage.Render | script.js:19-84 | the list is sorted in place into display order, and the view is rebuilt from it |
| App.NetaPage.SaveAndRender | script.js:108-110 | the given list is stored as it is, and the in-memory list becomes that list in display order with the view rebuilt from it |
| App.NetaPage.ClearForm | script.js:140-143 | the text and date fields are emptied, the box is unchecked and the date field is enabled |
| App.NetaPage.CheckDeadlines | script.js:92-112 | when some item is past its deadline, the swept list is saved, then sorted and rendered; otherwise list, storage and view are untouched |
| App.NetaPage.Delete | script.js:71-77 | on confirmation the list without the id is saved, then sorted and rendered; without confirmation nothing changes |
| App.NetaPage.Add | script.js:115-144 | the outcome is the validation result; a refusal changes nothing; on success the old list plus the new item at the end is saved, then sorted and rendered, and the form is cleared with the date field enabled |
| App.NetaPage.SetPermanent | script.js:147-152 | the date field is disabled exactly while the box is checked, and checking it clears the date |
| App.NetaPage.Export | script.js:157-163 | the export button gives the export of the current list |
| App.NetaPage.OpenImport | script.js:177-184 | the file picker opens exactly when the list is empty or the merge is confirmed |
| App.NetaPage.ImportFile | script.js:187-213 | no file does nothing; a failed parse or a non-array is reported and changes nothing; an array is merged, saved, sorted and rendered, and its length is reported |

## Findings

| source | as written | input that shows it | evidently intended | confidence | as-written member | corrected member |
|---|---|---|---|---|---|---|
| script.js:102-104 | `new Date(item.deadline)` reads a date-only string as midnight UTC, but `today` is local midnight, and the two instants are compared | a time zone of UTC-5 and an item due today: the deadline instant is 5 hours before local midnight, so the item is dropped on its own deadline day | dated items stay through their deadline day in every time zone, as the comment "keep those due today or later" says | high, not executed | LocalTime.AsWrittenDropsDeadlineDayWestOfUtc | Items.SweptKeeps |

The expired mark (script.js:57-60) compares the same two instants. West of UTC it marks
an item expired on its own deadline day. `Items.Live` and `Display.Expired` compare
calendar days, and the rest of the model uses them.

## Left out

- DOM construction, `innerHTML` and event-listener wiring are left out. The rendered list
  is the value `Display.View`, with a label, an expired mark and a placeholder.
- Alert and confirm dialogs are left out. A confirm answer is a boolean parameter, and an
  alert is an error result or an outcome value.
- Local storage and JSON are left out. Storage is the field `stored`. Serialising and
  re-parsing a list is taken to give the same list. An import file arrives already
  parsed, as `Parsed`: the parse threw, the value is not an array, or it is an array of
  records.
- Stored data that fails to parse at start-up is not modelled. In the code, `JSON.parse`
  throws and the page never starts.
- `FileReader`, `Blob`, object URLs, the download anchor, the export file name and the
  reset of the file picker are browser I/O and are left out.
- `setInterval` is left out. Each timer tick is one call of `CheckDeadlines`.
- `Date.now()` and `Math.random()` id generation are left out. The ids are parameters
  (`freshId`, `idFor`), and nothing is claimed about their uniqueness.
- Host date handling is left out: parsing, time zones and locale formatting. Deadlines
  and today are day numbers. The time-zone effect is modelled separately, in `LocalTime`.
  Deadline strings that do not parse as dates can only come from import, and they are
  not modelled. Such a date is swept but never marked expired, and it makes the
  comparator inconsistent.
- Imported records are item-shaped here. The code copies any JSON value with spread
  syntax: a non-object element becomes a record without the item fields (a non-empty
  string gives its characters as index keys), and `isPermanent` is read for truthiness. The model does not represent those shapes.
- The initial form values come from the page's HTML. The model starts them empty.
- `Render` takes `today` as a parameter. The sweep and the render that follows it read
  the clock separately, a moment apart. The model gives both the same day.
