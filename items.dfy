/**
 * The items of the list store and the pure computations its handlers perform:
 * the expiry sweep's keep rule, deletion by id, the add button's validation and
 * construction, the import merge and the export guard.
 */
module Items {
  import opened Wrappers
  import opened Seqs
  import opened Text

  /** An item id: a JavaScript number, only ever compared for equality. */
  type Id = real

  /** A calendar day, counted in days since 1970-01-01. */
  type Day = int

  /** One entry of the list: `{id, text, deadline, isPermanent}`; `None` is a null deadline. */
  datatype Item = Item(id: Id, text: string, deadline: Option<Day>, isPermanent: bool)

  /** The day `new Date(null)` falls on. */
  const Epoch: Day := 0

  /** The day `new Date(item.deadline)` falls on: a null deadline reads as the epoch. */
  function DeadlineDay(item: Item): (d: Day)
    ensures item.deadline.Some? ==> d == item.deadline.value
    ensures item.deadline.None? ==> d == Epoch
  {
    match item.deadline
    case Some(d) => d
    case None => Epoch
  }

  /** The sweep's keep rule: permanent, or due today or later. */
  predicate Live(item: Item, today: Day)
    ensures item.isPermanent ==> Live(item, today)
    ensures !item.isPermanent && item.deadline.Some? ==> (Live(item, today) <==> item.deadline.value >= today)
    ensures !item.isPermanent && item.deadline.None? ==> (Live(item, today) <==> today <= Epoch)
  {
    item.isPermanent || DeadlineDay(item) >= today
  }

  /** The shape every item made by the add button has: a deadline exactly when it is not permanent, and some text. */
  predicate WellFormed(item: Item) {
    item.text != [] && (item.isPermanent <==> item.deadline.None?)
  }

  predicate AllWellFormed(items: seq<Item>) {
    forall i | 0 <= i < |items| :: WellFormed(items[i])
  }

  // ---------------------------------------------------------------------------
  // Expiry sweep (checkDeadlines)

  /** The list left by one expiry sweep on day `today`. */
  function Swept(items: seq<Item>, today: Day): (r: seq<Item>)
    ensures forall i | 0 <= i < |r| :: Live(r[i], today)
    ensures |r| <= |items|
  {
    Filter(items, (x: Item) => Live(x, today))
  }

  /**
   * The sweep never removes a permanent item, keeps every dated item due today or
   * later, and removes every dated item due before today.
   */
  lemma SweptKeeps(items: seq<Item>, today: Day, x: Item)
    ensures x.isPermanent ==> multiset(Swept(items, today))[x] == multiset(items)[x]
    ensures !x.isPermanent && DeadlineDay(x) >= today ==> multiset(Swept(items, today))[x] == multiset(items)[x]
    ensures !x.isPermanent && DeadlineDay(x) < today ==> multiset(Swept(items, today))[x] == 0
  {
    FilterCount(items, (y: Item) => Live(y, today), x);
  }

  /** The items the sweep leaves are in their original relative order. */
  lemma SweptInOrder(items: seq<Item>, today: Day)
    ensures Subsequence(Swept(items, today), items)
  {
    FilterSubsequence(items, (y: Item) => Live(y, today));
  }

  /**
   * The sweep changes the count exactly when some item is past its deadline; when it
   * does not change the count it returns the list unchanged.
   */
  lemma SweptCountChanges(items: seq<Item>, today: Day)
    ensures |Swept(items, today)| != |items| <==> exists i | 0 <= i < |items| :: !Live(items[i], today)
    ensures |Swept(items, today)| == |items| ==> Swept(items, today) == items
  {
    FilterKeepsAll(items, (y: Item) => Live(y, today));
  }

  /** Sweeping twice on the same day is sweeping once. */
  lemma SweptIdempotent(items: seq<Item>, today: Day)
    ensures Swept(Swept(items, today), today) == Swept(items, today)
  {
    SweptCountChanges(Swept(items, today), today);
  }

  // ---------------------------------------------------------------------------
  // Delete by id

  /** The list without the items whose id is `id`. */
  function WithoutId(items: seq<Item>, id: Id): (r: seq<Item>)
    ensures forall i | 0 <= i < |r| :: r[i].id != id
    ensures |r| <= |items|
  {
    Filter(items, (x: Item) => x.id != id)
  }

  /** Deleting removes every item with the id, nothing else, and keeps the order of the rest. */
  lemma WithoutIdRemovesExactly(items: seq<Item>, id: Id, x: Item)
    ensures multiset(WithoutId(items, id))[x] == if x.id == id then 0 else multiset(items)[x]
    ensures Subsequence(WithoutId(items, id), items)
  {
    FilterCount(items, (y: Item) => y.id != id, x);
    FilterSubsequence(items, (y: Item) => y.id != id);
  }

  // ---------------------------------------------------------------------------
  // Add button

  datatype AddError = EmptyText | MissingDeadline

  /**
   * The add button's validation and construction from the typed text, the date field
   * (`None` when empty) and the permanent checkbox. It refuses text that trims to
   * nothing, then a dated item without a date; otherwise the new item carries the
   * trimmed text and a deadline exactly when it is not permanent.
   */
  function NewItem(id: Id, rawText: string, deadline: Option<Day>, isPermanent: bool): (r: Result<Item, AddError>)
    ensures r == Failure(EmptyText) <==> AllWhitespace(rawText)
    ensures r == Failure(MissingDeadline) <==> !AllWhitespace(rawText) && !isPermanent && deadline.None?
    ensures r.Success? ==> r.value.id == id && r.value.text == Trim(rawText) && r.value.isPermanent == isPermanent
    ensures r.Success? ==> r.value.deadline == if isPermanent then None else deadline
    ensures r.Success? ==> WellFormed(r.value)
  {
    var text := Trim(rawText);
    if text == [] then Failure(EmptyText)
    else if !isPermanent && deadline.None? then Failure(MissingDeadline)
    else Success(Item(id, text, if isPermanent then None else deadline, isPermanent))
  }

  // ---------------------------------------------------------------------------
  // Export and import

  datatype ExportError = NothingToExport

  /** The records written to the backup file: refused when the list is empty, else the whole list. */
  function ExportFile(items: seq<Item>): (r: Result<seq<Item>, ExportError>)
    ensures r.Failure? <==> items == []
    ensures r.Success? ==> r.value == items
  {
    if items == [] then Failure(NothingToExport) else Success(items)
  }

  /** A backup file after `JSON.parse`: it threw, it gave something else than an array, or an array of records. */
  datatype Parsed = Unparseable | NotAnArray | Array(records: seq<Item>)

  datatype ImportError = MalformedFile | InvalidFormat

  /** The fields an item carries apart from its id. */
  function Content(item: Item): (string, Option<Day>, bool) {
    (item.text, item.deadline, item.isPermanent)
  }

  function Contents(items: seq<Item>): (r: seq<(string, Option<Day>, bool)>)
    ensures |r| == |items|
    ensures forall i | 0 <= i < |items| :: r[i] == Content(items[i])
  {
    seq(|items|, i requires 0 <= i < |items| => Content(items[i]))
  }

  /** The imported records, each with the id `idFor(i)` and every other field carried over unchecked. */
  function Reid(records: seq<Item>, idFor: nat -> Id): (r: seq<Item>)
    ensures |r| == |records|
    ensures forall i | 0 <= i < |r| :: r[i].id == idFor(i) && Content(r[i]) == Content(records[i])
  {
    seq(|records|, i requires 0 <= i < |records| => records[i].(id := idFor(i)))
  }

  /**
   * The list after importing a parsed file: a failed parse and a non-array are refused;
   * an array is appended, re-identified, after the current list.
   */
  function ImportMerge(items: seq<Item>, data: Parsed, idFor: nat -> Id): (r: Result<seq<Item>, ImportError>)
    ensures r == Failure(MalformedFile) <==> data.Unparseable?
    ensures r == Failure(InvalidFormat) <==> data.NotAnArray?
    ensures r.Success? ==> data.Array? && |r.value| == |items| + |data.records| && r.value[..|items|] == items
    ensures r.Success? ==> forall i | 0 <= i < |data.records| ::
      r.value[|items| + i].id == idFor(i) && Content(r.value[|items| + i]) == Content(data.records[i])
  {
    match data
    case Unparseable => Failure(MalformedFile)
    case NotAnArray => Failure(InvalidFormat)
    case Array(records) => Success(items + Reid(records, idFor))
  }

  /**
   * Exporting a non-empty list and importing the file into an empty list gives back the
   * same items, field for field, in the same order; only the ids are new.
   */
  lemma ExportImportRoundTrip(items: seq<Item>, idFor: nat -> Id)
    requires items != []
    ensures ExportFile(items).Success?
    ensures ImportMerge([], Array(ExportFile(items).value), idFor).Success?
    ensures Contents(ImportMerge([], Array(ExportFile(items).value), idFor).value) == Contents(items)
  {
  }

  /** Import does not check the records: a dated record without a deadline is accepted as it is. */
  lemma ImportKeepsMalformedRecords(items: seq<Item>, idFor: nat -> Id)
    ensures var bad := Item(0.0, "x", None, false);
            var r := ImportMerge(items, Array([bad]), idFor);
            r.Success? && !WellFormed(r.value[|items|])
  {
  }

  /** Sweeping and deleting keep every item well formed; adding keeps it too. */
  lemma {:induction false} StoreKeepsWellFormed(items: seq<Item>, today: Day, id: Id, made: Item)
    requires AllWellFormed(items) && WellFormed(made)
    ensures AllWellFormed(Swept(items, today))
    ensures AllWellFormed(WithoutId(items, id))
    ensures AllWellFormed(items + [made])
  {
    forall x | x in Swept(items, today) ensures WellFormed(x) {
      SweptKeeps(items, today, x);
      assert x in multiset(items);
    }
    forall x | x in WithoutId(items, id) ensures WellFormed(x) {
      WithoutIdRemovesExactly(items, id, x);
      assert x in multiset(items);
    }
  }
}
