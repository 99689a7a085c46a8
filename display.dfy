/**
 * What `renderList` shows: the list sorted by the display comparator (dated items by
 * deadline, permanent items last), and per item its label and whether it is marked
 * expired; a placeholder row when the list is empty.
 */
module Display {
  import opened Seqs
  import opened Items

  // ---------------------------------------------------------------------------
  // Display order

  /**
   * The comparator handed to `sort`: two permanent items tie, a permanent item goes after
   * a dated one, and two dated items compare by deadline (negative: `a` first).
   */
  function Compare(a: Item, b: Item): (r: int)
    ensures a.isPermanent && b.isPermanent ==> r == 0
    ensures a.isPermanent && !b.isPermanent ==> r > 0
    ensures !a.isPermanent && b.isPermanent ==> r < 0
    ensures !a.isPermanent && !b.isPermanent ==> (r < 0 <==> DeadlineDay(a) < DeadlineDay(b)) && (r == 0 <==> DeadlineDay(a) == DeadlineDay(b))
  {
    if a.isPermanent && b.isPermanent then 0
    else if a.isPermanent then 1
    else if b.isPermanent then -1
    else DeadlineDay(a) - DeadlineDay(b)
  }

  /** The comparator is consistent: antisymmetric in sign, and its "not after" relation is total and transitive. */
  lemma CompareIsConsistent(a: Item, b: Item, c: Item)
    ensures Compare(a, b) == -Compare(b, a)
    ensures Compare(a, b) <= 0 || Compare(b, a) <= 0
    ensures Compare(a, b) <= 0 && Compare(b, c) <= 0 ==> Compare(a, c) <= 0
    ensures Compare(a, b) == 0 && Compare(b, c) == 0 ==> Compare(a, c) == 0
  {
  }

  predicate Sorted(s: seq<Item>) {
    forall i, j | 0 <= i < j < |s| :: Compare(s[i], s[j]) <= 0
  }

  /** `s` with `x` placed before the first element it does not come after. */
  function Insert(x: Item, s: seq<Item>): (r: seq<Item>)
    ensures multiset(r) == multiset(s) + multiset{x}
  {
    if s == [] || Compare(x, s[0]) <= 0 then
      [x] + s
    else
      assert s == [s[0]] + s[1..];
      [s[0]] + Insert(x, s[1..])
  }

  /** A sorted list stays sorted with an element in front that comes after none of it. */
  lemma SortedCons(a: Item, t: seq<Item>)
    requires Sorted(t)
    requires forall k | 0 <= k < |t| :: Compare(a, t[k]) <= 0
    ensures Sorted([a] + t)
  {
  }

  /** Whatever comes after neither `x` nor any element of `s` comes after no element of `Insert(x, s)`. */
  lemma {:induction false} InsertBound(b: Item, x: Item, s: seq<Item>)
    requires Compare(b, x) <= 0
    requires forall k | 0 <= k < |s| :: Compare(b, s[k]) <= 0
    ensures forall k | 0 <= k < |Insert(x, s)| :: Compare(b, Insert(x, s)[k]) <= 0
  {
    if s != [] && Compare(x, s[0]) > 0 {
      InsertBound(b, x, s[1..]);
      var rest := Insert(x, s[1..]);
      assert Insert(x, s) == [s[0]] + rest;
      forall k | 0 <= k < |Insert(x, s)| ensures Compare(b, Insert(x, s)[k]) <= 0 {
        if k > 0 {
          assert Insert(x, s)[k] == rest[k - 1];
        }
      }
    }
  }

  /** Inserting into a sorted list gives a sorted list. */
  lemma {:induction false} InsertSorted(x: Item, s: seq<Item>)
    requires Sorted(s)
    ensures Sorted(Insert(x, s))
  {
    if s == [] || Compare(x, s[0]) <= 0 {
      SortedCons(x, s);
    } else {
      InsertSorted(x, s[1..]);
      forall k | 0 <= k < |s[1..]| ensures Compare(s[0], s[1..][k]) <= 0 {
        assert s[1..][k] == s[k + 1];
      }
      CompareIsConsistent(x, s[0], x);
      InsertBound(s[0], x, s[1..]);
      SortedCons(s[0], Insert(x, s[1..]));
    }
  }

  /**
   * The list as `sort` leaves it for display: a stable sort by `Compare` (the language
   * standard requires `Array.prototype.sort` to be stable).
   */
  function DisplayOrder(s: seq<Item>): (r: seq<Item>)
    ensures multiset(r) == multiset(s)
    ensures Sorted(r)
  {
    if s == [] then [] else
      assert s == [s[0]] + s[1..];
      InsertSorted(s[0], DisplayOrder(s[1..]));
      Insert(s[0], DisplayOrder(s[1..]))
  }

  /** Sorting a list already in display order leaves it as it is: rendering twice sorts once. */
  lemma {:induction false} DisplayOrderOfSorted(s: seq<Item>)
    requires Sorted(s)
    ensures DisplayOrder(s) == s
  {
    if s != [] {
      DisplayOrderOfSorted(s[1..]);
      assert s == [s[0]] + s[1..];
    }
  }

  /** Rendering twice sorts once. */
  lemma DisplayOrderIdempotent(s: seq<Item>)
    ensures DisplayOrder(DisplayOrder(s)) == DisplayOrder(s)
  {
    DisplayOrderOfSorted(DisplayOrder(s));
  }

  /**
   * After display sorting every dated item comes before every permanent item, the dated
   * items are in non-decreasing deadline order, and nothing is lost or added.
   */
  lemma DisplayOrderLayout(s: seq<Item>)
    ensures multiset(DisplayOrder(s)) == multiset(s)
    ensures forall i, j | 0 <= i < j < |DisplayOrder(s)| ::
      DisplayOrder(s)[i].isPermanent ==> DisplayOrder(s)[j].isPermanent
    ensures forall i, j | 0 <= i < j < |DisplayOrder(s)| ::
      !DisplayOrder(s)[j].isPermanent ==> DeadlineDay(DisplayOrder(s)[i]) <= DeadlineDay(DisplayOrder(s)[j])
  {
  }

  /** The items that tie with `x` under the comparator. */
  function TiesWith(x: Item): Item -> bool {
    (y: Item) => Compare(x, y) == 0
  }

  lemma {:induction false} InsertKeepsTies(y: Item, t: seq<Item>, x: Item)
    ensures Filter(Insert(y, t), TiesWith(x)) == if TiesWith(x)(y) then [y] + Filter(t, TiesWith(x)) else Filter(t, TiesWith(x))
  {
    var p := TiesWith(x);
    if t == [] || Compare(y, t[0]) <= 0 {
      assert ([y] + t)[1..] == t;
    } else {
      InsertKeepsTies(y, t[1..], x);
      var rest := Insert(y, t[1..]);
      assert ([t[0]] + rest)[1..] == rest;
      assert t == [t[0]] + t[1..];
      if p(y) {
        assert !p(t[0]);
      }
    }
  }

  /** Display sorting is stable: items that tie keep their original relative order. */
  lemma {:induction false} DisplayOrderStable(s: seq<Item>, x: Item)
    ensures Filter(DisplayOrder(s), TiesWith(x)) == Filter(s, TiesWith(x))
  {
    if s != [] {
      DisplayOrderStable(s[1..], x);
      InsertKeepsTies(s[0], DisplayOrder(s[1..]), x);
    }
  }

  // ---------------------------------------------------------------------------
  // Rows

  /** The render's expired marking: dated, and due before today. */
  predicate Expired(item: Item, today: Day)
    ensures Expired(item, today) <==> !Live(item, today)
  {
    !item.isPermanent && DeadlineDay(item) < today
  }

  datatype Label = PermanentLabel | DateLabel(day: Day)

  datatype Row = Row(id: Id, text: string, badge: Label, expired: bool)

  datatype View = Placeholder | Rows(rows: seq<Row>)

  /** One rendered row: a permanent item shows the permanent label, a dated one its date and maybe the expired mark. */
  function RowOf(item: Item, today: Day): (row: Row)
    ensures row.id == item.id && row.text == item.text
    ensures row.badge == PermanentLabel <==> item.isPermanent
    ensures row.expired <==> !Live(item, today)
  {
    if item.isPermanent then Row(item.id, item.text, PermanentLabel, false)
    else Row(item.id, item.text, DateLabel(DeadlineDay(item)), Expired(item, today))
  }

  /** The rendered list: a placeholder when empty, else one row per item in list order. */
  function ViewOf(items: seq<Item>, today: Day): (v: View)
    ensures v == Placeholder <==> items == []
    ensures v.Rows? ==> |v.rows| == |items| && forall i | 0 <= i < |items| :: v.rows[i] == RowOf(items[i], today)
  {
    if items == [] then Placeholder
    else Rows(seq(|items|, i requires 0 <= i < |items| => RowOf(items[i], today)))
  }

  /** The row-building loop of `renderList`. */
  method BuildView(items: seq<Item>, today: Day) returns (view: View)
    ensures view == ViewOf(items, today)
  {
    if |items| == 0 {
      return Placeholder;
    }
    var rows: seq<Row> := [];
    for i := 0 to |items|
      invariant |rows| == i
      invariant forall k | 0 <= k < i :: rows[k] == RowOf(items[k], today)
    {
      rows := rows + [RowOf(items[i], today)];
    }
    view := Rows(rows);
  }

  /** No item left by a sweep is shown expired when rendered on the same day. */
  lemma NothingExpiredAfterSweep(items: seq<Item>, today: Day)
    ensures var v := ViewOf(DisplayOrder(Swept(items, today)), today);
            v.Rows? ==> forall i | 0 <= i < |v.rows| :: !v.rows[i].expired
  {
    var kept := Swept(items, today);
    var shown := DisplayOrder(kept);
    forall i | 0 <= i < |shown| ensures Live(shown[i], today) {
      assert shown[i] in multiset(kept);
    }
  }
}
