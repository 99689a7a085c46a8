/**
 * The page's state and its event handlers: the in-memory list, the copy in local
 * storage, the rendered list and the add form. Each handler runs to completion;
 * the day, the fresh ids and the answers to confirmation dialogs are parameters.
 */
module App {
  import opened Wrappers
  import opened Items
  import opened Display

  datatype ImportOutcome = NoFile | Imported(count: nat) | Rejected(error: ImportError)

  class NetaPage {
    /** The in-memory list. */
    var items: seq<Item>
    /** What local storage holds under the list's key; `None` while nothing was ever saved. */
    var stored: Option<seq<Item>>
    /** The rendered list. */
    var shown: View
    /** The add form: text field, date field (`None` when empty), permanent checkbox, date field disabled. */
    var textValue: string
    var deadlineValue: Option<Day>
    var permanentChecked: bool
    var deadlineDisabled: bool

    /**
     * Page start: load what storage holds (nothing loads as the empty list), sweep,
     * then render.
     */
    constructor (persisted: Option<seq<Item>>, today: Day)
      ensures var loaded := if persisted.Some? then persisted.value else [];
              var kept := Swept(loaded, today);
              && stored == (if |kept| != |loaded| then Some(kept) else persisted)
              && items == DisplayOrder(kept)
              && shown == ViewOf(items, today)
      ensures textValue == [] && deadlineValue == None && !permanentChecked && !deadlineDisabled
    {
      items := if persisted.Some? then persisted.value else [];
      stored := persisted;
      shown := Placeholder;
      textValue, deadlineValue, permanentChecked, deadlineDisabled := "", None, false, false;
      new;
      StartUp(today);
    }

    /**
     * The start-up calls `checkDeadlines(); renderList();`: the swept list is saved only
     * if something was dropped, and it ends up in display order (sorted once even when
     * both calls render).
     */
    method StartUp(today: Day)
      modifies this`items, this`stored, this`shown
      ensures var kept := Swept(old(items), today);
              && stored == (if |kept| != |old(items)| then Some(kept) else old(stored))
              && items == DisplayOrder(kept)
              && shown == ViewOf(items, today)
    {
      ghost var kept := Swept(items, today);
      SweptCountChanges(items, today);
      CheckDeadlines(today);
      DisplayOrderIdempotent(kept);
      Render(today);
    }

    /** `renderList`: sort the list in place for display, then rebuild the rendered rows. */
    method Render(today: Day)
      modifies this`items, this`shown
      ensures items == DisplayOrder(old(items))
      ensures shown == ViewOf(items, today)
    {
      items := DisplayOrder(items);
      shown := BuildView(items, today);
    }

    /** `saveNeta` then `renderList`: store the new list as it is, then show it sorted. */
    method SaveAndRender(list: seq<Item>, today: Day)
      modifies this`items, this`stored, this`shown
      ensures stored == Some(list)
      ensures items == DisplayOrder(list) && shown == ViewOf(items, today)
    {
      items := list;
      stored := Some(list);
      Render(today);
    }

    /** The form reset after a successful add: empty fields, box unchecked, date field enabled. */
    method ClearForm()
      modifies this`textValue, this`deadlineValue, this`permanentChecked, this`deadlineDisabled
      ensures textValue == [] && deadlineValue == None && !permanentChecked && !deadlineDisabled
    {
      textValue, deadlineValue, permanentChecked, deadlineDisabled := "", None, false, false;
    }

    /**
     * `checkDeadlines`: drop the items due before today; save and re-render only when
     * something was dropped, which happens exactly when some item is past its deadline.
     */
    method CheckDeadlines(today: Day)
      modifies this`items, this`stored, this`shown
      ensures var kept := Swept(old(items), today);
              if exists i | 0 <= i < |old(items)| :: !Live(old(items)[i], today) then
                stored == Some(kept) && items == DisplayOrder(kept) && shown == ViewOf(items, today)
              else
                items == old(items) && stored == old(stored) && shown == old(shown)
    {
      SweptCountChanges(items, today);
      var originalCount := |items|;
      items := Swept(items, today);
      if originalCount != |items| {
        SaveAndRender(items, today);
      }
    }

    /** A row's delete button: on confirmation drop every item with that id, save and re-render. */
    method Delete(id: Id, confirmed: bool, today: Day)
      modifies this`items, this`stored, this`shown
      ensures confirmed ==> stored == Some(WithoutId(old(items), id))
      ensures confirmed ==> items == DisplayOrder(WithoutId(old(items), id)) && shown == ViewOf(items, today)
      ensures !confirmed ==> items == old(items) && stored == old(stored) && shown == old(shown)
    {
      if confirmed {
        SaveAndRender(WithoutId(items, id), today);
      }
    }

    /**
     * The add button: validate the form; on success append the new item, save, render
     * and clear the form. On failure nothing changes.
     */
    method Add(freshId: Id, today: Day) returns (outcome: Result<Item, AddError>)
      modifies this
      ensures outcome == NewItem(freshId, old(textValue), old(deadlineValue), old(permanentChecked))
      ensures outcome.Failure? ==>
        && items == old(items) && stored == old(stored) && shown == old(shown)
        && textValue == old(textValue) && deadlineValue == old(deadlineValue)
        && permanentChecked == old(permanentChecked) && deadlineDisabled == old(deadlineDisabled)
      ensures outcome.Success? ==>
        && stored == Some(old(items) + [outcome.value])
        && items == DisplayOrder(old(items) + [outcome.value])
        && shown == ViewOf(items, today)
        && textValue == [] && deadlineValue == None && !permanentChecked && !deadlineDisabled
    {
      outcome := NewItem(freshId, textValue, deadlineValue, permanentChecked);
      if outcome.Success? {
        SaveAndRender(items + [outcome.value], today);
        ClearForm();
      }
    }

    /** The permanent checkbox: checking it disables and clears the date field, unchecking re-enables it. */
    method SetPermanent(checked: bool)
      modifies this`permanentChecked, this`deadlineDisabled, this`deadlineValue
      ensures permanentChecked == checked && deadlineDisabled == checked
      ensures deadlineValue == if checked then None else old(deadlineValue)
    {
      permanentChecked := checked;
      deadlineDisabled := checked;
      if checked {
        deadlineValue := None;
      }
    }

    /** The export button: refused for an empty list, else the whole list goes to the file. */
    method Export() returns (file: Result<seq<Item>, ExportError>)
      ensures file == ExportFile(items)
    {
      if |items| == 0 {
        return Failure(NothingToExport);
      }
      file := Success(items);
    }

    /** The import button: the file picker opens at once for an empty list, else only after confirmation. */
    method OpenImport(confirmed: bool) returns (opensPicker: bool)
      ensures opensPicker <==> items == [] || confirmed
    {
      if |items| > 0 && !confirmed {
        return false;
      }
      opensPicker := true;
    }

    /**
     * A file chosen for import: nothing without a file; a failed parse or a non-array
     * is reported and changes nothing; an array is re-identified, appended, saved and
     * rendered, and its length is reported.
     */
    method ImportFile(file: Option<Parsed>, idFor: nat -> Id, today: Day) returns (outcome: ImportOutcome)
      modifies this`items, this`stored, this`shown
      ensures file.None? ==> outcome == NoFile
      ensures file.Some? && file.value.Array? ==>
        && outcome == Imported(|file.value.records|)
        && stored == Some(ImportMerge(old(items), file.value, idFor).value)
        && items == DisplayOrder(ImportMerge(old(items), file.value, idFor).value)
        && shown == ViewOf(items, today)
      ensures file.Some? && !file.value.Array? ==> outcome == Rejected(ImportMerge(old(items), file.value, idFor).error)
      ensures !(file.Some? && file.value.Array?) ==> items == old(items) && stored == old(stored) && shown == old(shown)
    {
      if file.None? {
        return NoFile;
      }
      var merged := ImportMerge(items, file.value, idFor);
      if merged.Failure? {
        return Rejected(merged.error);
      }
      SaveAndRender(merged.value, today);
      outcome := Imported(|file.value.records|);
    }
  }
}
