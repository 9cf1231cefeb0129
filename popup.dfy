/**
 * The history panel: the list loaded when the panel opens, the filtered list of the
 * last search, the merge button's label and the rendered rows with the list's
 * height, and the handlers for the search input, the "Remove all" button, the merge
 * button and a click on a row.
 */
module Popup {
  import opened Wrappers
  import opened JsString
  import opened Storage
  import opened Sequences
  import opened PopupView

  const CopyAll: string := "Copy all"
  const CopySelected: string := "Copy selected"

  class Panel {
    /** The history as loaded when the panel opened; never reloaded afterwards. */
    var list: seq<string>
    /** The entries kept by the last search. */
    var filteredList: seq<string>
    /** The merge button's text, which decides what it copies. */
    var mergeLabel: string
    /** The rows currently shown, in order. */
    var rows: seq<Row>
    /** The list's height in pixels. */
    var height: int

    /**
     * The height fits the rows, the label is one of the two the panel sets, and both
     * the filtered list and what the rows copy are drawn, in order, from `list`.
     */
    ghost predicate Valid()
      reads this
    {
      height == Height(|rows|) &&
      (mergeLabel == CopyAll || mergeLabel == CopySelected) &&
      IsSubsequence(filteredList, list) &&
      IsSubsequence(CopyTexts(rows), list)
    }

    /** Opening the panel: the loaded history is kept as `list` and shown unfiltered. */
    constructor Open(loaded: seq<string>)
      ensures Valid()
      ensures list == loaded && filteredList == [] && mergeLabel == CopyAll
      ensures rows == RenderAll(loaded, "") && height == Height(|loaded|)
    {
      list, filteredList, mergeLabel := loaded, [], CopyAll;
      rows, height := [], 0;
      new;
      SubsequenceReflexive(list);
      Populate(list, "");
    }

    /**
     * `populateClipboardList(items, lq)`: every row is removed, then one row is
     * appended per entry, in order, and the height is set for that many rows.
     * The handlers call it with `list`, a filtered list or `[]`, all drawn from `list`.
     */
    method Populate(items: seq<string>, lq: string)
      requires Valid() && IsSubsequence(items, list)
      modifies this`rows, this`height
      ensures Valid()
      ensures rows == RenderAll(items, lq) && height == Height(|items|)
    {
      while rows != []
        decreases |rows|
      {
        rows := rows[..|rows| - 1];
      }
      var n := |items|;
      for i := 0 to n
        invariant rows == RenderAll(items[..i], lq)
      {
        RenderAllExtend(items, i, lq);
        rows := rows + [RenderItem(items[i], lq)];
      }
      assert items[..n] == items;
      height := Height(n);
      RenderedFromList(items, list, lq);
    }

    /** `toggleMergeButtonState`: "Copy selected" while a query is active, else "Copy all". */
    method ToggleMergeButtonState(lq: string)
      requires Valid()
      modifies this`mergeLabel
      ensures Valid()
      ensures mergeLabel == if lq != "" then CopySelected else CopyAll
    {
      mergeLabel := if lq != "" then CopySelected else CopyAll;
    }

    /**
     * Typing `value` in the search box: the loaded list is filtered by the lowercased
     * query (not filtered at all for an empty one), the result is shown, and the merge
     * button switches mode.
     */
    method OnSearchInput(value: string)
      requires Valid()
      modifies this`filteredList, this`rows, this`height, this`mergeLabel
      ensures Valid()
      ensures list == old(list)
      ensures filteredList == if value == "" then list else Filter(list, Lower(value))
      ensures rows == RenderAll(filteredList, Lower(value)) && height == Height(|filteredList|)
      ensures mergeLabel == if value != "" then CopySelected else CopyAll
    {
      var searchString := value;
      filteredList := list;
      if searchString != "" {
        searchString := Lower(searchString);
        filteredList := Filter(list, searchString);
        FilterSpec(list, searchString);
      } else {
        SubsequenceReflexive(list);
      }
      Populate(filteredList, searchString);
      ToggleMergeButtonState(searchString);
      RenderedCopies(filteredList, searchString);
    }

    /**
     * "Remove all": the empty history is written to the store and no row is shown;
     * `list` and `filteredList` are left as they were.
     */
    method OnClear(store: Store) returns (written: Store)
      requires Valid()
      modifies this`rows, this`height
      ensures Valid()
      ensures written == Set(store, HistoryKey, [])
      ensures rows == [] && height == 0
      ensures list == old(list) && filteredList == old(filteredList) && mergeLabel == old(mergeLabel)
    {
      written := Set(store, HistoryKey, []);
      Populate([], "");
    }

    /**
     * The merge button: the text placed on the clipboard is the filtered list joined
     * by CR LF when the button reads "Copy selected", and the whole list otherwise.
     */
    method OnMerge() returns (clip: string)
      ensures clip == if mergeLabel == CopySelected then Merge(filteredList) else Merge(list)
    {
      if mergeLabel == CopySelected {
        clip := Join(filteredList, CRLF);
      } else {
        clip := Join(list, CRLF);
      }
    }

    /**
     * A click in the list: on row `index` it copies that row's full text (its shown
     * text when it has none), which is always an entry of `list`; a click beside the
     * rows copies nothing.
     */
    method OnItemClick(index: int) returns (clip: Option<string>)
      requires Valid()
      ensures 0 <= index < |rows| ==> clip == Some(CopyText(rows[index]))
      ensures !(0 <= index < |rows|) ==> clip == None
      ensures clip.Some? ==> clip.value in list
    {
      if 0 <= index < |rows| {
        var row := rows[index];
        clip := Some(if row.fullText.Some? && row.fullText.value != "" then row.fullText.value else row.html);
        assert CopyTexts(rows)[index] == clip.value;
        SubsequenceMembers(CopyTexts(rows), list, clip.value);
      } else {
        clip := None;
      }
    }
  }

  /** Appending the next entry's row extends the rows rendered so far. */
  lemma RenderAllExtend(items: seq<string>, i: int, lq: string)
    requires 0 <= i < |items|
    ensures RenderAll(items[..i + 1], lq) == RenderAll(items[..i], lq) + [RenderItem(items[i], lq)]
  {
    assert items[..i + 1] == items[..i] + [items[i]];
  }

  /** Rows rendered from entries drawn from `list` copy entries drawn from `list`. */
  lemma RenderedFromList(items: seq<string>, list: seq<string>, lq: string)
    requires IsSubsequence(items, list)
    ensures IsSubsequence(CopyTexts(RenderAll(items, lq)), list)
  {
    RenderedCopies(items, lq);
  }

  /**
   * Open the panel over `loaded`, type `value` and press the merge button: the
   * clipboard gets the matching entries joined by CR LF, or all of them for an
   * empty query.
   */
  method SearchThenMerge(loaded: seq<string>, value: string) returns (clip: string)
    ensures value != "" ==> clip == Merge(Filter(loaded, Lower(value)))
    ensures value == "" ==> clip == Merge(loaded)
  {
    var panel := new Panel.Open(loaded);
    panel.OnSearchInput(value);
    clip := panel.OnMerge();
  }

  /**
   * Open the panel, type `value`, then click row `index`: the clipboard gets the
   * `index`-th matching entry in full, although the row may show it truncated.
   */
  method SearchThenClick(loaded: seq<string>, value: string, index: int) returns (clip: Option<string>)
    ensures value != "" && 0 <= index < |Filter(loaded, Lower(value))| ==>
      clip == Some(Filter(loaded, Lower(value))[index])
    ensures value == "" && 0 <= index < |loaded| ==> clip == Some(loaded[index])
  {
    var panel := new Panel.Open(loaded);
    panel.OnSearchInput(value);
    clip := panel.OnItemClick(index);
    if 0 <= index < |panel.filteredList| {
      RowCopiesEntry(panel.filteredList[index], Lower(value));
    }
  }

  /**
   * "Remove all" empties the store and the rows but not `list`: a following
   * "Copy all" still copies every entry loaded when the panel opened.
   */
  method ClearThenMerge(loaded: seq<string>, store: Store) returns (written: Store, clip: string)
    ensures Get(written, HistoryKey) == Some([])
    ensures clip == Merge(loaded)
  {
    var panel := new Panel.Open(loaded);
    written := panel.OnClear(store);
    clip := panel.OnMerge();
  }

  /**
   * Every search filters the list loaded at open: after "Remove all" the search
   * shows the cleared entries again (all of them for an emptied query), and an
   * earlier query has no effect.
   */
  method ClearThenSearch(loaded: seq<string>, store: Store, first: string, value: string)
    returns (shown: seq<string>, rendered: seq<Row>)
    ensures value != "" ==> shown == Filter(loaded, Lower(value))
    ensures value == "" ==> shown == loaded
    ensures rendered == RenderAll(shown, Lower(value))
  {
    var panel := new Panel.Open(loaded);
    panel.OnSearchInput(first);
    var _ := panel.OnClear(store);
    panel.OnSearchInput(value);
    shown, rendered := panel.filteredList, panel.rows;
    FilterEmptyQuery(loaded);
  }
}
