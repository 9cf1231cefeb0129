/**
 * The capture agent: the copy listener on every page. The copied text is trimmed;
 * when something is left, it is put at the head of the stored history, and the
 * whole list is written back under the history key.
 */
module ContentScript {
  import opened Wrappers
  import opened JsString
  import opened Storage
  import opened Sequences

  /**
   * The new history for copied `text` when `stored` is what the store holds under the
   * history key, or `None` when nothing is to be written (blank text).
   */
  function Capture(text: string, stored: Option<seq<string>>): (r: Option<seq<string>>)
    ensures r.Some? <==> Trim(text) != ""
    ensures r.Some? ==> r.value == [Trim(text)] + stored.GetOr([])
  {
    var entry := Trim(text);
    if entry == "" then None
    else if stored.Some? then Some([entry] + stored.value)
    else Some([entry])
  }

  /** The whole copy listener: read the history, and write the new one if there is one. */
  function OnCopy(store: Store, text: string): Store {
    match Capture(text, Get(store, HistoryKey))
    case None => store
    case Some(h) => Set(store, HistoryKey, h)
  }

  /** Over a stored history `h`, the new history is the trimmed entry followed by `h`. */
  lemma CapturePrepends(text: string, h: seq<string>)
    requires Trim(text) != ""
    ensures Capture(text, Some(h)) == Some([Trim(text)] + h)
  {
  }

  /** With no history stored yet, the new history is the trimmed entry alone. */
  lemma CaptureFirst(text: string)
    requires Trim(text) != ""
    ensures Capture(text, None) == Some([Trim(text)])
  {
  }

  /**
   * Blank text is ignored whatever is stored: it writes nothing, and the outcome does
   * not depend on the stored value, so the store need not be read.
   */
  lemma CaptureBlank(text: string, stored: Option<seq<string>>, other: Option<seq<string>>)
    requires forall k :: 0 <= k < |text| ==> IsWhitespace(text[k])
    ensures Capture(text, stored) == Capture(text, other) == None
  {
    TrimEmptyIff(text);
  }

  /** The stored entry is non-empty, has no whitespace at either end and is its own trim. */
  lemma CapturedEntryTrimmed(text: string, stored: Option<seq<string>>)
    requires Capture(text, stored).Some?
    ensures var e := Capture(text, stored).value[0];
      e != "" && !IsWhitespace(e[0]) && !IsWhitespace(e[|e| - 1]) && Trim(e) == e
  {
    TrimmedEnds(text);
    TrimIdempotent(text);
  }

  /**
   * The new history is one longer; the old entries follow the new one in their old
   * order, and duplicates are kept: the entries are the old ones plus the new one.
   */
  lemma CaptureKeepsHistory(text: string, h: seq<string>)
    requires Trim(text) != ""
    ensures var r := Capture(text, Some(h)).value;
      |r| == |h| + 1 && r[1..] == h && multiset(r) == multiset(h) + multiset{Trim(text)}
  {
    var r := Capture(text, Some(h)).value;
    assert r == [Trim(text)] + h;
  }

  /**
   * A copy writes at most the history key: every other key keeps its value, and the
   * history key is present afterwards exactly when it was before or the text was not blank.
   */
  lemma OnCopyWritesOnlyHistory(store: Store, text: string)
    ensures forall k :: k != HistoryKey ==> Get(OnCopy(store, text), k) == Get(store, k)
    ensures HistoryKey in OnCopy(store, text) <==> HistoryKey in store || Trim(text) != ""
    ensures Trim(text) == "" ==> OnCopy(store, text) == store
  {
  }

  /** Copying the texts one after another, with no other writer. */
  function CopySession(store: Store, texts: seq<string>): Store
    decreases |texts|
  {
    if texts == [] then store else CopySession(OnCopy(store, texts[0]), texts[1..])
  }

  /** The entries a sequence of copies records, in copy order. */
  function Captured(texts: seq<string>): seq<string>
    decreases |texts|
  {
    if texts == [] then []
    else (if Trim(texts[0]) == "" then [] else [Trim(texts[0])]) + Captured(texts[1..])
  }

  /**
   * After a session of copies, the history is the recorded entries, most recent
   * first, ahead of what was stored before; no other key changes. Every write is
   * taken to succeed: a write the browser refuses (over its storage quota or write
   * rate) is not modelled, and the source ignores such a failure.
   */
  lemma {:induction false} CopySessionHistory(store: Store, texts: seq<string>)
    ensures Get(CopySession(store, texts), HistoryKey).GetOr([])
         == Reverse(Captured(texts)) + Get(store, HistoryKey).GetOr([])
    ensures HistoryKey in CopySession(store, texts) <==> HistoryKey in store || Captured(texts) != []
    ensures forall k :: k != HistoryKey ==> Get(CopySession(store, texts), k) == Get(store, k)
    decreases |texts|
  {
    if texts != [] {
      var store1 := OnCopy(store, texts[0]);
      CopySessionHistory(store1, texts[1..]);
      var c := Captured(texts[1..]);
      if Trim(texts[0]) != "" {
        var e := Trim(texts[0]);
        assert Captured(texts) == [e] + c;
        assert ([e] + c)[1..] == c;
        assert Reverse([e] + c) == Reverse(c) + [e];
      } else {
        assert Captured(texts) == c;
      }
    }
  }

  /** Copying "  hello  " records "hello"; copying "   " records nothing. */
  lemma CopyExample(h: seq<string>)
    ensures Capture("  hello  ", Some(h)) == Some(["hello"] + h)
    ensures Capture("   ", Some(h)) == None
  {
    assert TrimStart("  hello  ") == "hello  " by {
      assert "  hello  "[1..] == " hello  ";
      assert " hello  "[1..] == "hello  ";
    }
    assert TrimEnd("hello  ") == "hello" by {
      assert "hello  "[..6] == "hello ";
      assert "hello "[..5] == "hello";
    }
    CaptureBlank("   ", Some(h), None);
  }
}
