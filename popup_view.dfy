/**
 * What the history panel computes from the list and the search query: the filtered
 * list, the truncated and highlighted row text, the merged clipboard text and the
 * height of the list. The query passed around here is the already lowercased one.
 */
module PopupView {
  import opened Wrappers
  import opened JsString
  import opened Sequences

  /** An entry matches when its lowercase form contains the (lowercased) query. */
  predicate Matches(item: string, lq: string) {
    Includes(Lower(item), lq)
  }

  /** `list.filter(item => item.toLowerCase().includes(lq))`. */
  function Filter(items: seq<string>, lq: string): seq<string>
    decreases |items|
  {
    if items == [] then []
    else (if Matches(items[0], lq) then [items[0]] else []) + Filter(items[1..], lq)
  }

  /**
   * Exactly the matching entries are kept, each as often as it occurs in the list,
   * and the result is a subsequence of the list: the order is kept.
   */
  lemma {:induction false} FilterSpec(items: seq<string>, lq: string)
    ensures IsSubsequence(Filter(items, lq), items)
    ensures forall x :: multiset(Filter(items, lq))[x] == if Matches(x, lq) then multiset(items)[x] else 0
    decreases |items|
  {
    if items != [] {
      FilterSpec(items[1..], lq);
      var rest := Filter(items[1..], lq);
      assert items == [items[0]] + items[1..];
      if Matches(items[0], lq) {
        assert Filter(items, lq) == [items[0]] + rest;
        assert ([items[0]] + rest)[1..] == rest;
      } else {
        assert Filter(items, lq) == rest;
      }
    }
  }

  /** An entry is in the filtered list exactly when it is in the list and matches. */
  lemma FilterMembers(items: seq<string>, lq: string, x: string)
    ensures x in Filter(items, lq) <==> x in items && Matches(x, lq)
  {
    FilterSpec(items, lq);
    assert x in Filter(items, lq) <==> multiset(Filter(items, lq))[x] > 0;
  }

  /** Filtering never lengthens the list. */
  lemma FilterShorter(items: seq<string>, lq: string)
    ensures |Filter(items, lq)| <= |items|
  {
    FilterSpec(items, lq);
    SubsequenceLength(Filter(items, lq), items);
  }

  /** A list whose entries all match is left as it is. */
  lemma {:induction false} FilterAllMatch(items: seq<string>, lq: string)
    requires forall i :: 0 <= i < |items| ==> Matches(items[i], lq)
    ensures Filter(items, lq) == items
    decreases |items|
  {
    if items != [] {
      FilterAllMatch(items[1..], lq);
    }
  }

  /** Every entry of a filtered list matches. */
  lemma {:induction false} FilterMatchesAll(items: seq<string>, lq: string)
    ensures forall i :: 0 <= i < |Filter(items, lq)| ==> Matches(Filter(items, lq)[i], lq)
    decreases |items|
  {
    if items != [] {
      FilterMatchesAll(items[1..], lq);
    }
  }

  /** Filtering twice with the same query is filtering once. */
  lemma FilterIdempotent(items: seq<string>, lq: string)
    ensures Filter(Filter(items, lq), lq) == Filter(items, lq)
  {
    FilterMatchesAll(items, lq);
    FilterAllMatch(Filter(items, lq), lq);
  }

  /** Filtering a concatenation filters each part: the relative order is kept. */
  lemma {:induction false} FilterAppend(a: seq<string>, b: seq<string>, lq: string)
    ensures Filter(a + b, lq) == Filter(a, lq) + Filter(b, lq)
    decreases |a|
  {
    if a != [] {
      assert (a + b)[1..] == a[1..] + b;
      FilterAppend(a[1..], b, lq);
    } else {
      assert a + b == b;
    }
  }

  /** Every string contains the empty string, so the empty query keeps every entry. */
  lemma FilterEmptyQuery(items: seq<string>)
    ensures Filter(items, "") == items
  {
    forall i | 0 <= i < |items| ensures Matches(items[i], "") {
      assert MatchAt(Lower(items[i]), "", 0);
    }
    FilterAllMatch(items, "");
  }

  /**
   * The row text: from the first case-insensitive match on, after an ellipsis, when
   * that match is past the first character; otherwise the whole entry.
   */
  function DisplayText(item: string, lq: string): string {
    var k := IndexOf(Lower(item), lq);
    if k > 0 then "..." + item[k..] else item
  }

  /**
   * With its first match at `k > 0`, an entry is shown as "..." and its text from
   * `k`, and that suffix begins with the match.
   */
  lemma DisplayTextTruncates(item: string, lq: string, k: int)
    requires 0 < k && MatchAt(Lower(item), lq, k)
    requires forall j :: 0 <= j < k ==> !MatchAt(Lower(item), lq, j)
    ensures DisplayText(item, lq) == "..." + item[k..]
    ensures MatchAt(Lower(item[k..]), lq, 0)
    ensures Matches(item[k..], lq)
  {
    var i := IndexOf(Lower(item), lq);
    assert i == k;
    LowerSlice(item, k, |item|);
    assert MatchAt(Lower(item[k..]), lq, 0);
  }

  /** An entry that matches at its start, or not at all, is shown whole. */
  lemma DisplayTextWhole(item: string, lq: string)
    requires MatchAt(Lower(item), lq, 0) || !Matches(item, lq)
    ensures DisplayText(item, lq) == item
  {
  }

  /** The marker a highlighted occurrence is replaced by: the query in a span. */
  function Marker(lq: string): string {
    "<span>" + lq + "</span>"
  }

  /** Whether `text` begins with an occurrence of `lq`, ignoring ASCII case. */
  predicate StartsWithMatch(text: string, lq: string) {
    |lq| <= |text| && Lower(text[..|lq|]) == Lower(lq)
  }

  /**
   * `text.replace(new RegExp(lq, "ig"), Marker(lq))` for a query without regular
   * expression metacharacters: scanning left to right, each case-insensitive
   * occurrence the scan reaches is replaced by the marker and the scan resumes after
   * it, so only non-overlapping occurrences are marked.
   */
  function Highlight(text: string, lq: string): string
    requires lq != ""
    decreases |text|
  {
    if StartsWithMatch(text, lq) then Marker(lq) + Highlight(text[|lq|..], lq)
    else if text == [] then ""
    else [text[0]] + Highlight(text[1..], lq)
  }

  /** The text a reader sees in highlighted markup: each marker shows as the query. */
  function Unmark(h: string, lq: string): string
    decreases |h|
  {
    var m := Marker(lq);
    if |m| <= |h| && h[..|m|] == m then lq + Unmark(h[|m|..], lq)
    else if h == [] then ""
    else [h[0]] + Unmark(h[1..], lq)
  }

  /**
   * Highlighting changes nothing a reader sees but case: for text without markup,
   * the visible text has the same length and the same lowercase form.
   */
  lemma {:induction false} HighlightVisible(text: string, lq: string)
    requires lq != ""
    requires forall k :: 0 <= k < |text| ==> text[k] != '<'
    ensures |Unmark(Highlight(text, lq), lq)| == |text|
    ensures Lower(Unmark(Highlight(text, lq), lq)) == Lower(text)
    decreases |text|
  {
    var m := Marker(lq);
    var h := Highlight(text, lq);
    if StartsWithMatch(text, lq) {
      var rest := text[|lq|..];
      HighlightVisible(rest, lq);
      assert h == m + Highlight(rest, lq);
      assert h[..|m|] == m;
      assert h[|m|..] == Highlight(rest, lq);
      assert Unmark(h, lq) == lq + Unmark(Highlight(rest, lq), lq);
      LowerAppend(lq, Unmark(Highlight(rest, lq), lq));
      LowerIdempotent(lq);
      assert text == text[..|lq|] + rest;
      LowerAppend(text[..|lq|], rest);
    } else if text != [] {
      var rest := text[1..];
      HighlightVisible(rest, lq);
      assert h == [text[0]] + Highlight(rest, lq);
      assert h[0] != m[0];
      assert h[1..] == Highlight(rest, lq);
      assert Unmark(h, lq) == [text[0]] + Unmark(Highlight(rest, lq), lq);
      LowerAppend([text[0]], Unmark(Highlight(rest, lq), lq));
      assert text == [text[0]] + rest;
      LowerAppend([text[0]], rest);
    }
  }

  /** A case-insensitive occurrence at `k` in `text` is a match at `k` in its lowercase form. */
  lemma StartsWithMatchAt(text: string, lq: string, k: int)
    requires 0 <= k <= |text|
    ensures StartsWithMatch(text[k..], lq) <==> MatchAt(Lower(text), Lower(lq), k)
  {
    if k + |lq| <= |text| {
      assert text[k..][..|lq|] == text[k..k + |lq|];
      LowerSlice(text, k, k + |lq|);
    }
  }

  /** Before the first occurrence, the text is copied as it is. */
  lemma {:induction false} HighlightPrefix(text: string, lq: string, j: int)
    requires lq != "" && 0 <= j <= |text|
    requires forall k :: 0 <= k < j ==> !StartsWithMatch(text[k..], lq)
    ensures Highlight(text, lq) == text[..j] + Highlight(text[j..], lq)
    decreases j
  {
    if j > 0 {
      assert text[0..] == text;
      assert !StartsWithMatch(text, lq);
      var rest := text[1..];
      assert Highlight(text, lq) == [text[0]] + Highlight(rest, lq);
      forall k | 0 <= k < j - 1 ensures !StartsWithMatch(rest[k..], lq) {
        assert rest[k..] == text[k + 1..];
      }
      HighlightPrefix(rest, lq, j - 1);
      assert rest[j - 1..] == text[j..];
      assert text[..j] == [text[0]] + rest[..j - 1];
    }
  }

  /** No case-insensitive occurrence starts before `j` when no lowercase match does. */
  lemma NoMatchBefore(text: string, lq: string, j: int)
    requires 0 <= j <= |text|
    requires forall k :: 0 <= k < j ==> !MatchAt(Lower(text), Lower(lq), k)
    ensures forall k :: 0 <= k < j ==> !StartsWithMatch(text[k..], lq)
  {
    forall k | 0 <= k < j ensures !StartsWithMatch(text[k..], lq) {
      StartsWithMatchAt(text, lq, k);
    }
  }

  /** Text without any occurrence is not changed by highlighting. */
  lemma HighlightNoMatch(text: string, lq: string)
    requires lq != "" && !Includes(Lower(text), Lower(lq))
    ensures Highlight(text, lq) == text
  {
    NoMatchBefore(text, lq, |text|);
    HighlightPrefix(text, lq, |text|);
    assert text[..|text|] == text;
    assert text[|text|..] == [];
  }

  /**
   * The first occurrence, at `k`, is replaced by the marker: the text before it is
   * kept, and the scan goes on after it.
   */
  lemma HighlightFirst(text: string, lq: string, k: int)
    requires lq != "" && MatchAt(Lower(text), Lower(lq), k)
    requires forall j :: 0 <= j < k ==> !MatchAt(Lower(text), Lower(lq), j)
    ensures Highlight(text, lq) == text[..k] + Marker(lq) + Highlight(text[k + |lq|..], lq)
  {
    assert Highlight(text, lq) == text[..k] + Highlight(text[k..], lq) by {
      NoMatchBefore(text, lq, k);
      HighlightPrefix(text, lq, k);
    }
    assert Highlight(text[k..], lq) == Marker(lq) + Highlight(text[k + |lq|..], lq) by {
      HighlightAtMatch(text, lq, k);
    }
    ConcatAssociative(text[..k], Marker(lq), Highlight(text[k + |lq|..], lq));
  }

  /**
   * When the left-to-right scan stands at an occurrence at `k`, that occurrence is
   * replaced by the marker and the scan resumes right after it.
   */
  lemma HighlightAtMatch(text: string, lq: string, k: int)
    requires lq != "" && MatchAt(Lower(text), Lower(lq), k)
    ensures Highlight(text[k..], lq) == Marker(lq) + Highlight(text[k + |lq|..], lq)
  {
    StartsWithMatchAt(text, lq, k);
    assert text[k..][|lq|..] == text[k + |lq|..];
  }

  /** `Math.min(100, itemsCount * 41)`: the list's height in pixels. */
  function Height(n: nat): int {
    if n * 41 < 100 then n * 41 else 100
  }

  /** The height is 41 pixels a row, capped at 100. */
  lemma HeightBounds(n: nat)
    ensures 0 <= Height(n) <= 100
    ensures Height(n) <= 41 * n
    ensures n <= 2 ==> Height(n) == 41 * n
    ensures n >= 3 ==> Height(n) == 100
  {
  }

  /** More rows never make the list shorter. */
  lemma HeightMonotone(m: nat, n: nat)
    requires m <= n
    ensures Height(m) <= Height(n)
  {
  }

  /**
   * One rendered row: the full entry kept as hidden row data (`dataset.fullText`,
   * set only while a query is active), and its markup.
   */
  datatype Row = Row(fullText: Option<string>, html: string)

  /** `renderItem(item, lq)`; an empty query counts as no query. */
  function RenderItem(item: string, lq: string): (r: Row)
    ensures lq != "" ==> r.fullText == Some(item)
    ensures lq == "" ==> r == Row(None, item)
  {
    if lq != "" then Row(Some(item), Highlight(DisplayText(item, lq), lq))
    else Row(None, item)
  }

  /** `populateClipboardList`'s rows for `items`: one per entry, in list order. */
  function RenderAll(items: seq<string>, lq: string): (r: seq<Row>)
    ensures |r| == |items|
    ensures forall i :: 0 <= i < |items| ==> r[i] == RenderItem(items[i], lq)
  {
    seq(|items|, i requires 0 <= i < |items| => RenderItem(items[i], lq))
  }

  /**
   * What a click on a row copies: the hidden full text when set and non-empty,
   * otherwise the row's own text.
   */
  function CopyText(row: Row): string {
    if row.fullText.Some? && row.fullText.value != "" then row.fullText.value else row.html
  }

  /** The texts a click on each row would copy. */
  function CopyTexts(rows: seq<Row>): (r: seq<string>)
    ensures |r| == |rows|
    ensures forall i :: 0 <= i < |rows| ==> r[i] == CopyText(rows[i])
  {
    seq(|rows|, i requires 0 <= i < |rows| => CopyText(rows[i]))
  }

  /**
   * Clicking a rendered row copies the original entry, however its text was
   * truncated or highlighted.
   */
  lemma RowCopiesEntry(item: string, lq: string)
    ensures CopyText(RenderItem(item, lq)) == item
  {
    if lq != "" && item == "" {
      assert IndexOf(Lower(item), lq) < 0;
      assert DisplayText(item, lq) == "";
      assert !StartsWithMatch("", lq);
    }
  }

  /** Copying every rendered row gives back the rendered list. */
  lemma RenderedCopies(items: seq<string>, lq: string)
    ensures CopyTexts(RenderAll(items, lq)) == items
  {
    forall i | 0 <= i < |items| ensures CopyTexts(RenderAll(items, lq))[i] == items[i] {
      RowCopiesEntry(items[i], lq);
    }
  }

  /** The merged clipboard text: the entries joined by CR LF. */
  function Merge(items: seq<string>): string {
    Join(items, CRLF)
  }

  /** Merged entries that hold no CR LF themselves can be split back into the entries. */
  lemma MergeRecoversEntries(items: seq<string>)
    requires items != []
    requires forall i :: 0 <= i < |items| ==> !Includes(items[i], CRLF)
    ensures SplitLines(Merge(items)) == items
  {
    SplitJoin(items);
  }

  /** Searching "ba" in ["foo", "bar baz"] keeps only "bar baz". */
  lemma FilterExample()
    ensures Filter(["foo", "bar baz"], "ba") == ["bar baz"]
  {
    LowerKeepsLowercase("foo");
    LowerKeepsLowercase("bar baz");
    assert MatchAt("bar baz", "ba", 0);
    assert !MatchAt("foo", "ba", 0) && !MatchAt("foo", "ba", 1);
    assert ["foo", "bar baz"][1..] == ["bar baz"];
  }

  lemma HighlightExampleTail(t: string, q: string)
    requires t == "r baz" && q == "ba"
    ensures Highlight(t, q) == "r " + Marker(q) + "z"
  {
    LowerKeepsLowercase(t);
    LowerKeepsLowercase(q);
    assert t[2..4] == q && t[0..2] != q && t[1..3] != q;
    HighlightFirst(t, q, 2);
    assert t[..2] == "r " && t[4..] == "z";
    assert Highlight("z", q) == "z";
  }

  /** Both occurrences of "ba" in "bar baz" are marked. */
  lemma HighlightExample(t: string, q: string)
    requires t == "bar baz" && q == "ba"
    ensures Highlight(t, q) == Marker(q) + "r " + Marker(q) + "z"
  {
    assert t[2..] == "r baz";
    HighlightExampleTail(t[2..], q);
    LowerKeepsLowercase(t);
    LowerKeepsLowercase(q);
    assert t[0..2] == q;
    HighlightAtMatch(t, q, 0);
    assert t[0..] == t;
  }

  /** A match in the middle truncates the row; a match at the very start does not. */
  lemma DisplayExample()
    ensures DisplayText("bar baz", "baz") == "...baz"
    ensures DisplayText("bar baz", "bar") == "bar baz"
  {
    LowerKeepsLowercase("bar baz");
    assert MatchAt("bar baz", "baz", 4);
    assert forall j :: 0 <= j < 4 ==> !MatchAt("bar baz", "baz", j) by {
      assert "bar baz"[0..3] == "bar" && "bar baz"[1..4] == "ar " && "bar baz"[2..5] == "r b" && "bar baz"[3..6] == " ba";
    }
    DisplayTextTruncates("bar baz", "baz", 4);
    assert "bar baz"[4..] == "baz";
    assert MatchAt("bar baz", "bar", 0);
  }
}
