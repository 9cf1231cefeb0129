/**
 * The JavaScript String built-ins the extension relies on: `trim`, `toLowerCase`
 * (restricted to ASCII letters), `indexOf`/`includes` and `Array.prototype.join`,
 * together with `SplitLines`, the inverse of joining with CR LF.
 */
module JsString {

  /** The separator the panel joins entries with. */
  const CRLF: string := "\r\n"

  /** ECMAScript WhiteSpace and LineTerminator code points: what `trim` removes. */
  predicate IsWhitespace(c: char) {
    c == '\t' || c == '\n' || c == '\U{000B}' || c == '\U{000C}' || c == '\r' || c == ' ' ||
    c == '\U{00A0}' || c == '\U{1680}' || ('\U{2000}' <= c <= '\U{200A}') ||
    c == '\U{2028}' || c == '\U{2029}' || c == '\U{202F}' || c == '\U{205F}' ||
    c == '\U{3000}' || c == '\U{FEFF}'
  }

  function TrimStart(s: string): string
    decreases |s|
  {
    if s != [] && IsWhitespace(s[0]) then TrimStart(s[1..]) else s
  }

  function TrimEnd(s: string): string
    decreases |s|
  {
    if s != [] && IsWhitespace(s[|s| - 1]) then TrimEnd(s[..|s| - 1]) else s
  }

  /** `String.prototype.trim`. */
  function Trim(s: string): string {
    TrimEnd(TrimStart(s))
  }

  lemma {:induction false} TrimStartSpec(s: string) returns (i: nat)
    ensures i <= |s| && TrimStart(s) == s[i..]
    ensures forall k :: 0 <= k < i ==> IsWhitespace(s[k])
    ensures i < |s| ==> !IsWhitespace(s[i])
    decreases |s|
  {
    if s != [] && IsWhitespace(s[0]) {
      var i' := TrimStartSpec(s[1..]);
      i := i' + 1;
      assert s[1..][i'..] == s[i..];
      forall k | 0 <= k < i ensures IsWhitespace(s[k]) {
        if k > 0 { assert s[k] == s[1..][k - 1]; }
      }
    } else {
      i := 0;
    }
  }

  lemma {:induction false} TrimEndSpec(s: string) returns (j: nat)
    ensures j <= |s| && TrimEnd(s) == s[..j]
    ensures forall k :: j <= k < |s| ==> IsWhitespace(s[k])
    ensures j > 0 ==> !IsWhitespace(s[j - 1])
    decreases |s|
  {
    if s != [] && IsWhitespace(s[|s| - 1]) {
      j := TrimEndSpec(s[..|s| - 1]);
      assert s[..|s| - 1][..j] == s[..j];
      forall k | j <= k < |s| ensures IsWhitespace(s[k]) {
        if k < |s| - 1 { assert s[k] == s[..|s| - 1][k]; }
      }
    } else {
      j := |s|;
      assert s[..|s|] == s;
    }
  }

  /**
   * `trim` keeps one contiguous slice `s[i..j]` of its input: everything cut off on
   * either side is whitespace, and a non-empty result begins and ends with a
   * character that is not.
   */
  lemma TrimSpec(s: string) returns (i: nat, j: nat)
    ensures i <= j <= |s| && Trim(s) == s[i..j]
    ensures forall k :: 0 <= k < i ==> IsWhitespace(s[k])
    ensures forall k :: j <= k < |s| ==> IsWhitespace(s[k])
    ensures Trim(s) != "" ==> !IsWhitespace(s[i]) && !IsWhitespace(s[j - 1])
  {
    i := TrimStartSpec(s);
    var t := s[i..];
    var j' := TrimEndSpec(t);
    j := i + j';
    assert t[..j'] == s[i..j];
    forall k | j <= k < |s| ensures IsWhitespace(s[k]) {
      assert s[k] == t[k - i];
    }
    if Trim(s) != "" {
      assert s[j - 1] == t[j' - 1];
    }
  }

  /** `trim` yields the empty string exactly when every character is whitespace. */
  lemma TrimEmptyIff(s: string)
    ensures Trim(s) == "" <==> forall k :: 0 <= k < |s| ==> IsWhitespace(s[k])
  {
    var i, j := TrimSpec(s);
    if Trim(s) == "" {
      assert i == j;
    } else {
      assert !IsWhitespace(s[i]);
    }
  }

  /** The result of `trim` has no whitespace at either end. */
  lemma TrimmedEnds(s: string)
    ensures var t := Trim(s); t != "" ==> !IsWhitespace(t[0]) && !IsWhitespace(t[|t| - 1])
  {
    var i, j := TrimSpec(s);
  }

  /** Trimming twice is trimming once. */
  lemma TrimIdempotent(s: string)
    ensures Trim(Trim(s)) == Trim(s)
  {
    var t := Trim(s);
    TrimmedEnds(s);
    assert TrimStart(t) == t;
  }

  /** ASCII `toLowerCase` on one character. */
  function LowerChar(c: char): char {
    if 'A' <= c <= 'Z' then (c as int - 'A' as int + 'a' as int) as char else c
  }

  /** `toLowerCase`, restricted to ASCII: the length is kept and each character is lowered. */
  function Lower(s: string): (r: string)
    ensures |r| == |s|
    ensures forall k :: 0 <= k < |s| ==> r[k] == LowerChar(s[k])
  {
    seq(|s|, k requires 0 <= k < |s| => LowerChar(s[k]))
  }

  /** Text without ASCII capitals is its own lowercase form. */
  lemma LowerKeepsLowercase(s: string)
    requires forall k :: 0 <= k < |s| ==> !('A' <= s[k] <= 'Z')
    ensures Lower(s) == s
  {
  }

  /** Lowering an already lowercased text changes nothing. */
  lemma LowerIdempotent(s: string)
    ensures Lower(Lower(s)) == Lower(s)
  {
  }

  /** Lowering distributes over concatenation. */
  lemma LowerAppend(a: string, b: string)
    ensures Lower(a + b) == Lower(a) + Lower(b)
  {
  }

  /** Lowering a slice is the slice of the lowered text. */
  lemma LowerSlice(s: string, i: int, j: int)
    requires 0 <= i <= j <= |s|
    ensures Lower(s[i..j]) == Lower(s)[i..j]
  {
  }

  /** `q` occurs in `s` starting at index `k`. */
  predicate MatchAt(s: string, q: string, k: int) {
    0 <= k && k + |q| <= |s| && s[k..k + |q|] == q
  }

  /** A match at `k + 1` in `s` is a match at `k` in `s[1..]`. */
  lemma MatchAtTail(s: string, q: string)
    requires s != []
    ensures forall k :: 0 <= k ==> (MatchAt(s[1..], q, k) <==> MatchAt(s, q, k + 1))
  {
    forall k | 0 <= k ensures MatchAt(s[1..], q, k) <==> MatchAt(s, q, k + 1) {
      if 0 <= k && k + |q| <= |s| - 1 {
        assert s[1..][k..k + |q|] == s[k + 1..k + 1 + |q|];
      }
    }
  }

  /**
   * `String.prototype.indexOf`: the first index at which `q` occurs in `s`,
   * or -1 when it does not occur at all.
   */
  function IndexOf(s: string, q: string): (r: int)
    ensures -1 <= r <= |s|
    ensures r >= 0 ==> MatchAt(s, q, r)
    ensures r >= 0 ==> forall k :: 0 <= k < r ==> !MatchAt(s, q, k)
    ensures r < 0 ==> forall k :: !MatchAt(s, q, k)
    decreases |s|
  {
    if |q| > |s| then -1
    else if s[..|q|] == q then 0
    else
      assert !MatchAt(s, q, 0);
      MatchAtTail(s, q);
      var r := IndexOf(s[1..], q);
      assert forall k :: MatchAt(s, q, k) ==> k == 0 || MatchAt(s[1..], q, k - 1);
      if r < 0 then -1 else r + 1
  }

  /** `String.prototype.includes`. */
  predicate Includes(s: string, q: string) {
    IndexOf(s, q) >= 0
  }

  /** `includes` holds exactly when there is an index where the query occurs. */
  lemma IncludesIff(s: string, q: string)
    ensures Includes(s, q) <==> exists k :: MatchAt(s, q, k)
  {
  }

  /** `Array.prototype.join(sep)` over strings. */
  function Join(parts: seq<string>, sep: string): string
    decreases |parts|
  {
    if |parts| == 0 then ""
    else if |parts| == 1 then parts[0]
    else parts[0] + sep + Join(parts[1..], sep)
  }

  /** The total length of the parts. */
  function TotalLength(parts: seq<string>): nat
    decreases |parts|
  {
    if parts == [] then 0 else |parts[0]| + TotalLength(parts[1..])
  }

  /** A join is the parts plus one separator between each two neighbours. */
  lemma {:induction false} JoinLength(parts: seq<string>, sep: string)
    requires parts != []
    ensures |Join(parts, sep)| == TotalLength(parts) + (|parts| - 1) * |sep|
    decreases |parts|
  {
    if |parts| > 1 {
      JoinLength(parts[1..], sep);
    }
  }

  /** Joining two non-empty halves puts exactly one separator between them. */
  lemma {:induction false} JoinAppend(a: seq<string>, b: seq<string>, sep: string)
    requires a != [] && b != []
    ensures Join(a + b, sep) == Join(a, sep) + sep + Join(b, sep)
    decreases |a|
  {
    if |a| == 1 {
      assert (a + b)[1..] == b;
    } else {
      assert (a + b)[1..] == a[1..] + b;
      JoinAppend(a[1..], b, sep);
    }
  }

  /** Cut `s` at every CR LF, left to right: the inverse partner of `Join(_, CRLF)`. */
  function SplitLines(s: string): (r: seq<string>)
    ensures r != []
    decreases |s|
  {
    var k := IndexOf(s, CRLF);
    if k < 0 then [s] else [s[..k]] + SplitLines(s[k + 2..])
  }

  /** In `p + CRLF + rest`, the first CR LF is the separator when `p` holds none. */
  lemma FirstCrlf(p: string, rest: string)
    requires !Includes(p, CRLF)
    ensures IndexOf(p + CRLF + rest, CRLF) == |p|
  {
    var s := p + CRLF + rest;
    assert s[|p|..|p| + 2] == CRLF;
    assert MatchAt(s, CRLF, |p|);
    forall k | 0 <= k < |p| ensures !MatchAt(s, CRLF, k) {
      if k + 2 <= |p| {
        assert s[k..k + 2] == p[k..k + 2];
        assert !MatchAt(p, CRLF, k);
      } else {
        assert s[|p|] == '\r';
        assert s[k..k + 2][1] == s[|p|];
        assert s[k..k + 2] != CRLF;
      }
    }
  }

  /**
   * Splitting a CR LF join at every CR LF gives the parts back, as long as
   * no part contains CR LF itself.
   */
  lemma {:induction false} SplitJoin(parts: seq<string>)
    requires parts != []
    requires forall i :: 0 <= i < |parts| ==> !Includes(parts[i], CRLF)
    ensures SplitLines(Join(parts, CRLF)) == parts
    decreases |parts|
  {
    if |parts| > 1 {
      var p, rest := parts[0], Join(parts[1..], CRLF);
      var s := p + CRLF + rest;
      FirstCrlf(p, rest);
      assert s[..|p|] == p;
      assert s[|p| + 2..] == rest;
      SplitJoin(parts[1..]);
    }
  }
}
