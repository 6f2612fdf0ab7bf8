/** The regular expressions parseCurl runs over a curl command line. Each
    pattern is modelled by a deterministic matcher that gives, for a start
    index, the match the regular expression engine finds there (its
    leftmost-first backtracking resolved case by case), and `Search` is the
    engine's scan for the leftmost start. All patterns carry the `i` flag:
    letters compare up to ASCII case. */
module CurlScan {
  import opened Wrappers
  import opened Strings

  predicate IsQuote(c: char) {
    c == '\'' || c == '"'
  }

  /** The characters `.` does not match (ECMAScript LineTerminator). */
  predicate IsLineTerminator(c: char) {
    c == '\n' || c == '\r' || c as int == 0x2028 || c as int == 0x2029
  }

  predicate IsLetter(c: char) {
    ('a' <= c <= 'z') || ('A' <= c <= 'Z')
  }

  /** `[^\s'"]`: a character of a URL token and of an unquoted data value. */
  predicate IsBareChar(c: char) {
    !IsSpace(c) && !IsQuote(c)
  }

  /** `.` that is not a quote: a character of a header argument. */
  predicate IsHeaderChar(c: char) {
    !IsQuote(c) && !IsLineTerminator(c)
  }

  /** The end of the longest run of characters satisfying `p` that starts
      at `i` (the extent of a greedy `[…]*`). */
  function RunEnd(s: string, i: nat, p: char -> bool): (e: nat)
    requires i <= |s|
    ensures i <= e <= |s|
    ensures forall k | i <= k < e :: p(s[k])
    ensures e < |s| ==> !p(s[e])
    decreases |s| - i
  {
    if i < |s| && p(s[i]) then RunEnd(s, i + 1, p) else i
  }

  const MethodFlags: seq<string> := ["-x", "--request"]
  const LocationFlags: seq<string> := ["-l", "--location"]
  const HeaderFlags: seq<string> := ["-h", "--header"]
  /** `-d|--data(?:-raw|-binary|-urlencode)?`, in the order the engine
      tries them. */
  const DataFlags: seq<string> := ["-d", "--data-raw", "--data-binary", "--data-urlencode", "--data"]

  /** The first of `flags` spelled at `p`, up to ASCII case. (Only that one
      can lead to a match: every flag is followed by `\s+`, and the longer
      `--data-…` spellings continue with `-` where `--data` would need white
      space.) */
  function FlagAt(s: string, p: nat, flags: seq<string>): (r: Option<string>)
    ensures r.Some? ==> r.value in flags && p + |r.value| <= |s|
    ensures r.Some? ==> SameLetters(s[p..p + |r.value|], r.value)
  {
    if flags == [] then None
    else if p + |flags[0]| <= |s| && SameLetters(s[p..p + |flags[0]|], flags[0]) then Some(flags[0])
    else FlagAt(s, p, flags[1..])
  }

  /** One match starting at some index `p`: the flag ends at `flagEnd`,
      group 1 (or the value group of the data pattern) is
      `[capStart, capEnd)`, and the match ends at `end`. */
  datatype Hit = Hit(flagEnd: nat, capStart: nat, capEnd: nat, end: nat)

  predicate Fits(h: Hit, s: string, p: nat) {
    p <= h.flagEnd <= h.capStart <= h.capEnd <= h.end <= |s| && p < h.end
  }

  function Capture(s: string, h: Hit): string
    requires h.capStart <= h.capEnd <= |s|
  {
    s[h.capStart..h.capEnd]
  }

  /** `https?://[^\s'"]+` at `q`, giving the end of the URL. */
  function UrlTextAt(s: string, q: nat): (r: Option<nat>)
    requires q <= |s|
    ensures r.Some? ==> q + 8 <= r.value <= |s| && SameLetters(s[q..q + 4], "http")
    ensures r.Some? ==> forall k | q <= k < r.value :: IsBareChar(s[k])
  {
    if q + 4 <= |s| && SameLetters(s[q..q + 4], "http") then
      var c := if q + 4 < |s| && LowerChar(s[q + 4]) == 's' then q + 5 else q + 4;
      if c + 3 <= |s| && s[c..c + 3] == "://" then
        var e := RunEnd(s, c + 3, IsBareChar);
        if e > c + 3 then
          assert forall k | q <= k < c + 3 :: IsBareChar(s[k]) by {
            forall k | q <= k < c + 3 ensures IsBareChar(s[k]) {
              if k < q + 4 {
                assert LowerChar(s[k]) == "http"[k - q] by {
                  assert ToLower(s[q..q + 4])[k - q] == LowerChar(s[k]);
                }
              } else if k >= c {
                assert s[k] == "://"[k - c];
              }
            }
          }
          Some(e)
        else None
      else None
    else None
  }

  /** `['"]?` then the URL: the quote is taken when present (the URL cannot
      start with one, so giving it back never helps). */
  function QuotedUrlAt(s: string, q: nat): (r: Option<(nat, nat)>)
    requires q <= |s|
    ensures r.Some? ==> q <= r.value.0 < r.value.1 <= |s|
    ensures r.Some? ==> forall k | r.value.0 <= k < r.value.1 :: IsBareChar(s[k])
  {
    var u := if q < |s| && IsQuote(s[q]) then q + 1 else q;
    match UrlTextAt(s, u)
    case Some(e) => Some((u, e))
    case None => None
  }

  /** `(?:-X|--request)\s+([A-Z]+)`: the letters after the flag. */
  function MethodAt(s: string, p: nat): (r: Option<Hit>)
    requires p <= |s|
    ensures r.Some? ==> Fits(r.value, s, p) && r.value.capStart < r.value.capEnd
    ensures r.Some? ==> forall k | r.value.capStart <= k < r.value.capEnd :: IsLetter(s[k])
  {
    match FlagAt(s, p, MethodFlags)
    case None => None
    case Some(f) =>
      var q := p + |f|;
      var w := RunEnd(s, q, IsSpace);
      var e := RunEnd(s, w, IsLetter);
      if q < w < e then Some(Hit(q, w, e, e)) else None
  }

  /** `(?:-X|--request)\s+[A-Z]+\s+['"]?(https?://[^\s'"]+)`. */
  function UrlAfterMethodAt(s: string, p: nat): (r: Option<Hit>)
    requires p <= |s|
    ensures r.Some? ==> Fits(r.value, s, p)
    ensures r.Some? ==> forall k | r.value.capStart <= k < r.value.capEnd :: IsBareChar(s[k])
  {
    match MethodAt(s, p)
    case None => None
    case Some(m) =>
      var w := RunEnd(s, m.end, IsSpace);
      if w == m.end then None
      else
        match QuotedUrlAt(s, w)
        case None => None
        case Some((a, b)) => Some(Hit(m.flagEnd, a, b, b))
  }

  /** The part of `(?:^|\s)(?!-)['"]?(https?://[^\s'"]+)` after the
      anchor or the white-space character. */
  function UrlTailAt(s: string, q: nat): (r: Option<(nat, nat)>)
    requires q <= |s|
    ensures r.Some? ==> q <= r.value.0 < r.value.1 <= |s|
    ensures r.Some? ==> forall k | r.value.0 <= k < r.value.1 :: IsBareChar(s[k])
  {
    if q < |s| && s[q] == '-' then None else QuotedUrlAt(s, q)
  }

  /** `(?:^|\s)(?!-)['"]?(https?://[^\s'"]+)`: at index 0 the anchor is
      tried first and the white-space alternative second. */
  function BareUrlAt(s: string, p: nat): (r: Option<Hit>)
    requires p <= |s|
    ensures r.Some? ==> Fits(r.value, s, p)
    ensures r.Some? ==> forall k | r.value.capStart <= k < r.value.capEnd :: IsBareChar(s[k])
  {
    var anchored := if p == 0 then UrlTailAt(s, 0) else None;
    if anchored.Some? then
      Some(Hit(p, anchored.value.0, anchored.value.1, anchored.value.1))
    else if p < |s| && IsSpace(s[p]) then
      match UrlTailAt(s, p + 1)
      case None => None
      case Some((a, b)) => Some(Hit(p + 1, a, b, b))
    else None
  }

  /** `(?:-L|--location)\s+['"]?([^'"]+)`. The capture runs to the next
      quote or the end. When a quote follows the white space with nothing
      quote-free after it, the engine gives back one white-space character
      and captures it alone. */
  function LocationAt(s: string, p: nat): (r: Option<Hit>)
    requires p <= |s|
    ensures r.Some? ==> Fits(r.value, s, p) && r.value.capStart < r.value.capEnd
    ensures r.Some? ==> forall k | r.value.capStart <= k < r.value.capEnd :: !IsQuote(s[k])
  {
    match FlagAt(s, p, LocationFlags)
    case None => None
    case Some(f) =>
      var q := p + |f|;
      var w := RunEnd(s, q, IsSpace);
      var start := if w < |s| && IsQuote(s[w]) then w + 1 else w;
      var e := RunEnd(s, start, c => !IsQuote(c));
      if w == q then None
      else if start < e then Some(Hit(q, start, e, e))
      else if w - q >= 2 then Some(Hit(q, w - 1, w, w))
      else None
  }

  /** `(?:-H|--header)\s+['"](.*?)['"]`: a quote after the white space,
      then the shortest run up to the next quote of either kind, which must
      come before any line terminator. */
  function HeaderAt(s: string, p: nat): (r: Option<Hit>)
    requires p <= |s|
    ensures r.Some? ==> Fits(r.value, s, p) && 0 < r.value.capStart && r.value.end == r.value.capEnd + 1
    ensures r.Some? ==> IsQuote(s[r.value.capStart - 1]) && IsQuote(s[r.value.capEnd])
    ensures r.Some? ==> forall k | r.value.capStart <= k < r.value.capEnd :: IsHeaderChar(s[k])
  {
    match FlagAt(s, p, HeaderFlags)
    case None => None
    case Some(f) =>
      var q := p + |f|;
      var w := RunEnd(s, q, IsSpace);
      if q < w < |s| && IsQuote(s[w]) then
        var e := RunEnd(s, w + 1, IsHeaderChar);
        if e < |s| && IsQuote(s[e]) then Some(Hit(q, w + 1, e, e + 1)) else None
      else None
  }

  /** `(-d|--data(?:-raw|-binary|-urlencode)?)\s+(?:'([\s\S]*?)'|"([\s\S]*?)"|([^\s"']+))`:
      a single- or double-quoted value that may span lines, or a bare run. */
  function DataAt(s: string, p: nat): (r: Option<Hit>)
    requires p <= |s|
    ensures r.Some? ==> Fits(r.value, s, p) && p < r.value.flagEnd < r.value.capStart
    ensures r.Some? && IsQuote(s[r.value.capStart - 1]) ==>
      r.value.end == r.value.capEnd + 1 && s[r.value.capEnd] == s[r.value.capStart - 1] &&
      forall k | r.value.capStart <= k < r.value.capEnd :: s[k] != s[r.value.capEnd]
    ensures r.Some? && !IsQuote(s[r.value.capStart - 1]) ==>
      r.value.capStart < r.value.capEnd == r.value.end &&
      forall k | r.value.capStart <= k < r.value.capEnd :: IsBareChar(s[k])
  {
    match FlagAt(s, p, DataFlags)
    case None => None
    case Some(f) =>
      var q := p + |f|;
      var w := RunEnd(s, q, IsSpace);
      if w == q || w == |s| then None
      else if IsQuote(s[w]) then
        var quote := s[w];
        var e := RunEnd(s, w + 1, c => c != quote);
        if e < |s| then Some(Hit(q, w + 1, e, e + 1)) else None
      else
        var e := RunEnd(s, w, IsBareChar);
        Some(Hit(q, w, e, e))
  }

  datatype Pattern = MethodFlag | UrlAfterMethod | BareUrl | LocationUrl | HeaderArg | DataArg

  function MatchAt(pat: Pattern, s: string, p: nat): (r: Option<Hit>)
    requires p <= |s|
    ensures r.Some? ==> Fits(r.value, s, p)
  {
    match pat
    case MethodFlag => MethodAt(s, p)
    case UrlAfterMethod => UrlAfterMethodAt(s, p)
    case BareUrl => BareUrlAt(s, p)
    case LocationUrl => LocationAt(s, p)
    case HeaderArg => HeaderAt(s, p)
    case DataArg => DataAt(s, p)
  }

  /** RegExp.prototype.exec from `lastIndex = i`: the first start at or
      after `i` where the pattern matches. */
  function Search(pat: Pattern, s: string, i: nat): (r: Option<(nat, Hit)>)
    requires i <= |s|
    ensures r.Some? ==> i <= r.value.0 <= |s| && MatchAt(pat, s, r.value.0) == Some(r.value.1)
    ensures r.Some? ==> Fits(r.value.1, s, r.value.0)
    decreases |s| - i
  {
    match MatchAt(pat, s, i)
    case Some(h) => Some((i, h))
    case None => if i < |s| then Search(pat, s, i + 1) else None
  }

  /** No match starts between `i` and the one found (nor anywhere after
      `i` when none is found). */
  lemma {:induction false} SearchLeftmost(pat: Pattern, s: string, i: nat, q: nat)
    requires i <= q <= |s|
    requires Search(pat, s, i).Some? ==> q < Search(pat, s, i).value.0
    ensures MatchAt(pat, s, q).None?
    decreases |s| - i
  {
    var m := MatchAt(pat, s, i);
    var h := m.GetOr(Hit(0, 0, 0, 0));
    assert Search(pat, s, i) == if m.Some? then Some((i, h)) else if i < |s| then Search(pat, s, i + 1) else None;
    assert m.None?;
    if q > i {
      SearchLeftmost(pat, s, i + 1, q);
    }
  }

  // ---------------------------------------------------------------------
  // Rewriting the command before the patterns run

  /** `.replace(/^curl\s+/i, "")` */
  function StripCurl(s: string): (r: string)
    ensures |r| <= |s| && r == s[|s| - |r|..]
    ensures r != s ==> |s| > 4 && SameLetters(s[..4], "curl") && (r == [] || !IsSpace(r[0]))
  {
    if |s| > 4 && SameLetters(s[..4], "curl") && IsSpace(s[4]) then s[RunEnd(s, 4, IsSpace)..]
    else s
  }

  /** With `s[i] == '\\'`, the end of a `\\\s*\n` match at `i`: `\s*` is
      greedy and gives back characters until the last line feed of the
      white-space run. */
  function ContinuationEnd(s: string, i: nat): (r: Option<nat>)
    requires i < |s|
    ensures r.Some? ==> i + 2 <= r.value <= |s| && s[i] == '\\' && s[r.value - 1] == '\n'
    ensures r.Some? ==> forall k | i < k < r.value :: IsSpace(s[k])
  {
    if s[i] != '\\' then None
    else LastLineFeed(s, i + 1, RunEnd(s, i + 1, IsSpace))
  }

  /** The index just after the last line feed in `s[lo..e]`. */
  function LastLineFeed(s: string, lo: nat, e: nat): (r: Option<nat>)
    requires lo <= e <= |s|
    ensures r.Some? ==> lo < r.value <= e && s[r.value - 1] == '\n'
    ensures r.None? ==> '\n' !in s[lo..e]
    decreases e - lo
  {
    if e == lo then None
    else if s[e - 1] == '\n' then Some(e)
    else
      var r := LastLineFeed(s, lo, e - 1);
      assert r.None? ==> s[lo..e] == s[lo..e - 1] + [s[e - 1]];
      r
  }

  /** `.replace(/\\\s*\n/g, " ")` applied to `s[i..]`. */
  function Joined(s: string, i: nat): string
    requires i <= |s|
    decreases |s| - i
  {
    if i == |s| then []
    else
      match ContinuationEnd(s, i)
      case Some(e) => " " + Joined(s, e)
      case None => [s[i]] + Joined(s, i + 1)
  }

  /** A command written on one line is left as it is. */
  lemma {:induction false} JoinedOneLine(s: string, i: nat)
    requires i <= |s| && '\n' !in s[i..]
    ensures Joined(s, i) == s[i..]
    decreases |s| - i
  {
    if i < |s| {
      assert s[i..] == [s[i]] + s[i + 1..];
      forall k | i <= k < |s| ensures s[k] != '\n' {
        assert s[k] == s[i..][k - i];
      }
      JoinedOneLine(s, i + 1);
    }
  }

  /** The text parseCurl scans: trimmed, without its `curl` word, with
      backslash-newline continuations joined by a space. */
  function Command(curlCommand: string): string {
    var s := StripCurl(Trim(curlCommand));
    Joined(s, 0)
  }

  /** `.replace(/['"]/g, "")` */
  function RemoveQuotes(t: string): (r: string)
    ensures forall k | 0 <= k < |r| :: !IsQuote(r[k])
    ensures (forall k | 0 <= k < |t| :: !IsQuote(t[k])) ==> r == t
  {
    if t == [] then []
    else (if IsQuote(t[0]) then [] else [t[0]]) + RemoveQuotes(t[1..])
  }
}
