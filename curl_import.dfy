/** What parseCurl builds from a command line: the method, the URL, the
    headers and the multi-segment body, each defined from the matches of
    the patterns in CurlScan over the rewritten command. */
module CurlImport {
  import opened Wrappers
  import opened Strings
  import opened Dicts
  import opened Types
  import opened CurlScan
  import opened ImportText

  const CurlRequestName := "Imported from cURL"

  /** `(-X|--request) METHOD`, uppercased, from the first such flag; GET
      without one. */
  function CurlMethod(cmd: string): string {
    match Search(MethodFlag, cmd, 0)
    case None => "GET"
    case Some((_, h)) => ToUpper(Capture(cmd, h))
  }

  /** The URL after the method flag, else the first `http(s)://` token not
      starting with `-`, else the `-L`/`--location` argument, with every
      quote character removed; "" when none matches. */
  function CurlUrl(cmd: string): string {
    match Search(UrlAfterMethod, cmd, 0)
    case Some((_, h)) => RemoveQuotes(Capture(cmd, h))
    case None =>
      match Search(BareUrl, cmd, 0)
      case Some((_, h)) => RemoveQuotes(Capture(cmd, h))
      case None =>
        match Search(LocationUrl, cmd, 0)
        case Some((_, h)) => RemoveQuotes(Capture(cmd, h))
        case None => ""
  }

  /** One header argument: split at its first `:` when that is not the
      first character, both sides trimmed, one layer of quotes taken off
      the value, and written only when the value is not empty. */
  function HeaderEntry(d: Dict, line: string): Dict {
    var colon := IndexOfChar(line, ':');
    if colon > 0 then
      var key := Trim(line[..colon]);
      var value := Unquote(Trim(line[colon + 1..]));
      if value != [] then Put(d, key, value) else d
    else d
  }

  /** The header arguments from index `i` on, as the loop calling exec
      until it returns null meets them. */
  function HeaderLines(s: string, i: nat): seq<string>
    requires i <= |s|
    decreases |s| - i
  {
    match Search(HeaderArg, s, i)
    case None => []
    case Some((_, h)) => [Capture(s, h)] + HeaderLines(s, h.end)
  }

  /** The header lines written into `d` in order. */
  function ApplyHeaders(d: Dict, lines: seq<string>): Dict
    decreases |lines|
  {
    if lines == [] then d else ApplyHeaders(HeaderEntry(d, lines[0]), lines[1..])
  }

  function CurlHeaders(cmd: string): Dict {
    ApplyHeaders([], HeaderLines(cmd, 0))
  }

  /** One data argument: its flag, lower-cased, and its value. */
  datatype Segment = Segment(flag: string, value: string)

  /** The data arguments from index `i` on, in command order. */
  function DataSegments(s: string, i: nat): seq<Segment>
    requires i <= |s|
    decreases |s| - i
  {
    match Search(DataArg, s, i)
    case None => []
    case Some((p, h)) => [Segment(ToLower(s[p..h.flagEnd]), Capture(s, h))] + DataSegments(s, h.end)
  }

  function CurlSegments(cmd: string): seq<Segment> {
    DataSegments(cmd, 0)
  }

  /** The body is form-encoded when any flag is `--data-urlencode` or the
      Content-Type says so. */
  predicate UrlEncodedMode(segments: seq<Segment>, headers: Dict) {
    (exists k | 0 <= k < |segments| :: segments[k].flag == UrlencodeFlag)
    || IsUrlEncodedFromHeaders(headers)
  }

  function Normalized(segments: seq<Segment>, urlEncoded: bool): (r: seq<string>)
    ensures |r| == |segments|
  {
    seq(|segments|, k requires 0 <= k < |segments| =>
      NormalizeCurlDataValue(segments[k].value, segments[k].flag, urlEncoded))
  }

  function BodySeparator(urlEncoded: bool): string {
    if urlEncoded then "&" else "\n"
  }

  /** The body and its type: the default empty text without data, else the
      normalised segments joined and the type detected from the joined
      body and the Content-Type. */
  function CurlBody(host: Host, segments: seq<Segment>, headers: Dict): (string, BodyType) {
    if segments == [] then ("", Text)
    else
      var urlEncoded := UrlEncodedMode(segments, headers);
      var body := Join(Normalized(segments, urlEncoded), BodySeparator(urlEncoded));
      (body, DetectBodyType(host, body, ContentTypeOf(headers)))
  }

  /** The request parseCurl returns for `curlCommand` when its id counter
      has reached `id`. */
  function CurlRequest(host: Host, curlCommand: string, id: nat): Request {
    var cmd := Command(curlCommand);
    var headers := CurlHeaders(cmd);
    var (body, bodyType) := CurlBody(host, CurlSegments(cmd), headers);
    Request(id, CurlRequestName, CurlMethod(cmd), CurlUrl(cmd), headers, [], body, bodyType, [], None, false)
  }

  // ---------------------------------------------------------------------
  // Properties

  /** The method is GET or the letters after the first method flag,
      uppercased: never anything a data flag implies. */
  lemma MethodIsUpper(cmd: string)
    ensures Search(MethodFlag, cmd, 0).None? ==> CurlMethod(cmd) == "GET"
    ensures |CurlMethod(cmd)| > 0 && forall k | 0 <= k < |CurlMethod(cmd)| :: 'A' <= CurlMethod(cmd)[k] <= 'Z'
  {
    match Search(MethodFlag, cmd, 0)
    case None =>
    case Some((p, h)) =>
      var m := MethodAt(cmd, p).value;
      assert m == h;
      forall k | 0 <= k < |Capture(cmd, h)| ensures IsLetter(Capture(cmd, h)[k]) {
        assert Capture(cmd, h)[k] == cmd[h.capStart + k];
      }
  }

  /** A URL found by either `http(s)://` pattern is the matched token
      itself; the URL never holds a quote character. */
  lemma UrlIsToken(cmd: string)
    ensures forall k | 0 <= k < |CurlUrl(cmd)| :: !IsQuote(CurlUrl(cmd)[k])
    ensures Search(UrlAfterMethod, cmd, 0).Some? ==>
      CurlUrl(cmd) == Capture(cmd, Search(UrlAfterMethod, cmd, 0).value.1)
    ensures Search(UrlAfterMethod, cmd, 0).None? && Search(BareUrl, cmd, 0).Some? ==>
      CurlUrl(cmd) == Capture(cmd, Search(BareUrl, cmd, 0).value.1)
  {
    match Search(UrlAfterMethod, cmd, 0)
    case Some((p, h)) =>
      assert UrlAfterMethodAt(cmd, p) == Some(h);
      BareToken(cmd, h);
    case None =>
      match Search(BareUrl, cmd, 0)
      case Some((p, h)) =>
        assert BareUrlAt(cmd, p) == Some(h);
        BareToken(cmd, h);
      case None =>
  }

  lemma BareToken(s: string, h: Hit)
    requires h.capStart <= h.capEnd <= |s|
    requires forall k | h.capStart <= k < h.capEnd :: IsBareChar(s[k])
    ensures RemoveQuotes(Capture(s, h)) == Capture(s, h)
  {
    assert forall k | 0 <= k < |Capture(s, h)| :: Capture(s, h)[k] == s[h.capStart + k];
  }

  /** What every header dictionary of parseCurl satisfies: keys unique and
      trimmed, values not empty. */
  predicate GoodHeaders(d: Dict) {
    Unique(d) && forall k | 0 <= k < |d| :: IsTrimmed(d[k].0) && d[k].1 != []
  }

  lemma {:induction false} PutGood(d: Dict, key: string, value: string)
    requires GoodHeaders(d) && IsTrimmed(key) && value != []
    ensures GoodHeaders(Put(d, key, value))
  {
    PutUnique(d, key, value);
    var r := Put(d, key, value);
    forall k | 0 <= k < |r| ensures IsTrimmed(r[k].0) && r[k].1 != [] {
      PutEntry(d, key, value, k);
    }
  }

  /** A header entry keeps the dictionary good. */
  lemma HeaderEntryGood(d: Dict, line: string)
    requires GoodHeaders(d)
    ensures GoodHeaders(HeaderEntry(d, line))
  {
    var colon := IndexOfChar(line, ':');
    if colon > 0 {
      var value := Unquote(Trim(line[colon + 1..]));
      if value != [] {
        PutGood(d, Trim(line[..colon]), value);
      }
    }
  }

  /** Header arguments keep the dictionary good, whatever they hold. */
  lemma {:induction false} ApplyHeadersGood(d: Dict, lines: seq<string>)
    requires GoodHeaders(d)
    ensures GoodHeaders(ApplyHeaders(d, lines))
    decreases |lines|
  {
    if lines != [] {
      HeaderEntryGood(d, lines[0]);
      ApplyHeadersGood(HeaderEntry(d, lines[0]), lines[1..]);
    }
  }

  /** The headers parseCurl reads have unique, trimmed keys and non-empty
      values. */
  lemma CurlHeadersGood(cmd: string)
    ensures GoodHeaders(CurlHeaders(cmd))
  {
    ApplyHeadersGood([], HeaderLines(cmd, 0));
  }

  /** Without a data argument the body stays the empty text. */
  lemma NoDataNoBody(host: Host, curlCommand: string, id: nat)
    requires Search(DataArg, Command(curlCommand), 0).None?
    ensures CurlRequest(host, curlCommand, id).body == ""
    ensures CurlRequest(host, curlCommand, id).bodyType == Text
  {
  }

  /** The segments come back, in command order, by splitting the body at
      its separator, provided no normalised segment holds it. */
  lemma BodySplitsBack(host: Host, segments: seq<Segment>, headers: Dict)
    requires segments != []
    requires var enc := UrlEncodedMode(segments, headers);
      forall k | 0 <= k < |segments| :: BodySeparator(enc)[0] !in Normalized(segments, enc)[k]
    ensures var enc := UrlEncodedMode(segments, headers);
      Split(CurlBody(host, segments, headers).0, BodySeparator(enc)[0]) == Normalized(segments, enc)
  {
    var enc := UrlEncodedMode(segments, headers);
    assert BodySeparator(enc) == [BodySeparator(enc)[0]];
    SplitJoin(Normalized(segments, enc), BodySeparator(enc)[0]);
  }
}
