/** The pure helpers of ImportParser: the Content-Type lookup, its body-type
    detection, the url-encoded test on headers and the normalisation of one
    curl data segment. */
module ImportText {
  import opened Wrappers
  import opened Strings
  import opened Dicts
  import opened Types
  import opened Uri
  import opened Placeholders
  import HttpParser

  /** `headers["Content-Type"] || headers["content-type"]`, with "" for a
      missing or empty value. */
  function ContentTypeOf(h: Dict): (ct: string)
    ensures ct != [] ==> Get(h, "Content-Type") == Some(ct) || Get(h, "content-type") == Some(ct)
  {
    var a := Get(h, "Content-Type").GetOr("");
    if a != [] then a else Get(h, "content-type").GetOr("")
  }

  const FormType := "application/x-www-form-urlencoded"

  /** detectBodyType of the importer: substrings of the lower-cased
      Content-Type first, then the trimmed body. */
  function DetectBodyType(host: Host, body: string, contentType: string): BodyType
  {
    var ct := ToLower(contentType);
    if contentType != [] && Contains(ct, "application/json") then Json
    else if contentType != [] && Contains(ct, FormType) then UrlEncoded
    else if contentType != [] && Contains(ct, "xml") then Xml
    else if contentType != [] && Contains(ct, "html") then Html
    else if contentType != [] && Contains(ct, "javascript") then JavaScript
    else Sniff(host, body)
  }

  /** The body sniffing both detectors share: JSON, markup, form pairs,
      else text. */
  function Sniff(host: Host, body: string): BodyType
  {
    var trimmed := Trim(body);
    if (StartsWith(trimmed, "{") || StartsWith(trimmed, "[")) && host.isJson(trimmed) then Json
    else if StartsWith(trimmed, "<?xml") || StartsWith(trimmed, "<") then Xml
    else if Contains(trimmed, "=") && Contains(trimmed, "&") then UrlEncoded
    else Text
  }

  /** The lower-cased Content-Type decides first, in the order
      application/json, the form type, xml, html, javascript; without a
      deciding header the body decides. html and javascript come only from
      the header. */
  lemma DetectBodyTypeCases(host: Host, body: string, contentType: string)
    ensures Contains(ToLower(contentType), "application/json") ==> DetectBodyType(host, body, contentType) == Json
    ensures DetectBodyType(host, body, contentType) == Json ==>
      Contains(ToLower(contentType), "application/json") || host.isJson(Trim(body))
    ensures DetectBodyType(host, body, contentType) == Html ==> Contains(ToLower(contentType), "html")
    ensures DetectBodyType(host, body, contentType) == JavaScript ==> Contains(ToLower(contentType), "javascript")
    ensures var ct, r := ToLower(contentType), DetectBodyType(host, body, contentType);
      var json, form := Contains(ct, "application/json"), Contains(ct, FormType);
      var xml, html, js := Contains(ct, "xml"), Contains(ct, "html"), Contains(ct, "javascript");
      var sniffed := !json && !form && !xml && !html && !js;
      && (r == Json <==> json || (sniffed && Sniff(host, body) == Json))
      && (r == UrlEncoded <==> (!json && form) || (sniffed && Sniff(host, body) == UrlEncoded))
      && (r == Xml <==> (!json && !form && xml) || (sniffed && Sniff(host, body) == Xml))
      && (r == Html <==> !json && !form && !xml && html)
      && (r == JavaScript <==> !json && !form && !xml && !html && js)
      && (r == Text <==> sniffed && Sniff(host, body) == Text)
  {
    var ct := ToLower(contentType);
    SniffCases(host, body);
    if contentType == [] {
      assert DetectBodyType(host, body, contentType) == Sniff(host, body);
      assert ct == [];
      assert !Contains(ct, "application/json") && !Contains(ct, FormType) && !Contains(ct, "xml");
      assert !Contains(ct, "html") && !Contains(ct, "javascript");
    } else if Contains(ct, "application/json") {
    } else if Contains(ct, FormType) {
    } else if Contains(ct, "xml") {
    } else if Contains(ct, "html") {
    } else if Contains(ct, "javascript") {
    } else {
      assert DetectBodyType(host, body, contentType) == Sniff(host, body);
    }
  }

  /** Sniffing the trimmed body: json for a `{` or `[` body that passes
      the JSON test, else xml for a `<` body (which covers `<?xml`), else
      urlencoded when it holds both `=` and `&`, else text. */
  lemma SniffCases(host: Host, body: string)
    ensures Sniff(host, body) in {Json, Xml, UrlEncoded, Text}
    ensures Sniff(host, body) == Json ==> host.isJson(Trim(body))
    ensures IsBlank(body) ==> Sniff(host, body) == Text
    ensures var b, r := Trim(body), Sniff(host, body);
      var json := (StartsWith(b, "{") || StartsWith(b, "[")) && host.isJson(b);
      var form := Contains(b, "=") && Contains(b, "&");
      && (r == Json <==> json)
      && (r == Xml <==> !json && StartsWith(b, "<"))
      && (r == UrlEncoded <==> !json && !StartsWith(b, "<") && form)
      && (r == Text <==> !json && !StartsWith(b, "<") && !form)
  {
    var b := Trim(body);
    if StartsWith(b, "<?xml") {
      assert b[..1] == b[..5][..1];
    }
    if IsBlank(body) {
      assert b == [];
      assert !StartsWith(b, "{") && !StartsWith(b, "[") && !StartsWith(b, "<");
      assert !Contains(b, "=");
    }
  }

  /** isUrlEncodedFromHeaders */
  predicate IsUrlEncodedFromHeaders(h: Dict) {
    var ct := ContentTypeOf(h);
    ct != [] && Contains(ToLower(ct), FormType)
  }

  const UrlencodeFlag := "--data-urlencode"

  /** normalizeCurlDataValue: a `--data-urlencode` segment is trimmed and
      encoded (the part before the first `=` plainly, the rest keeping its
      placeholders); other segments are trimmed in url-encoded mode and
      kept as they are otherwise. */
  function NormalizeCurlDataValue(value: string, flag: string, fallbackUrlEncoded: bool): string {
    if flag == UrlencodeFlag then UrlencodeValue(Trim(value))
    else if fallbackUrlEncoded then Trim(value)
    else value
  }

  /** A trimmed `--data-urlencode` segment encoded: split at its first `=`
      when it has one, else encoded whole keeping its placeholders. */
  function UrlencodeValue(t: string): string {
    var eq := IndexOfChar(t, '=');
    if eq != -1 then EncodedPair(t[..eq], t[eq + 1..]) else Preserved(t)
  }

  /** A `--data-urlencode` pair: the key encoded plainly, the rest keeping
      its placeholders. */
  function EncodedPair(key: string, rest: string): string {
    Encode(key) + "=" + Preserved(rest)
  }

  // ---------------------------------------------------------------------
  // Properties

  /** A Content-Type naming one of the five kinds decides the type
      whatever the body. */
  lemma HeaderDecides(host: Host, b1: string, b2: string, contentType: string)
    requires exists k | k in ["application/json", FormType, "xml", "html", "javascript"] ::
      Contains(ToLower(contentType), k)
    ensures DetectBodyType(host, b1, contentType) == DetectBodyType(host, b2, contentType)
  {
    var ct := ToLower(contentType);
    var k :| k in ["application/json", FormType, "xml", "html", "javascript"] && Contains(ct, k);
    assert |k| > 0;
    assert contentType != [];
    var t := if Contains(ct, "application/json") then Json
      else if Contains(ct, FormType) then UrlEncoded
      else if Contains(ct, "xml") then Xml
      else if Contains(ct, "html") then Html
      else JavaScript;
    assert DetectBodyType(host, b1, contentType) == t;
    assert DetectBodyType(host, b2, contentType) == t;
  }

  lemma ContainsChar(s: string, c: char)
    ensures Contains(s, [c]) <==> c in s
  {
    if c in s {
      var i :| 0 <= i < |s| && s[i] == c;
      assert OccursAt(s, [c], i);
    }
    if Contains(s, [c]) {
      var i :| 0 <= i <= |s| && OccursAt(s, [c], i);
      assert s[i] == c;
    }
  }

  /** The lower-cased header the document parser reads is the importer's
      header lower-cased. */
  lemma ContentTypesAgree(h: Dict)
    ensures HttpParser.ContentType(h) == ToLower(ContentTypeOf(h))
  {
  }

  /** When the Content-Type names none of the five kinds, the importer
      sniffs the body exactly as the document parser does. */
  lemma SniffingAgrees(host: Host, h: Dict, body: string)
    requires forall k | k in ["application/json", FormType, "xml", "html", "javascript"] ::
      !Contains(ToLower(ContentTypeOf(h)), k)
    ensures DetectBodyType(host, body, ContentTypeOf(h)) == HttpParser.DetectBodyType(host, h, body)
  {
    var ct := ToLower(ContentTypeOf(h));
    assert "application/json" in ["application/json", FormType, "xml", "html", "javascript"];
    assert FormType in ["application/json", FormType, "xml", "html", "javascript"];
    assert "xml" in ["application/json", FormType, "xml", "html", "javascript"];
    assert "html" in ["application/json", FormType, "xml", "html", "javascript"];
    assert "javascript" in ["application/json", FormType, "xml", "html", "javascript"];
    HeaderSilent(host, body, ContentTypeOf(h), ct);
    ContentTypesAgree(h);
    ParserFallsThrough(host, h, body, ct);
    SniffMatchesParser(host, body);
  }

  /** A Content-Type naming none of the five kinds leaves the type to the
      body sniffing. */
  lemma HeaderSilent(host: Host, body: string, contentType: string, ct: string)
    requires ct == ToLower(contentType)
    requires !Contains(ct, "application/json") && !Contains(ct, FormType)
    requires !Contains(ct, "xml") && !Contains(ct, "html") && !Contains(ct, "javascript")
    ensures DetectBodyType(host, body, contentType) == Sniff(host, body)
  {
  }

  /** The document parser's header tests all fail on such a header. */
  lemma ParserFallsThrough(host: Host, h: Dict, body: string, ct: string)
    requires ct == HttpParser.ContentType(h)
    requires !Contains(ct, "application/json") && !Contains(ct, FormType)
    requires !Contains(ct, "xml") && !Contains(ct, "html") && !Contains(ct, "javascript")
    ensures HttpParser.DetectBodyType(host, h, body) == HttpParser.SniffBody(host, body)
  {
    NotContainsEnding(ct, "xml", "application/xml");
    NotContainsEnding(ct, "xml", "text/xml");
    NotContainsEnding(ct, "html", "text/html");
    NotContainsEnding(ct, "javascript", "application/javascript");
    NotContainsEnding(ct, "javascript", "text/javascript");
  }

  /** The two detectors' body tests coincide. */
  lemma SniffMatchesParser(host: Host, body: string)
    ensures Sniff(host, body) == HttpParser.SniffBody(host, body)
  {
    SniffOn(host, body, Trim(body));
  }

  lemma SniffOn(host: Host, body: string, b: string)
    requires b == Trim(body)
    ensures Sniff(host, body) == HttpParser.SniffBody(host, body)
  {
    var t := if b == [] then Text
      else if (b[0] == '{' || b[0] == '[') && host.isJson(b) then Json
      else if b[0] == '<' then Xml
      else if '=' in b && '&' in b then UrlEncoded
      else Text;
    assert HttpParser.SniffBody(host, body) == t;
    OpensJson(b);
    OpensMarkup(b);
    HoldsPairs(b);
    assert Sniff(host, body) == t;
  }

  lemma OpensJson(b: string)
    ensures StartsWith(b, "{") || StartsWith(b, "[") <==> b != [] && (b[0] == '{' || b[0] == '[')
  {
    StartsWithChar(b, '{');
    StartsWithChar(b, '[');
  }

  lemma OpensMarkup(b: string)
    ensures StartsWith(b, "<?xml") || StartsWith(b, "<") <==> b != [] && b[0] == '<'
  {
    StartsWithChar(b, '<');
    assert StartsWith(b, "<?xml") ==> StartsWith(b, "<");
  }

  lemma HoldsPairs(b: string)
    ensures Contains(b, "=") && Contains(b, "&") <==> '=' in b && '&' in b
  {
    ContainsChar(b, '=');
    ContainsChar(b, '&');
  }

  lemma StartsWithChar(s: string, c: char)
    ensures StartsWith(s, [c]) <==> s != [] && s[0] == c
  {
  }

  /** A text that does not hold `k` holds no text ending in `k`. */
  lemma NotContainsEnding(s: string, k: string, t: string)
    requires !Contains(s, k) && EndsWith(t, k)
    ensures !Contains(s, t)
  {
    if Contains(s, t) {
      var i :| 0 <= i <= |s| && OccursAt(s, t, i);
      var j := i + |t| - |k|;
      assert s[j..j + |k|] == t[|t| - |k|..];
      assert OccursAt(s, k, j);
    }
  }

  /** Reading an encoded `--data-urlencode` pair back: the text before its
      first `=` by decodeURIComponent, the rest by decoding the literal runs
      around its placeholders. */
  function DecodedPair(out: string): Option<(string, string)> {
    var cut := IndexOfChar(out, '=');
    if cut == -1 then None
    else
      match (Decode(out[..cut]), Restored(out[cut + 1..]))
      case (Some(key), Some(rest)) => Some((key, rest))
      case _ => None
  }

  /** A `--data-urlencode` segment holding `=` decodes back to its trimmed
      text, split at that text's first `=`. */
  lemma UrlencodeRoundTrip(value: string, fallback: bool)
    requires '=' in Trim(value)
    ensures var p := DecodedPair(NormalizeCurlDataValue(value, UrlencodeFlag, fallback));
      p.Some? && Trim(value) == p.value.0 + "=" + p.value.1 && '=' !in p.value.0
  {
    assert NormalizeCurlDataValue(value, UrlencodeFlag, fallback) == UrlencodeValue(Trim(value));
    UrlencodeValueSplit(Trim(value));
  }

  lemma UrlencodeValueSplit(t: string)
    requires '=' in t
    ensures var p := DecodedPair(UrlencodeValue(t));
      p.Some? && t == p.value.0 + "=" + p.value.1 && '=' !in p.value.0
  {
    var eq := IndexOfChar(t, '=');
    IndexOfCharFirst(t, '=');
    var key, rest := t[..eq], t[eq + 1..];
    assert UrlencodeValue(t) == EncodedPair(key, rest);
    EncodedPairSplit(UrlencodeValue(t), key, rest);
    JoinAtEq(t, eq, key, rest);
  }

  lemma JoinAtEq(t: string, eq: int, key: string, rest: string)
    requires 0 <= eq < |t| && t[eq] == '=' && key == t[..eq] && rest == t[eq + 1..]
    ensures t == key + "=" + rest
  {
    assert t == t[..eq] + [t[eq]] + t[eq + 1..];
  }

  lemma EncodedPairSplit(out: string, key: string, rest: string)
    requires out == EncodedPair(key, rest)
    ensures DecodedPair(out) == Some((key, rest))
  {
    var e := Encode(key);
    var p := Preserved(rest);
    EncodeAlphabet(key);
    assert '=' !in e;
    assert out == e + ("=" + p);
    IndexOfCharAt(e, "=" + p, '=');
    assert out[..|e|] == e;
    assert out[|e| + 1..] == p;
    DecodeEncode(key);
    RestoredPreserved(rest);
  }

  /** A `--data-urlencode` segment without `=` is encoded whole, keeping its
      placeholders: decoding restores the trimmed segment. */
  lemma UrlencodeWholeRoundTrip(value: string, fallback: bool)
    requires '=' !in Trim(value)
    ensures Restored(NormalizeCurlDataValue(value, UrlencodeFlag, fallback)) == Some(Trim(value))
  {
    IndexOfCharFirst(Trim(value), '=');
    RestoredPreserved(Trim(value));
  }
}
