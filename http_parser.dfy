/** The `.http` document parser (HttpFileParser.parse and its helpers): a
    one-pass state machine over the `\n`-separated lines of a document. */
module HttpParser {
  import opened Wrappers
  import opened Strings
  import opened Dicts
  import opened Types

  // ---------------------------------------------------------------------
  // Line grammar

  /** The keyword `m` starts `line`, ignoring case, and white space follows. */
  predicate KeywordAt(line: string, m: string) {
    |m| < |line| && ToUpper(line[..|m|]) == m && IsSpace(line[|m|])
  }

  /** `/^(GET|POST|PUT|DELETE|PATCH|HEAD|OPTIONS)\s+/i.test(line)` */
  predicate IsMethodLine(line: string) {
    KeywordAt(line, "GET") || KeywordAt(line, "POST") || KeywordAt(line, "PUT")
    || KeywordAt(line, "DELETE") || KeywordAt(line, "PATCH") || KeywordAt(line, "HEAD")
    || KeywordAt(line, "OPTIONS")
  }

  /** parseMethodLine: the first white-space separated token, upper-cased,
      and the second token (or ""). */
  function ParseMethodLine(line: string): (string, string) {
    var parts := SplitWs(line);
    (ToUpper(parts[0]), if |parts| > 1 then parts[1] else "")
  }

  /** parseHeaderLine: split at the first `:` and trim both sides (with no
      `:`, `substring(0, -1)` is empty and `substring(0)` the whole line). */
  function ParseHeaderLine(line: string): (string, string) {
    var c := IndexOfChar(line, ':');
    (Trim(line[..if c < 0 then 0 else c]), Trim(line[c + 1..]))
  }

  /** parseVariable on a line `@name = value`. */
  function ParseVariable(line: string): (string, string)
    requires |line| > 0 && line[0] == '@' && '=' in line
  {
    var eq := IndexOfChar(line, '=');
    IndexOfCharFirst(line, '=');
    (Trim(line[1..eq]), Unquote(Trim(line[eq + 1..])))
  }

  predicate IsVariableLine(line: string) {
    |line| > 0 && line[0] == '@' && '=' in line
  }

  function DropHashes(s: string): (r: string)
    ensures |r| <= |s|
  {
    if s != [] && s[0] == '#' then DropHashes(s[1..]) else s
  }

  /** `line.replace(/^#+\s*\/, "").trim()` */
  function CommentText(line: string): string {
    Trim(DropHashes(line))
  }

  // ---------------------------------------------------------------------
  // Request construction

  /** extractRouteFromUrl: `METHOD route`, where the route is the URL itself
      when it holds `{{` or cannot be parsed, and otherwise its path and
      query (or the URL when those are empty). */
  function ExtractRouteFromUrl(host: Host, url: string, verb: string): (r: string)
    ensures url != [] ==> r != []
    ensures url == [] ==> r == []
  {
    if url == [] then []
    else
      var route :=
        if Contains(url, "{{") then url
        else match host.urlPath(url)
          case None => url
          case Some(p) => if p != [] then p else url;
      if verb != [] then verb + " " + route else route
  }

  /** A request opened by `###` or by a method line, before its method line. */
  function NewDraft(id: nat, name: string): Request {
    Request(id, name, "GET", "", [], [], "", Text, [], None, false)
  }

  /** The name a method line gives a request that has none. */
  function NameFromUrl(host: Host, url: string, verb: string): string {
    var route := ExtractRouteFromUrl(host, url, verb);
    if route != [] then route else url
  }

  /** finalizeRequest: fill the name and attach the document variables. */
  function Finalize(host: Host, d: Request, globals: Dict): (r: Request)
    ensures r.name != []
    ensures d.name != [] ==> r.name == d.name
    ensures r.url == d.url && r.headers == d.headers && r.body == d.body
    ensures r.variables == globals
  {
    var name0 := d.name;
    var name1 := if name0 == [] && d.url != [] then
      NameFromUrl(host, d.url, if d.httpMethod != [] then d.httpMethod else "GET") else name0;
    var name := if name1 == [] then "Unnamed Request" else name1;
    Request(d.id, name, if d.httpMethod != [] then d.httpMethod else "GET", d.url, d.headers, [],
      d.body, d.bodyType, globals, d.preAuth, d.isPreAuthRequest)
  }

  /** createEmptyRequest */
  function EmptyRequest(id: nat): Request {
    Request(id, "New Request", "GET", "https://api.example.com", [], [], "", Text, [], None, false)
  }

  function ContentType(headers: Dict): string {
    var a := match Get(headers, "Content-Type") case Some(v) => ToLower(v) case None => "";
    if a != [] then a else match Get(headers, "content-type") case Some(v) => ToLower(v) case None => ""
  }

  /** detectBodyType: the Content-Type header first (json, urlencoded, xml,
      html, javascript), then the trimmed body. */
  function DetectBodyType(host: Host, headers: Dict, body: string): BodyType
  {
    var ct := ContentType(headers);
    if Contains(ct, "application/json") then Json
    else if Contains(ct, "application/x-www-form-urlencoded") then UrlEncoded
    else if Contains(ct, "application/xml") || Contains(ct, "text/xml") then Xml
    else if Contains(ct, "text/html") then Html
    else if Contains(ct, "application/javascript") || Contains(ct, "text/javascript") then JavaScript
    else SniffBody(host, body)
  }

  /** The body tests of detectBodyType, on the trimmed body. */
  function SniffBody(host: Host, body: string): BodyType
  {
    var b := Trim(body);
    if b == [] then Text
    else if (b[0] == '{' || b[0] == '[') && host.isJson(b) then Json
    else if b[0] == '<' then Xml
    else if '=' in b && '&' in b then UrlEncoded
    else Text
  }

  /** The header decides first, in the order json, urlencoded, xml, html,
      javascript; without a deciding header the body decides. html and
      javascript come only from the header; a blank body without a header
      is text. */
  lemma DetectBodyTypeCases(host: Host, headers: Dict, body: string)
    ensures Contains(ContentType(headers), "application/json") ==> DetectBodyType(host, headers, body) == Json
    ensures DetectBodyType(host, headers, body) == Html ==> Contains(ContentType(headers), "text/html")
    ensures DetectBodyType(host, headers, body) == JavaScript ==>
      Contains(ContentType(headers), "application/javascript") || Contains(ContentType(headers), "text/javascript")
    ensures DetectBodyType(host, headers, body) == Json ==>
      Contains(ContentType(headers), "application/json")
      || (host.isJson(Trim(body)) && (StartsWith(Trim(body), "{") || StartsWith(Trim(body), "[")))
    ensures ContentType(headers) == [] && IsBlank(body) ==> DetectBodyType(host, headers, body) == Text
    ensures var ct, r := ContentType(headers), DetectBodyType(host, headers, body);
      var json, form := Contains(ct, "application/json"), Contains(ct, "application/x-www-form-urlencoded");
      var xml := Contains(ct, "application/xml") || Contains(ct, "text/xml");
      var html := Contains(ct, "text/html");
      var js := Contains(ct, "application/javascript") || Contains(ct, "text/javascript");
      var sniffed := !json && !form && !xml && !html && !js;
      && (r == Json <==> json || (sniffed && SniffBody(host, body) == Json))
      && (r == UrlEncoded <==> (!json && form) || (sniffed && SniffBody(host, body) == UrlEncoded))
      && (r == Xml <==> (!json && !form && xml) || (sniffed && SniffBody(host, body) == Xml))
      && (r == Html <==> !json && !form && !xml && html)
      && (r == JavaScript <==> !json && !form && !xml && !html && js)
      && (r == Text <==> sniffed && SniffBody(host, body) == Text)
  {
    var ct := ContentType(headers);
    SniffBodyCases(host, body);
    if Contains(ct, "application/json") {
    } else if Contains(ct, "application/x-www-form-urlencoded") {
    } else if Contains(ct, "application/xml") || Contains(ct, "text/xml") {
    } else if Contains(ct, "text/html") {
    } else if Contains(ct, "application/javascript") || Contains(ct, "text/javascript") {
    } else {
      assert DetectBodyType(host, headers, body) == SniffBody(host, body);
    }
  }

  /** Body sniffing on the trimmed body: json for a `{` or `[` body that
      passes the JSON test, else xml for a `<` body, else urlencoded when
      it holds both `=` and `&`, else text. */
  lemma SniffBodyCases(host: Host, body: string)
    ensures SniffBody(host, body) == Json ==>
      host.isJson(Trim(body)) && (StartsWith(Trim(body), "{") || StartsWith(Trim(body), "["))
    ensures IsBlank(body) ==> SniffBody(host, body) == Text
    ensures var b, r := Trim(body), SniffBody(host, body);
      var json := (StartsWith(b, "{") || StartsWith(b, "[")) && host.isJson(b);
      var form := '=' in b && '&' in b;
      && (r == Json <==> json)
      && (r == Xml <==> StartsWith(b, "<"))
      && (r == UrlEncoded <==> !json && !StartsWith(b, "<") && form)
      && (r == Text <==> !json && !StartsWith(b, "<") && !form)
      && r != Html && r != JavaScript
  {
    var b := Trim(body);
    if b != [] {
      assert StartsWith(b, "{") <==> b[0] == '{';
      assert StartsWith(b, "[") <==> b[0] == '[';
      assert StartsWith(b, "<") <==> b[0] == '<';
    }
  }

  // ---------------------------------------------------------------------
  // The state machine

  datatype ParserState = ParserState(
    requests: seq<Request>,
    globals: Dict,
    current: Option<Request>,
    inBody: bool,
    bodyLines: seq<string>,
    pending: seq<string>,
    nextId: nat)

  const Start := ParserState([], [], None, false, [], [], 0)

  /** The request with its collected body lines, if any. */
  function WithBody(d: Request, bodyLines: seq<string>): Request {
    if |bodyLines| > 0 then d.(body := Join(bodyLines, "\n")) else d
  }

  /** The emitted requests after the open request, if it has a URL, is flushed. */
  function Flushed(host: Host, st: ParserState): seq<Request> {
    if st.current.Some? && st.current.value.url != [] then
      st.requests + [Finalize(host, WithBody(st.current.value, st.bodyLines), st.globals)]
    else st.requests
  }

  /** The first method line of a block sets method, URL and a missing name. */
  function ApplyMethodLine(host: Host, d: Request, line: string): Request {
    if d.url != [] then d
    else
      var (verb, url) := ParseMethodLine(line);
      d.(httpMethod := verb, url := url, name := if d.name == [] then NameFromUrl(host, url, verb) else d.name)
  }

  /** A `@name = value` line: the declaration is stored when the name is
      non-empty. */
  function DeclareLine(st: ParserState, line: string): ParserState
    requires IsVariableLine(line)
  {
    var (name, value) := ParseVariable(line);
    if name != [] then st.(globals := Put(st.globals, name, value)) else st
  }

  /** A line starting with `#`: a `###` separator flushes the open request
      and opens a new one; any other comment is kept as a pending name only
      outside a request. */
  function CommentLine(host: Host, st: ParserState, line: string): ParserState {
    var text := CommentText(line);
    if StartsWith(line, "###") then
      var isPreAuth := text == "@PRE-AUTH";
      var name := if text != [] then text else Join(st.pending, " ");
      var draft := NewDraft(st.nextId, name).(
        preAuth := if isPreAuth then Some(PreAuthConfig(true, "", "")) else None,
        isPreAuthRequest := isPreAuth);
      ParserState(Flushed(host, st), st.globals, Some(draft), false, [], [], st.nextId + 1)
    else if st.current.Some? || text == [] then st
    else st.(pending := st.pending + [text])
  }

  /** A method line: opens a request named by the pending comments when none
      is open, then applies the line. */
  function MethodLine(host: Host, st: ParserState, line: string): ParserState {
    if st.current.None? then
      var draft := NewDraft(st.nextId, Join(st.pending, " "));
      st.(current := Some(ApplyMethodLine(host, draft, line)), pending := [], nextId := st.nextId + 1)
    else st.(current := Some(ApplyMethodLine(host, st.current.value, line)))
  }

  /** Any other line inside a request: a header before the body, the blank
      line that starts the body, or a body line kept as written. */
  function RequestLine(st: ParserState, raw: string, line: string): ParserState
    requires st.current.Some?
  {
    if ':' in line && !st.inBody && !StartsWith(line, "//") && !StartsWith(line, "#") then
      var (key, value) := ParseHeaderLine(line);
      if key != [] && value != [] then
        st.(current := Some(st.current.value.(headers := Put(st.current.value.headers, key, value))))
      else st
    else if line == [] && st.current.value.url != [] && !st.inBody then st.(inBody := true)
    else if st.inBody then st.(bodyLines := st.bodyLines + [raw])
    else st
  }

  /** One iteration of the parse loop on the raw line `raw`. */
  function Step(host: Host, st: ParserState, raw: string): ParserState {
    var line := Trim(raw);
    if line == [] && st.current.None? then st
    else if IsVariableLine(line) then DeclareLine(st, line)
    else if StartsWith(line, "#") then CommentLine(host, st, line)
    else if IsMethodLine(line) then MethodLine(host, st, line)
    else if st.current.None? then st
    else RequestLine(st, raw, line)
  }

  /** The state after the loop has run over `lines`. */
  function Run(host: Host, lines: seq<string>): ParserState
    decreases |lines|
  {
    if lines == [] then Start else Step(host, Run(host, lines[..|lines| - 1]), lines[|lines| - 1])
  }

  /** Every request of one parse holds the same variables object, so each
      sees the document's final declarations. */
  function Share(rs: seq<Request>, globals: Dict): (r: seq<Request>)
    ensures |r| == |rs|
  {
    seq(|rs|, i requires 0 <= i < |rs| => rs[i].(variables := globals))
  }

  /** The requests emitted before the fallback: the flushed blocks and the
      last open block, whose body type is sniffed. */
  function Emitted(host: Host, st: ParserState): seq<Request> {
    if st.current.Some? && st.current.value.url != [] then
      var d := WithBody(st.current.value, st.bodyLines);
      st.requests + [Finalize(host, d.(bodyType := DetectBodyType(host, d.headers, d.body)), st.globals)]
    else st.requests
  }

  /** What parse returns from its state after the loop: the emitted
      requests sharing the variables, or the default request if none. */
  function Outcome(host: Host, st: ParserState): seq<Request> {
    var rs := Share(Emitted(host, st), st.globals);
    if rs == [] then [EmptyRequest(st.nextId)] else rs
  }

  /** The result of parse on a document. */
  function Document(host: Host, content: string): seq<Request> {
    Outcome(host, Run(host, Split(content, '\n')))
  }

  /** The loop body on a line starting with `#`. */
  method ParseComment(host: Host, st: ParserState, line: string) returns (next: ParserState)
    ensures next == CommentLine(host, st, line)
  {
    next := st;
    var text := CommentText(line);
    if StartsWith(line, "###") {
      var requests := st.requests;
      if st.current.Some? && st.current.value.url != [] {
        requests := requests + [Finalize(host, WithBody(st.current.value, st.bodyLines), st.globals)];
      }
      var isPreAuth := text == "@PRE-AUTH";
      var draft := NewDraft(st.nextId, if text != [] then text else Join(st.pending, " "));
      if isPreAuth {
        draft := draft.(preAuth := Some(PreAuthConfig(true, "", "")), isPreAuthRequest := true);
      }
      next := ParserState(requests, st.globals, Some(draft), false, [], [], st.nextId + 1);
    } else if st.current.None? && text != [] {
      next := next.(pending := st.pending + [text]);
    }
  }

  /** The loop body on any other line once a request is open. */
  method ParseRequestLine(st: ParserState, raw: string, line: string) returns (next: ParserState)
    requires st.current.Some?
    ensures next == RequestLine(st, raw, line)
  {
    next := st;
    var current := st.current.value;
    if ':' in line && !st.inBody && !StartsWith(line, "//") && !StartsWith(line, "#") {
      var (key, value) := ParseHeaderLine(line);
      if key != [] && value != [] {
        next := next.(current := Some(current.(headers := Put(current.headers, key, value))));
      }
      return;
    }
    if line == [] && current.url != [] && !st.inBody {
      next := next.(inBody := true);
      return;
    }
    if st.inBody {
      next := next.(bodyLines := st.bodyLines + [raw]);
    }
  }

  /** The body of the loop of HttpFileParser.parse on the raw line `raw`,
      over the loop's local variables gathered in `st`. */
  method ParseLine(host: Host, st: ParserState, raw: string) returns (next: ParserState)
    ensures next == Step(host, st, raw)
  {
    next := st;
    var line := Trim(raw);
    if line == [] && st.current.None? {
      return;
    }
    if IsVariableLine(line) {
      var (name, value) := ParseVariable(line);
      if name != [] {
        next := next.(globals := Put(st.globals, name, value));
      }
      return;
    }
    if StartsWith(line, "#") {
      next := ParseComment(host, st, line);
      return;
    }
    if IsMethodLine(line) {
      var current := st.current;
      if current.None? {
        current := Some(NewDraft(st.nextId, Join(st.pending, " ")));
        next := next.(pending := [], nextId := st.nextId + 1);
      }
      next := next.(current := Some(ApplyMethodLine(host, current.value, line)));
      return;
    }
    if st.current.None? {
      return;
    }
    next := ParseRequestLine(st, raw, line);
  }

  /** HttpFileParser.parse: the loop of the source over the lines, its local
      variables gathered in one state, proved to compute Document. */
  method Parse(host: Host, content: string) returns (requests: seq<Request>)
    ensures requests == Document(host, content)
  {
    var lines := Split(content, '\n');
    var st := Start;
    for i := 0 to |lines|
      invariant st == Run(host, lines[..i])
    {
      assert lines[..i + 1][..i] == lines[..i];
      st := ParseLine(host, st, lines[i]);
    }
    assert lines[..|lines|] == lines;
    requests := st.requests;
    if st.current.Some? && st.current.value.url != [] {
      var d := WithBody(st.current.value, st.bodyLines);
      d := d.(bodyType := DetectBodyType(host, d.headers, d.body));
      requests := requests + [Finalize(host, d, st.globals)];
    }
    requests := Share(requests, st.globals);
    if requests == [] {
      requests := [EmptyRequest(st.nextId)];
    }
  }
}
