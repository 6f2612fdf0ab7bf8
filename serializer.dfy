/** HttpFileParser.serialize: a request list written back as a `.http`
    document. The variables of all requests, merged, go first as
    `@name = value` lines; then each request is a `###` heading, its method
    line, its headers and its body. */
module Serializer {
  import opened Wrappers
  import opened Strings
  import opened Dicts
  import opened Types
  import opened Sanitizer

  /** Lines each followed by a line feed. */
  function Lines(ls: seq<string>): (r: string)
    ensures ls == [] ==> r == []
    decreases |ls|
  {
    if ls == [] then [] else Lines(ls[..|ls| - 1]) + (ls[|ls| - 1] + "\n")
  }

  /** The variables of every request assigned in order into one object. */
  function MergedVariables(rs: seq<Request>): Dict
    decreases |rs|
  {
    if rs == [] then [] else Assign(MergedVariables(rs[..|rs| - 1]), rs[|rs| - 1].variables)
  }

  /** The `@name = value` line of each variable. */
  function VariableLineList(vars: Dict): (ls: seq<string>)
    ensures |ls| == |vars|
  {
    seq(|vars|, i requires 0 <= i < |vars| => "@" + vars[i].0 + " = " + vars[i].1)
  }

  /** The variable block: its lines and a blank line, when there is any
      variable. */
  function VariableBlock(vars: Dict): string {
    if |vars| > 0 then Lines(VariableLineList(vars)) + "\n" else ""
  }

  predicate IsPreAuthMarked(r: Request) {
    r.preAuth.Some? && r.preAuth.value.enabled
  }

  function Heading(r: Request): string {
    if IsPreAuthMarked(r) then "### @PRE-AUTH" else "### " + r.name
  }

  /** `key: value` for each header whose key and value are both non-empty. */
  function HeaderLineList(h: Dict): (ls: seq<string>)
    ensures |ls| <= |h|
    decreases |h|
  {
    if h == [] then []
    else
      var (k, v) := h[|h| - 1];
      HeaderLineList(h[..|h| - 1]) + (if k != [] && v != [] then [k + ": " + v] else [])
  }

  /** A pre-auth request, or one named `@PRE-AUTH` in any case, is saved
      with its credentials blanked. */
  predicate SanitizesBody(r: Request) {
    r.isPreAuthRequest || ToUpper(Trim(r.name)) == "@PRE-AUTH"
  }

  /** The body serialize writes, blanked by sanitizePreAuthBody as
      written (see Sanitizer.Sanitized). */
  function SavedBody(r: Request): string {
    if SanitizesBody(r) then Sanitized(r.body) else r.body
  }

  /** The body after a blank line, only when it is not blank. */
  function BodySection(b: string): (r: string)
    ensures r != [] <==> Trim(b) != []
  {
    if Trim(b) != [] then "\n" + b + "\n" else ""
  }

  /** The heading, the method line and the header lines of a request. */
  function HeadLines(r: Request): seq<string> {
    [Heading(r), r.httpMethod + " " + r.url] + HeaderLineList(r.headers)
  }

  /** One request as written: heading, method line, headers, body, and a
      closing blank line. */
  function Block(r: Request): string {
    Lines(HeadLines(r)) + BodySection(SavedBody(r)) + "\n"
  }

  function Blocks(rs: seq<Request>): string
    decreases |rs|
  {
    if rs == [] then [] else Blocks(rs[..|rs| - 1]) + Block(rs[|rs| - 1])
  }

  /** What serialize returns. */
  function Serialized(rs: seq<Request>): string {
    VariableBlock(MergedVariables(rs)) + Blocks(rs)
  }

  /** serialize, with its loops over the requests, the merged variables
      and each request's headers. */
  method Serialize(requests: seq<Request>) returns (content: string)
    ensures content == Serialized(requests)
  {
    content := "";
    var all: Dict := [];
    for i := 0 to |requests|
      invariant all == MergedVariables(requests[..i])
    {
      assert requests[..i + 1][..i] == requests[..i];
      all := Assign(all, requests[i].variables);
    }
    assert requests[..|requests|] == requests;
    if |all| > 0 {
      for i := 0 to |all|
        invariant content == Lines(VariableLineList(all[..i]))
      {
        var line := "@" + all[i].0 + " = " + all[i].1;
        assert VariableLineList(all[..i + 1]) == VariableLineList(all[..i]) + [line];
        LinesSnoc(VariableLineList(all[..i]), line);
        content := content + (line + "\n");
      }
      assert all[..|all|] == all;
      content := content + "\n";
    }
    assert content == VariableBlock(all);
    assert requests[..0] == [];
    for i := 0 to |requests|
      invariant content == VariableBlock(all) + Blocks(requests[..i])
    {
      content := AppendRequest(content, requests[i]);
      BlocksSnoc(requests, i);
      Assoc3(VariableBlock(all), Blocks(requests[..i]), Block(requests[i]));
    }
    assert requests[..|requests|] == requests;
  }

  /** The body of serialize's loop over the requests: one block appended. */
  method AppendRequest(before: string, req: Request) returns (content: string)
    ensures content == before + Block(req)
  {
    content := AppendHead(before, req);
    ghost var head := content;
    var bodyContent := req.body;
    if req.isPreAuthRequest || ToUpper(Trim(req.name)) == "@PRE-AUTH" {
      bodyContent := SanitizePreAuthBody(bodyContent, false);
    }
    assert bodyContent == SavedBody(req);
    if Trim(bodyContent) != [] {
      content := content + ("\n" + bodyContent + "\n");
    }
    assert content == head + BodySection(bodyContent);
    content := content + "\n";
    Assoc(before, Lines(HeadLines(req)), BodySection(bodyContent), "\n");
  }

  /** The heading and the method line, then the loop over the headers. */
  method AppendHead(before: string, req: Request) returns (content: string)
    ensures content == before + Lines(HeadLines(req))
  {
    var heading := if IsPreAuthMarked(req) then "### @PRE-AUTH" else "### " + req.name;
    var methodLine := req.httpMethod + " " + req.url;
    content := before + (heading + "\n") + (methodLine + "\n");
    LinesSnoc([], heading);
    LinesSnoc([heading], methodLine);
    content := AppendHeaders(content, req.headers);
    LinesAppend([heading, methodLine], HeaderLineList(req.headers));
  }

  /** serialize's loop over one request's headers, which skips a header
      with an empty key or value. */
  method AppendHeaders(before: string, headers: Dict) returns (content: string)
    ensures content == before + Lines(HeaderLineList(headers))
  {
    content := before;
    for j := 0 to |headers|
      invariant content == before + Lines(HeaderLineList(headers[..j]))
    {
      var (key, value) := headers[j];
      ghost var written := HeaderLineList(headers[..j]);
      HeaderLineListSnoc(headers, j);
      if key != [] && value != [] {
        var line := key + ": " + value;
        LinesSnoc(written, line);
        Assoc3(before, Lines(written), line + "\n");
        content := content + (line + "\n");
      } else {
        assert written + [] == written;
      }
    }
    assert headers[..|headers|] == headers;
  }

  lemma Assoc3(a: string, b: string, c: string)
    ensures a + b + c == a + (b + c)
  {
  }

  lemma Assoc(a: string, b: string, c: string, d: string)
    ensures a + b + c + d == a + (b + c + d)
  {
  }

  lemma {:induction false} LinesAppend(a: seq<string>, b: seq<string>)
    ensures Lines(a + b) == Lines(a) + Lines(b)
    decreases |b|
  {
    if b == [] {
      assert a + b == a;
    } else {
      var init := b[..|b| - 1];
      assert (a + b)[..|a + b| - 1] == a + init;
      LinesAppend(a, init);
    }
  }

  lemma LinesSnoc(ls: seq<string>, l: string)
    ensures Lines(ls + [l]) == Lines(ls) + (l + "\n")
  {
    assert (ls + [l])[..|ls|] == ls;
  }

  lemma HeaderLineListSnoc(h: Dict, j: int)
    requires 0 <= j < |h|
    ensures HeaderLineList(h[..j + 1])
      == HeaderLineList(h[..j]) + (if h[j].0 != [] && h[j].1 != [] then [h[j].0 + ": " + h[j].1] else [])
  {
    assert h[..j + 1][..j] == h[..j];
  }

  lemma BlocksSnoc(rs: seq<Request>, i: int)
    requires 0 <= i < |rs|
    ensures Blocks(rs[..i + 1]) == Blocks(rs[..i]) + Block(rs[i])
  {
    assert rs[..i + 1][..i] == rs[..i];
  }
}
