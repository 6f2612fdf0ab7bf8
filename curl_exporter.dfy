/** CurlExporter: a request written out as a curl command line, either for
    a POSIX shell (arguments in single quotes, lines continued with a
    backslash) or for PowerShell (arguments in double quotes, lines
    continued with a backtick). */
module CurlExporter {
  import opened Wrappers
  import opened Strings
  import opened Dicts
  import opened Types

  datatype Dialect = Posix | PowerShell

  /** Inside a single-quoted word each `'` becomes `'\''`: close the
      quotes, an escaped quote, open them again. */
  function EscapeSingleQuotes(s: string): string {
    ReplaceChar(s, '\'', "'\\''")
  }

  /** `"` escaped with a backslash (PowerShell header values). */
  function EscapeDoubleQuotes(s: string): string {
    ReplaceChar(s, '"', "\\\"")
  }

  /** The PowerShell body escaping, pass by pass: backslashes doubled, `"`
      escaped, line feeds written as `\n`, carriage returns removed. */
  function EscapePowerShellBody(s: string): string {
    ReplaceChar(ReplaceChar(EscapeDoubleQuotes(ReplaceChar(s, '\\', "\\\\")), '\n', "\\n"), '\r', "")
  }

  function MethodParts(verb: string): seq<string> {
    if verb != "GET" then ["-X " + verb] else []
  }

  function UrlPart(d: Dialect, url: string): string {
    match d
    case Posix => "'" + url + "'"
    case PowerShell => "\"" + url + "\""
  }

  function HeaderPart(d: Dialect, key: string, value: string): string {
    match d
    case Posix => "-H '" + key + ": " + value + "'"
    case PowerShell => "-H \"" + key + ": " + EscapeDoubleQuotes(value) + "\""
  }

  /** One `-H` part per header with a non-empty key and value, in order. */
  function HeaderParts(d: Dialect, h: Dict): (ps: seq<string>)
    ensures |ps| == |Filled(h)|
  {
    var f := Filled(h);
    seq(|f|, i requires 0 <= i < |f| => HeaderPart(d, f[i].0, f[i].1))
  }

  function BodyParts(d: Dialect, body: string): seq<string> {
    if Trim(body) == [] then []
    else
      match d
      case Posix => ["-d '" + EscapeSingleQuotes(body) + "'"]
      case PowerShell => ["-d \"" + EscapePowerShellBody(body) + "\""]
  }

  /** The parts of the command, in the order both exporters push them. */
  function Parts(d: Dialect, r: Request): seq<string> {
    ["curl"] + MethodParts(r.httpMethod) + [UrlPart(d, r.url)]
    + HeaderParts(d, r.headers) + BodyParts(d, r.body)
  }

  function Separator(d: Dialect): string {
    match d
    case Posix => " \\\n  "
    case PowerShell => " `\n  "
  }

  /** The command text: the parts joined by the dialect's separator. */
  function Command(d: Dialect, r: Request): string {
    Join(Parts(d, r), Separator(d))
  }

  /** CurlExporter.export */
  method Export(request: Request) returns (command: string)
    ensures command == Command(Posix, request)
  {
    var parts := ["curl"];
    if request.httpMethod != "GET" {
      parts := parts + ["-X " + request.httpMethod];
    }
    parts := parts + ["'" + request.url + "'"];
    ghost var head := parts;
    assert head == ["curl"] + MethodParts(request.httpMethod) + [UrlPart(Posix, request.url)];
    assert request.headers[..0] == [];
    for j := 0 to |request.headers|
      invariant parts == head + HeaderParts(Posix, request.headers[..j])
    {
      var (key, value) := request.headers[j];
      HeaderPartsSnoc(Posix, request.headers, j);
      if key != [] && value != [] {
        parts := parts + ["-H '" + key + ": " + value + "'"];
      }
    }
    assert request.headers[..|request.headers|] == request.headers;
    if request.body != [] && Trim(request.body) != [] {
      var escapedBody := ReplaceChar(request.body, '\'', "'\\''");
      parts := parts + ["-d '" + escapedBody + "'"];
    }
    assert parts == Parts(Posix, request);
    command := Join(parts, " \\\n  ");
  }

  /** CurlExporter.exportForWindows */
  method ExportForWindows(request: Request) returns (command: string)
    ensures command == Command(PowerShell, request)
  {
    var parts := ["curl"];
    if request.httpMethod != "GET" {
      parts := parts + ["-X " + request.httpMethod];
    }
    var url := "\"" + request.url + "\"";
    parts := parts + [url];
    ghost var head := parts;
    assert head == ["curl"] + MethodParts(request.httpMethod) + [UrlPart(PowerShell, request.url)];
    assert request.headers[..0] == [];
    for j := 0 to |request.headers|
      invariant parts == head + HeaderParts(PowerShell, request.headers[..j])
    {
      var (key, value) := request.headers[j];
      HeaderPartsSnoc(PowerShell, request.headers, j);
      if key != [] && value != [] {
        var escapedValue := ReplaceChar(value, '"', "\\\"");
        var header := "-H \"" + key + ": " + escapedValue + "\"";
        parts := parts + [header];
      }
    }
    assert request.headers[..|request.headers|] == request.headers;
    if request.body != [] && Trim(request.body) != [] {
      var escapedBody := ReplaceChar(request.body, '\\', "\\\\");
      escapedBody := ReplaceChar(escapedBody, '"', "\\\"");
      escapedBody := ReplaceChar(escapedBody, '\n', "\\n");
      escapedBody := ReplaceChar(escapedBody, '\r', "");
      var data := "-d \"" + escapedBody + "\"";
      parts := parts + [data];
    }
    assert parts == Parts(PowerShell, request);
    command := Join(parts, " `\n  ");
  }

  lemma FilledSnoc(h: Dict, j: int)
    requires 0 <= j < |h|
    ensures Filled(h[..j + 1])
      == Filled(h[..j]) + (if h[j].0 != [] && h[j].1 != [] then [h[j]] else [])
  {
    assert h[..j + 1][..j] == h[..j];
  }

  lemma HeaderPartsSnoc(d: Dialect, h: Dict, j: int)
    requires 0 <= j < |h|
    ensures HeaderParts(d, h[..j + 1]) == HeaderParts(d, h[..j])
      + (if h[j].0 != [] && h[j].1 != [] then [HeaderPart(d, h[j].0, h[j].1)] else [])
  {
    FilledSnoc(h, j);
  }

  // ---------------------------------------------------------------------
  // The shape of the command

  /** One part for `curl`, one for `-X METHOD` when the method is not
      `GET`, one for the URL, one per header with a non-empty key and value,
      and one for the body when the trimmed body is not empty. */
  lemma PartsCount(d: Dialect, r: Request)
    ensures |Parts(d, r)| == 2 + (if r.httpMethod != "GET" then 1 else 0)
      + |Filled(r.headers)| + (if Trim(r.body) != [] then 1 else 0)
  {
  }

  /** `curl` comes first and the quoted URL right after the optional
      method part. */
  lemma PartsUrl(d: Dialect, r: Request)
    ensures var ps := Parts(d, r);
      ps[0] == "curl" && ps[1 + |MethodParts(r.httpMethod)|] == UrlPart(d, r.url)
  {
  }

  /** The header parts follow the URL. */
  lemma PartsHeaders(d: Dialect, r: Request)
    ensures var ps := Parts(d, r);
      var n := |MethodParts(r.httpMethod)|;
      |ps| >= 2 + n + |Filled(r.headers)|
      && ps[2 + n..2 + n + |Filled(r.headers)|] == HeaderParts(d, r.headers)
  {
    var front := ["curl"] + MethodParts(r.httpMethod) + [UrlPart(d, r.url)];
    var hs := HeaderParts(d, r.headers);
    assert Parts(d, r) == front + hs + BodyParts(d, r.body);
  }

  lemma NotFlag(s: string, flag: string)
    requires s != [] && s[0] != '-' && flag != [] && flag[0] == '-'
    ensures !StartsWith(s, flag)
  {
  }

  /** `-X METHOD` is the second part exactly when the method is not `GET`. */
  lemma MethodFlag(d: Dialect, r: Request)
    ensures StartsWith(Parts(d, r)[1], "-X ") <==> r.httpMethod != "GET"
    ensures r.httpMethod != "GET" ==> Parts(d, r)[1] == "-X " + r.httpMethod
  {
    PartsUrl(d, r);
    if r.httpMethod == "GET" {
      NotFlag(UrlPart(d, r.url), "-X ");
    }
  }

  /** The command ends with a `-d` part exactly when the trimmed body is not
      empty. */
  lemma BodyFlag(d: Dialect, r: Request)
    ensures var ps := Parts(d, r);
      StartsWith(ps[|ps| - 1], "-d ") <==> Trim(r.body) != []
    ensures var ps := Parts(d, r);
      Trim(r.body) != [] ==> ps[|ps| - 1] == BodyParts(d, r.body)[0]
  {
    if Trim(r.body) == [] {
      LastWithoutBody(d, r);
    } else {
      LastWithBody(d, r);
    }
  }

  /** With a body, the last part is the `-d` part. */
  lemma LastWithBody(d: Dialect, r: Request)
    requires Trim(r.body) != []
    ensures var ps := Parts(d, r);
      StartsWith(ps[|ps| - 1], "-d ") && ps[|ps| - 1] == BodyParts(d, r.body)[0]
  {
    var front := ["curl"] + MethodParts(r.httpMethod) + [UrlPart(d, r.url)];
    var bs := BodyParts(d, r.body);
    assert |bs| == 1 && StartsWith(bs[0], "-d ");
    assert Parts(d, r) == (front + HeaderParts(d, r.headers)) + bs;
  }

  /** Without a body, the last part is a header or the URL. */
  lemma LastWithoutBody(d: Dialect, r: Request)
    requires Trim(r.body) == []
    ensures var ps := Parts(d, r);
      !StartsWith(ps[|ps| - 1], "-d ")
  {
    var front := ["curl"] + MethodParts(r.httpMethod) + [UrlPart(d, r.url)];
    var hs := HeaderParts(d, r.headers);
    assert BodyParts(d, r.body) == [];
    assert Parts(d, r) == front + hs;
    LastOf(front, hs);
    if hs != [] {
      HeaderLastFlag(d, r.headers);
    } else {
      NotFlag(UrlPart(d, r.url), "-d ");
    }
  }

  lemma LastOf(a: seq<string>, b: seq<string>)
    requires a != []
    ensures (a + b)[|a + b| - 1] == if b == [] then a[|a| - 1] else b[|b| - 1]
  {
  }

  /** The last header part is a `-H` part. */
  lemma HeaderLastFlag(d: Dialect, h: Dict)
    requires Filled(h) != []
    ensures var hs := HeaderParts(d, h);
      !StartsWith(hs[|hs| - 1], "-d ")
  {
    var f := Filled(h);
    var hs := HeaderParts(d, h);
    forall i | 0 <= i < |hs|
      ensures !StartsWith(hs[i], "-d ")
    {
      HeaderPartFlag(d, f[i].0, f[i].1);
    }
  }

  /** A header part starts with `-H`, so not with `-d `. */
  lemma HeaderPartFlag(d: Dialect, key: string, value: string)
    ensures !StartsWith(HeaderPart(d, key, value), "-d ")
  {
    var x := HeaderPart(d, key, value);
    match d
    case Posix =>
      assert x == "-H '" + (key + ": " + value + "'");
      assert x[1] == 'H';
    case PowerShell =>
      assert x == "-H \"" + (key + ": " + EscapeDoubleQuotes(value) + "\"");
      assert x[1] == 'H';
  }

  // ---------------------------------------------------------------------
  // Reading the body back

  /** How a POSIX shell reads a word made of single-quoted runs, escaped
      characters and plain characters (sections 2.2.1 and 2.2.2 of the
      Shell Command Language, POSIX.1-2017): None for an unterminated
      quote or a trailing backslash. */
  function ShellUnquote(w: string): Option<string>
    decreases |w|
  {
    if w == [] then Some([])
    else if w[0] == '\'' then
      var k := IndexOfChar(w[1..], '\'');
      if k < 0 then None
      else
        match ShellUnquote(w[k + 2..])
        case None => None
        case Some(rest) => Some(w[1..k + 1] + rest)
    else if w[0] == '\\' then
      if |w| < 2 then None
      else if w[1] == '\n' then ShellUnquote(w[2..])
      else
        match ShellUnquote(w[2..])
        case None => None
        case Some(rest) => Some([w[1]] + rest)
    else
      match ShellUnquote(w[1..])
      case None => None
      case Some(rest) => Some([w[0]] + rest)
  }

  /** A single-quoted run is read verbatim. */
  lemma UnquoteRun(a: string, tail: string)
    requires '\'' !in a && ShellUnquote(tail).Some?
    ensures ShellUnquote("'" + (a + ("'" + tail))) == Some(a + ShellUnquote(tail).value)
  {
    var w := "'" + (a + ("'" + tail));
    assert w[1..] == a + ("'" + tail);
    IndexOfCharAt(a, "'" + tail, '\'');
    assert w[1..|a| + 1] == a;
    assert w[|a| + 2..] == tail;
  }

  /** A backslash makes the next character stand for itself. */
  lemma UnquoteEscaped(c: char, tail: string)
    requires c != '\n' && ShellUnquote(tail).Some?
    ensures ShellUnquote("\\" + ([c] + tail)) == Some([c] + ShellUnquote(tail).value)
  {
    var w := "\\" + ([c] + tail);
    assert w[1] == c && w[2..] == tail;
  }

  lemma QuoteEscapeShape(a: string, e: string)
    ensures "'" + (a + ("'\\''" + e)) + "'" == "'" + (a + ("'" + ("\\" + ("'" + ("'" + e + "'")))))
  {
    assert "'\\''" + e + "'" == "'" + ("\\" + ("'" + ("'" + e + "'")));
    assert "'" + (a + ("'\\''" + e)) + "'" == "'" + (a + ("'\\''" + e + "'"));
  }

  /** The POSIX `-d` argument reads back as the body, whatever it holds. */
  lemma {:induction false} PosixBodyRoundTrip(b: string)
    ensures ShellUnquote("'" + EscapeSingleQuotes(b) + "'") == Some(b)
    decreases |b|
  {
    var i := IndexOfChar(b, '\'');
    IndexOfCharFirst(b, '\'');
    if i < 0 {
      var nil: string := [];
      assert EscapeSingleQuotes(b) == b;
      assert ShellUnquote(nil) == Some(nil);
      UnquoteRun(b, nil);
      assert "'" + b + "'" == "'" + (b + ("'" + nil));
      assert b + nil == b;
    } else {
      var a, t := b[..i], b[i + 1..];
      var e := EscapeSingleQuotes(t);
      assert b == a + ("'" + t);
      ReplaceCharAppend(a, "'" + t, '\'', "'\\''");
      ReplaceCharAppend("'", t, '\'', "'\\''");
      assert ReplaceChar("'", '\'', "'\\''") == "'\\''";
      assert EscapeSingleQuotes(b) == a + ("'\\''" + e);
      QuoteEscapeShape(a, e);
      PosixBodyRoundTrip(t);
      UnquoteEscaped('\'', "'" + e + "'");
      UnquoteRun(a, "\\" + ("'" + ("'" + e + "'")));
    }
  }

  /** Reading back the backslash escapes `\\`, `\"` and `\n`; any other
      character stands for itself. */
  function UnescapeBackslashes(s: string): string
    decreases |s|
  {
    if s == [] then []
    else if s[0] == '\\' && |s| >= 2 && (s[1] == '\\' || s[1] == '"' || s[1] == 'n') then
      [if s[1] == 'n' then '\n' else s[1]] + UnescapeBackslashes(s[2..])
    else [s[0]] + UnescapeBackslashes(s[1..])
  }

  /** What the four passes do to one character. */
  function EscapeChar(c: char): string {
    if c == '\\' then "\\\\"
    else if c == '"' then "\\\""
    else if c == '\n' then "\\n"
    else if c == '\r' then ""
    else [c]
  }

  lemma EscapeCharPasses(c: char)
    ensures EscapePowerShellBody([c]) == EscapeChar(c)
  {
    var s1 := ReplaceChar([c], '\\', "\\\\");
    assert [c][1..] == [];
    assert s1 == if c == '\\' then "\\\\" else [c];
    var s2 := EscapeDoubleQuotes(s1);
    if c == '\\' {
      assert s1 == ['\\'] + ['\\'];
      ReplaceCharAppend(['\\'], ['\\'], '"', "\\\"");
      assert s2 == s1;
      ReplaceCharAppend(['\\'], ['\\'], '\n', "\\n");
      ReplaceCharAppend(['\\'], ['\\'], '\r', "");
    } else {
      assert s2 == if c == '"' then "\\\"" else [c];
      if c == '"' {
        assert s2 == ['\\'] + ['"'];
        ReplaceCharAppend(['\\'], ['"'], '\n', "\\n");
        ReplaceCharAppend(['\\'], ['"'], '\r', "");
      } else if c == '\n' {
        var s3 := ReplaceChar(s2, '\n', "\\n");
        assert s3 == ['\\'] + ['n'];
        ReplaceCharAppend(['\\'], ['n'], '\r', "");
      }
    }
  }

  lemma PowerShellBodyCons(c: char, t: string)
    ensures EscapePowerShellBody([c] + t) == EscapeChar(c) + EscapePowerShellBody(t)
  {
    var s1, t1 := ReplaceChar([c], '\\', "\\\\"), ReplaceChar(t, '\\', "\\\\");
    ReplaceCharAppend([c], t, '\\', "\\\\");
    var s2, t2 := EscapeDoubleQuotes(s1), EscapeDoubleQuotes(t1);
    ReplaceCharAppend(s1, t1, '"', "\\\"");
    var s3, t3 := ReplaceChar(s2, '\n', "\\n"), ReplaceChar(t2, '\n', "\\n");
    ReplaceCharAppend(s2, t2, '\n', "\\n");
    ReplaceCharAppend(s3, t3, '\r', "");
    EscapeCharPasses(c);
  }

  lemma UnescapeCons(c: char, rest: string)
    ensures UnescapeBackslashes(EscapeChar(c) + rest)
      == (if c == '\r' then "" else [c]) + UnescapeBackslashes(rest)
  {
    var e := EscapeChar(c);
    if c == '\\' || c == '"' || c == '\n' {
      assert |e| == 2 && e[0] == '\\';
      assert (e + rest)[0] == '\\' && (e + rest)[1] == e[1];
      assert (e + rest)[2..] == rest;
    } else if c != '\r' {
      assert (e + rest)[0] == c && (e + rest)[1..] == rest;
    } else {
      assert e + rest == rest;
    }
  }

  /** The escaped body holds no raw line feed or carriage return. */
  lemma PowerShellBodySingleLine(b: string)
    ensures '\n' !in EscapePowerShellBody(b) && '\r' !in EscapePowerShellBody(b)
  {
    var s := EscapeDoubleQuotes(ReplaceChar(b, '\\', "\\\\"));
    ReplaceCharKeepsOut(ReplaceChar(s, '\n', "\\n"), '\r', "", '\n');
  }

  /** Undoing the PowerShell escapes gives back the body without its
      carriage returns. */
  lemma {:induction false} PowerShellBodyRoundTrip(b: string)
    ensures UnescapeBackslashes(EscapePowerShellBody(b)) == ReplaceChar(b, '\r', "")
    decreases |b|
  {
    if b != [] {
      var c, t := b[0], b[1..];
      assert b == [c] + t;
      PowerShellBodyCons(c, t);
      PowerShellBodyRoundTrip(t);
      UnescapeCons(c, EscapePowerShellBody(t));
    }
  }
}
