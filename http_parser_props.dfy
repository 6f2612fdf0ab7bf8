/** What the `.http` parser guarantees: the method-line grammar, the shape
    of every request it emits, the default request, the shared document
    variables, and the effect of each kind of line. */
module HttpParserProps {
  import opened Wrappers
  import opened Strings
  import opened Dicts
  import opened Types
  import opened HttpParser

  // ---------------------------------------------------------------------
  // Method lines

  predicate IsUpperWord(m: string) {
    |m| > 0 && forall i | 0 <= i < |m| :: 'A' <= m[i] <= 'Z'
  }

  /** The keyword a method line starts with. */
  lemma MethodLineKeyword(line: string) returns (m: string)
    requires IsMethodLine(line)
    ensures m in Methods && KeywordAt(line, m) && IsUpperWord(m)
    ensures forall i | 0 <= i < |m| :: !IsSpace(line[i]) && line[i] != '@' && line[i] != '#'
  {
    m := if KeywordAt(line, "GET") then "GET" else if KeywordAt(line, "POST") then "POST"
      else if KeywordAt(line, "PUT") then "PUT" else if KeywordAt(line, "DELETE") then "DELETE"
      else if KeywordAt(line, "PATCH") then "PATCH" else if KeywordAt(line, "HEAD") then "HEAD"
      else "OPTIONS";
    assert IsUpperWord(m);
    forall i | 0 <= i < |m|
      ensures !IsSpace(line[i]) && line[i] != '@' && line[i] != '#'
    {
      assert UpperChar(line[..|m|][i]) == m[i];
    }
  }

  /** A method line is never a variable line, a comment or blank. */
  lemma MethodLineShape(line: string)
    requires IsMethodLine(line)
    ensures line != [] && !IsVariableLine(line) && !StartsWith(line, "#") && !StartsWith(line, "//")
  {
    var m := MethodLineKeyword(line);
    assert line[0] != '@' && line[0] != '#';
    assert m[0] != '/';
  }

  /** The method of a method line is one of the seven keywords, upper-cased;
      on a trimmed line the URL is a non-empty token without white space. */
  lemma MethodLineParts(line: string)
    requires IsMethodLine(line)
    ensures ParseMethodLine(line).0 in Methods
    ensures !IsSpace(line[|line| - 1]) ==> ParseMethodLine(line).1 != []
    ensures forall i | 0 <= i < |ParseMethodLine(line).1| :: !IsSpace(ParseMethodLine(line).1[i])
  {
    var m := MethodLineKeyword(line);
    var p := line[..|m|];
    TokenPrefix(line, p);
    assert ToUpper(p) == m;
    SecondToken(line);
    if !IsSpace(line[|line| - 1]) {
      NonBlankTail(line, |m|);
    }
  }

  lemma SecondToken(line: string)
    requires |Token(line)| < |line|
    ensures |SplitWs(line)| > 1
    ensures SplitWs(line)[1] == Token(TrimStart(line[|Token(line)|..]))
  {
  }

  lemma NonBlankTail(line: string, k: nat)
    requires k < |line| && !IsSpace(line[|line| - 1])
    ensures TrimStart(line[k..]) != [] && !IsSpace(TrimStart(line[k..])[0])
    ensures Token(TrimStart(line[k..])) != []
  {
    assert line[k..][|line| - k - 1] == line[|line| - 1];
    assert !IsBlank(line[k..]);
  }

  /** Writing `METHOD url` gives back the method and the URL. */
  lemma MethodLineRoundTrip(m: string, url: string)
    requires m in Methods && url != []
    requires forall i | 0 <= i < |url| :: !IsSpace(url[i])
    ensures IsMethodLine(m + " " + url)
    ensures ParseMethodLine(m + " " + url) == (m, url)
  {
    var line := m + " " + url;
    assert IsUpperWord(m);
    assert line[..|m|] == m;
    assert ToUpper(m) == m;
    assert KeywordAt(line, m);
    TokenPrefix(line, m);
    assert line[|m|..] == " " + url;
    TrimStartPadLeft(url);
    TokenAll(url);
  }

  lemma {:induction false} TokenAll(s: string)
    requires forall i | 0 <= i < |s| :: !IsSpace(s[i])
    ensures Token(s) == s && SplitWs(s) == [s]
  {
    if s != [] {
      TokenAll(s[1..]);
    }
  }

  // ---------------------------------------------------------------------
  // Header and variable lines

  /** Writing `key: value` gives back the key and the value. */
  lemma HeaderLineRoundTrip(key: string, value: string)
    requires IsTrimmed(key) && ':' !in key
    requires IsTrimmed(value)
    ensures ParseHeaderLine(key + ": " + value) == (key, value)
  {
    var line := key + ": " + value;
    var tail := " " + value;
    assert line == key + (":" + tail);
    IndexOfCharAt(key, ":" + tail, ':');
    HeaderParts(line, |key|, key, tail);
    TrimPadLeft(value);
    TrimNoop(key);
  }

  lemma HeaderParts(line: string, c: int, a: string, b: string)
    requires c == IndexOfChar(line, ':') && 0 <= c
    requires line[..c] == a && line[c + 1..] == b
    ensures ParseHeaderLine(line) == (Trim(a), Trim(b))
  {
  }

  /** The trimmed form of a written declaration line. */
  function DeclarationText(name: string, value: string): string {
    "@" + name + " =" + (if value == [] then [] else " " + value)
  }

  lemma DeclarationTrim(name: string, value: string)
    requires name != [] && IsTrimmed(value)
    ensures Trim("@" + name + " = " + value) == DeclarationText(name, value)
  {
    var head := "@" + name + " =";
    if value == [] {
      assert "@" + name + " = " + value == head + " ";
      TrimPadRight(head);
    } else {
      var t := DeclarationText(name, value);
      assert "@" + name + " = " + value == t;
      assert t[|t| - 1] == value[|value| - 1];
      TrimNoop(t);
    }
  }

  lemma DeclarationParse(name: string, value: string)
    requires name != [] && IsTrimmed(name) && '=' !in name && IsTrimmed(value)
    ensures IsVariableLine(DeclarationText(name, value))
    ensures ParseVariable(DeclarationText(name, value)) == (name, Unquote(value))
  {
    var tail := if value == [] then [] else " " + value;
    var t := DeclarationText(name, value);
    assert t == ("@" + name + " ") + ("=" + tail);
    IndexOfCharAt("@" + name + " ", "=" + tail, '=');
    assert t[1..|name| + 2] == name + " ";
    TrimPadRight(name);
    assert t[|name| + 3..] == tail;
    if value != [] {
      TrimPadLeft(value);
    }
  }

  /** Writing `@name = value` gives back the name and the value, provided
      the value is trimmed and not wrapped in quotes. */
  lemma VariableLineRoundTrip(name: string, value: string)
    requires name != [] && IsTrimmed(name) && '=' !in name
    requires IsTrimmed(value) && Unquote(value) == value
    ensures IsVariableLine(Trim("@" + name + " = " + value))
    ensures ParseVariable(Trim("@" + name + " = " + value)) == (name, value)
  {
    DeclarationTrim(name, value);
    DeclarationParse(name, value);
  }

  /** A value written in double or single quotes, `@name = "v"`, declares
      `v` itself: one layer of quotes is stripped, whatever `v` holds. */
  lemma VariableLineQuoted(name: string, v: string, q: char)
    requires name != [] && IsTrimmed(name) && '=' !in name && (q == '"' || q == '\'')
    ensures IsVariableLine(Trim("@" + name + " = " + ([q] + v + [q])))
    ensures ParseVariable(Trim("@" + name + " = " + ([q] + v + [q]))) == (name, v)
  {
    var w := [q] + v + [q];
    assert w[0] == q && w[|w| - 1] == q;
    assert w[1..|w| - 1] == v;
    DeclarationTrim(name, w);
    DeclarationParse(name, w);
  }

  // ---------------------------------------------------------------------
  // One line at a time

  /** A `@name = value` line only declares a variable, wherever it occurs:
      it never becomes a header or a body line. */
  lemma VariableLineOnlyDeclares(host: Host, st: ParserState, raw: string)
    requires IsVariableLine(Trim(raw))
    ensures var (name, value) := ParseVariable(Trim(raw));
      Step(host, st, raw) == st.(globals := if name != [] then Put(st.globals, name, value) else st.globals)
  {
  }

  /** A `#` comment inside a request is dropped. */
  lemma CommentInRequestDropped(host: Host, st: ParserState, raw: string)
    requires st.current.Some? && StartsWith(Trim(raw), "#") && !StartsWith(Trim(raw), "###")
    requires !IsVariableLine(Trim(raw))
    ensures Step(host, st, raw) == st
  {
  }

  /** A `###` separator opens a pre-auth request exactly when its text is
      `@PRE-AUTH`, compared case-sensitively. */
  lemma SeparatorPreAuth(host: Host, st: ParserState, raw: string)
    requires StartsWith(Trim(raw), "###") && !IsVariableLine(Trim(raw))
    ensures var d := Step(host, st, raw).current;
      d.Some? && d.value.url == [] && !Step(host, st, raw).inBody
      && (d.value.isPreAuthRequest <==> CommentText(Trim(raw)) == "@PRE-AUTH")
      && (d.value.isPreAuthRequest ==> d.value.preAuth == Some(PreAuthConfig(true, "", "")))
  {
  }

  /** Only the first method line of a block sets method, URL and (when the
      block has none) name; later method lines change nothing. */
  lemma MethodLineStep(host: Host, st: ParserState, raw: string)
    requires IsMethodLine(Trim(raw))
    ensures st.current.Some? && st.current.value.url != [] ==> Step(host, st, raw) == st
    ensures st.current.None? || st.current.value.url == [] ==>
      Step(host, st, raw).current.Some? &&
      var d := Step(host, st, raw).current.value;
      var (m, url) := ParseMethodLine(Trim(raw));
      d.httpMethod == m && m in Methods && d.url == url && url != []
      && d.name == (if st.current.Some? && st.current.value.name != [] then st.current.value.name
                    else if st.current.None? && Join(st.pending, " ") != [] then Join(st.pending, " ")
                    else NameFromUrl(host, url, m))
  {
    var line := Trim(raw);
    MethodLineShape(line);
    MethodLineParts(line);
    assert Step(host, st, raw) == MethodLine(host, st, line);
  }

  /** Before the body, a line holding `:` that is not a comment is a header:
      stored (overwriting a repeated key) when key and value are non-empty. */
  lemma HeaderLineStep(host: Host, st: ParserState, raw: string)
    requires st.current.Some? && !st.inBody
    requires var line := Trim(raw);
      ':' in line && !IsVariableLine(line) && !StartsWith(line, "#") && !StartsWith(line, "//")
      && !IsMethodLine(line)
    ensures var (k, v) := ParseHeaderLine(Trim(raw));
      Step(host, st, raw) == st.(current := Some(st.current.value.(headers :=
        if k != [] && v != [] then Put(st.current.value.headers, k, v) else st.current.value.headers)))
  {
  }

  /** In the body every line that is not a variable, a comment or a method
      line is kept as written, untrimmed. */
  lemma BodyLineStep(host: Host, st: ParserState, raw: string)
    requires st.current.Some? && st.inBody
    requires var line := Trim(raw);
      !IsVariableLine(line) && !StartsWith(line, "#") && !IsMethodLine(line)
    ensures Step(host, st, raw) == st.(bodyLines := st.bodyLines + [raw])
  {
  }

  /** The first blank line after the URL starts the body. */
  lemma BodyStartStep(host: Host, st: ParserState, raw: string)
    requires st.current.Some? && st.current.value.url != [] && !st.inBody && IsBlank(raw)
    ensures Step(host, st, raw) == st.(inBody := true)
  {
    assert Trim(raw) == [];
  }

  // ---------------------------------------------------------------------
  // Whole documents

  /** What every emitted request looks like. */
  predicate WellFormed(r: Request) {
    r.url != [] && r.httpMethod in Methods && r.name != []
    && (r.isPreAuthRequest <==> r.preAuth.Some?)
    && (r.preAuth.Some? ==> r.preAuth.value == PreAuthConfig(true, "", ""))
  }

  predicate GoodDraft(d: Request) {
    d.httpMethod in Methods && d.bodyType == Text
    && (d.url != [] ==> d.name != [])
    && (d.isPreAuthRequest <==> d.preAuth.Some?)
    && (d.preAuth.Some? ==> d.preAuth.value == PreAuthConfig(true, "", ""))
  }

  /** The parser state invariant. */
  predicate Good(st: ParserState) {
    (forall i | 0 <= i < |st.requests| :: WellFormed(st.requests[i]) && st.requests[i].bodyType == Text)
    && (st.current.Some? ==> GoodDraft(st.current.value))
    && (st.current.None? ==> st.bodyLines == [])
  }

  lemma StepGood(host: Host, st: ParserState, raw: string)
    requires Good(st)
    ensures Good(Step(host, st, raw))
  {
    var line := Trim(raw);
    if line == [] && st.current.None? {
    } else if IsVariableLine(line) {
      assert Step(host, st, raw) == DeclareLine(st, line);
    } else if StartsWith(line, "#") {
      assert Step(host, st, raw) == CommentLine(host, st, line);
      CommentLineGood(host, st, line);
    } else if IsMethodLine(line) {
      assert Step(host, st, raw) == MethodLine(host, st, line);
      MethodLineGood(host, st, line);
    } else if st.current.None? {
    } else {
      assert Step(host, st, raw) == RequestLine(st, raw, line);
      RequestLineGood(st, raw, line);
    }
  }

  lemma CommentLineGood(host: Host, st: ParserState, line: string)
    requires Good(st)
    ensures Good(CommentLine(host, st, line))
  {
    FlushedGood(host, st);
  }

  lemma MethodLineGood(host: Host, st: ParserState, line: string)
    requires Good(st) && IsMethodLine(line)
    ensures Good(MethodLine(host, st, line))
  {
    MethodLineParts(line);
    var d := if st.current.None? then NewDraft(st.nextId, Join(st.pending, " ")) else st.current.value;
    assert MethodLine(host, st, line).current == Some(ApplyMethodLine(host, d, line));
    assert GoodDraft(ApplyMethodLine(host, d, line));
  }

  lemma RequestLineGood(st: ParserState, raw: string, line: string)
    requires Good(st) && st.current.Some?
    ensures Good(RequestLine(st, raw, line))
  {
  }

  lemma FlushedGood(host: Host, st: ParserState)
    requires Good(st)
    ensures forall i | 0 <= i < |Flushed(host, st)| ::
      WellFormed(Flushed(host, st)[i]) && Flushed(host, st)[i].bodyType == Text
  {
    if st.current.Some? && st.current.value.url != [] {
      var r := Finalize(host, WithBody(st.current.value, st.bodyLines), st.globals);
      assert WellFormed(r) && r.bodyType == Text;
    }
  }

  lemma {:induction false} RunGood(host: Host, lines: seq<string>)
    ensures Good(Run(host, lines))
    decreases |lines|
  {
    if lines != [] {
      RunGood(host, lines[..|lines| - 1]);
      StepGood(host, Run(host, lines[..|lines| - 1]), lines[|lines| - 1]);
    }
  }

  /** Some block has been given a URL. */
  predicate Opened(st: ParserState) {
    |st.requests| > 0 || (st.current.Some? && st.current.value.url != [])
  }

  /** Some line of the document is a method line. */
  predicate HasMethodLine(lines: seq<string>)
    decreases |lines|
  {
    lines != [] && (HasMethodLine(lines[..|lines| - 1]) || IsMethodLine(Trim(lines[|lines| - 1])))
  }

  lemma StepOpened(host: Host, st: ParserState, raw: string)
    ensures Opened(Step(host, st, raw)) <==> Opened(st) || IsMethodLine(Trim(raw))
  {
    var line := Trim(raw);
    if line == [] && st.current.None? {
      assert !IsMethodLine(line);
    } else if IsVariableLine(line) {
      NotMethodLine(line);
      StepDeclare(host, st, raw);
    } else if StartsWith(line, "#") {
      NotMethodLine(line);
      StepComment(host, st, raw);
      CommentLineOpened(host, st, line);
    } else if IsMethodLine(line) {
      StepMethod(host, st, raw);
      MethodLineOpened(host, st, line);
    } else if st.current.None? {
    } else {
      StepRequest(host, st, raw);
      RequestLineKeepsUrl(st, raw, line);
    }
  }

  lemma StepDeclare(host: Host, st: ParserState, raw: string)
    requires IsVariableLine(Trim(raw))
    ensures Step(host, st, raw) == DeclareLine(st, Trim(raw))
  {
  }

  lemma StepComment(host: Host, st: ParserState, raw: string)
    requires !IsVariableLine(Trim(raw)) && StartsWith(Trim(raw), "#")
    ensures Step(host, st, raw) == CommentLine(host, st, Trim(raw))
  {
  }

  lemma StepMethod(host: Host, st: ParserState, raw: string)
    requires IsMethodLine(Trim(raw))
    ensures Step(host, st, raw) == MethodLine(host, st, Trim(raw))
  {
    MethodLineShape(Trim(raw));
  }

  lemma StepRequest(host: Host, st: ParserState, raw: string)
    requires var line := Trim(raw);
      st.current.Some? && !IsVariableLine(line) && !StartsWith(line, "#") && !IsMethodLine(line)
    ensures Step(host, st, raw) == RequestLine(st, raw, Trim(raw))
  {
  }

  lemma CommentLineOpened(host: Host, st: ParserState, line: string)
    ensures Opened(CommentLine(host, st, line)) <==> Opened(st)
  {
  }

  lemma MethodLineOpened(host: Host, st: ParserState, line: string)
    requires IsMethodLine(line) && IsTrimmed(line)
    ensures Opened(MethodLine(host, st, line))
  {
    MethodLineParts(line);
    MethodLineShape(line);
    var d := if st.current.None? then NewDraft(st.nextId, Join(st.pending, " ")) else st.current.value;
    assert MethodLine(host, st, line).current == Some(ApplyMethodLine(host, d, line));
  }

  lemma NotMethodLine(line: string)
    requires IsVariableLine(line) || StartsWith(line, "#")
    ensures !IsMethodLine(line)
  {
    if IsMethodLine(line) {
      MethodLineShape(line);
    }
  }

  lemma RequestLineKeepsUrl(st: ParserState, raw: string, line: string)
    requires st.current.Some?
    ensures RequestLine(st, raw, line).requests == st.requests
    ensures RequestLine(st, raw, line).current.Some?
    ensures RequestLine(st, raw, line).current.value.url == st.current.value.url
  {
  }

  lemma {:induction false} RunOpened(host: Host, lines: seq<string>)
    ensures Opened(Run(host, lines)) <==> HasMethodLine(lines)
    decreases |lines|
  {
    if lines != [] {
      var init := lines[..|lines| - 1];
      RunOpened(host, init);
      RunSnoc(host, lines);
      StepOpened(host, Run(host, init), lines[|lines| - 1]);
    }
  }

  lemma RunSnoc(host: Host, lines: seq<string>)
    requires lines != []
    ensures Run(host, lines) == Step(host, Run(host, lines[..|lines| - 1]), lines[|lines| - 1])
  {
  }

  /** The variable declarations of a document, in order. */
  function Declarations(lines: seq<string>): Dict
    decreases |lines|
  {
    if lines == [] then []
    else
      var line := Trim(lines[|lines| - 1]);
      Declarations(lines[..|lines| - 1])
        + (if IsVariableLine(line) && ParseVariable(line).0 != [] then [ParseVariable(line)] else [])
  }

  /** The document variables are all the declarations, written in order, so
      a later declaration of a name overwrites an earlier one. */
  lemma {:induction false} RunGlobals(host: Host, lines: seq<string>)
    ensures Run(host, lines).globals == Assign([], Declarations(lines))
    decreases |lines|
  {
    if lines != [] {
      var init := lines[..|lines| - 1];
      var line := Trim(lines[|lines| - 1]);
      RunGlobals(host, init);
      RunSnoc(host, lines);
      StepGlobals(host, Run(host, init), lines[|lines| - 1]);
      if IsVariableLine(line) && ParseVariable(line).0 != [] {
        var (name, value) := ParseVariable(line);
        assert Declarations(lines) == Declarations(init) + [(name, value)];
        AssignSnoc([], Declarations(init), name, value);
      } else {
        assert Declarations(lines) == Declarations(init) + [];
        assert Declarations(init) + [] == Declarations(init);
      }
    }
  }

  /** Only a declaration with a name writes the document variables. */
  lemma StepGlobals(host: Host, st: ParserState, raw: string)
    ensures var line := Trim(raw);
      Step(host, st, raw).globals
      == if IsVariableLine(line) && ParseVariable(line).0 != [] then
           Put(st.globals, ParseVariable(line).0, ParseVariable(line).1)
         else st.globals
  {
    var line := Trim(raw);
    if line == [] && st.current.None? {
      assert !IsVariableLine(line);
    } else if IsVariableLine(line) {
      StepDeclare(host, st, raw);
    } else if StartsWith(line, "#") {
      StepComment(host, st, raw);
    } else if IsMethodLine(line) {
      StepMethod(host, st, raw);
    } else if st.current.Some? {
      StepRequest(host, st, raw);
    }
  }

  /** parse never returns an empty list; every request it returns has a
      URL, one of the seven methods and a name; only the last request has
      its body type sniffed, every other one is "text". */
  lemma DocumentWellFormed(host: Host, content: string)
    ensures var rs := Document(host, content);
      |rs| > 0
      && (forall i | 0 <= i < |rs| :: WellFormed(rs[i]))
      && (forall i | 0 <= i < |rs| - 1 :: rs[i].bodyType == Text)
  {
    RunGood(host, Split(content, '\n'));
    GoodOutcome(host, Run(host, Split(content, '\n')));
  }

  lemma GoodOutcome(host: Host, st: ParserState)
    requires Good(st)
    ensures var rs := Outcome(host, st);
      |rs| > 0
      && (forall i | 0 <= i < |rs| :: WellFormed(rs[i]))
      && (forall i | 0 <= i < |rs| - 1 :: rs[i].bodyType == Text)
  {
    if st.current.Some? && st.current.value.url != [] {
      var d := WithBody(st.current.value, st.bodyLines);
      var last := Finalize(host, d.(bodyType := DetectBodyType(host, d.headers, d.body)), st.globals);
      assert WellFormed(last);
    }
    var rs := Outcome(host, st);
    assert forall i | 0 <= i < |rs| :: WellFormed(rs[i]);
  }

  /** With no method line the result is exactly the default request. */
  lemma DocumentDefault(host: Host, content: string)
    requires !HasMethodLine(Split(content, '\n'))
    ensures Document(host, content) == [EmptyRequest(Run(host, Split(content, '\n')).nextId)]
    ensures Document(host, content)[0].name == "New Request"
    ensures Document(host, content)[0].url == "https://api.example.com"
  {
    RunOpened(host, Split(content, '\n'));
    ClosedOutcome(host, Run(host, Split(content, '\n')));
  }

  lemma ClosedOutcome(host: Host, st: ParserState)
    requires !Opened(st)
    ensures Outcome(host, st) == [EmptyRequest(st.nextId)]
  {
    assert Emitted(host, st) == [];
  }

  /** With a method line, every request holds the variables of the whole
      document, including declarations after it. */
  lemma DocumentVariables(host: Host, content: string)
    requires HasMethodLine(Split(content, '\n'))
    ensures forall i | 0 <= i < |Document(host, content)| ::
      Document(host, content)[i].variables == Assign([], Declarations(Split(content, '\n')))
  {
    RunOpened(host, Split(content, '\n'));
    RunGlobals(host, Split(content, '\n'));
    OpenedOutcome(host, Run(host, Split(content, '\n')));
  }

  lemma OpenedOutcome(host: Host, st: ParserState)
    requires Opened(st)
    ensures forall i | 0 <= i < |Outcome(host, st)| :: Outcome(host, st)[i].variables == st.globals
  {
    assert |Emitted(host, st)| > 0;
  }
}
