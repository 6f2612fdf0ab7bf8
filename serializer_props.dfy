/** What serialize promises, stated against the parser: the variable block
    is there exactly when some request has a variable, later requests'
    variables win, and the variable lines, the headings and the header
    lines it writes are read back by the parser as what was written. */
module SerializerProps {
  import opened Wrappers
  import opened Strings
  import opened Dicts
  import opened Types
  import opened HttpParser
  import opened HttpParserProps
  import opened Serializer

  // ---------------------------------------------------------------------
  // The variable block

  lemma {:induction false} LinesHead(ls: seq<string>)
    requires ls != [] && ls[0] != []
    ensures |Lines(ls)| > 0 && Lines(ls)[0] == ls[0][0]
    decreases |ls|
  {
    if |ls| > 1 {
      LinesHead(ls[..|ls| - 1]);
    }
  }

  lemma {:induction false} BlocksHead(rs: seq<Request>)
    ensures rs == [] <==> Blocks(rs) == []
    ensures rs != [] ==> Blocks(rs)[0] == '#'
    decreases |rs|
  {
    if rs != [] {
      BlocksHead(rs[..|rs| - 1]);
      var r := rs[|rs| - 1];
      LinesHead([Heading(r), r.httpMethod + " " + r.url] + HeaderLineList(r.headers));
    }
  }

  /** The document starts with a variable line exactly when the merged
      variables are not empty; otherwise it is just the request blocks. */
  lemma SerializedVariableBlock(rs: seq<Request>)
    ensures StartsWith(Serialized(rs), "@") <==> MergedVariables(rs) != []
    ensures MergedVariables(rs) == [] ==> Serialized(rs) == Blocks(rs)
  {
    var vars := MergedVariables(rs);
    var s := Serialized(rs);
    BlocksHead(rs);
    if vars != [] {
      LinesHead(VariableLineList(vars));
      assert s[0] == '@';
      assert s[..1] == "@";
    } else {
      assert s == Blocks(rs);
      if s != [] {
        assert s[..1][0] == '#';
      }
    }
  }

  /** The value of `k` in the last request whose variables hold it. */
  function LastValue(rs: seq<Request>, k: string): Option<string>
    decreases |rs|
  {
    if rs == [] then None
    else if k in Keys(rs[|rs| - 1].variables) then Get(rs[|rs| - 1].variables, k)
    else LastValue(rs[..|rs| - 1], k)
  }

  /** Merging the requests' variables: a later request overrides an earlier
      one, and a name no request holds is absent. */
  lemma {:induction false} MergedVariablesLastWins(rs: seq<Request>, k: string)
    requires forall i | 0 <= i < |rs| :: Unique(rs[i].variables)
    ensures Get(MergedVariables(rs), k) == LastValue(rs, k)
    decreases |rs|
  {
    if rs != [] {
      MergedVariablesLastWins(rs[..|rs| - 1], k);
      AssignGet(MergedVariables(rs[..|rs| - 1]), rs[|rs| - 1].variables, k);
    }
  }

  /** A variable the parser reads back as written: a non-empty trimmed name
      without `=`, and a trimmed value that is not wrapped in quotes. */
  predicate Declarable(name: string, value: string) {
    name != [] && IsTrimmed(name) && '=' !in name && '\n' !in name
    && IsTrimmed(value) && Unquote(value) == value && '\n' !in value
  }

  lemma {:induction false} DeclarationsOfVariableLines(vars: Dict)
    requires forall i | 0 <= i < |vars| :: Declarable(vars[i].0, vars[i].1)
    ensures Declarations(VariableLineList(vars)) == vars
    decreases |vars|
  {
    if vars != [] {
      var n := |vars| - 1;
      assert vars == vars[..n] + [vars[n]];
      DeclarationsOfVariableLines(vars[..n]);
      LastVariableLine(vars);
    }
  }

  lemma LastVariableLine(vars: Dict)
    requires vars != [] && Declarable(vars[|vars| - 1].0, vars[|vars| - 1].1)
    ensures var n := |vars| - 1;
      Declarations(VariableLineList(vars)) == Declarations(VariableLineList(vars[..n])) + [vars[n]]
  {
    var n := |vars| - 1;
    var ls := VariableLineList(vars);
    assert ls[..n] == VariableLineList(vars[..n]);
    VariableLineRoundTrip(vars[n].0, vars[n].1);
    assert ls[n] == "@" + vars[n].0 + " = " + vars[n].1;
  }

  lemma {:induction false} PutNew(d: Dict, k: string, v: string)
    requires k !in Keys(d)
    ensures Put(d, k, v) == d + [(k, v)]
  {
    if d != [] {
      PutNew(d[1..], k, v);
    }
  }

  /** Assigning an object with new, distinct keys appends its entries. */
  lemma {:induction false} AssignFresh(d: Dict, e: Dict)
    requires Unique(d + e)
    ensures Assign(d, e) == d + e
    decreases |e|
  {
    if e != [] {
      UniqueKeys(d + e);
      forall i | 0 <= i < |d| ensures Keys(d)[i] != e[0].0 {
        KeysAt(d, i);
        assert (d + e)[i] == d[i] && (d + e)[|d|] == e[0];
      }
      PutNew(d, e[0].0, e[0].1);
      assert d + [e[0]] + e[1..] == d + e;
      AssignFresh(d + [e[0]], e[1..]);
    }
  }

  /** Parsing the variable lines serialize writes gives back the variables. */
  lemma VariableLinesRoundTrip(host: Host, vars: Dict)
    requires Unique(vars)
    requires forall i | 0 <= i < |vars| :: Declarable(vars[i].0, vars[i].1)
    ensures Run(host, VariableLineList(vars)).globals == vars
  {
    RunGlobals(host, VariableLineList(vars));
    DeclarationsOfVariableLines(vars);
    assert [] + vars == vars;
    AssignFresh([], vars);
  }

  /** A text written as lines splits back into those lines. */
  lemma {:induction false} SplitLines(ls: seq<string>, rest: string)
    requires forall i | 0 <= i < |ls| :: '\n' !in ls[i]
    ensures Split(Lines(ls) + rest, '\n') == ls + Split(rest, '\n')
    decreases |ls|
  {
    if ls != [] {
      var a, tail := ls[0], ls[1..];
      var t := Lines(tail) + rest;
      var x := Split(rest, '\n');
      LinesCons(ls);
      Assoc(a, "\n", Lines(tail), rest);
      Assoc3("\n", Lines(tail), rest);
      SplitCons(a, t);
      SplitLines(tail, rest);
      calc {
        Split(Lines(ls) + rest, '\n');
        Split(a + ("\n" + t), '\n');
        [a] + Split(t, '\n');
        [a] + (tail + x);
        { assert [a] + (tail + x) == ([a] + tail) + x; assert [a] + tail == ls; }
        ls + x;
      }
    } else {
      assert Lines(ls) + rest == rest;
    }
  }

  lemma SplitCons(a: string, t: string)
    requires '\n' !in a
    ensures Split(a + ("\n" + t), '\n') == [a] + Split(t, '\n')
  {
    var s := a + ("\n" + t);
    IndexOfCharAt(a, "\n" + t, '\n');
    assert s[..|a|] == a;
    assert s[|a| + 1..] == t;
  }

  lemma {:induction false} LinesCons(ls: seq<string>)
    requires ls != []
    ensures Lines(ls) == ls[0] + "\n" + Lines(ls[1..])
    decreases |ls|
  {
    if |ls| > 1 {
      var n := |ls| - 1;
      LinesCons(ls[..n]);
      assert ls[..n][1..] == ls[1..][..n - 1];
      assert ls[..n][0] == ls[0];
    }
  }

  lemma VariableLinesSingle(vars: Dict)
    requires forall i | 0 <= i < |vars| :: Declarable(vars[i].0, vars[i].1)
    ensures var ls := VariableLineList(vars);
      forall i | 0 <= i < |ls| :: '\n' !in ls[i]
  {
    var ls := VariableLineList(vars);
    forall i | 0 <= i < |ls| ensures '\n' !in ls[i] {
      assert ls[i] == "@" + vars[i].0 + " = " + vars[i].1;
    }
  }

  /** The lines of a document with variables: the variable lines first. */
  lemma SerializedLines(rs: seq<Request>)
    requires var vars := MergedVariables(rs);
      vars != [] && forall i | 0 <= i < |vars| :: Declarable(vars[i].0, vars[i].1)
    ensures var ls := VariableLineList(MergedVariables(rs));
      Split(Serialized(rs), '\n') == ls + Split("\n" + Blocks(rs), '\n')
  {
    var vars := MergedVariables(rs);
    var ls := VariableLineList(vars);
    Assoc3(Lines(ls), "\n", Blocks(rs));
    assert Serialized(rs) == Lines(ls) + ("\n" + Blocks(rs));
    VariableLinesSingle(vars);
    SplitLines(ls, "\n" + Blocks(rs));
  }

  /** The document serialize writes opens with the variable lines of the
      merged variables, which the parser reads back as those variables. */
  lemma SerializedVariablesRoundTrip(host: Host, rs: seq<Request>)
    requires var vars := MergedVariables(rs);
      vars != [] && Unique(vars)
      && forall i | 0 <= i < |vars| :: Declarable(vars[i].0, vars[i].1)
    ensures var vars := MergedVariables(rs);
      var lines := Split(Serialized(rs), '\n');
      |vars| <= |lines| && lines[..|vars|] == VariableLineList(vars)
      && Run(host, lines[..|vars|]).globals == vars
  {
    var vars := MergedVariables(rs);
    var ls := VariableLineList(vars);
    SerializedLines(rs);
    var lines := Split(Serialized(rs), '\n');
    assert lines[..|vars|] == ls;
    VariableLinesRoundTrip(host, vars);
  }

  // ---------------------------------------------------------------------
  // Headings

  lemma HashesDropped(t: string)
    requires t != [] && t[0] != '#'
    ensures DropHashes("###" + t) == t
  {
    assert ("###" + t)[1..] == "##" + t;
    assert ("##" + t)[1..] == "#" + t;
    assert ("#" + t)[1..] == t;
    assert DropHashes("#" + t) == t;
    assert DropHashes("##" + t) == t;
  }

  /** What the parser sees in a `### text` line. */
  lemma HeadingLine(text: string)
    requires text != [] && IsTrimmed(text)
    ensures var line := "### " + text;
      Trim(line) == line && StartsWith(line, "#") && StartsWith(line, "###")
      && !IsVariableLine(line) && CommentText(line) == text
  {
    var tail := " " + text;
    var line := "###" + tail;
    assert line[..3] == "###";
    assert line[..1] == "#";
    assert line == "### " + text;
    assert line[0] == '#' && line[|line| - 1] == text[|text| - 1];
    TrimNoop(line);
    HashesDropped(tail);
    TrimPadLeft(text);
  }

  /** A `###` line opens a request named by its text, a pre-auth one
      exactly when the text is `@PRE-AUTH`. */
  lemma HeadingStep(host: Host, st: ParserState, line: string)
    requires Trim(line) == line && StartsWith(line, "###") && !IsVariableLine(line)
    requires CommentText(line) != []
    ensures var d := Step(host, st, line).current;
      d.Some? && d.value.name == CommentText(line)
      && (d.value.isPreAuthRequest <==> CommentText(line) == "@PRE-AUTH")
      && (d.value.isPreAuthRequest ==> d.value.preAuth == Some(PreAuthConfig(true, "", "")))
  {
    assert line[..1] == line[..3][..1];
    StepComment(host, st, line);
  }

  /** The heading of a pre-auth request parses back as a pre-auth request. */
  lemma PreAuthHeadingRoundTrip(host: Host, st: ParserState, r: Request)
    requires IsPreAuthMarked(r)
    ensures var d := Step(host, st, Heading(r)).current;
      d.Some? && d.value.isPreAuthRequest && d.value.preAuth == Some(PreAuthConfig(true, "", ""))
  {
    var text := "@PRE-AUTH";
    assert Heading(r) == "### " + text;
    HeadingLine(text);
    HeadingStep(host, st, Heading(r));
  }

  /** Any other heading gives back the request's name, and marks a
      pre-auth request only for the name `@PRE-AUTH` itself. */
  lemma NameHeadingRoundTrip(host: Host, st: ParserState, r: Request)
    requires !IsPreAuthMarked(r) && r.name != [] && IsTrimmed(r.name)
    ensures var d := Step(host, st, Heading(r)).current;
      d.Some? && d.value.name == r.name && (d.value.isPreAuthRequest <==> r.name == "@PRE-AUTH")
  {
    var line := "### " + r.name;
    assert Heading(r) == line;
    HeadingLine(r.name);
    HeadingStep(host, st, line);
  }

  // ---------------------------------------------------------------------
  // Header lines

  /** A header name as HTTP defines it: a token of letters, digits, `_`
      and `-`. */
  predicate IsHeaderName(k: string) {
    |k| > 0 && forall i | 0 <= i < |k| :: IsWordChar(k[i]) || k[i] == '-'
  }

  /** The parser stepping over lines from a given state. */
  function Steps(host: Host, st: ParserState, lines: seq<string>): ParserState
    decreases |lines|
  {
    if lines == [] then st else Step(host, Steps(host, st, lines[..|lines| - 1]), lines[|lines| - 1])
  }

  /** A line whose first `:` comes before any white space is not a method
      line: a method keyword is letters followed by white space. */
  lemma ColonBeforeSpace(line: string, p: int)
    requires 0 <= p < |line| && line[p] == ':'
    requires forall i | 0 <= i < p :: !IsSpace(line[i])
    ensures !IsMethodLine(line)
  {
    if IsMethodLine(line) {
      var m := MethodLineKeyword(line);
      assert false;
    }
  }

  /** A written header line is trimmed and read as a header. */
  lemma HeaderLineIsHeader(k: string, v: string)
    requires IsHeaderName(k) && v != [] && IsTrimmed(v)
    ensures var line := k + ": " + v;
      Trim(line) == line && ':' in line && !IsVariableLine(line) && !StartsWith(line, "#")
      && !StartsWith(line, "//") && !IsMethodLine(line)
      && ParseHeaderLine(line) == (k, v)
  {
    var line := k + ": " + v;
    assert line[0] == k[0] && line[|line| - 1] == v[|v| - 1];
    assert IsWordChar(k[0]) || k[0] == '-';
    assert line[|k|] == ':';
    assert !IsVariableLine(line);
    assert !StartsWith(line, "#") && !StartsWith(line, "//") by {
      assert line[..1][0] == line[0];
    }
    forall i | 0 <= i < |k| ensures !IsSpace(line[i]) {
      assert line[i] == k[i];
    }
    ColonBeforeSpace(line, |k|);
    assert IsTrimmed(k) && ':' !in k;
    HeaderLineRoundTrip(k, v);
    TrimNoop(line);
  }

  /** Parsing the header lines serialize writes, inside a request before its
      body, assigns exactly the written headers, in order. */
  lemma {:induction false} HeaderLinesRoundTrip(host: Host, st: ParserState, h: Dict)
    requires st.current.Some? && !st.inBody
    requires forall i | 0 <= i < |h| :: h[i].0 != [] && h[i].1 != [] ==>
      IsHeaderName(h[i].0) && IsTrimmed(h[i].1)
    ensures Steps(host, st, HeaderLineList(h))
      == st.(current := Some(st.current.value.(headers := Assign(st.current.value.headers, Filled(h)))))
    decreases |h|
  {
    if h != [] {
      var n := |h| - 1;
      var (k, v) := h[n];
      HeaderLinesRoundTrip(host, st, h[..n]);
      var before := Steps(host, st, HeaderLineList(h[..n]));
      if k != [] && v != [] {
        var line := k + ": " + v;
        assert HeaderLineList(h) == HeaderLineList(h[..n]) + [line];
        assert HeaderLineList(h)[..|HeaderLineList(h)| - 1] == HeaderLineList(h[..n]);
        HeaderLineIsHeader(k, v);
        HeaderLineStep(host, before, line);
        AssignSnoc(st.current.value.headers, Filled(h[..n]), k, v);
      } else {
        assert HeaderLineList(h) == HeaderLineList(h[..n]);
        assert Filled(h) == Filled(h[..n]);
      }
    }
  }
}
