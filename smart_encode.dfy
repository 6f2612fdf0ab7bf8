/** smartEncodeURIComponent of the webview: a query key or value is
    percent-encoded as encodeURIComponent does, except for its
    `{{ name }}` placeholders, which are to come through verbatim. The
    source shields each placeholder behind a `__VAR_i__` marker, encodes,
    and puts the placeholders back by replacing the first occurrence of
    each marker; `SmartEncodeAsWritten` models that, and `SmartEncode`
    the result it is meant to have. */
module SmartEncoding {
  import opened Wrappers
  import opened Strings
  import opened Uri
  import opened Placeholders
  import opened WebviewPatterns

  // -------------------------------------------------------------------
  // The intended encoder

  /** Each literal run between placeholders encoded, each placeholder
      copied; the empty text (falsy) gives the empty text. */
  function SmartEncode(s: string): string {
    if s == [] then [] else Render(Segments(AnyVariable, s))
  }

  lemma {:induction false} RenderAsText(ps: seq<Piece>)
    ensures Render(ps) == Text(EncodeLiterals(ps))
  {
    if ps != [] {
      var qs := EncodeLiterals(ps);
      assert qs[1..] == EncodeLiterals(ps[1..]);
      RenderAsText(ps[1..]);
    }
  }

  /** The output is the input's segments with their literal runs encoded;
      decoding those runs gives the input back. */
  lemma SmartEncodeRestores(s: string)
    ensures SmartEncode(s) == Text(EncodeLiterals(Segments(AnyVariable, s)))
    ensures Unrender(EncodeLiterals(Segments(AnyVariable, s))) == Some(s)
  {
    var ps := Segments(AnyVariable, s);
    RenderAsText(ps);
    UnrenderEncoded(ps);
    TextSegments(AnyVariable, s);
    if s == [] {
      NoMatch(AnyVariable, s, t => t);
      assert Text(EncodeLiterals([Literal([])])) == Encode([]) + Text([]);
    }
  }

  /** Every placeholder of the input is in the output, verbatim and in the
      same order. */
  lemma SmartEncodeKeepsPlaceholders(s: string)
    ensures PlaceholderTexts(EncodeLiterals(Segments(AnyVariable, s))) == Matches(AnyVariable, s)
  {
    PlaceholdersEncoded(Segments(AnyVariable, s));
  }

  /** Without a placeholder the result is plain encodeURIComponent. */
  lemma SmartEncodePlain(s: string)
    requires Matches(AnyVariable, s) == []
    ensures SmartEncode(s) == Encode(s)
  {
    MatchesEmpty(AnyVariable, s);
    NoMatch(AnyVariable, s, t => t);
    assert Render([Literal(s)]) == Encode(s) + Render([]);
  }

  /** Neither `&`, `=` nor `?` occurs: what a query string is split at. */
  predicate NoSeparator(t: string) {
    '&' !in t && '=' !in t && '?' !in t
  }

  /** The characters a `{{\s*\w+\s*}}` match is made of. */
  predicate IsVariableChar(c: char) {
    c == '{' || c == '}' || IsSpace(c) || IsWordChar(c)
  }

  lemma {:induction false} WordEndChars(s: string, j: nat)
    requires j <= |s|
    ensures forall k | j <= k < WordEnd(s, j) :: IsWordChar(s[k])
    decreases |s| - j
  {
    if j < |s| && IsWordChar(s[j]) {
      WordEndChars(s, j + 1);
    }
  }

  /** Every character of `t` is a placeholder character. */
  predicate VariableText(t: string) {
    forall k | 0 <= k < |t| :: IsVariableChar(t[k])
  }

  lemma AnyVariableChars(s: string, i: nat)
    requires i <= |s| && AnyVariableEnd(s, i).Some?
    ensures forall k | i <= k < AnyVariableEnd(s, i).value :: IsVariableChar(s[k])
  {
    WordEndChars(s, SkipSpace(s, i + 2));
  }

  /** Every placeholder piece is made of placeholder characters. */
  lemma {:induction false} SegmentsChars(s: string, i: nat)
    requires i <= |s|
    ensures forall t | t in PlaceholderTexts(SegmentsFrom(AnyVariable, s, i)) :: VariableText(t)
    decreases |s| - i
  {
    match Search(AnyVariable, s, i)
    case None =>
    case Some((a, b)) =>
      SegmentsChars(s, b);
      SearchLeftmost(AnyVariable, s, i);
      AnyVariableChars(s, a);
      assert VariableText(s[a..b]);
      SegmentsFront(s[i..a], s[a..b], SegmentsFrom(AnyVariable, s, b));
  }

  lemma EncodeNoSeparator(x: string)
    ensures NoSeparator(Encode(x))
  {
    EncodeAlphabet(x);
  }

  lemma {:induction false} RenderNoSeparator(ps: seq<Piece>)
    requires forall t | t in PlaceholderTexts(ps) :: NoSeparator(t)
    ensures NoSeparator(Render(ps))
  {
    if ps != [] {
      var rest := PlaceholderTexts(ps[1..]);
      assert PlaceholderTexts(ps) == (if ps[0].Placeholder? then [ps[0].text] else []) + rest;
      assert forall t | t in rest :: t in PlaceholderTexts(ps);
      RenderNoSeparator(ps[1..]);
      var first := if ps[0].Literal? then Encode(ps[0].text) else ps[0].text;
      if ps[0].Literal? {
        EncodeNoSeparator(ps[0].text);
      } else {
        assert ps[0].text in PlaceholderTexts(ps);
      }
      assert Render(ps) == first + Render(ps[1..]);
    }
  }

  /** The output holds no `&`, `=` or `?`: encoding escapes them and a
      placeholder cannot contain them. */
  lemma SmartEncodeNoSeparator(s: string)
    ensures NoSeparator(SmartEncode(s))
  {
    var ps := Segments(AnyVariable, s);
    SegmentsChars(s, 0);
    forall t | t in PlaceholderTexts(ps) ensures NoSeparator(t) {
      assert VariableText(t);
    }
    RenderNoSeparator(ps);
  }

  // -------------------------------------------------------------------
  // The encoder as written

  /** The marker that stands for the `i`-th placeholder. */
  function Marker(i: nat): string {
    "__VAR_" + NatToString(i) + "__"
  }

  /** `s.indexOf(t, i)` */
  function FindFrom(s: string, t: string, i: nat): (r: int)
    requires i <= |s|
    ensures r == -1 || (i <= r && r + |t| <= |s|)
    decreases |s| - i
  {
    if i + |t| > |s| then -1 else if s[i..i + |t|] == t then i else FindFrom(s, t, i + 1)
  }

  /** `indexOf` reports the first occurrence at or after `i`, and -1 only
      when there is none. */
  lemma {:induction false} FindFromFirst(s: string, t: string, i: nat)
    requires i <= |s|
    ensures FindFrom(s, t, i) != -1 ==> OccursAt(s, t, FindFrom(s, t, i))
    ensures forall x | i <= x <= |s| && (FindFrom(s, t, i) == -1 || x < FindFrom(s, t, i)) :: !OccursAt(s, t, x)
    decreases |s| - i
  {
    if i + |t| <= |s| && s[i..i + |t|] != t {
      FindFromFirst(s, t, i + 1);
    }
  }

  /** `s.replace(t, r)` with a string pattern and no `$` in `r`: the first
      occurrence of `t` only. */
  function ReplaceFirst(s: string, t: string, r: string): string {
    var k := FindFrom(s, t, 0);
    if k == -1 then s else s[..k] + r + s[k + |t|..]
  }

  /** The first `n` placeholders replaced by their markers, in order. */
  function Shield(s: string, vars: seq<string>, n: nat): string
    requires n <= |vars|
  {
    if n == 0 then s else ReplaceFirst(Shield(s, vars, n - 1), vars[n - 1], Marker(n - 1))
  }

  /** The first `n` markers replaced by their placeholders, in order. */
  function Unshield(e: string, vars: seq<string>, n: nat): string
    requires n <= |vars|
  {
    if n == 0 then e else ReplaceFirst(Unshield(e, vars, n - 1), Marker(n - 1), vars[n - 1])
  }

  /** What smartEncodeURIComponent returns. */
  function SmartEncodeAsWritten(s: string): string {
    if s == [] then []
    else
      var vars := Matches(AnyVariable, s);
      Unshield(Encode(Shield(s, vars, |vars|)), vars, |vars|)
  }

  /** smartEncodeURIComponent: the placeholders collected, shielded,
      the text encoded, the placeholders put back. */
  method SmartEncodeURIComponent(str: string) returns (encoded: string)
    ensures encoded == SmartEncodeAsWritten(str)
  {
    if str == [] {
      return [];
    }
    var variables := CollectVariables(str);
    var tempStr := ShieldAll(str, variables);
    encoded := UnshieldAll(Encode(tempStr), variables);
  }

  /** The exec loop that collects the placeholders. */
  method CollectVariables(str: string) returns (variables: seq<string>)
    ensures variables == Matches(AnyVariable, str)
  {
    variables := [];
    var lastIndex: nat := 0;
    var m := Search(AnyVariable, str, 0);
    while m.Some?
      invariant lastIndex <= |str| && m == Search(AnyVariable, str, lastIndex)
      invariant variables + PlaceholderTexts(SegmentsFrom(AnyVariable, str, lastIndex)) == Matches(AnyVariable, str)
      decreases |str| - lastIndex
    {
      var a := m.value.0;
      var b := m.value.1;
      SegmentsFront(str[lastIndex..a], str[a..b], SegmentsFrom(AnyVariable, str, b));
      AppendAssoc(variables, [str[a..b]], PlaceholderTexts(SegmentsFrom(AnyVariable, str, b)));
      variables := variables + [str[a..b]];
      lastIndex := b;
      m := Search(AnyVariable, str, lastIndex);
    }
    assert PlaceholderTexts([Literal(str[lastIndex..])]) == [];
  }

  lemma AppendAssoc(a: seq<string>, b: seq<string>, c: seq<string>)
    ensures a + b + c == a + (b + c)
  {
  }

  /** The forEach loop that puts a marker in place of each placeholder. */
  method ShieldAll(str: string, variables: seq<string>) returns (tempStr: string)
    ensures tempStr == Shield(str, variables, |variables|)
  {
    tempStr := str;
    for k := 0 to |variables|
      invariant tempStr == Shield(str, variables, k)
    {
      tempStr := ReplaceFirst(tempStr, variables[k], Marker(k));
    }
  }

  /** The forEach loop that puts each placeholder back for its marker. */
  method UnshieldAll(e: string, variables: seq<string>) returns (encoded: string)
    ensures encoded == Unshield(e, variables, |variables|)
  {
    encoded := e;
    for k := 0 to |variables|
      invariant encoded == Unshield(e, variables, k)
    {
      encoded := ReplaceFirst(encoded, Marker(k), variables[k]);
    }
  }

  lemma ReplaceFirstNoSeparator(s: string, t: string, r: string)
    requires NoSeparator(s) && NoSeparator(r)
    ensures NoSeparator(ReplaceFirst(s, t, r))
  {
    var k := FindFrom(s, t, 0);
    if k != -1 {
      var a, b := s[..k], s[k + |t|..];
      assert forall c | c in a :: c in s;
      assert forall c | c in b :: c in s;
      assert ReplaceFirst(s, t, r) == a + r + b;
    }
  }

  lemma {:induction false} UnshieldNoSeparator(e: string, vars: seq<string>, n: nat)
    requires n <= |vars| && NoSeparator(e)
    requires forall v | v in vars :: NoSeparator(v)
    ensures NoSeparator(Unshield(e, vars, n))
  {
    if n > 0 {
      UnshieldNoSeparator(e, vars, n - 1);
      ReplaceFirstNoSeparator(Unshield(e, vars, n - 1), Marker(n - 1), vars[n - 1]);
    }
  }

  /** The source's output holds no `&`, `=` or `?` either, whatever the
      input: the encoded text has none, and what the markers give way to
      are placeholders. */
  lemma SmartEncodeAsWrittenNoSeparator(s: string)
    ensures NoSeparator(SmartEncodeAsWritten(s))
  {
    if s != [] {
      var vars := Matches(AnyVariable, s);
      SegmentsChars(s, 0);
      forall v | v in vars ensures NoSeparator(v) {
        assert VariableText(v);
      }
      EncodeNoSeparator(Shield(s, vars, |vars|));
      UnshieldNoSeparator(Encode(Shield(s, vars, |vars|)), vars, |vars|);
    }
  }

  /** Without a placeholder the source and the intended encoder agree. */
  lemma SmartEncodeAsWrittenPlain(s: string)
    requires Matches(AnyVariable, s) == []
    ensures SmartEncodeAsWritten(s) == SmartEncode(s)
  {
    SmartEncodePlain(s);
  }

  /** An input that does not contain the marker `__VAR_0__`, on which the
      source still moves its placeholder: shielding gives
      `__VAR_0__VAR_0__`, and the first occurrence of `__VAR_0__` there is
      not the marker that was put in. (Stated for a variable `s` equal to
      the text, so that the solver works through the steps given here.) */
  lemma SmartEncodeMarkerClash(s: string)
    requires s == "__VAR_0{{a}}"
    ensures FindFrom(s, Marker(0), 0) == -1
    ensures SmartEncodeAsWritten(s) == "{{a}}VAR_0__"
    ensures SmartEncode(s) == "__VAR_0{{a}}"
  {
    var vars := ["{{a}}"];
    var ps := ClashSegments(s);
    assert Matches(AnyVariable, s) == vars by {
      assert ps[1..][1..] == [Literal("")];
      assert PlaceholderTexts(ps[1..][1..]) == [] + PlaceholderTexts([]);
      assert PlaceholderTexts(ps[1..]) == ["{{a}}"] + PlaceholderTexts(ps[1..][1..]);
      assert PlaceholderTexts(ps) == [] + PlaceholderTexts(ps[1..]);
    }
    var e := ClashShield(s);
    EncodeUnreserved(e);
    ClashUnshield(e);
    assert SmartEncodeAsWritten(s) == Unshield(Encode(Shield(s, vars, 1)), vars, 1);
    ClashRender(ps);
    ClashNoMarker(s);
  }

  lemma ClashSegments(s: string) returns (ps: seq<Piece>)
    requires s == "__VAR_0{{a}}"
    ensures ps == Segments(AnyVariable, s)
    ensures ps == [Literal("__VAR_0"), Placeholder("{{a}}"), Literal("")]
  {
    assert Search(AnyVariable, s, 12) == None;
    assert s[9] == 'a' && s[10] == '}' && s[11] == '}';
    assert SkipSpace(s, 9) == 9 && SkipSpace(s, 10) == 10;
    assert WordEnd(s, 10) == 10;
    assert WordEnd(s, 9) == 10;
    assert AnyVariableEnd(s, 7) == Some(12);
    assert forall k | 0 <= k < 7 :: s[k] != '{';
    SearchAt(AnyVariable, s, 0, 7, 12);
    assert s[0..7] == "__VAR_0" && s[7..12] == "{{a}}" && s[12..] == "";
    assert SegmentsFrom(AnyVariable, s, 12) == [Literal("")];
    ps := Segments(AnyVariable, s);
  }

  /** Search finds the match at `k` when none starts between `i` and `k`. */
  lemma {:induction false} SearchAt(p: Pattern, s: string, i: nat, k: nat, e: nat)
    requires i <= k <= |s| && MatchEnd(p, s, k) == Some(e)
    requires forall j | i <= j < k :: MatchEnd(p, s, j).None?
    ensures Search(p, s, i) == Some((k, e))
    decreases k - i
  {
    if i < k {
      SearchAt(p, s, i + 1, k, e);
    }
  }

  lemma ClashRender(ps: seq<Piece>)
    requires ps == [Literal("__VAR_0"), Placeholder("{{a}}"), Literal("")]
    ensures Render(ps) == "__VAR_0{{a}}"
  {
    RenderLiteralToken(ps[0].text, ps[1].text);
  }

  /** A literal run of unreserved characters, a token and an empty run
      render as the run and the token. */
  lemma RenderLiteralToken(l: string, t: string)
    requires forall i | 0 <= i < |l| :: IsUnreserved(l[i])
    ensures Render([Literal(l), Placeholder(t), Literal([])]) == l + t
  {
    var ps := [Literal(l), Placeholder(t), Literal([])];
    EncodeUnreserved(l);
    EncodeUnreserved([]);
    assert ps[1..] == [Placeholder(t), Literal([])];
    assert ps[1..][1..] == [Literal([])];
    assert Render([Literal([])]) == Encode([]) + Render([]);
  }

  /** The first occurrence of `t` is at `k` when no character before it,
      from `i` on, is the first character of `t`. */
  lemma {:induction false} FindFromAt(s: string, t: string, i: nat, k: nat)
    requires i <= k && k + |t| <= |s| && |t| > 0 && s[k..k + |t|] == t
    requires forall j | i <= j < k :: s[j] != t[0]
    ensures FindFrom(s, t, i) == k
    decreases k - i
  {
    if i < k {
      assert s[i..i + |t|][0] == s[i];
      FindFromAt(s, t, i + 1, k);
    }
  }

  /** A mismatch at offset `k` means no occurrence at `i`. */
  lemma FindFromSkip(s: string, t: string, i: nat, k: nat)
    requires i <= |s| && k < |t| && (i + |t| <= |s| ==> s[i + k] != t[k])
    ensures FindFrom(s, t, i) == if i + |t| > |s| then -1 else FindFrom(s, t, i + 1)
  {
    if i + |t| <= |s| {
      assert s[i..i + |t|][k] == s[i + k];
    }
  }

  lemma ClashShield(s: string) returns (e: string)
    requires s == "__VAR_0{{a}}"
    ensures e == Shield(s, ["{{a}}"], 1) && e == "__VAR_0__VAR_0__"
  {
    assert Marker(0) == "__VAR_0__";
    FindFromAt(s, "{{a}}", 0, 7);
    assert s[..7] == "__VAR_0" && s[12..] == "";
    e := Shield(s, ["{{a}}"], 1);
  }

  lemma ClashUnshield(e: string)
    requires e == "__VAR_0__VAR_0__"
    ensures Unshield(e, ["{{a}}"], 1) == "{{a}}VAR_0__"
  {
    assert Marker(0) == "__VAR_0__";
    assert e[0..9] == "__VAR_0__";
    assert FindFrom(e, "__VAR_0__", 0) == 0;
    assert e[9..] == "VAR_0__";
  }

  lemma ClashNoMarker(s: string)
    requires s == "__VAR_0{{a}}"
    ensures FindFrom(s, Marker(0), 0) == -1
  {
    var t := "__VAR_0__";
    assert Marker(0) == t;
    FindFromSkip(s, t, 0, 7);
    FindFromSkip(s, t, 1, 1);
    FindFromSkip(s, t, 2, 0);
    FindFromSkip(s, t, 3, 0);
    FindFromSkip(s, t, 4, 0);
  }
}
