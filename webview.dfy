/** The request logic of the editor's webview script with its DOM reads
    and writes taken away: variable substitution and usage counts,
    credential templating and the single-line curl command of the pre-auth
    request, query-string composition and the Content-Type header. */
module Webview {
  import opened Wrappers
  import opened Strings
  import opened Dicts
  import opened Types
  import opened WebviewPatterns
  import opened SmartEncoding
  import Placeholders

  // ---------------------------------------------------------------------
  // replaceVariables

  /** `result.replace(new RegExp("{{\\s*" + name + "\\s*}}", "g"), value)`:
      every placeholder of the variable becomes its value. */
  function ReplaceVariable(text: string, entry: (string, string)): string {
    Replace(Variable(entry.0), text, _ => entry.1)
  }

  /** The entries applied one after another, in order. */
  function ApplyAll(text: string, entries: Dict): string
    decreases |entries|
  {
    if entries == [] then text
    else ReplaceVariable(ApplyAll(text, entries[..|entries| - 1]), entries[|entries| - 1])
  }

  /** What replaceVariables returns for `text` once the request variables
      and the session variables are merged: an empty text as it is,
      anything else with every merged entry applied. */
  function Substituted(text: string, merged: Dict): string {
    if text == [] then text else ApplyAll(text, merged)
  }

  /** The merge of replaceVariables: session variables written over the
      request's. */
  function Merged(variables: Dict, sessionVariables: Dict): Dict {
    Assign(variables, sessionVariables)
  }

  /** A text that names none of the variables comes back unchanged. */
  lemma {:induction false} SubstitutedUnreferenced(text: string, merged: Dict)
    requires forall j | 0 <= j < |merged| :: Matches(Variable(merged[j].0), text) == []
    ensures Substituted(text, merged) == text
  {
    if text != [] {
      ApplyAllUnreferenced(text, merged);
    }
  }

  lemma {:induction false} ApplyAllUnreferenced(text: string, e: Dict)
    requires forall j | 0 <= j < |e| :: Matches(Variable(e[j].0), text) == []
    ensures ApplyAll(text, e) == text
    decreases |e|
  {
    if e != [] {
      var last := e[|e| - 1];
      ApplyAllUnreferenced(text, e[..|e| - 1]);
      MatchesEmpty(Variable(last.0), text);
      NoMatch(Variable(last.0), text, _ => last.1);
    }
  }

  /** The placeholder `{{name}}` of a word-character name. */
  function PlaceholderOf(name: string): string {
    "{{" + name + "}}"
  }

  /** A placeholder resolves to its own variable's value. */
  lemma VariableSelf(name: string, value: string)
    requires IsWord(name)
    ensures ReplaceVariable(PlaceholderOf(name), (name, value)) == value
  {
    var t := PlaceholderOf(name);
    var p := Variable(name);
    assert !IsSpace(t[2]);
    assert SkipSpace(t, 2) == 2;
    assert t[2..2 + |name|] == name;
    assert t[2 + |name|] == '}';
    assert SkipSpace(t, 2 + |name|) == 2 + |name|;
    assert MatchEnd(p, t, 0) == Some(|t|);
    assert Search(p, t, 0) == Some((0, |t|));
    assert MatchEnd(p, t, |t|) == None;
    assert Search(p, t, |t|) == None;
    assert t[|t|..] == [] && t[0..0] == [] && t[0..|t|] == t;
    var ps := [Placeholders.Literal([]), Placeholders.Placeholder(t), Placeholders.Literal([])];
    assert SegmentsFrom(p, t, |t|) == [Placeholders.Literal([])];
    assert Segments(p, t) == ps;
    assert ps[1..][1..] == [Placeholders.Literal([])];
    var f: string -> string := _ => value;
    assert Substitute(ps[1..][1..], f) == [];
    assert Substitute(ps[1..], f) == value;
  }

  /** The placeholder of one word-character name holds no placeholder of
      another. */
  lemma VariableOther(name: string, other: string)
    requires IsWord(name) && IsWord(other) && other != name
    ensures Search(Variable(other), PlaceholderOf(name), 0) == None
  {
    var t := PlaceholderOf(name);
    var p := Variable(other);
    assert SkipSpace(t, 2) == 2;
    if |other| < |name| {
      assert t[2 + |other|] == name[|other|];
      assert SkipSpace(t, 2 + |other|) == 2 + |other|;
    } else if |other| == |name| {
      assert t[2..2 + |name|] == name;
    } else if 2 + |other| <= |t| {
      assert t[2..2 + |other|][|name|] == '}';
      assert IsWordChar(other[|name|]);
    }
    assert MatchEnd(p, t, 0) == None;
    assert MatchEnd(p, t, 1) == None;
    assert Search(p, t, 0) == Search(p, t, 2);
    NoOpening(p, t, 2);
  }

  /** No `{{` at or after `i`: no placeholder there. */
  lemma {:induction false} NoOpening(p: Pattern, s: string, i: nat)
    requires p.AnyVariable? || p.Variable?
    requires i <= |s| && forall j | i <= j <= |s| :: !OpensAt(s, j)
    ensures Search(p, s, i) == None
    decreases |s| - i
  {
    assert !OpensAt(s, i);
    if i < |s| {
      NoOpening(p, s, i + 1);
    }
  }

  /** The variables replaceVariables works with: word-character names,
      values without `{`, each name once. */
  predicate WellFormed(e: Dict) {
    Unique(e) && forall j | 0 <= j < |e| :: IsWord(e[j].0) && '{' !in e[j].1
  }

  /** A placeholder of a known variable resolves to the merged value, the
      session's when the session has one; an unknown one stays as it is. */
  lemma SessionValueWins(variables: Dict, sessionVariables: Dict, name: string)
    requires IsWord(name) && Unique(sessionVariables) && WellFormed(Merged(variables, sessionVariables))
    ensures name in Keys(sessionVariables) ==>
      Substituted(PlaceholderOf(name), Merged(variables, sessionVariables)) == Get(sessionVariables, name).value
    ensures name !in Keys(sessionVariables) && name in Keys(variables) ==>
      Substituted(PlaceholderOf(name), Merged(variables, sessionVariables)) == Get(variables, name).value
    ensures name !in Keys(sessionVariables) && name !in Keys(variables) ==>
      Substituted(PlaceholderOf(name), Merged(variables, sessionVariables)) == PlaceholderOf(name)
  {
    var m := Merged(variables, sessionVariables);
    Resolves(m, name);
    AssignGet(variables, sessionVariables, name);
  }

  lemma KeysSnoc(d: Dict, x: (string, string))
    ensures Keys(d + [x]) == Keys(d) + [x.0]
  {
    forall i | 0 <= i < |d| + 1 ensures Keys(d + [x])[i] == (Keys(d) + [x.0])[i] {
      KeysAt(d + [x], i);
      if i < |d| {
        KeysAt(d, i);
      }
    }
  }

  /** A lookup in a dictionary with one more entry at the end. */
  lemma {:induction false} GetSnoc(d: Dict, x: (string, string), k: string)
    ensures Get(d + [x], k) == if k in Keys(d) then Get(d, k) else if x.0 == k then Some(x.1) else None
    decreases |d|
  {
    KeysSnoc(d, x);
    if d == [] {
      assert [] + [x] == [x];
    } else {
      assert (d + [x])[1..] == d[1..] + [x];
      GetSnoc(d[1..], x, k);
      assert Keys(d) == [d[0].0] + Keys(d[1..]);
    }
  }

  /** Applying well-formed entries to a placeholder gives the value of its
      variable, or the placeholder itself when it is not among them. */
  lemma {:induction false} Resolves(e: Dict, name: string)
    requires IsWord(name) && WellFormed(e)
    ensures Substituted(PlaceholderOf(name), e) ==
      if name in Keys(e) then Get(e, name).value else PlaceholderOf(name)
    decreases |e|
  {
    var t := PlaceholderOf(name);
    if e != [] {
      var last := e[|e| - 1];
      var init := e[..|e| - 1];
      assert e == init + [last];
      assert WellFormed(init);
      Resolves(init, name);
      KeysSnoc(init, last);
      GetSnoc(init, last, name);
      var w := ApplyAll(t, init);
      if name in Keys(init) {
        var j :| 0 <= j < |init| && init[j] == (name, Get(init, name).value);
        assert last.0 != name by {
          KeysAt(e, j);
          KeysAt(e, |e| - 1);
        }
        assert '{' !in w;
        NoBraceNoVariable(Variable(last.0), w, 0);
        NoMatch(Variable(last.0), w, _ => last.1);
      } else if last.0 == name {
        VariableSelf(name, last.1);
      } else {
        VariableOther(name, last.0);
        NoMatch(Variable(last.0), w, _ => last.1);
      }
    }
  }

  // ---------------------------------------------------------------------
  // countVariableUsage

  /** The number of placeholders of `name` in `s`, empty text counting
      nothing (the `if (value)` guards). */
  function Count(s: string, name: string): nat {
    if s == [] then 0 else |Matches(Variable(name), s)|
  }

  /** The placeholders of `name` across a list of header values. */
  function CountAll(values: seq<string>, name: string): nat
    decreases |values|
  {
    if values == [] then 0
    else CountAll(values[..|values| - 1], name) + Count(values[|values| - 1], name)
  }

  /** What countVariableUsage returns: nothing without a request, else the
      placeholders in the URL, the header values and the body. */
  function Usage(request: Option<Request>, name: string): nat {
    match request
    case None => 0
    case Some(r) => Count(r.url, name) + CountAll(Values(r.headers), name) + Count(r.body, name)
  }

  /** countVariableUsage */
  method CountVariableUsage(request: Option<Request>, variableName: string) returns (count: nat)
    ensures count == Usage(request, variableName)
  {
    if request.None? {
      return 0;
    }
    var r := request.value;
    count := 0;
    if r.url != [] {
      var matches := Matches(Variable(variableName), r.url);
      count := count + |matches|;
    }
    var values := Values(r.headers);
    ghost var head := count;
    assert values[..0] == [];
    for j := 0 to |values|
      invariant count == head + CountAll(values[..j], variableName)
    {
      assert values[..j + 1][..j] == values[..j];
      if values[j] != [] {
        var matches := Matches(Variable(variableName), values[j]);
        count := count + |matches|;
      }
    }
    assert values[..|values|] == values;
    if r.body != [] {
      var matches := Matches(Variable(variableName), r.body);
      count := count + |matches|;
    }
  }

  /** No placeholder of `name` in a text: replacing the variable leaves it
      as it is. */
  lemma CountZero(s: string, name: string, value: string)
    requires Count(s, name) == 0
    ensures ReplaceVariable(s, (name, value)) == s
  {
    if s == [] {
      assert MatchEnd(Variable(name), s, 0) == None;
    }
    MatchesEmpty(Variable(name), s);
    NoMatch(Variable(name), s, _ => value);
  }

  lemma {:induction false} CountAllZero(values: seq<string>, name: string, j: nat)
    requires CountAll(values, name) == 0 && j < |values|
    ensures Count(values[j], name) == 0
    decreases |values|
  {
    if j < |values| - 1 {
      assert values[..|values| - 1][j] == values[j];
      CountAllZero(values[..|values| - 1], name, j);
    }
  }

  /** A variable a request never uses: replacing it changes neither the
      URL, nor a header value, nor the body. */
  lemma UnusedVariable(r: Request, name: string, value: string)
    requires Usage(Some(r), name) == 0
    ensures ReplaceVariable(r.url, (name, value)) == r.url
    ensures ReplaceVariable(r.body, (name, value)) == r.body
    ensures forall j | 0 <= j < |r.headers| :: ReplaceVariable(r.headers[j].1, (name, value)) == r.headers[j].1
  {
    CountZero(r.url, name, value);
    CountZero(r.body, name, value);
    forall j | 0 <= j < |r.headers|
      ensures ReplaceVariable(r.headers[j].1, (name, value)) == r.headers[j].1
    {
      CountAllZero(Values(r.headers), name, j);
      ValuesAt(r.headers, j);
      CountZero(r.headers[j].1, name, value);
    }
  }

  lemma {:induction false} ValuesAt(d: Dict, i: nat)
    requires i < |d|
    ensures Values(d)[i] == d[i].1
    decreases i
  {
    if i > 0 {
      ValuesAt(d[1..], i - 1);
    }
  }

  // ---------------------------------------------------------------------
  // replacePreAuthCredentials

  const UserTemplate: string := "{{username}}"
  const PasswordTemplate: string := "{{password}}"

  /** The JSON passes, in order: the field name and the template its value
      becomes. */
  const JsonCredentials: seq<(string, string)> := [
    ("email", UserTemplate), ("username", UserTemplate), ("user", UserTemplate),
    ("password", PasswordTemplate), ("pass", PasswordTemplate)]

  /** The form keys of the two form passes, in the order of the
      alternatives. */
  const UserKeys: seq<string> := ["username", "email", "user"]
  const PasswordKeys: seq<string> := ["password", "pass"]

  /** The replacement of a JSON field: always the lower-case name. */
  function JsonTemplate(key: string, template: string): string {
    "\"" + key + "\": \"" + template + "\""
  }

  /** `"$1=" + template` for a form match `m`: the key as written, up to
      its `=`. */
  function FormTemplate(m: string, template: string): string {
    var i := IndexOfChar(m, '=');
    (if i == -1 then m else m[..i]) + "=" + template
  }

  /** One JSON pass. */
  function JsonPass(s: string, c: (string, string)): string {
    Replace(JsonField(c.0), s, _ => JsonTemplate(c.0, c.1))
  }

  /** The first `n` JSON passes. */
  function JsonPasses(s: string, n: nat): string
    requires n <= |JsonCredentials|
  {
    if n == 0 then s else JsonPass(JsonPasses(s, n - 1), JsonCredentials[n - 1])
  }

  function FormPass(s: string, keys: seq<string>, template: string): string {
    Replace(FormField(keys), s, m => FormTemplate(m, template))
  }

  /** What replacePreAuthCredentials returns. */
  function Credentials(body: string): string {
    var json := JsonPasses(body, |JsonCredentials|);
    FormPass(FormPass(json, UserKeys, UserTemplate), PasswordKeys, PasswordTemplate)
  }

  /** replacePreAuthCredentials */
  method ReplacePreAuthCredentials(body: string) returns (sanitized: string)
    ensures sanitized == Credentials(body)
  {
    sanitized := body;
    for n := 0 to |JsonCredentials|
      invariant sanitized == JsonPasses(body, n)
    {
      var (key, template) := JsonCredentials[n];
      sanitized := Replace(JsonField(key), sanitized, _ => JsonTemplate(key, template));
    }
    sanitized := Replace(FormField(UserKeys), sanitized, m => FormTemplate(m, UserTemplate));
    sanitized := Replace(FormField(PasswordKeys), sanitized, m => FormTemplate(m, PasswordTemplate));
  }

  /** Every credential the passes would rewrite in `s` already reads as
      its template. */
  predicate Templated(s: string) {
    (forall n | 0 <= n < |JsonCredentials| ::
       forall t | t in Matches(JsonField(JsonCredentials[n].0), s) ::
         t == JsonTemplate(JsonCredentials[n].0, JsonCredentials[n].1))
    && (forall t | t in Matches(FormField(UserKeys), s) :: t == FormTemplate(t, UserTemplate))
    && (forall t | t in Matches(FormField(PasswordKeys), s) :: t == FormTemplate(t, PasswordTemplate))
  }

  lemma {:induction false} JsonPassesFixed(s: string, n: nat)
    requires n <= |JsonCredentials| && Templated(s)
    ensures JsonPasses(s, n) == s
  {
    if n > 0 {
      JsonPassesFixed(s, n - 1);
      var c := JsonCredentials[n - 1];
      ReplaceFixed(JsonField(c.0), s, _ => JsonTemplate(c.0, c.1));
    }
  }

  /** A body whose credentials already read as their templates comes back
      unchanged: the fixed points of replacePreAuthCredentials. */
  lemma CredentialsFixed(body: string)
    requires Templated(body)
    ensures Credentials(body) == body
  {
    JsonPassesFixed(body, |JsonCredentials|);
    ReplaceFixed(FormField(UserKeys), body, m => FormTemplate(m, UserTemplate));
    ReplaceFixed(FormField(PasswordKeys), body, m => FormTemplate(m, PasswordTemplate));
  }

  /** A form match keeps its key as written: the template follows the text
      before the first `=`. */
  lemma FormTemplateKey(s: string, keys: seq<string>, i: nat, template: string)
    requires i <= |s| && FormFieldEnd(s, keys, i).Some?
    requires forall k | k in keys :: '=' !in k
    ensures var n := FormKey(s, keys, i).value;
      FormTemplate(s[i..FormFieldEnd(s, keys, i).value], template) == s[i..i + n] + "=" + template
  {
    var n := FormKey(s, keys, i).value;
    var m := s[i..FormFieldEnd(s, keys, i).value];
    FormKeyText(s, keys, i);
    assert m[..n] == s[i..i + n];
    assert m[n] == '=';
    IndexOfCharAt(m[..n], m[n..], '=');
    assert m[..n] + m[n..] == m;
  }

  /** The key a form match starts with is one of the alternatives, up to
      case, and holds no `=`. */
  lemma {:induction false} FormKeyText(s: string, keys: seq<string>, i: nat)
    requires i <= |s| && FormKey(s, keys, i).Some?
    requires forall k | k in keys :: '=' !in k
    ensures var n := FormKey(s, keys, i).value;
      '=' !in s[i..i + n] && exists k | k in keys :: SameLetters(s[i..i + n], k)
    decreases |keys|
  {
    var n := |keys[0]|;
    if i + n < |s| && SameLetters(s[i..i + n], keys[0]) && s[i + n] == '=' {
      assert keys[0] in keys;
      SameLettersKeepsOut(s[i..i + n], keys[0]);
    } else {
      assert forall k | k in keys[1..] :: k in keys;
      FormKeyText(s, keys[1..], i);
    }
  }

  /** Case mapping leaves `=` where it is. */
  lemma SameLettersKeepsOut(a: string, b: string)
    requires SameLetters(a, b) && '=' !in b
    ensures '=' !in a
  {
    forall j | 0 <= j < |a| ensures a[j] != '=' {
      assert ToLower(a)[j] == ToLower(b)[j];
      assert b[j] in b;
    }
  }

  // ---------------------------------------------------------------------
  // buildCurlCommandFromRequest

  function HeaderFlag(e: (string, string)): string {
    " -H '" + e.0 + ": " + e.1 + "'"
  }

  /** One flag per entry, in order. */
  function Flags(f: Dict): string
    decreases |f|
  {
    if f == [] then [] else Flags(f[..|f| - 1]) + HeaderFlag(f[|f| - 1])
  }

  /** The header flags: one per header with a non-empty key and value. */
  function HeaderFlags(h: Dict): string {
    Flags(Filled(h))
  }

  /** `.replace(/\r?\n|\r/g, "")`: every line break deleted. */
  function LineBreaksRemoved(s: string): (r: string)
    ensures '\r' !in r && '\n' !in r
  {
    var t := ReplaceChar(s, '\n', "");
    ReplaceCharKeepsOut(t, '\r', "", '\n');
    ReplaceChar(t, '\r', "")
  }

  /** `.replace(/\s+/g, " ")` from `i` on: each run of white space becomes
      one space. */
  function Collapsed(s: string, i: nat): string
    requires i <= |s|
    decreases |s| - i
  {
    if i == |s| then []
    else if IsSpace(s[i]) then " " + Collapsed(s, SkipSpace(s, i))
    else [s[i]] + Collapsed(s, i + 1)
  }

  /** The body part of the command: templated, line breaks deleted, white
      space runs collapsed, trimmed. */
  function CleanBody(body: string): string {
    Trim(Collapsed(LineBreaksRemoved(Credentials(body)), 0))
  }

  /** The `-d` part: present exactly when the body is not blank. */
  function BodyFlag(body: string): string {
    if IsBlank(body) then "" else " -d '" + CleanBody(body) + "'"
  }

  /** What buildCurlCommandFromRequest returns. */
  function PreAuthCurl(request: Option<Request>): string {
    match request
    case None => ""
    case Some(r) => "curl -X " + r.httpMethod + " " + r.url + HeaderFlags(r.headers) + BodyFlag(r.body)
  }

  /** buildCurlCommandFromRequest */
  method BuildCurlCommandFromRequest(preAuthRequest: Option<Request>) returns (curlCommand: string)
    ensures curlCommand == PreAuthCurl(preAuthRequest)
  {
    if preAuthRequest.None? {
      return "";
    }
    var r := preAuthRequest.value;
    curlCommand := "curl -X " + r.httpMethod + " " + r.url;
    curlCommand := AppendHeaderFlags(curlCommand, r.headers);
    var bodyFlag := "";
    if r.body != [] && Trim(r.body) != [] {
      var cleanBody := CleanBodyOf(r.body);
      bodyFlag := " -d '" + cleanBody + "'";
    }
    curlCommand := curlCommand + bodyFlag;
  }

  /** The header loop of buildCurlCommandFromRequest. */
  method AppendHeaderFlags(command: string, headers: Dict) returns (curlCommand: string)
    ensures curlCommand == command + HeaderFlags(headers)
  {
    curlCommand := command;
    assert headers[..0] == [];
    assert command + Flags([]) == command;
    for j := 0 to |headers|
      invariant curlCommand == command + Flags(Filled(headers[..j]))
    {
      var (key, value) := headers[j];
      FilledSnoc(headers, j);
      if key != [] && value != [] {
        var flag := " -H '" + key + ": " + value + "'";
        assert flag == HeaderFlag(headers[j]);
        Assoc(command, Flags(Filled(headers[..j])), flag);
        curlCommand := curlCommand + flag;
      }
    }
    assert headers[..|headers|] == headers;
  }

  lemma Assoc(a: string, b: string, c: string)
    ensures (a + b) + c == a + (b + c)
  {
  }

  /** The body steps of buildCurlCommandFromRequest. */
  method CleanBodyOf(body: string) returns (cleanBody: string)
    ensures cleanBody == CleanBody(body)
  {
    var sanitizedBody := ReplacePreAuthCredentials(body);
    cleanBody := ReplaceChar(ReplaceChar(sanitizedBody, '\n', ""), '\r', "");
    cleanBody := Trim(Collapsed(cleanBody, 0));
  }

  /** One more header, one more flag when its key and value are filled. */
  lemma FilledSnoc(h: Dict, j: nat)
    requires j < |h|
    ensures Flags(Filled(h[..j + 1])) ==
      Flags(Filled(h[..j])) + (if h[j].0 != [] && h[j].1 != [] then HeaderFlag(h[j]) else [])
  {
    FilledPrefix(h, j);
    var f := Filled(h[..j]);
    if h[j].0 != [] && h[j].1 != [] {
      FlagsSnoc(f, h[j]);
    } else {
      assert f + [] == f;
    }
  }

  lemma FilledPrefix(h: Dict, j: nat)
    requires j < |h|
    ensures Filled(h[..j + 1]) == Filled(h[..j]) + (if h[j].0 != [] && h[j].1 != [] then [h[j]] else [])
  {
    var g := h[..j + 1];
    assert g[..|g| - 1] == h[..j];
    assert g[|g| - 1] == h[j];
  }

  lemma FlagsSnoc(f: Dict, x: (string, string))
    ensures Flags(f + [x]) == Flags(f) + HeaderFlag(x)
  {
    assert (f + [x])[..|f|] == f;
  }

  /** No white space twice in a row, and only the space character itself. */
  predicate SingleSpaced(t: string) {
    forall k | 0 <= k < |t| && IsSpace(t[k]) :: t[k] == ' ' && (k + 1 < |t| ==> !IsSpace(t[k + 1]))
  }

  lemma {:induction false} CollapsedShape(s: string, i: nat)
    requires i <= |s|
    ensures SingleSpaced(Collapsed(s, i))
    ensures i < |s| && !IsSpace(s[i]) ==> Collapsed(s, i) != [] && Collapsed(s, i)[0] == s[i]
    decreases |s| - i
  {
    if i < |s| {
      if IsSpace(s[i]) {
        var j := SkipSpace(s, i);
        CollapsedShape(s, j);
        var rest := Collapsed(s, j);
        assert Collapsed(s, i) == " " + rest;
        assert rest != [] ==> !IsSpace(rest[0]);
      } else {
        CollapsedShape(s, i + 1);
      }
    }
  }

  /** Trimming keeps a text single-spaced. */
  lemma TrimSingleSpaced(c: string)
    requires SingleSpaced(c)
    ensures SingleSpaced(Trim(c))
  {
    var i := SkipSpace(c, 0);
    var j := SkipSpaceBack(c, i, |c|);
    assert Trim(c) == c[i..j];
    assert forall k | 0 <= k < j - i :: c[i..j][k] == c[i + k];
  }

  /** The body part is on one line, trimmed, with single spaces. */
  lemma CleanBodyShape(body: string)
    ensures '\r' !in CleanBody(body) && '\n' !in CleanBody(body)
    ensures IsTrimmed(CleanBody(body)) && SingleSpaced(CleanBody(body))
  {
    var c := Collapsed(LineBreaksRemoved(Credentials(body)), 0);
    CollapsedShape(LineBreaksRemoved(Credentials(body)), 0);
    TrimSingleSpaced(c);
    var t := CleanBody(body);
    assert IsSpace('\r') && IsSpace('\n');
    assert forall k | 0 <= k < |t| :: t[k] != '\r' && t[k] != '\n';
  }

  lemma {:induction false} CollapsedNoSpace(s: string, i: nat)
    requires i <= |s| && forall k | i <= k < |s| :: !IsSpace(s[k])
    ensures Collapsed(s, i) == s[i..]
    decreases |s| - i
  {
    if i < |s| {
      CollapsedNoSpace(s, i + 1);
      assert s[i..] == [s[i]] + s[i + 1..];
    }
  }

  /** A body without white space whose credentials already read as their
      templates is written verbatim. */
  lemma CleanBodyVerbatim(body: string)
    requires Templated(body) && forall k | 0 <= k < |body| :: !IsSpace(body[k])
    ensures CleanBody(body) == body
  {
    CredentialsFixed(body);
    assert '\n' !in body && '\r' !in body by {
      assert IsSpace('\r') && IsSpace('\n');
    }
    assert LineBreaksRemoved(body) == body;
    CollapsedNoSpace(body, 0);
    assert body[0..] == body;
    TrimNoop(body);
  }

  // ---------------------------------------------------------------------
  // findPreAuthRequest

  /** A request is the pre-auth request when it is flagged, or when its
      trimmed, upper-cased name reads `@PRE-AUTH`. */
  predicate IsPreAuth(r: Request) {
    r.isPreAuthRequest || ToUpper(Trim(r.name)) == "@PRE-AUTH"
  }

  /** findPreAuthRequest: the first pre-auth request. */
  function FindPreAuthRequest(requests: seq<Request>): (r: Option<Request>)
    ensures r.Some? ==> r.value in requests && IsPreAuth(r.value)
    ensures r.None? ==> forall j | 0 <= j < |requests| :: !IsPreAuth(requests[j])
  {
    if requests == [] then None
    else if IsPreAuth(requests[0]) then Some(requests[0])
    else FindPreAuthRequest(requests[1..])
  }

  /** It is the first one. */
  lemma {:induction false} FindPreAuthFirst(requests: seq<Request>, i: nat)
    requires i < |requests| && IsPreAuth(requests[i])
    requires forall j | 0 <= j < i :: !IsPreAuth(requests[j])
    ensures FindPreAuthRequest(requests) == Some(requests[i])
  {
    if i > 0 {
      FindPreAuthFirst(requests[1..], i - 1);
    }
  }

  // ---------------------------------------------------------------------
  // Query-string composition

  /** A row of the query editor: its two text inputs and its checkbox. */
  datatype QueryRow = QueryRow(key: string, value: string, checked: bool)

  /** The pairs buildUrlWithQueryParams collects: trimmed key and value of
      each checked row whose trimmed key is not empty, in row order. */
  function IncludedPairs(rows: seq<QueryRow>): Dict
    decreases |rows|
  {
    if rows == [] then []
    else
      var row := rows[|rows| - 1];
      var key := Trim(row.key);
      IncludedPairs(rows[..|rows| - 1]) + (if key != [] && row.checked then [(key, Trim(row.value))] else [])
  }

  /** `smartEncode(k) + "=" + smartEncode(v)` */
  function EncodedPair(p: (string, string)): string {
    SmartEncodeAsWritten(p.0) + "=" + SmartEncodeAsWritten(p.1)
  }

  function EncodedPairs(ps: Dict): (r: seq<string>)
    ensures |r| == |ps|
  {
    seq(|ps|, j requires 0 <= j < |ps| => EncodedPair(ps[j]))
  }

  /** The pairs encoded and joined with `&`. */
  function QueryString(ps: Dict): string {
    Join(EncodedPairs(ps), "&")
  }

  /** The URL up to its first `?`. */
  function BaseUrl(url: string): string {
    var q := IndexOfChar(url, '?');
    if q == -1 then url else url[..q]
  }

  /** What buildUrlWithQueryParams returns for the URL input and the rows. */
  function ComposedUrl(url: string, rows: seq<QueryRow>): string {
    var ps := IncludedPairs(rows);
    if ps == [] then BaseUrl(url) else BaseUrl(url) + "?" + QueryString(ps)
  }

  /** buildUrlWithQueryParams, the editor's inputs given as arguments. */
  method BuildUrlWithQueryParams(urlInput: string, rows: seq<QueryRow>) returns (url: string)
    ensures url == ComposedUrl(urlInput, rows)
  {
    var baseUrl := urlInput;
    var questionMarkIndex := IndexOfChar(baseUrl, '?');
    if questionMarkIndex != -1 {
      baseUrl := baseUrl[..questionMarkIndex];
    }
    var queryParams := CollectQueryParams(rows);
    if queryParams == [] {
      return baseUrl;
    }
    var queryString := Join(EncodedPairs(queryParams), "&");
    url := baseUrl + "?" + queryString;
  }

  /** The row loop of buildUrlWithQueryParams. */
  method CollectQueryParams(rows: seq<QueryRow>) returns (queryParams: Dict)
    ensures queryParams == IncludedPairs(rows)
  {
    queryParams := [];
    assert rows[..0] == [];
    for j := 0 to |rows|
      invariant queryParams == IncludedPairs(rows[..j])
    {
      assert rows[..j + 1][..j] == rows[..j];
      var key := Trim(rows[j].key);
      var value := Trim(rows[j].value);
      if key != [] && rows[j].checked {
        queryParams := queryParams + [(key, value)];
      }
    }
    assert rows[..|rows|] == rows;
  }

  /** A pair is included exactly when a checked row with a non-empty
      trimmed key gives it. */
  lemma {:induction false} IncludedPairsFrom(rows: seq<QueryRow>, p: (string, string))
    ensures p in IncludedPairs(rows) <==>
      exists row | row in rows :: row.checked && Trim(row.key) != [] && p == (Trim(row.key), Trim(row.value))
    decreases |rows|
  {
    if rows != [] {
      var init := rows[..|rows| - 1];
      var row := rows[|rows| - 1];
      assert rows == init + [row];
      IncludedPairsFrom(init, p);
      assert forall x | x in init :: x in rows;
      if p in IncludedPairs(rows) && p !in IncludedPairs(init) {
        assert row in rows;
      }
    }
  }

  /** An encoded pair splits at its `=` into the encoded key and value. */
  lemma EncodedPairSplit(p: (string, string))
    ensures Split(EncodedPair(p), '=') == [SmartEncodeAsWritten(p.0), SmartEncodeAsWritten(p.1)]
  {
    SmartEncodeAsWrittenNoSeparator(p.0);
    SmartEncodeAsWrittenNoSeparator(p.1);
    var parts := [SmartEncodeAsWritten(p.0), SmartEncodeAsWritten(p.1)];
    assert Join(parts, "=") == EncodedPair(p) by {
      assert parts[1..] == [SmartEncodeAsWritten(p.1)];
    }
    SplitJoin(parts, '=');
  }

  /** The composed URL is the base (which holds no `?`), then, when some
      pair is included, one `?` and a query string that splits at `&` into
      the encoded pairs in order. */
  lemma ComposedUrlParts(url: string, rows: seq<QueryRow>)
    ensures '?' !in BaseUrl(url) && BaseUrl(url) == url[..|BaseUrl(url)|]
    ensures IncludedPairs(rows) == [] ==> ComposedUrl(url, rows) == BaseUrl(url)
    ensures IncludedPairs(rows) != [] ==>
      var c := ComposedUrl(url, rows);
      var b := BaseUrl(url);
      IndexOfChar(c, '?') == |b| && c[..|b|] == b
      && Split(c[|b| + 1..], '&') == EncodedPairs(IncludedPairs(rows))
  {
    BaseUrlPrefix(url);
    var b := BaseUrl(url);
    var ps := IncludedPairs(rows);
    if ps != [] {
      QueryAfterBase(b, QueryString(ps));
      QueryStringSplit(ps);
    }
  }

  /** A text without `?`, a `?`, and the rest. */
  lemma QueryAfterBase(b: string, q: string)
    requires '?' !in b
    ensures var c := b + "?" + q;
      IndexOfChar(c, '?') == |b| && c[..|b|] == b && c[|b| + 1..] == q
  {
    var c := b + "?" + q;
    assert c == b + ("?" + q);
    IndexOfCharAt(b, "?" + q, '?');
  }

  lemma BaseUrlPrefix(url: string)
    ensures '?' !in BaseUrl(url) && BaseUrl(url) == url[..|BaseUrl(url)|]
  {
    IndexOfCharFirst(url, '?');
  }

  /** The query string splits at `&` into the encoded pairs. */
  lemma QueryStringSplit(ps: Dict)
    requires ps != []
    ensures Split(QueryString(ps), '&') == EncodedPairs(ps)
  {
    var parts := EncodedPairs(ps);
    forall k | 0 <= k < |parts| ensures '&' !in parts[k] {
      SmartEncodeAsWrittenNoSeparator(ps[k].0);
      SmartEncodeAsWrittenNoSeparator(ps[k].1);
    }
    SplitJoin(parts, '&');
  }

  /** The enabled stored parameters as pairs, in order. */
  function EnabledPairs(ps: seq<QueryParam>): Dict
    decreases |ps|
  {
    if ps == [] then []
    else
      var p := ps[|ps| - 1];
      EnabledPairs(ps[..|ps| - 1]) + (if p.enabled then [(p.key, p.value)] else [])
  }

  /** The URL selectRequest shows: the stored URL, followed by `?` and the
      enabled parameters when there are any. */
  function DisplayUrl(r: Request): string {
    var e := EnabledPairs(r.queryParams);
    if |r.queryParams| > 0 && |e| > 0 then r.url + "?" + QueryString(e) else r.url
  }

  /** The parameters updateCurrentRequest stores from the rows: every row
      whose trimmed key is not empty, trimmed, enabled when checked. */
  function StoredParams(rows: seq<QueryRow>): seq<QueryParam>
    decreases |rows|
  {
    if rows == [] then []
    else
      var row := rows[|rows| - 1];
      var key := Trim(row.key);
      StoredParams(rows[..|rows| - 1]) + (if key != [] then [QueryParam(key, Trim(row.value), row.checked)] else [])
  }

  /** The request as updateCurrentRequest leaves it after an edit of the
      URL input and the query rows. */
  function Edited(r: Request, urlInput: string, rows: seq<QueryRow>): Request {
    r.(url := ComposedUrl(urlInput, rows), queryParams := StoredParams(rows))
  }

  lemma {:induction false} EnabledStored(rows: seq<QueryRow>)
    ensures EnabledPairs(StoredParams(rows)) == IncludedPairs(rows)
    ensures |StoredParams(rows)| >= |IncludedPairs(rows)|
    decreases |rows|
  {
    if rows != [] {
      var init := rows[..|rows| - 1];
      EnabledStored(init);
      var sp := StoredParams(init);
      var row := rows[|rows| - 1];
      if Trim(row.key) != [] {
        var q := QueryParam(Trim(row.key), Trim(row.value), row.checked);
        assert StoredParams(rows) == sp + [q];
        assert (sp + [q])[..|sp|] == sp;
        assert EnabledPairs(sp + [q]) == EnabledPairs(sp) + (if row.checked then [(q.key, q.value)] else []);
      } else {
        assert StoredParams(rows) == sp + [];
        assert sp + [] == sp;
      }
      assert IncludedPairs(rows) == IncludedPairs(init) +
        (if Trim(row.key) != [] && row.checked then [(Trim(row.key), Trim(row.value))] else []);
    }
  }

  /** As written, selecting an edited request with included parameters
      shows its query string twice: the stored URL already ends with it. */
  lemma DisplayRepeatsQuery(r: Request, urlInput: string, rows: seq<QueryRow>)
    requires IncludedPairs(rows) != []
    ensures DisplayUrl(Edited(r, urlInput, rows)) ==
      BaseUrl(urlInput) + "?" + QueryString(IncludedPairs(rows)) + "?" + QueryString(IncludedPairs(rows))
    ensures DisplayUrl(Edited(r, urlInput, rows)) != Edited(r, urlInput, rows).url
  {
    EnabledStored(rows);
  }

  /** The shown URL with the stored URL's own query string replaced: the
      base followed by the enabled parameters. */
  function DisplayUrlFixed(r: Request): string {
    var e := EnabledPairs(r.queryParams);
    if |e| > 0 then BaseUrl(r.url) + "?" + QueryString(e) else r.url
  }

  /** Selecting an edited request shows exactly the URL that was stored. */
  lemma DisplayFixedShowsStored(r: Request, urlInput: string, rows: seq<QueryRow>)
    ensures DisplayUrlFixed(Edited(r, urlInput, rows)) == Edited(r, urlInput, rows).url
  {
    EnabledStored(rows);
    ComposedUrlParts(urlInput, rows);
    var b := BaseUrl(urlInput);
    if IncludedPairs(rows) != [] {
      var c := ComposedUrl(urlInput, rows);
      assert c[..|b|] == b;
      assert BaseUrl(c) == b;
    }
  }

  // ---------------------------------------------------------------------
  // updateContentTypeHeader and updateBodyType

  /** The Content-Type of each body type. */
  function Mime(t: BodyType): string {
    match t
    case Json => "application/json"
    case UrlEncoded => "application/x-www-form-urlencoded"
    case Xml => "application/xml"
    case Html => "text/html"
    case JavaScript => "application/javascript"
    case Text => "text/plain"
  }

  predicate IsContentTypeKey(k: string) {
    ToLower(k) == "content-type"
  }

  /** The first header name equal to `content-type` up to case. */
  function ContentTypeKey(keys: seq<string>): (r: Option<string>)
    ensures r.Some? ==> r.value in keys && IsContentTypeKey(r.value)
    ensures r.None? <==> forall j | 0 <= j < |keys| :: !IsContentTypeKey(keys[j])
  {
    if keys == [] then None
    else if IsContentTypeKey(keys[0]) then Some(keys[0])
    else ContentTypeKey(keys[1..])
  }

  /** updateContentTypeHeader: a Content-Type for a non-blank body that has
      none. */
  function WithContentType(r: Request): Request {
    if ContentTypeKey(Keys(r.headers)).None? && !IsBlank(r.body) then
      r.(headers := Put(r.headers, "Content-Type", Mime(r.bodyType)))
    else r
  }

  /** updateBodyType: the new type, and for a non-blank body its
      Content-Type written into the existing header, whatever its spelling,
      or into a new `Content-Type` header. */
  function Retyped(r: Request, t: BodyType): Request {
    var r' := r.(bodyType := t);
    if IsBlank(r.body) then r'
    else r'.(headers := Put(r.headers, ContentTypeKey(Keys(r.headers)).GetOr("Content-Type"), Mime(t)))
  }

  /** Writing a name that is not there appends it. */
  lemma {:induction false} PutAbsent(d: Dict, k: string, v: string)
    requires k !in Keys(d)
    ensures Put(d, k, v) == d + [(k, v)]
  {
    if d != [] {
      assert Keys(d) == [d[0].0] + Keys(d[1..]);
      PutAbsent(d[1..], k, v);
      assert d == [d[0]] + d[1..];
    }
  }

  /** updateContentTypeHeader never overwrites: it changes nothing when a
      Content-Type is present or the body is blank, and otherwise appends
      one `Content-Type` header. */
  lemma WithContentTypeAppends(r: Request)
    ensures ContentTypeKey(Keys(r.headers)).Some? || IsBlank(r.body) ==> WithContentType(r) == r
    ensures ContentTypeKey(Keys(r.headers)).None? && !IsBlank(r.body) ==>
      WithContentType(r) == r.(headers := r.headers + [("Content-Type", Mime(r.bodyType))])
  {
    if ContentTypeKey(Keys(r.headers)).None? {
      assert IsContentTypeKey("Content-Type");
      PutAbsent(r.headers, "Content-Type", Mime(r.bodyType));
    }
  }

  /** updateBodyType overwrites an existing Content-Type in place, keeping
      the header's spelling and the order of the names, and appends one
      only when there is none. */
  lemma RetypedOverwrites(r: Request, t: BodyType)
    ensures Retyped(r, t) == r.(bodyType := t, headers := Retyped(r, t).headers)
    ensures IsBlank(r.body) ==> Retyped(r, t).headers == r.headers
    ensures !IsBlank(r.body) && ContentTypeKey(Keys(r.headers)).Some? ==>
      var k := ContentTypeKey(Keys(r.headers)).value;
      Keys(Retyped(r, t).headers) == Keys(r.headers) && Get(Retyped(r, t).headers, k) == Some(Mime(t))
    ensures !IsBlank(r.body) && ContentTypeKey(Keys(r.headers)).None? ==>
      Retyped(r, t).headers == r.headers + [("Content-Type", Mime(t))]
  {
    if !IsBlank(r.body) {
      match ContentTypeKey(Keys(r.headers))
      case Some(k) =>
        PutKeys(r.headers, k, Mime(t));
      case None =>
        assert IsContentTypeKey("Content-Type");
        PutAbsent(r.headers, "Content-Type", Mime(t));
    }
  }

  /** After updateBodyType, updateContentTypeHeader has nothing to do. */
  lemma RetypedHasContentType(r: Request, t: BodyType)
    ensures WithContentType(Retyped(r, t)) == Retyped(r, t)
  {
    var r' := Retyped(r, t);
    if !IsBlank(r.body) {
      var h := r'.headers;
      match ContentTypeKey(Keys(r.headers))
      case Some(k) =>
        PutKeys(r.headers, k, Mime(t));
        assert ContentTypeKey(Keys(h)).Some?;
      case None =>
        PutAbsent(r.headers, "Content-Type", Mime(t));
        KeysSnoc(r.headers, ("Content-Type", Mime(t)));
        assert Keys(h)[|r.headers|] == "Content-Type";
        assert IsContentTypeKey("Content-Type");
        assert ContentTypeKey(Keys(h)).Some?;
    }
  }
}
