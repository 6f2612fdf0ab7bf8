/** Whether replacePreAuthCredentials leaves every credential as its
    template. Its JSON passes run one key after the other, and a later
    pass can rewrite text an earlier match stood on: the body below comes
    out with a `user` field the `user` pass never saw. */
module WebviewCredentials {
  import opened Wrappers
  import opened Strings
  import opened Placeholders
  import opened WebviewPatterns
  import opened Webview
  import SanitizerProps

  // ---------------------------------------------------------------------
  // Searching one position at a time

  /** No quote, or not the first letter of the key after it: no JSON
      field starts here. */
  lemma JsonMissAt(key: string, s: string, k: nat)
    requires k <= |s| && key != []
    requires k == |s| || s[k] != '"' || k + 1 == |s| || LowerChar(s[k + 1]) != LowerChar(key[0])
    ensures MatchEnd(JsonField(key), s, k).None?
  {
    var q := k + 1 + |key|;
    if q < |s| && SameLetters(s[k + 1..q], key) {
      assert ToLower(s[k + 1..q])[0] == ToLower(key)[0];
    }
  }

  /** The text after the quote differs from the key at its letter `t`: no
      JSON field starts here. */
  lemma JsonMissLetter(key: string, s: string, k: nat, t: nat)
    requires k <= |s| && t < |key|
    requires k + 1 + |key| < |s| ==> LowerChar(s[k + 1 + t]) != LowerChar(key[t])
    ensures MatchEnd(JsonField(key), s, k).None?
  {
    var q := k + 1 + |key|;
    if q < |s| && SameLetters(s[k + 1..q], key) {
      assert ToLower(s[k + 1..q])[t] == ToLower(key)[t];
    }
  }

  /** A JSON field whose key holds a letter missing from `s[i..]`, in
      either case, starts nowhere from `i` on. */
  lemma JsonAbsentAt(key: string, s: string, i: nat, t: nat, k: nat)
    requires i <= k <= |s| && t < |key| && 'a' <= key[t] <= 'z'
    requires key[t] !in s[i..] && UpperChar(key[t]) !in s[i..]
    ensures MatchEnd(JsonField(key), s, k).None?
  {
    var q := k + 1 + |key|;
    if q < |s| {
      assert s[k + 1 + t] == s[k + 1..q][t];
      assert s[k + 1 + t] == s[i..][k + 1 + t - i];
    }
  }

  /** `"key":"…"` written without white space: the match runs to the next
      quote. */
  lemma JsonHit(key: string, s: string, i: nat, v: nat)
    requires i + |key| + 4 <= v < |s| && s[i] == '"' && SameLetters(s[i + 1..i + 1 + |key|], key)
    requires s[i + 1 + |key|] == '"' && s[i + 2 + |key|] == ':' && s[i + 3 + |key|] == '"'
    requires '"' !in s[i + 4 + |key|..v] && s[v] == '"'
    ensures MatchEnd(JsonField(key), s, i) == Some(v + 1)
  {
    var q := i + 1 + |key|;
    assert SkipSpace(s, q + 1) == q + 1;
    assert SkipSpace(s, q + 2) == q + 2;
    IndexOfCharRun(s, q + 3, v);
  }

  /** `"key": "…"`, with one space after the colon, as the templates
      write it. */
  lemma JsonHitSpaced(key: string, s: string, i: nat, v: nat)
    requires i + |key| + 5 <= v < |s| && s[i] == '"' && SameLetters(s[i + 1..i + 1 + |key|], key)
    requires s[i + 1 + |key|] == '"' && s[i + 2 + |key|] == ':' && s[i + 3 + |key|] == ' ' && s[i + 4 + |key|] == '"'
    requires '"' !in s[i + 5 + |key|..v] && s[v] == '"'
    ensures MatchEnd(JsonField(key), s, i) == Some(v + 1)
  {
    var q := i + 1 + |key|;
    assert SkipSpace(s, q + 1) == q + 1;
    assert SkipSpace(s, q + 3) == q + 3;
    assert SkipSpace(s, q + 2) == q + 3;
    IndexOfCharRun(s, q + 4, v);
  }

  lemma {:induction false} IndexOfCharRun(s: string, i: nat, v: nat)
    requires i <= v < |s| && '"' !in s[i..v] && s[v] == '"'
    ensures IndexOfCharFrom(s, '"', i) == v
    decreases v - i
  {
    if i < v {
      assert s[i] == s[i..v][0];
      assert s[i + 1..v] == s[i..v][1..];
      IndexOfCharRun(s, i + 1, v);
    }
  }

  /** With no match from `i` to the end, the search finds none. */
  lemma {:induction false} SearchNone(p: Pattern, s: string, i: nat)
    requires i <= |s| && forall k | i <= k <= |s| :: MatchEnd(p, s, k).None?
    ensures Search(p, s, i) == None
    decreases |s| - i
  {
    if i < |s| {
      SearchNone(p, s, i + 1);
    }
  }

  /** With no match from `i` up to `a` and one at `a`, the search finds it. */
  lemma {:induction false} SearchFirst(p: Pattern, s: string, i: nat, a: nat, e: nat)
    requires i <= a <= |s| && MatchEnd(p, s, a) == Some(e)
    requires forall k | i <= k < a :: MatchEnd(p, s, k).None?
    ensures Search(p, s, i) == Some((a, e))
    decreases a - i
  {
    if i < a {
      SearchFirst(p, s, i + 1, a, e);
    }
  }

  /** A replace with a single match, `[a, e)`: only that text is replaced. */
  lemma ReplaceOnce(p: Pattern, s: string, a: nat, e: nat)
    requires Search(p, s, 0) == Some((a, e)) && Search(p, s, e) == None
    ensures forall f: string -> string :: Replace(p, s, f) == s[..a] + f(s[a..e]) + s[e..]
  {
    forall f: string -> string {
      ReplaceOnceWith(p, s, f, a, e);
    }
  }

  lemma ReplaceOnceWith(p: Pattern, s: string, f: string -> string, a: nat, e: nat)
    requires Search(p, s, 0) == Some((a, e)) && Search(p, s, e) == None
    ensures Replace(p, s, f) == s[..a] + f(s[a..e]) + s[e..]
  {
    var ps := [Literal(s[0..a]), Placeholder(s[a..e])] + [Literal(s[e..])];
    OnceSegments(p, s, a, e);
    assert ps[1..] == [Placeholder(s[a..e]), Literal(s[e..])];
    assert ps[1..][1..] == [Literal(s[e..])];
    assert [Literal(s[e..])][1..] == [];
    assert Substitute([Literal(s[e..])], f) == s[e..];
    assert Substitute(ps, f) == s[0..a] + (f(s[a..e]) + s[e..]);
  }

  lemma OnceSegments(p: Pattern, s: string, a: nat, e: nat)
    requires Search(p, s, 0) == Some((a, e)) && Search(p, s, e) == None
    ensures Segments(p, s) == [Literal(s[0..a]), Placeholder(s[a..e])] + [Literal(s[e..])]
  {
    assert SegmentsFrom(p, s, e) == [Literal(s[e..])];
  }

  /** The text of the first match is one of the matches. */
  lemma FirstMatch(p: Pattern, s: string, a: nat, e: nat)
    requires Search(p, s, 0) == Some((a, e))
    ensures s[a..e] in Matches(p, s)
  {
    SegmentsFront(s[0..a], s[a..e], SegmentsFrom(p, s, e));
  }

  /** A text without a match is left as it is. */
  lemma NothingReplaced(p: Pattern, s: string)
    requires forall k | 0 <= k <= |s| :: MatchEnd(p, s, k).None?
    ensures forall f: string -> string :: Replace(p, s, f) == s
  {
    SearchNone(p, s, 0);
    forall f: string -> string {
      NoMatch(p, s, f);
    }
  }

  /** A text without `=` has no form field. */
  lemma NoFormField(keys: seq<string>, s: string, k: nat)
    requires '=' !in s && k <= |s|
    ensures MatchEnd(FormField(keys), s, k).None?
  {
  }

  // ---------------------------------------------------------------------
  // The counterexample: SanitizerProps.CascadeBody, `"pass":"user":""user":"x"`

  /** `"pass":"user": "{{username}}"user":"x"`: the body after the `user`
      pass, which rewrites `"user":""` and goes on after its closing quote. */
  predicate UserDone(u: string) {
    && |u| == 38 && u[0] == '"' && u[1..5] == "pass" && u[5] == '"' && u[6] == ':' && u[7] == '"'
    && u[8..12] == "user" && u[12] == '"' && 'p' !in u[13..] && 'P' !in u[13..]
    && 'w' !in u && 'W' !in u
  }

  /** The `pass` template, `"pass": "{{password}}"`. */
  const PassText: string := "\"pass\": \"{{password}}\""

  /** What follows it once the `pass` pass has cut `"pass":"user"` out of
      `"pass":"user": "{{username}}"`: `: "{{username}}"`. */
  const UserRest: string := ": \"{{username}}\""

  /** The first 38 characters the two runs below share. */
  predicate Head(w: string) {
    |w| >= 38 && w[..22] == PassText && w[22..38] == UserRest
  }

  /** `"pass": "{{password}}": "{{username}}"user":"x"`: the body after the
      `pass` pass. Its last ten characters are a `user` field that the
      closing quote of the `user` template opens. */
  predicate PassDone(w: string) {
    |w| == 47 && Head(w) && w[38..] == "user\":\"x\"" && '=' !in w && 'i' !in w && 'I' !in w
  }

  /** `"pass": "{{password}}": "{{username}}"user": "{{username}}"`: what a
      second run makes of PassDone text. */
  predicate Rewritten(x: string) {
    |x| == 59 && Head(x) && x[38..] == "user\": \"{{username}}\"" && '=' !in x && 'p' !in x[22..] && 'P' !in x[22..]
  }

  /** A key holding a letter the text lacks, in either case, leaves the
      text as it is. */
  lemma JsonPassAbsent(s: string, c: (string, string), t: nat)
    requires t < |c.0| && 'a' <= c.0[t] <= 'z' && c.0[t] !in s && UpperChar(c.0[t]) !in s
    ensures JsonPass(s, c) == s
  {
    assert s[0..] == s;
    forall k | 0 <= k <= |s|
      ensures MatchEnd(JsonField(c.0), s, k).None?
    {
      JsonAbsentAt(c.0, s, 0, t, k);
    }
    JsonPassNone(s, c);
  }

  /** A JSON pass that matches nowhere leaves the text as it is. */
  lemma JsonPassNone(s: string, c: (string, string))
    requires forall k | 0 <= k <= |s| :: MatchEnd(JsonField(c.0), s, k).None?
    ensures JsonPass(s, c) == s
  {
    NothingReplaced(JsonField(c.0), s);
  }

  /** The `user` pass rewrites `"user":""` and nothing after it. */
  lemma UserPassOfBody(s: string)
    requires SanitizerProps.BodyShape(s)
    ensures JsonPass(s, JsonCredentials[2]) == s[..7] + JsonTemplate("user", UserTemplate) + s[16..]
  {
    assert JsonCredentials[2] == ("user", UserTemplate);
    var p := JsonField("user");
    JsonHit("user", s, 7, 15);
    forall k | 0 <= k < 7 || 16 <= k <= 25
      ensures MatchEnd(p, s, k).None?
    {
      JsonMissAt("user", s, k);
    }
    SearchFirst(p, s, 0, 7, 16);
    SearchNone(p, s, 16);
    ReplaceOnce(p, s, 7, 16);
  }

  /** The `pass` pass rewrites `"pass":"user"` and nothing after it. */
  lemma PassPassOfUserDone(u: string)
    requires UserDone(u)
    ensures JsonPass(u, ("pass", PasswordTemplate)) == JsonTemplate("pass", PasswordTemplate) + u[13..]
  {
    var p := JsonField("pass");
    JsonHit("pass", u, 0, 12);
    forall k | 13 <= k <= |u|
      ensures MatchEnd(p, u, k).None?
    {
      JsonAbsentAt("pass", u, 13, 0, k);
    }
    SearchFirst(p, u, 0, 0, 13);
    SearchNone(p, u, 13);
    ReplaceOnce(p, u, 0, 13);
  }

  /** Neither form pass changes a text without `=`. */
  lemma FormPassesNone(w: string)
    requires '=' !in w
    ensures FormPass(FormPass(w, UserKeys, UserTemplate), PasswordKeys, PasswordTemplate) == w
  {
    forall k | 0 <= k <= |w|
      ensures MatchEnd(FormField(UserKeys), w, k).None? && MatchEnd(FormField(PasswordKeys), w, k).None?
    {
      NoFormField(UserKeys, w, k);
      NoFormField(PasswordKeys, w, k);
    }
    NothingReplaced(FormField(UserKeys), w);
    NothingReplaced(FormField(PasswordKeys), w);
  }

  /** The tail `user":"x"` of CascadeBody. */
  lemma BodyTail(s: string)
    requires SanitizerProps.BodyShape(s)
    ensures s[16..] == "user\":\"x\""
  {
    assert s[16..] == s[16..20] + [s[20], s[21], s[22], s[23], s[24]];
  }

  lemma UserTemplateText()
    ensures JsonTemplate("user", UserTemplate) == "\"user\": \"{{username}}\""
  {
  }

  lemma PassTemplateText()
    ensures JsonTemplate("pass", PasswordTemplate) == "\"pass\": \"{{password}}\""
  {
  }

  /** UserDone from its three parts: the front of the body, the template
      and the tail. */
  lemma UserDoneParts(x: string, t: string, y: string)
    requires |x| == 7 && x[0] == '"' && x[1..5] == "pass" && x[5] == '"' && x[6] == ':' && 'w' !in x && 'W' !in x
    requires t == "\"user\": \"{{username}}\"" && y == "user\":\"x\""
    ensures UserDone(x + t + y)
  {
    var u := x + t + y;
    assert u[..7] == x && u[7..29] == t && u[29..] == y;
    assert u[1..5] == x[1..5];
    UserDoneTemplate(u, t);
    UserDoneLacks(x, t, y);
  }

  lemma UserDoneTemplate(u: string, t: string)
    requires |u| == 38 && t == "\"user\": \"{{username}}\"" && u[7..29] == t
    ensures u[7] == '"' && u[8..12] == "user" && u[12] == '"'
  {
    assert u[7] == t[0] && u[12] == t[5];
    assert t[0] == '"' && t[5] == '"' && t[1..5] == "user";
    assert forall k | 8 <= k < 12 :: u[k] == u[7..29][k - 7];
    assert u[8..12] == t[1..5];
  }

  lemma UserDoneLacks(x: string, t: string, y: string)
    requires 'w' !in x && 'W' !in x
    requires t == "\"user\": \"{{username}}\"" && y == "user\":\"x\""
    ensures 'p' !in (x + t + y)[|x| + 6..] && 'P' !in (x + t + y)[|x| + 6..]
    ensures 'w' !in x + t + y && 'W' !in x + t + y
  {
    assert (x + t + y)[|x| + 6..] == t[6..] + y;
    LacksP(t[6..] + y, t, y);
    LacksW(t, y);
  }

  lemma LacksP(r: string, t: string, y: string)
    requires t == "\"user\": \"{{username}}\"" && y == "user\":\"x\"" && r == t[6..] + y
    ensures 'p' !in r && 'P' !in r
  {
    var m := ": \"{{username}}\"";
    assert t[6..] == m;
    assert 'p' !in m && 'P' !in m && 'p' !in y && 'P' !in y;
  }

  lemma LacksW(t: string, y: string)
    requires t == "\"user\": \"{{username}}\"" && y == "user\":\"x\""
    ensures 'w' !in t && 'W' !in t && 'w' !in y && 'W' !in y
  {
  }

  /** The characters the `user` pass leaves for the `pass` pass. */
  lemma UserDoneOf(s: string)
    requires SanitizerProps.BodyShape(s) && SanitizerProps.BodyLacks(s)
    ensures UserDone(s[..7] + JsonTemplate("user", UserTemplate) + s[16..])
  {
    BodyTail(s);
    UserTemplateText();
    SanitizerProps.CutLacks(s, 7, |s|, 'w');
    SanitizerProps.CutLacks(s, 7, |s|, 'W');
    assert s[..7][1..5] == s[1..5];
    UserDoneParts(s[..7], JsonTemplate("user", UserTemplate), s[16..]);
  }

  /** PassDone from its three parts: the `pass` template, the rest of the
      `user` template and the tail. */
  lemma PassDoneParts(a: string, b: string, y: string)
    requires a == PassText && b == UserRest && y == "user\":\"x\""
    ensures PassDone(a + b + y)
  {
    var w := a + b + y;
    assert w[..22] == a && w[22..38] == b && w[38..] == y;
    PartsLack(a, b, y);
  }

  lemma PartsLack(a: string, b: string, y: string)
    requires a == PassText && b == UserRest && y == "user\":\"x\""
    ensures '=' !in a + b + y && 'i' !in a + b + y && 'I' !in a + b + y
  {
    LiteralLacks(a);
    LiteralLacks(b);
    LiteralLacks(y);
  }

  lemma LiteralLacks(a: string)
    requires a == PassText || a == UserRest || a == "user\":\"x\""
    ensures '=' !in a && 'i' !in a && 'I' !in a
  {
  }

  /** The characters of Head text. */
  lemma HeadChars(w: string)
    requires Head(w)
    ensures w[0] == '"' && w[1..5] == "pass" && w[5] == '"' && w[6] == ':' && w[7] == ' ' && w[8] == '"'
    ensures w[9] == '{' && w[10] == '{' && w[11..19] == "password" && w[19] == '}' && w[20] == '}' && w[21] == '"'
    ensures w[22] == ':' && w[23] == ' ' && w[24] == '"' && w[25] == '{' && w[26] == '{' && w[27..35] == "username"
    ensures w[35] == '}' && w[36] == '}' && w[37] == '"'
  {
    HeadFront(w, w[..22]);
    HeadMiddle(w, w[22..38]);
  }

  lemma HeadFront(w: string, a: string)
    requires |w| >= 22 && a == PassText && w[..22] == a
    ensures w[0] == '"' && w[1..5] == "pass" && w[5] == '"' && w[6] == ':' && w[7] == ' ' && w[8] == '"'
    ensures w[9] == '{' && w[10] == '{' && w[11..19] == "password" && w[19] == '}' && w[20] == '}' && w[21] == '"'
  {
    assert forall k | 0 <= k < 22 :: w[k] == a[k];
    assert w[1..5] == a[1..5] && w[11..19] == a[11..19];
  }

  lemma HeadMiddle(w: string, b: string)
    requires |w| >= 38 && b == UserRest && w[22..38] == b
    ensures w[22] == ':' && w[23] == ' ' && w[24] == '"' && w[25] == '{' && w[26] == '{' && w[27..35] == "username"
    ensures w[35] == '}' && w[36] == '}' && w[37] == '"'
  {
    assert forall k | 27 <= k < 35 :: w[k] == b[k - 22];
    assert w[27..35] == b[5..13];
  }

  lemma PassDoneTail(w: string)
    requires PassDone(w)
    ensures w[38..42] == "user" && w[42] == '"' && w[43] == ':' && w[44] == '"' && w[45] == 'x' && w[46] == '"'
  {
    var y := w[38..];
    assert y == "user\":\"x\"";
    assert forall k | 38 <= k < 42 :: w[k] == y[k - 38];
    assert w[38..42] == y[..4];
  }

  /** The characters the `pass` pass leaves for the form passes. */
  lemma PassDoneOf(s: string)
    requires SanitizerProps.BodyShape(s) && SanitizerProps.BodyLacks(s)
    ensures PassDone(JsonTemplate("pass", PasswordTemplate) + (s[..7] + JsonTemplate("user", UserTemplate) + s[16..])[13..])
  {
    var t := JsonTemplate("user", UserTemplate);
    BodyTail(s);
    UserTemplateText();
    PassTemplateText();
    var u := s[..7] + t + s[16..];
    assert u[13..] == t[6..] + s[16..];
    assert t[6..] == ": \"{{username}}\"";
    assert JsonTemplate("pass", PasswordTemplate) == PassText;
    PassDoneParts(JsonTemplate("pass", PasswordTemplate), t[6..], s[16..]);
    assert JsonTemplate("pass", PasswordTemplate) + u[13..] == JsonTemplate("pass", PasswordTemplate) + t[6..] + s[16..];
  }

  /** The `user` field at the end of the text is found, and it is not the
      template. */
  lemma PassDoneNotTemplated(w: string)
    requires PassDone(w)
    ensures w[37..47] in Matches(JsonField("user"), w) && w[37..47] != JsonTemplate("user", UserTemplate)
    ensures !Templated(w)
  {
    var p := JsonField("user");
    UserFoundAgain(w);
    FirstMatch(p, w, 37, 47);
    assert JsonCredentials[2].0 == "user" && JsonCredentials[2].1 == UserTemplate;
    assert |w[37..47]| != |JsonTemplate("user", UserTemplate)|;
  }

  /** In PassDone text the `user` pass finds the trailing `"user":"x"`. */
  lemma UserFoundAgain(w: string)
    requires PassDone(w)
    ensures Search(JsonField("user"), w, 0) == Some((37, 47))
  {
    var p := JsonField("user");
    UserHitAgain(w);
    UserMissFront(w);
    UserMissMiddle(w);
    SearchFirst(p, w, 0, 37, 47);
  }
  lemma UserHitAgain(w: string)
    requires PassDone(w)
    ensures MatchEnd(JsonField("user"), w, 37) == Some(47)
  {
    HeadMiddle(w, w[22..38]);
    PassDoneTail(w);
    JsonHit("user", w, 37, 46);
  }
  lemma UserMissFront(w: string)
    requires Head(w)
    ensures forall k | 0 <= k < 22 :: MatchEnd(JsonField("user"), w, k).None?
  {
    HeadFront(w, w[..22]);
    forall k | 0 <= k < 22
      ensures MatchEnd(JsonField("user"), w, k).None?
    {
      JsonMissAt("user", w, k);
    }
  }
  lemma UserMissMiddle(w: string)
    requires Head(w)
    ensures forall k | 22 <= k < 37 :: MatchEnd(JsonField("user"), w, k).None?
  {
    HeadMiddle(w, w[22..38]);
    forall k | 22 <= k < 37
      ensures MatchEnd(JsonField("user"), w, k).None?
    {
      JsonMissAt("user", w, k);
    }
  }

  /** What replacePreAuthCredentials makes of the body: the `user` pass
      rewrites `"user":""`, and the `pass` pass then rewrites
      `"pass":"user"`, leaving `"user":"x"` behind the `user` template. */
  lemma CredentialsOfBody(s: string)
    requires SanitizerProps.BodyShape(s) && SanitizerProps.BodyLacks(s)
    ensures Credentials(s) == JsonTemplate("pass", PasswordTemplate) + (s[..7] + JsonTemplate("user", UserTemplate) + s[16..])[13..]
  {
    JsonPassesOfBody(s);
    PassDoneOf(s);
    FormPassesNone(JsonTemplate("pass", PasswordTemplate) + (s[..7] + JsonTemplate("user", UserTemplate) + s[16..])[13..]);
  }

  lemma JsonPassesOfBody(s: string)
    requires SanitizerProps.BodyShape(s) && SanitizerProps.BodyLacks(s)
    ensures JsonPasses(s, 5) == JsonTemplate("pass", PasswordTemplate) + (s[..7] + JsonTemplate("user", UserTemplate) + s[16..])[13..]
  {
    var u := s[..7] + JsonTemplate("user", UserTemplate) + s[16..];
    JsonPassesUser(s);
    UserDoneOf(s);
    JsonPassesLast(s, u);
  }

  /** The `password` pass leaves UserDone text as it is, and the `pass`
      pass rewrites it. */
  lemma JsonPassesLast(s: string, u: string)
    requires JsonPasses(s, 3) == u && UserDone(u)
    ensures JsonPasses(s, 5) == JsonTemplate("pass", PasswordTemplate) + u[13..]
  {
    assert JsonCredentials[3] == ("password", PasswordTemplate);
    JsonPassAbsent(u, JsonCredentials[3], 4);
    PassesStep(s, 4, u, u);
    assert JsonCredentials[4] == ("pass", PasswordTemplate);
    PassPassOfUserDone(u);
    PassesStep(s, 5, u, JsonTemplate("pass", PasswordTemplate) + u[13..]);
  }

  lemma JsonPassesUser(s: string)
    requires SanitizerProps.BodyShape(s) && SanitizerProps.BodyLacks(s)
    ensures JsonPasses(s, 3) == s[..7] + JsonTemplate("user", UserTemplate) + s[16..]
  {
    JsonPassesFirst(s);
    UserPassOfBody(s);
    PassesStep(s, 3, s, s[..7] + JsonTemplate("user", UserTemplate) + s[16..]);
  }

  /** `email` and `username` leave CascadeBody as it is. */
  lemma JsonPassesFirst(s: string)
    requires SanitizerProps.BodyLacks(s)
    ensures JsonPasses(s, 2) == s
  {
    assert JsonCredentials[0] == ("email", UserTemplate);
    JsonPassAbsent(s, JsonCredentials[0], 1);
    PassesStep(s, 1, s, s);
    assert JsonCredentials[1] == ("username", UserTemplate);
    JsonPassAbsent(s, JsonCredentials[1], 4);
    PassesStep(s, 2, s, s);
  }

  lemma PassesStep(s: string, n: nat, x: string, y: string)
    requires 0 < n <= |JsonCredentials| && JsonPasses(s, n - 1) == x && JsonPass(x, JsonCredentials[n - 1]) == y
    ensures JsonPasses(s, n) == y
  {
  }

  /** replacePreAuthCredentials does not always leave its output templated:
      a `user` field survives in what it returns for CascadeBody. */
  lemma CredentialsNotTemplated()
    ensures !Templated(Credentials(SanitizerProps.CascadeBody))
  {
    var s := SanitizerProps.CascadeBody;
    SanitizerProps.BodyShaped();
    SanitizerProps.BodyLacking();
    CredentialsOfBody(s);
    PassDoneOf(s);
    PassDoneNotTemplated(Credentials(s));
  }

  // ---------------------------------------------------------------------
  // A second run

  lemma RewrittenTail(x: string)
    requires Rewritten(x)
    ensures x[38..42] == "user" && x[42] == '"' && x[43] == ':' && x[44] == ' ' && x[45] == '"' && x[46] == '{'
    ensures x[47] == '{' && x[48..56] == "username" && x[56] == '}' && x[57] == '}' && x[58] == '"'
  {
    var y := x[38..];
    assert y == "user\": \"{{username}}\"";
    assert forall k | 38 <= k < 59 :: x[k] == y[k - 38];
    assert x[38..42] == y[..4] && x[48..56] == y[10..18];
  }

  /** `username` matches nowhere in PassDone text. */
  lemma UsernameAgain(w: string)
    requires PassDone(w)
    ensures JsonPass(w, JsonCredentials[1]) == w
  {
    assert JsonCredentials[1] == ("username", UserTemplate);
    HeadChars(w);
    PassDoneTail(w);
    forall k | 0 <= k <= |w|
      ensures MatchEnd(JsonField("username"), w, k).None?
    {
      if k == 37 {
        JsonMissLetter("username", w, 37, 4);
      } else {
        JsonMissAt("username", w, k);
      }
    }
    JsonPassNone(w, JsonCredentials[1]);
  }

  /** The `user` pass rewrites the trailing `"user":"x"` of PassDone text. */
  lemma UserAgain(w: string)
    requires PassDone(w)
    ensures JsonPass(w, JsonCredentials[2]) == w[..37] + JsonTemplate("user", UserTemplate) + w[47..]
  {
    assert JsonCredentials[2] == ("user", UserTemplate);
    var p := JsonField("user");
    UserFoundAgain(w);
    JsonMissAt("user", w, 47);
    SearchNone(p, w, 47);
    ReplaceOnce(p, w, 37, 47);
  }

  /** `password` matches nowhere in Rewritten text. */
  lemma PasswordAgain(x: string)
    requires Rewritten(x)
    ensures JsonPass(x, JsonCredentials[3]) == x
  {
    assert JsonCredentials[3] == ("password", PasswordTemplate);
    HeadChars(x);
    RewrittenTail(x);
    forall k | 0 <= k <= |x|
      ensures MatchEnd(JsonField("password"), x, k).None?
    {
      if k == 0 {
        JsonMissLetter("password", x, 0, 4);
      } else {
        JsonMissAt("password", x, k);
      }
    }
    JsonPassNone(x, JsonCredentials[3]);
  }

  /** The `pass` pass finds its own template at the front of Rewritten
      text and writes it back as it was. */
  lemma PassAgain(x: string)
    requires Rewritten(x)
    ensures JsonPass(x, JsonCredentials[4]) == x
  {
    assert JsonCredentials[4] == ("pass", PasswordTemplate);
    var p := JsonField("pass");
    PassMatchAgain(x);
    ReplaceOnce(p, x, 0, 22);
    PassTemplateText();
    WriteBack(x, JsonTemplate("pass", PasswordTemplate), 22);
  }

  lemma WriteBack(s: string, t: string, e: nat)
    requires e <= |s| && s[..e] == t
    ensures s[..0] + t + s[e..] == s
  {
    assert s[..e] + s[e..] == s;
  }

  lemma PassMatchAgain(x: string)
    requires Rewritten(x)
    ensures Search(JsonField("pass"), x, 0) == Some((0, 22)) && Search(JsonField("pass"), x, 22) == None
  {
    var p := JsonField("pass");
    PassHitAgain(x);
    forall k | 22 <= k <= |x|
      ensures MatchEnd(p, x, k).None?
    {
      JsonAbsentAt("pass", x, 22, 0, k);
    }
    SearchFirst(p, x, 0, 0, 22);
    SearchNone(p, x, 22);
  }

  lemma PassHitAgain(x: string)
    requires Rewritten(x)
    ensures MatchEnd(JsonField("pass"), x, 0) == Some(22)
  {
    HeadChars(x);
    var h := x[..22];
    assert h == PassText;
    assert x[9..21] == h[9..21];
    assert h[9..21] == "{{password}}";
    JsonHitSpaced("pass", x, 0, 21);
  }

  /** The text the `user` pass makes of PassDone text. */
  lemma RewrittenOf(w: string)
    requires PassDone(w)
    ensures Rewritten(w[..37] + JsonTemplate("user", UserTemplate) + w[47..])
  {
    var t := JsonTemplate("user", UserTemplate);
    UserTemplateText();
    var x := w[..37] + t + w[47..];
    RewrittenSplit(w, t, x);
    RewrittenHead(w, x);
    RewrittenLacks(w, t, x);
  }

  lemma RewrittenSplit(w: string, t: string, x: string)
    requires |w| == 47 && |t| == 22 && x == w[..37] + t + w[47..]
    ensures |x| == 59 && x == w[..37] + t && x[..37] == w[..37] && x[37..] == t
    ensures x[22..] == w[22..37] + t && x[38..] == t[1..]
  {
    assert w[47..] == [];
  }

  lemma RewrittenHead(w: string, x: string)
    requires PassDone(w) && |x| == 59 && x[..37] == w[..37] && x[37] == '"'
    ensures Head(x)
  {
    assert x[..22] == w[..22];
    assert x[22..38] == w[22..37] + [x[37]];
    assert w[22..38] == w[22..37] + [w[37]];
    HeadChars(w);
  }

  lemma RewrittenLacks(w: string, t: string, x: string)
    requires PassDone(w) && t == "\"user\": \"{{username}}\""
    requires |x| == 59 && x == w[..37] + t && x[22..] == w[22..37] + t && x[38..] == t[1..]
    ensures Rewritten(x)
  {
    assert '=' !in t && 'p' !in t && 'P' !in t;
    assert 'p' !in UserRest && 'P' !in UserRest;
    assert w[22..37] == UserRest[..15];
    assert forall c | c in w[..37] :: c in w;
    assert t[1..] == "user\": \"{{username}}\"";
    assert Head(x) by { RewrittenHead(w, x); }
  }

  /** replacePreAuthCredentials on PassDone text: only the `user` pass
      changes it. */
  lemma CredentialsAgain(w: string)
    requires PassDone(w)
    ensures Credentials(w) == w[..37] + JsonTemplate("user", UserTemplate) + w[47..]
  {
    var x := w[..37] + JsonTemplate("user", UserTemplate) + w[47..];
    JsonPassesAgain(w);
    RewrittenOf(w);
    FormPassesNone(x);
  }

  lemma JsonPassesAgain(w: string)
    requires PassDone(w)
    ensures JsonPasses(w, 5) == w[..37] + JsonTemplate("user", UserTemplate) + w[47..]
  {
    var x := w[..37] + JsonTemplate("user", UserTemplate) + w[47..];
    JsonPassesAgainUser(w);
    RewrittenOf(w);
    PasswordAgain(x);
    PassesStep(w, 4, x, x);
    PassAgain(x);
    PassesStep(w, 5, x, x);
  }

  lemma JsonPassesAgainUser(w: string)
    requires PassDone(w)
    ensures JsonPasses(w, 3) == w[..37] + JsonTemplate("user", UserTemplate) + w[47..]
  {
    assert JsonCredentials[0] == ("email", UserTemplate);
    JsonPassAbsent(w, JsonCredentials[0], 3);
    PassesStep(w, 1, w, w);
    UsernameAgain(w);
    PassesStep(w, 2, w, w);
    UserAgain(w);
    PassesStep(w, 3, w, w[..37] + JsonTemplate("user", UserTemplate) + w[47..]);
  }

  /** replacePreAuthCredentials is not idempotent: run again on what it
      returns for CascadeBody, it rewrites the `user` field it left. */
  lemma CredentialsNotIdempotent()
    ensures Credentials(Credentials(SanitizerProps.CascadeBody)) != Credentials(SanitizerProps.CascadeBody)
  {
    var s := SanitizerProps.CascadeBody;
    SanitizerProps.BodyShaped();
    SanitizerProps.BodyLacking();
    CredentialsOfBody(s);
    PassDoneOf(s);
    var w := Credentials(s);
    CredentialsAgain(w);
    UserTemplateText();
    assert |w[..37] + JsonTemplate("user", UserTemplate) + w[47..]| == 59;
  }
}
