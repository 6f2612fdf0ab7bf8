/** Whether sanitizePreAuthBody is idempotent. Each pass is idempotent on
    its own, but a later pass can delete the key of a match an earlier pass
    found, and so expose a match that the earlier scan stepped over. */
module SanitizerProps {
  import opened Wrappers
  import opened Strings
  import opened Sanitizer

  // ---------------------------------------------------------------------
  // A fixed point of the sanitizer is a fixed point of every pass

  /** A replacement that does not shorten the text leaves it as it is:
      every match it finds has an empty value. */
  lemma {:induction false} ReplaceFromKept(p: Pattern, s: string, i: nat)
    requires i <= |s| && |ReplaceFrom(p, s, i)| >= |s| - i
    ensures ReplaceFrom(p, s, i) == s[i..]
    decreases |s| - i, 1
  {
    if i < |s| {
      if MatchAt(p, s, i).Some? {
        KeptAtMatch(p, s, i);
      } else {
        KeptAtMiss(p, s, i);
      }
    }
  }

  lemma {:induction false} KeptAtMatch(p: Pattern, s: string, i: nat)
    requires i < |s| && MatchAt(p, s, i).Some? && |ReplaceFrom(p, s, i)| >= |s| - i
    ensures ReplaceFrom(p, s, i) == s[i..]
    decreases |s| - i, 0
  {
    var c := MatchAt(p, s, i).value;
    var rest := ReplaceFrom(p, s, c.end);
    assert ReplaceFrom(p, s, i) == s[i..c.valueStart] + s[c.valueEnd..c.end] + rest;
    KeptHit(s, i, c, rest, ReplaceFrom(p, s, i));
    ReplaceFromKept(p, s, c.end);
    KeptJoin(s, i, c, rest, ReplaceFrom(p, s, i));
  }

  lemma {:induction false} KeptAtMiss(p: Pattern, s: string, i: nat)
    requires i < |s| && MatchAt(p, s, i).None? && |ReplaceFrom(p, s, i)| >= |s| - i
    ensures ReplaceFrom(p, s, i) == s[i..]
    decreases |s| - i, 0
  {
    var rest := ReplaceFrom(p, s, i + 1);
    assert ReplaceFrom(p, s, i) == [s[i]] + rest;
    ReplaceFromKept(p, s, i + 1);
    KeptMissJoin(s, i, rest, ReplaceFrom(p, s, i));
  }

  lemma KeptMissJoin(s: string, i: nat, rest: string, r: string)
    requires i < |s| && rest == s[i + 1..] && r == [s[i]] + rest
    ensures r == s[i..]
  {
    assert s[i..] == [s[i]] + s[i + 1..];
  }

  lemma KeptHit(s: string, i: nat, c: Cut, rest: string, r: string)
    requires i < c.valueStart <= c.valueEnd <= c.end <= |s| && |rest| <= |s| - c.end
    requires r == s[i..c.valueStart] + s[c.valueEnd..c.end] + rest && |r| >= |s| - i
    ensures c.valueStart == c.valueEnd && |rest| >= |s| - c.end
  {
  }

  lemma KeptJoin(s: string, i: nat, c: Cut, rest: string, r: string)
    requires i < c.valueStart == c.valueEnd <= c.end <= |s| && rest == s[c.end..]
    requires r == s[i..c.valueStart] + s[c.valueEnd..c.end] + rest
    ensures r == s[i..]
  {
    assert s[i..] == s[i..c.valueStart] + s[c.valueEnd..c.end] + s[c.end..];
  }

  lemma ReplaceAllKept(p: Pattern, s: string)
    requires |ReplaceAll(p, s)| >= |s|
    ensures ReplaceAll(p, s) == s
  {
    ReplaceFromKept(p, s, 0);
  }

  /** Quoted passes that do not shorten the text leave it as it is, and so
      does each of them. */
  lemma {:induction false} KeyPassesKept(keys: seq<string>, s: string, spaced: bool)
    requires |KeyPasses(keys, s, spaced)| >= |s|
    ensures KeyPasses(keys, s, spaced) == s
    ensures forall n | 0 <= n < |keys| ::
      ReplaceAll(QuotedPattern(keys[n], '"', spaced), s) == s && ReplaceAll(QuotedPattern(keys[n], '\'', spaced), s) == s
  {
    if keys != [] {
      var t := ReplaceAll(QuotedPattern(keys[0], '"', spaced), s);
      var u := ReplaceAll(QuotedPattern(keys[0], '\'', spaced), t);
      assert |KeyPasses(keys[1..], u, spaced)| <= |u| <= |t| <= |s|;
      ReplaceAllKept(QuotedPattern(keys[0], '"', spaced), s);
      ReplaceAllKept(QuotedPattern(keys[0], '\'', spaced), s);
      KeyPassesKept(keys[1..], s, spaced);
      forall n | 1 <= n < |keys|
        ensures keys[n] == keys[1..][n - 1]
      {
      }
    }
  }

  /** A body the sanitizer returns unchanged is returned unchanged by each
      of its passes, the patterns as written when `spaced` is false. */
  lemma FixedPasses(body: string, spaced: bool)
    requires ReplaceAll(Form, KeyPasses(CredentialKeys, body, spaced)) == body
    ensures forall key | key in CredentialKeys ::
      ReplaceAll(QuotedPattern(key, '"', spaced), body) == body && ReplaceAll(QuotedPattern(key, '\'', spaced), body) == body
    ensures ReplaceAll(Form, body) == body
  {
    KeyPassesKept(CredentialKeys, body, spaced);
  }

  /** A body sanitizePreAuthBody returns unchanged is a fixed point of each
      quoted pass and of the form pass. */
  lemma SanitizedFixedPasses(body: string)
    requires Sanitized(body) == body
    ensures forall key | key in CredentialKeys ::
      ReplaceAll(Quoted(key, '"'), body) == body && ReplaceAll(Quoted(key, '\''), body) == body
    ensures ReplaceAll(Form, body) == body
  {
    if body != [] {
      FixedPasses(body, false);
    }
  }

  // ---------------------------------------------------------------------
  // Scanning one step at a time

  /** A match at `i`: the value is dropped. */
  lemma ScanHit(p: Pattern, s: string, i: nat, a: nat, b: nat, e: nat)
    requires i < |s| && MatchAt(p, s, i) == Some(Cut(a, b, e))
    ensures i < a <= b <= e <= |s|
    ensures ReplaceFrom(p, s, i) == s[i..a] + s[b..e] + ReplaceFrom(p, s, e)
  {
  }

  /** A quoted pattern does not match at a quote that is not followed by
      the first letter of its key. */
  lemma QuotedMiss(key: string, q: char, spaced: bool, s: string, i: nat)
    requires i < |s| && key != [] && (i + 1 < |s| ==> LowerChar(s[i + 1]) != LowerChar(key[0]))
    ensures MatchAt(QuotedPattern(key, q, spaced), s, i).None?
  {
    var k := i + 1 + |key|;
    if k < |s| && SameLetters(s[i + 1..k], key) {
      assert ToLower(s[i + 1..k])[0] == ToLower(key)[0];
    }
  }

  /** A quoted pattern whose key holds a letter the text does not, in
      either case, leaves the text as it is. */
  lemma AbsentLetter(key: string, q: char, spaced: bool, s: string, t: nat)
    requires t < |key| && 'a' <= key[t] <= 'z' && key[t] !in s && UpperChar(key[t]) !in s
    ensures ReplaceAll(QuotedPattern(key, q, spaced), s) == s
  {
    var p := QuotedPattern(key, q, spaced);
    forall j | 0 <= j < |s|
      ensures MatchAt(p, s, j).None?
    {
      AbsentLetterAt(key, q, spaced, s, t, j);
    }
    ReplaceFromNoMatch(p, s, 0);
    assert s[0..] == s;
  }

  lemma AbsentLetterAt(key: string, q: char, spaced: bool, s: string, t: nat, j: nat)
    requires t < |key| && 'a' <= key[t] <= 'z' && key[t] !in s && UpperChar(key[t]) !in s && j < |s|
    ensures MatchAt(QuotedPattern(key, q, spaced), s, j).None?
  {
    var k := j + 1 + |key|;
    if k < |s| {
      assert s[j + 1 + t] == s[j + 1..k][t];
      assert s[j + 1 + t] in s;
    }
  }

  /** A quoted pattern matches `"key":"…"` written without gaps, up to the
      next quote. */
  lemma QuotedHit(key: string, q: char, spaced: bool, s: string, i: nat, v: nat)
    requires i + |key| + 4 <= v < |s| && s[i] == q && SameLetters(s[i + 1..i + 1 + |key|], key)
    requires s[i + 1 + |key|] == q && s[i + 2 + |key|] == ':' && s[i + 3 + |key|] == q
    requires q !in s[i + 4 + |key|..v] && s[v] == q && q != ':' && LowerChar(q) != 's' && !IsSpace(q)
    ensures MatchAt(QuotedPattern(key, q, spaced), s, i) == Some(Cut(i + 4 + |key|, v, v + 1))
  {
    var k := i + 1 + |key|;
    GapHere(s, k + 1, spaced);
    GapHere(s, k + 2, spaced);
    FindCharAt(s, k + 3, v, q);
  }

  /** No gap to skip before a character that is neither `s` nor white
      space. */
  lemma GapHere(s: string, j: nat, spaced: bool)
    requires j < |s| && LowerChar(s[j]) != 's' && !IsSpace(s[j])
    ensures Gap(s, j, spaced) == j
  {
  }

  /** The first `c` from `j` on is at `v`. */
  lemma FindCharAt(s: string, j: nat, v: nat, c: char)
    requires j <= v < |s| && c !in s[j..v] && s[v] == c
    ensures FindChar(s, j, c) == v
    decreases v - j
  {
    if j < v {
      assert s[j] == s[j..v][0];
      assert s[j + 1..v] == s[j..v][1..];
      FindCharAt(s, j + 1, v, c);
    }
  }

  /** Where the pattern matches nowhere in `[i, j)`, that stretch is kept. */
  lemma {:induction false} RunMiss(p: Pattern, s: string, i: nat, j: nat)
    requires i <= j <= |s| && forall k | i <= k < j :: MatchAt(p, s, k).None?
    ensures ReplaceFrom(p, s, i) == s[i..j] + ReplaceFrom(p, s, j)
    decreases j - i
  {
    if i < j {
      MissStep(p, s, i);
      RunMiss(p, s, i + 1, j);
      SliceJoin(s, i, i + 1, j);
      Regroup(s[i..i + 1], s[i + 1..j], ReplaceFrom(p, s, j));
    }
  }

  /** A text the pattern matches exactly once, at `i`: only that match's
      value `[a, b)` is dropped. */
  lemma CutOnce(p: Pattern, s: string, i: nat, a: nat, b: nat, e: nat)
    requires i < |s| && MatchAt(p, s, i) == Some(Cut(a, b, e))
    requires forall k | 0 <= k < i :: MatchAt(p, s, k).None?
    requires forall k | e <= k < |s| :: MatchAt(p, s, k).None?
    ensures ReplaceAll(p, s) == s[..a] + s[b..]
  {
    RunMiss(p, s, 0, i);
    ScanHit(p, s, i, a, b, e);
    RunMiss(p, s, e, |s|);
    assert ReplaceFrom(p, s, |s|) == [];
    SliceJoin(s, 0, i, a);
    SliceJoin(s, b, e, |s|);
    Regroup4(s[0..i], s[i..a], s[b..e], s[e..|s|]);
  }

  lemma MissStep(p: Pattern, s: string, i: nat)
    requires i < |s| && MatchAt(p, s, i).None?
    ensures ReplaceFrom(p, s, i) == s[i..i + 1] + ReplaceFrom(p, s, i + 1)
  {
    assert [s[i]] == s[i..i + 1];
  }

  lemma Regroup(a: string, b: string, c: string)
    ensures a + (b + c) == (a + b) + c
  {
  }

  lemma Regroup4(w: string, x: string, y: string, z: string)
    ensures w + (x + y + (z + [])) == (w + x) + (y + z)
  {
  }

  lemma SliceJoin(s: string, x: nat, y: nat, z: nat)
    requires x <= y <= z <= |s|
    ensures s[x..y] + s[y..z] == s[x..z]
    ensures s[..z] == s[0..z] && s[x..] == s[x..|s|]
  {
  }

  /** No quote, or not the first letter of the key after it: no match. */
  lemma QuotedMissAt(key: string, q: char, spaced: bool, s: string, k: nat)
    requires k < |s| && key != []
    requires s[k] != q || k + 1 == |s| || LowerChar(s[k + 1]) != LowerChar(key[0])
    ensures MatchAt(QuotedPattern(key, q, spaced), s, k).None?
  {
    if s[k] == q && k + 1 < |s| {
      QuotedMiss(key, q, spaced, s, k);
    }
  }

  // ---------------------------------------------------------------------
  // The counterexample

  /** `"pass":"user":""user":"x"`: the `user` pass finds the empty value
      of `"user":""` and steps over `"user":"x"`, whose opening quote is
      that match's closing one; the later `pass` pass then blanks `user`,
      the value of `"pass":"user"`. */
  const CascadeBody: string := "\"pass\":\"user\":\"\"user\":\"x\""

  /** `"pass":"":""user":"x"`: what sanitizePreAuthBody returns for
      CascadeBody. Its `"user":"x"` is no longer behind another match. */
  const CascadeSanitized: string := "\"pass\":\"\":\"\"user\":\"x\""

  /** The characters of CascadeBody. */
  predicate BodyShape(s: string) {
    && |s| == 25 && s[0] == '"' && s[1..5] == "pass" && s[5] == '"' && s[6] == ':' && s[7] == '"'
    && s[8..12] == "user" && s[12] == '"' && s[13] == ':' && s[14] == '"' && s[15] == '"'
    && s[16..20] == "user" && s[20] == '"' && s[21] == ':' && s[22] == '"' && s[23] == 'x' && s[24] == '"'
  }

  /** The characters of CascadeSanitized. */
  predicate SanitizedShape(s: string) {
    && |s| == 21 && s[0] == '"' && s[1..5] == "pass" && s[5] == '"' && s[6] == ':' && s[7] == '"'
    && s[8] == '"' && s[9] == ':' && s[10] == '"' && s[11] == '"'
    && s[12..16] == "user" && s[16] == '"' && s[17] == ':' && s[18] == '"' && s[19] == 'x' && s[20] == '"'
  }

  /** The `user` pass finds `"user":""` at 7, and nothing before it or
      after its closing quote. */
  lemma UserMatchesOfBody(s: string, spaced: bool)
    requires BodyShape(s)
    ensures MatchAt(QuotedPattern("user", '"', spaced), s, 7) == Some(Cut(15, 15, 16))
    ensures forall k | 0 <= k < 7 :: MatchAt(QuotedPattern("user", '"', spaced), s, k).None?
    ensures forall k | 16 <= k < 25 :: MatchAt(QuotedPattern("user", '"', spaced), s, k).None?
  {
    QuotedHit("user", '"', spaced, s, 7, 15);
    forall k | 0 <= k < 7 || 16 <= k < 25
      ensures MatchAt(QuotedPattern("user", '"', spaced), s, k).None?
    {
      QuotedMissAt("user", '"', spaced, s, k);
    }
  }

  /** The `pass` pass finds `"pass":"user"` at 0, and nothing after it. */
  lemma PassMatchesOfBody(s: string, spaced: bool)
    requires BodyShape(s)
    ensures MatchAt(QuotedPattern("pass", '"', spaced), s, 0) == Some(Cut(8, 12, 13))
    ensures forall k | 13 <= k < 25 :: MatchAt(QuotedPattern("pass", '"', spaced), s, k).None?
  {
    QuotedHit("pass", '"', spaced, s, 0, 12);
    forall k | 13 <= k < 25
      ensures MatchAt(QuotedPattern("pass", '"', spaced), s, k).None?
    {
      QuotedMissAt("pass", '"', spaced, s, k);
    }
  }

  /** On CascadeSanitized the `user` pass finds `"user":"x"` at 11. */
  lemma UserMatchesOfSanitized(s: string, spaced: bool)
    requires SanitizedShape(s)
    ensures MatchAt(QuotedPattern("user", '"', spaced), s, 11) == Some(Cut(19, 20, 21))
    ensures forall k | 0 <= k < 11 :: MatchAt(QuotedPattern("user", '"', spaced), s, k).None?
  {
    QuotedHit("user", '"', spaced, s, 11, 20);
    forall k | 0 <= k < 11
      ensures MatchAt(QuotedPattern("user", '"', spaced), s, k).None?
    {
      QuotedMissAt("user", '"', spaced, s, k);
    }
  }

  /** The `user` pass leaves CascadeBody as it is. */
  lemma UserPassKeeps(s: string, spaced: bool)
    requires BodyShape(s)
    ensures ReplaceAll(QuotedPattern("user", '"', spaced), s) == s
  {
    UserMatchesOfBody(s, spaced);
    CutOnce(QuotedPattern("user", '"', spaced), s, 7, 15, 15, 16);
    assert s[..15] + s[15..] == s;
  }

  /** The `pass` pass blanks the value `user` of `"pass":"user"`. */
  lemma PassPassCuts(s: string, spaced: bool)
    requires BodyShape(s)
    ensures ReplaceAll(QuotedPattern("pass", '"', spaced), s) == s[..8] + s[12..]
  {
    PassMatchesOfBody(s, spaced);
    CutOnce(QuotedPattern("pass", '"', spaced), s, 0, 8, 12, 13);
  }

  /** On CascadeSanitized the `user` pass blanks `x`. */
  lemma UserPassCuts(s: string, spaced: bool)
    requires SanitizedShape(s)
    ensures ReplaceAll(QuotedPattern("user", '"', spaced), s) == s[..19] + s[20..]
  {
    UserMatchesOfSanitized(s, spaced);
    CutOnce(QuotedPattern("user", '"', spaced), s, 11, 19, 20, 21);
  }

  /** Letters and signs CascadeBody lacks. */
  predicate BodyLacks(s: string) {
    && 'm' !in s && 'M' !in s && 'l' !in s && 'L' !in s && 'n' !in s && 'N' !in s
    && 'w' !in s && 'W' !in s && '\'' !in s && '=' !in s
  }

  lemma BodyShaped()
    ensures BodyShape(CascadeBody)
  {
    BodyPass(CascadeBody);
    BodyPassEnd(CascadeBody);
    BodyUser(CascadeBody);
    BodyUserEnd(CascadeBody);
    BodyBack(CascadeBody);
    BodyBackEnd(CascadeBody);
  }

  lemma BodyPass(b: string)
    requires b == CascadeBody
    ensures |b| == 25 && b[0] == '"' && b[1..5] == "pass"
  {
    assert b[1] == 'p' && b[2] == 'a' && b[3] == 's' && b[4] == 's';
    FourChars(b, 1, "pass");
  }

  lemma BodyPassEnd(b: string)
    requires b == CascadeBody
    ensures b[5] == '"' && b[6] == ':' && b[7] == '"'
  {
  }

  lemma BodyUser(b: string)
    requires b == CascadeBody
    ensures b[8..12] == "user"
  {
    assert b[8] == 'u' && b[9] == 's' && b[10] == 'e' && b[11] == 'r';
    FourChars(b, 8, "user");
  }

  lemma BodyUserEnd(b: string)
    requires b == CascadeBody
    ensures b[12] == '"' && b[13] == ':' && b[14] == '"' && b[15] == '"'
  {
  }

  lemma BodyBack(b: string)
    requires b == CascadeBody
    ensures b[16..20] == "user"
  {
    assert b[16] == 'u' && b[17] == 's' && b[18] == 'e' && b[19] == 'r';
    FourChars(b, 16, "user");
  }

  lemma BodyBackEnd(b: string)
    requires b == CascadeBody
    ensures b[20] == '"' && b[21] == ':' && b[22] == '"' && b[23] == 'x' && b[24] == '"'
  {
  }

  /** Four characters in a row spell `w`. */
  lemma FourChars(b: string, k: nat, w: string)
    requires |w| == 4 && k + 4 <= |b|
    requires b[k] == w[0] && b[k + 1] == w[1] && b[k + 2] == w[2] && b[k + 3] == w[3]
    ensures b[k..k + 4] == w
  {
    var x := b[k..k + 4];
    assert x[0] == w[0] && x[1] == w[1] && x[2] == w[2] && x[3] == w[3];
  }


  lemma BodyLacking()
    ensures BodyLacks(CascadeBody)
  {
    LacksEmail();
    LacksOthers();
  }

  lemma LacksEmail()
    ensures 'm' !in CascadeBody && 'M' !in CascadeBody && 'l' !in CascadeBody && 'L' !in CascadeBody
  {
  }

  lemma LacksOthers()
    ensures 'n' !in CascadeBody && 'N' !in CascadeBody && 'w' !in CascadeBody && 'W' !in CascadeBody
    ensures '\'' !in CascadeBody && '=' !in CascadeBody
  {
    LacksNames();
    LacksSigns();
  }

  lemma LacksNames()
    ensures 'n' !in CascadeBody && 'N' !in CascadeBody && 'w' !in CascadeBody && 'W' !in CascadeBody
  {
  }

  lemma LacksSigns()
    ensures '\'' !in CascadeBody && '=' !in CascadeBody
  {
  }

  lemma SanitizedShaped()
    ensures SanitizedShape(CascadeSanitized)
  {
  }

  lemma CascadeCut()
    ensures CascadeBody[..8] + CascadeBody[12..] == CascadeSanitized
  {
  }

  /** Cutting a stretch out of a text adds no character to it. */
  lemma CutLacks(s: string, a: nat, b: nat, c: char)
    requires a <= b <= |s| && c !in s
    ensures c !in s[..a] + s[b..]
  {
  }

  /** The two passes of the first key take `s` to `t`. */
  lemma KeyPassesStep(keys: seq<string>, s: string, t: string, spaced: bool)
    requires keys != []
    requires ReplaceAll(QuotedPattern(keys[0], '"', spaced), s) == t
    requires ReplaceAll(QuotedPattern(keys[0], '\'', spaced), t) == t
    ensures KeyPasses(keys, s, spaced) == KeyPasses(keys[1..], t, spaced)
  {
  }

  /** Neither pass of a key holding a letter the text lacks changes it. */
  lemma SkipKey(keys: seq<string>, s: string, spaced: bool, t: nat)
    requires keys != [] && t < |keys[0]| && 'a' <= keys[0][t] <= 'z'
    requires keys[0][t] !in s && UpperChar(keys[0][t]) !in s
    ensures KeyPasses(keys, s, spaced) == KeyPasses(keys[1..], s, spaced)
  {
    AbsentLetter(keys[0], '"', spaced, s, t);
    AbsentLetter(keys[0], '\'', spaced, s, t);
    KeyPassesStep(keys, s, s, spaced);
  }

  /** `email`, `login` and `username` leave CascadeBody as it is. */
  lemma BodyFirstKeys(s: string, spaced: bool)
    requires BodyLacks(s)
    ensures KeyPasses(CredentialKeys, s, spaced) == KeyPasses(CredentialKeys[3..], s, spaced)
  {
    SkipEmail(s, spaced);
    SkipLogin(s, spaced);
    SkipUsername(s, spaced);
  }

  lemma SkipEmail(s: string, spaced: bool)
    requires 'm' !in s && 'M' !in s
    ensures KeyPasses(CredentialKeys, s, spaced) == KeyPasses(CredentialKeys[1..], s, spaced)
  {
    assert CredentialKeys[0] == "email";
    SkipKey(CredentialKeys, s, spaced, 1);
  }

  lemma SkipLogin(s: string, spaced: bool)
    requires 'l' !in s && 'L' !in s
    ensures KeyPasses(CredentialKeys[1..], s, spaced) == KeyPasses(CredentialKeys[2..], s, spaced)
  {
    var keys := CredentialKeys[1..];
    assert keys[0] == "login" && keys[1..] == CredentialKeys[2..];
    SkipKey(keys, s, spaced, 0);
  }

  lemma SkipUsername(s: string, spaced: bool)
    requires 'n' !in s && 'N' !in s
    ensures KeyPasses(CredentialKeys[2..], s, spaced) == KeyPasses(CredentialKeys[3..], s, spaced)
  {
    var keys := CredentialKeys[2..];
    assert keys[0] == "username" && keys[1..] == CredentialKeys[3..];
    SkipKey(keys, s, spaced, 4);
  }

  /** `user` and `password` leave it as it is; `pass` blanks `user`. */
  lemma BodyLastKeys(s: string, spaced: bool)
    requires BodyShape(s) && BodyLacks(s)
    ensures KeyPasses(CredentialKeys[3..], s, spaced) == s[..8] + s[12..]
  {
    var keys := CredentialKeys[3..];
    UserPassKeeps(s, spaced);
    ReplaceFromUntouched(QuotedPattern("user", '\'', spaced), s, 0);
    KeyPassesStep(keys, s, s, spaced);
    assert keys[1..] == CredentialKeys[4..];
    BodyPasswordKeys(s, spaced);
  }

  lemma BodyPasswordKeys(s: string, spaced: bool)
    requires BodyShape(s) && BodyLacks(s)
    ensures KeyPasses(CredentialKeys[4..], s, spaced) == s[..8] + s[12..]
  {
    var keys := CredentialKeys[4..];
    assert keys[0] == "password" && keys[1..] == ["pass"];
    SkipKey(keys, s, spaced, 4);
    BodyPassKey(s, spaced);
  }

  lemma BodyPassKey(s: string, spaced: bool)
    requires BodyShape(s) && BodyLacks(s)
    ensures KeyPasses(["pass"], s, spaced) == s[..8] + s[12..]
  {
    var t := s[..8] + s[12..];
    PassPassCuts(s, spaced);
    CutLacks(s, 8, 12, '\'');
    ReplaceFromUntouched(QuotedPattern("pass", '\'', spaced), t, 0);
    KeyPassesStep(["pass"], s, t, spaced);
  }

  /** What the sanitizer makes of CascadeBody, as written and as intended. */
  lemma CascadePasses(s: string, spaced: bool)
    requires BodyShape(s) && BodyLacks(s)
    ensures ReplaceAll(Form, KeyPasses(CredentialKeys, s, spaced)) == s[..8] + s[12..]
  {
    BodyFirstKeys(s, spaced);
    BodyLastKeys(s, spaced);
    CutLacks(s, 8, 12, '=');
    ReplaceFromUntouched(Form, s[..8] + s[12..], 0);
  }

  /** CascadeSanitized is not a fixed point of the sanitizer. */
  lemma CascadeAgain(t: string, spaced: bool)
    requires SanitizedShape(t)
    ensures ReplaceAll(Form, KeyPasses(CredentialKeys, t, spaced)) != t
  {
    UserPassCuts(t, spaced);
    assert |t[..19] + t[20..]| < |t|;
    assert "user" in CredentialKeys;
    if ReplaceAll(Form, KeyPasses(CredentialKeys, t, spaced)) == t {
      FixedPasses(t, spaced);
    }
  }

  /** sanitizePreAuthBody is not idempotent: sanitizing CascadeBody gives
      CascadeSanitized, and sanitizing that again blanks its `x`. The same
      holds for the patterns as intended. */
  lemma SanitizedNotIdempotent()
    ensures Sanitized(CascadeBody) == CascadeSanitized
    ensures Sanitized(CascadeSanitized) != CascadeSanitized
    ensures SanitizedIntended(CascadeBody) == CascadeSanitized
    ensures SanitizedIntended(CascadeSanitized) != CascadeSanitized
  {
    BodyShaped();
    BodyLacking();
    SanitizedShaped();
    CascadeCut();
    CascadePasses(CascadeBody, false);
    CascadePasses(CascadeBody, true);
    CascadeAgain(CascadeSanitized, false);
    CascadeAgain(CascadeSanitized, true);
  }
}
