/** sanitizePreAuthBody: before a pre-auth request is saved, the values of
    its credential fields are blanked by global, case-insensitive regular
    expression replacements. Each pattern is modelled by a deterministic
    matcher that gives, for a start index, the leftmost-first match the
    regular expression engine would find there. */
module Sanitizer {
  import opened Wrappers
  import opened Strings

  const CredentialKeys: seq<string> := ["email", "login", "username", "user", "password", "pass"]

  /** The three patterns of sanitizePreAuthBody, all with the flags `gi`:
      `("key"s*:s*")([^"]*)(")` and its single-quoted twin (the `\s` of the
      template literal reaches the regular expression as a plain `s`), and
      `\b(email|login|username|user|password|pass)=([^&\r\n]*)`.
      `SpacedQuoted` is the quoted pattern as evidently intended,
      `("key"\s*:\s*")([^"]*)(")`, with white space around the colon. */
  datatype Pattern = Quoted(key: string, quote: char) | SpacedQuoted(key: string, quote: char) | Form

  /** A match ending at `end`: its value, `[valueStart, valueEnd)`, is the
      part the replacement drops; the text around it is written back. */
  datatype Cut = Cut(valueStart: nat, valueEnd: nat, end: nat)

  /** The end of the run of `s`/`S` starting at `j` (the `s*` of a quoted
      pattern; what follows it is never an `s`, so greedy is exact). */
  function SkipS(s: string, j: nat): (k: nat)
    requires j <= |s|
    ensures j <= k <= |s| && (k < |s| ==> LowerChar(s[k]) != 's')
    decreases |s| - j
  {
    if j < |s| && LowerChar(s[j]) == 's' then SkipS(s, j + 1) else j
  }

  /** The first index at or after `j` holding `c`, or `|s|`. */
  function FindChar(s: string, j: nat, c: char): (k: nat)
    requires j <= |s|
    ensures j <= k <= |s| && (k < |s| ==> s[k] == c)
    ensures forall m | j <= m < k :: s[m] != c
    decreases |s| - j
  {
    if j == |s| || s[j] == c then j else FindChar(s, j + 1, c)
  }

  predicate IsFormStop(c: char) {
    c == '&' || c == '\r' || c == '\n'
  }

  /** The end of `[^&\r\n]*` starting at `j`. */
  function FormValueEnd(s: string, j: nat): (k: nat)
    requires j <= |s|
    ensures j <= k <= |s| && (k < |s| ==> IsFormStop(s[k]))
    ensures forall m | j <= m < k :: !IsFormStop(s[m])
    decreases |s| - j
  {
    if j == |s| || IsFormStop(s[j]) then j else FormValueEnd(s, j + 1)
  }

  /** The gap allowed around the colon: a run of `s`/`S` as written, a
      run of white space as intended. */
  function Gap(s: string, j: nat, spaced: bool): (k: nat)
    requires j <= |s|
    ensures j <= k <= |s|
  {
    if spaced then SkipSpace(s, j) else SkipS(s, j)
  }

  /** A quoted pattern at `i`: quote, key, quote, gap, colon, gap, quote,
      a quote-free value, and the closing quote. */
  function QuotedAt(key: string, q: char, spaced: bool, s: string, i: nat): (r: Option<Cut>)
    requires i < |s|
    ensures r.Some? ==> i < r.value.valueStart <= r.value.valueEnd < r.value.end <= |s|
    ensures r.Some? ==> s[i] == q && s[r.value.valueStart - 1] == q && s[r.value.valueEnd] == q
    ensures r.Some? ==> forall m | r.value.valueStart <= m < r.value.valueEnd :: s[m] != q
  {
    var k := i + 1 + |key|;
    if k < |s| && s[i] == q && SameLetters(s[i + 1..k], key) && s[k] == q then
      var c := Gap(s, k + 1, spaced);
      if c < |s| && s[c] == ':' then
        var o := Gap(s, c + 1, spaced);
        if o < |s| && s[o] == q then
          var v := FindChar(s, o + 1, q);
          if v < |s| then Some(Cut(o + 1, v, v + 1)) else None
        else None
      else None
    else None
  }

  /** The length of the first credential key (in the order of the
      alternation) spelled at `i` and followed by `=`. */
  function FormKeyAt(keys: seq<string>, s: string, i: nat): (r: Option<nat>)
    ensures r.Some? ==> exists k | k in keys :: |k| == r.value
    ensures r.Some? ==> i + r.value < |s| && s[i + r.value] == '='
  {
    if keys == [] then None
    else if i + |keys[0]| < |s| && SameLetters(s[i..i + |keys[0]|], keys[0]) && s[i + |keys[0]|] == '=' then
      Some(|keys[0]|)
    else FormKeyAt(keys[1..], s, i)
  }

  /** The form pattern at `i`: a word boundary, a credential key, `=`, and
      the value up to `&`, CR, LF or the end. */
  function FormAt(s: string, i: nat): (r: Option<Cut>)
    requires i < |s|
    ensures r.Some? ==> i < r.value.valueStart <= r.value.valueEnd == r.value.end <= |s|
    ensures r.Some? ==> s[r.value.valueStart - 1] == '='
    ensures r.Some? ==> r.value.end < |s| ==> IsFormStop(s[r.value.end])
  {
    if i == 0 || !IsWordChar(s[i - 1]) then
      match FormKeyAt(CredentialKeys, s, i)
      case None => None
      case Some(n) =>
        var e := FormValueEnd(s, i + n + 1);
        Some(Cut(i + n + 1, e, e))
    else None
  }

  function MatchAt(p: Pattern, s: string, i: nat): (r: Option<Cut>)
    requires i < |s|
    ensures r.Some? ==> i < r.value.valueStart <= r.value.valueEnd <= r.value.end <= |s|
  {
    match p
    case Quoted(key, q) => QuotedAt(key, q, false, s, i)
    case SpacedQuoted(key, q) => QuotedAt(key, q, true, s, i)
    case Form => FormAt(s, i)
  }

  /** `s.replace(pattern, …)` from index `i` on: every match, leftmost
      first, written back without its value; scanning resumes after it. */
  function ReplaceFrom(p: Pattern, s: string, i: nat): (r: string)
    requires i <= |s|
    ensures |r| <= |s| - i
    decreases |s| - i
  {
    if i == |s| then []
    else match MatchAt(p, s, i)
      case Some(c) => s[i..c.valueStart] + s[c.valueEnd..c.end] + ReplaceFrom(p, s, c.end)
      case None => [s[i]] + ReplaceFrom(p, s, i + 1)
  }

  function ReplaceAll(p: Pattern, s: string): (r: string)
    ensures |r| <= |s|
  {
    ReplaceFrom(p, s, 0)
  }

  function QuotedPattern(key: string, q: char, spaced: bool): Pattern {
    if spaced then SpacedQuoted(key, q) else Quoted(key, q)
  }

  /** The two quoted replacements of each key, in the order of the loop. */
  function KeyPasses(keys: seq<string>, s: string, spaced: bool): (r: string)
    ensures |r| <= |s|
  {
    if keys == [] then s
    else
      var t := ReplaceAll(QuotedPattern(keys[0], '"', spaced), s);
      KeyPasses(keys[1..], ReplaceAll(QuotedPattern(keys[0], '\'', spaced), t), spaced)
  }

  /** What sanitizePreAuthBody returns. */
  function Sanitized(body: string): (r: string)
    ensures |r| <= |body|
  {
    if body == [] then body else ReplaceAll(Form, KeyPasses(CredentialKeys, body, false))
  }

  /** What sanitizePreAuthBody evidently means to return: the quoted
      patterns allow white space around the colon. */
  function SanitizedIntended(body: string): (r: string)
    ensures |r| <= |body|
  {
    if body == [] then body else ReplaceAll(Form, KeyPasses(CredentialKeys, body, true))
  }

  /** sanitizePreAuthBody, with its loop over the credential keys: the
      patterns as written when `spaced` is false, as intended when true. */
  method SanitizePreAuthBody(body: string, spaced: bool) returns (sanitized: string)
    ensures sanitized == if spaced then SanitizedIntended(body) else Sanitized(body)
    ensures body == [] ==> sanitized == []
  {
    if body == [] {
      return body;
    }
    sanitized := body;
    for i := 0 to |CredentialKeys|
      invariant KeyPasses(CredentialKeys[i..], sanitized, spaced) == KeyPasses(CredentialKeys, body, spaced)
    {
      var key := CredentialKeys[i];
      assert CredentialKeys[i..][1..] == CredentialKeys[i + 1..];
      sanitized := ReplaceAll(QuotedPattern(key, '"', spaced), sanitized);
      sanitized := ReplaceAll(QuotedPattern(key, '\'', spaced), sanitized);
    }
    sanitized := ReplaceAll(Form, sanitized);
  }

  // ---------------------------------------------------------------------
  // Properties

  /** The character without which a pattern cannot match. */
  function Trigger(p: Pattern): char {
    match p
    case Quoted(_, q) => q
    case SpacedQuoted(_, q) => q
    case Form => '='
  }

  /** A replacement leaves text without the pattern's quote (or `=`) as it is. */
  lemma {:induction false} ReplaceFromUntouched(p: Pattern, s: string, i: nat)
    requires i <= |s| && Trigger(p) !in s
    ensures ReplaceFrom(p, s, i) == s[i..]
    decreases |s| - i
  {
    if i < |s| {
      assert MatchAt(p, s, i).None?;
      ReplaceFromUntouched(p, s, i + 1);
      assert s[i..] == [s[i]] + s[i + 1..];
    }
  }

  lemma {:induction false} KeyPassesUntouched(keys: seq<string>, s: string, spaced: bool)
    requires '"' !in s && '\'' !in s
    ensures KeyPasses(keys, s, spaced) == s
  {
    if keys != [] {
      ReplaceFromUntouched(QuotedPattern(keys[0], '"', spaced), s, 0);
      ReplaceFromUntouched(QuotedPattern(keys[0], '\'', spaced), s, 0);
      KeyPassesUntouched(keys[1..], s, spaced);
    }
  }

  /** A body with no quote and no `=` is saved unchanged. */
  lemma SanitizeUntouched(body: string)
    requires '"' !in body && '\'' !in body && '=' !in body
    ensures Sanitized(body) == body
    ensures SanitizedIntended(body) == body
  {
    KeyPassesUntouched(CredentialKeys, body, false);
    KeyPassesUntouched(CredentialKeys, body, true);
    ReplaceFromUntouched(Form, body, 0);
  }

  /** `key=value` for a credential key in any letter case: the value is
      blanked and the key keeps its spelling. */
  lemma FormPairBlanked(key: string, k: string, v: string)
    requires key in CredentialKeys && SameLetters(k, key)
    requires forall m | 0 <= m < |v| :: !IsFormStop(v[m])
    ensures ReplaceAll(Form, k + "=" + v) == k + "="
  {
    var s := k + "=" + v;
    FormHere(key, k, v);
    ReplaceOneCut(Form, s, Cut(|k| + 1, |s|, |s|));
    assert s[..|k| + 1] == k + "=";
  }

  /** The form pattern matches all of `key=value`. */
  lemma FormHere(key: string, k: string, v: string)
    requires key in CredentialKeys && SameLetters(k, key)
    requires forall m | 0 <= m < |v| :: !IsFormStop(v[m])
    ensures MatchAt(Form, k + "=" + v, 0) == Some(Cut(|k| + 1, |k + "=" + v|, |k + "=" + v|))
  {
    var s := k + "=" + v;
    assert s[..|k|] == k;
    CredentialKeysWords();
    FormKeyFound(CredentialKeys, s, key, k);
    var n := FormKeyAt(CredentialKeys, s, 0).value;
    assert n == |k|;
    assert FormValueEnd(s, |k| + 1) == |s| by {
      FormValueEndAll(s, |k| + 1);
    }
  }

  /** A match at the start that runs to the end is the whole replacement. */
  lemma ReplaceOneCut(p: Pattern, s: string, c: Cut)
    requires 0 < |s| && MatchAt(p, s, 0) == Some(c) && c.end == |s|
    ensures ReplaceAll(p, s) == s[..c.valueStart] + s[c.valueEnd..]
  {
    assert ReplaceFrom(p, s, 0) == s[0..c.valueStart] + s[c.valueEnd..c.end] + ReplaceFrom(p, s, c.end);
    assert ReplaceFrom(p, s, |s|) == [];
  }

  lemma {:induction false} FormValueEndAll(s: string, j: nat)
    requires j <= |s| && forall m | j <= m < |s| :: !IsFormStop(s[m])
    ensures FormValueEnd(s, j) == |s|
    decreases |s| - j
  {
    if j < |s| {
      FormValueEndAll(s, j + 1);
    }
  }

  /** The credential keys are words. */
  lemma CredentialKeysWords()
    ensures forall a | a in CredentialKeys :: IsWord(a)
  {
    WordLetters("email");
    WordLetters("login");
    WordLetters("username");
    WordLetters("user");
    WordLetters("password");
    WordLetters("pass");
  }

  /** A non-empty run of lower-case letters is a word. */
  lemma WordLetters(a: string)
    requires a != [] && forall m | 0 <= m < |a| :: 'a' <= a[m] <= 'z'
    ensures IsWord(a)
  {
  }

  /** At a position spelling a credential key followed by `=`, some key of
      the alternation matches, with the same length. */
  lemma {:induction false} FormKeyFound(keys: seq<string>, s: string, key: string, k: string)
    requires key in keys && SameLetters(k, key) && |k| < |s| && s[..|k|] == k && s[|k|] == '='
    requires forall a | a in keys :: IsWord(a)
    ensures FormKeyAt(keys, s, 0) == Some(|k|)
  {
    var a := keys[0];
    if |a| < |s| && SameLetters(s[..|a|], a) && s[|a|] == '=' {
      assert s[0..|a|] == s[..|a|];
      assert SameLetters(s[..|k|], key);
      KeyLengthsAgree(s, a, key);
    } else {
      if key == a {
        assert s[0..|a|] == k;
      }
      FormKeyFound(keys[1..], s, key, k);
    }
  }

  /** Two words each spelled at the front of `s` and followed by `=` have
      the same length: a shorter one would put `=` inside the longer. */
  lemma KeyLengthsAgree(s: string, a: string, b: string)
    requires IsWord(a) && IsWord(b)
    requires |a| < |s| && SameLetters(s[..|a|], a) && s[|a|] == '='
    requires |b| < |s| && SameLetters(s[..|b|], b) && s[|b|] == '='
    ensures |a| == |b|
  {
    if |a| < |b| {
      assert false;
    } else if |b| < |a| {
      assert false;
    }
  }

  /** `"key":"value"` with a quote-free value: the value is blanked. */
  lemma QuotedPairBlanked(key: string, q: char, k: string, v: string)
    requires SameLetters(k, key) && q !in v && LowerChar(q) != 's'
    ensures ReplaceAll(Quoted(key, q), [q] + k + [q, ':', q] + v + [q]) == [q] + k + [q, ':', q, q]
  {
    var s := [q] + k + [q, ':', q] + v + [q];
    var n := |k|;
    QuotedHere(key, q, k, v);
    ReplaceOneCut(Quoted(key, q), s, Cut(n + 4, |s| - 1, |s|));
    assert s[..n + 4] == [q] + k + [q, ':', q];
    assert s[|s| - 1..] == [q];
  }

  /** The quoted pattern matches all of `"key":"value"`. */
  lemma QuotedHere(key: string, q: char, k: string, v: string)
    requires SameLetters(k, key) && q !in v && LowerChar(q) != 's'
    ensures var s := [q] + k + [q, ':', q] + v + [q];
      MatchAt(Quoted(key, q), s, 0) == Some(Cut(|k| + 4, |s| - 1, |s|))
  {
    var s := [q] + k + [q, ':', q] + v + [q];
    var n := |k|;
    assert s[1..1 + n] == k;
    assert s[1 + n] == q && s[2 + n] == ':' && s[3 + n] == q;
    assert Gap(s, n + 2, false) == n + 2;
    assert Gap(s, n + 3, false) == n + 3;
    assert FindChar(s, n + 4, q) == |s| - 1 by {
      FindCharLast(s, n + 4, q);
    }
  }

  lemma {:induction false} FindCharLast(s: string, j: nat, q: char)
    requires j < |s| && s[|s| - 1] == q && forall m | j <= m < |s| - 1 :: s[m] != q
    ensures FindChar(s, j, q) == |s| - 1
    decreases |s| - j
  {
    if j < |s| - 1 {
      FindCharLast(s, j + 1, q);
    }
  }

  // ---------------------------------------------------------------------
  // The colon gap

  /** A replacement that finds no match from `i` on leaves the text as it is. */
  lemma {:induction false} ReplaceFromNoMatch(p: Pattern, s: string, i: nat)
    requires i <= |s| && forall j | i <= j < |s| :: MatchAt(p, s, j).None?
    ensures ReplaceFrom(p, s, i) == s[i..]
    decreases |s| - i
  {
    if i < |s| {
      ReplaceFromNoMatch(p, s, i + 1);
      assert s[i..] == [s[i]] + s[i + 1..];
    }
  }

  /** As written, the quoted pattern allows only `s` letters around the
      colon: a credential field written `"key": "value"`, with the space
      JSON writers usually put after the colon, keeps its value. */
  lemma SpacedPairKept(key: string, q: char, k: string, v: string)
    requires IsWord(key) && SameLetters(k, key) && (q == '"' || q == '\'') && q !in k && q !in v
    ensures var s := [q] + k + [q, ':', ' ', q] + v + [q];
      ReplaceAll(Quoted(key, q), s) == s
  {
    var s := [q] + k + [q, ':', ' ', q] + v + [q];
    forall j | 0 <= j < |s|
      ensures MatchAt(Quoted(key, q), s, j).None?
    {
      SpacedPairNoMatch(key, q, k, v, j);
    }
    ReplaceFromNoMatch(Quoted(key, q), s, 0);
    assert s[0..] == s;
  }

  lemma SpacedPairNoMatch(key: string, q: char, k: string, v: string, j: nat)
    requires IsWord(key) && SameLetters(k, key) && (q == '"' || q == '\'') && q !in k && q !in v
    requires j < |[q] + k + [q, ':', ' ', q] + v + [q]|
    ensures QuotedAt(key, q, false, [q] + k + [q, ':', ' ', q] + v + [q], j).None?
  {
    var s := [q] + k + [q, ':', ' ', q] + v + [q];
    var n := |k|;
    if 1 <= j <= n {
      assert s[j] == k[j - 1];
    } else if n + 5 <= j < |s| - 1 {
      assert s[j] == v[j - n - 5];
    }
    if j == 0 {
      assert s[n + 1] == q && s[n + 2] == ':' && s[n + 3] == ' ';
      assert SkipS(s, n + 2) == n + 2;
      assert SkipS(s, n + 3) == n + 3;
    } else if j == n + 1 && j + 1 + |key| < |s| {
      assert ToLower(s[j + 1..j + 1 + |key|])[0] == ':';
      assert ToLower(key)[0] == LowerChar(key[0]);
      assert IsWordChar(key[0]);
    } else if j == n + 4 {
      var e := j + 1 + |key|;
      if e < |s| - 1 {
        assert s[e] == v[e - n - 5];
      } else if e == |s| - 1 {
        assert SkipS(s, e + 1) == |s|;
      }
    }
  }

  /** The intended pattern blanks the value of the same field. */
  lemma SpacedPairBlanked(key: string, q: char, k: string, v: string)
    requires SameLetters(k, key) && (q == '"' || q == '\'') && q !in v
    ensures ReplaceAll(SpacedQuoted(key, q), [q] + k + [q, ':', ' ', q] + v + [q]) == [q] + k + [q, ':', ' ', q, q]
  {
    var s := [q] + k + [q, ':', ' ', q] + v + [q];
    var n := |k|;
    SpacedHere(key, q, k, v);
    ReplaceOneCut(SpacedQuoted(key, q), s, Cut(n + 5, |s| - 1, |s|));
    assert s[..n + 5] == [q] + k + [q, ':', ' ', q];
    assert s[|s| - 1..] == [q];
  }

  /** The intended pattern matches all of `"key": "value"`. */
  lemma SpacedHere(key: string, q: char, k: string, v: string)
    requires SameLetters(k, key) && (q == '"' || q == '\'') && q !in v
    ensures var s := [q] + k + [q, ':', ' ', q] + v + [q];
      MatchAt(SpacedQuoted(key, q), s, 0) == Some(Cut(|k| + 5, |s| - 1, |s|))
  {
    var s := [q] + k + [q, ':', ' ', q] + v + [q];
    var n := |k|;
    assert s[1..1 + n] == k;
    assert s[1 + n] == q && s[2 + n] == ':' && s[3 + n] == ' ' && s[4 + n] == q;
    assert Gap(s, n + 2, true) == n + 2;
    assert Gap(s, n + 3, true) == n + 4;
    assert FindChar(s, n + 5, q) == |s| - 1 by {
      FindCharLast(s, n + 5, q);
    }
  }
}
