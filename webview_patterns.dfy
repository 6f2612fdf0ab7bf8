/** The regular expressions of the webview script, matched as an
    ECMAScript engine matches them. A global `exec` loop or a global
    `replace` finds the leftmost match at or after `lastIndex` and goes on
    at its end; every pattern here matches only non-empty text, so the scan
    always advances. */
module WebviewPatterns {
  import opened Wrappers
  import opened Strings
  import opened Placeholders

  /** The patterns the webview builds. */
  datatype Pattern =
      /** `/\{\{\s*\w+\s*\}\}/g`: any variable placeholder. */
    | AnyVariable
      /** `new RegExp("{{\\s*" + name + "\\s*}}", "g")`: one variable. */
    | Variable(name: string)
      /** `/"key"\s*:\s*"[^"]*"/gi`: a JSON string field. */
    | JsonField(key: string)
      /** `/\b(k1|k2|…)=([^&\s]*)/gi`: a form field with one of the keys. */
    | FormField(keys: seq<string>)

  /** The end of the run of `\w` characters starting at `j`. */
  function WordEnd(s: string, j: nat): (k: nat)
    requires j <= |s|
    ensures j <= k <= |s|
    decreases |s| - j
  {
    if j < |s| && IsWordChar(s[j]) then WordEnd(s, j + 1) else j
  }

  /** The end of the run of `[^&\s]` characters starting at `j`. */
  function StopEnd(s: string, j: nat): (k: nat)
    requires j <= |s|
    ensures j <= k <= |s|
    decreases |s| - j
  {
    if j < |s| && s[j] != '&' && !IsSpace(s[j]) then StopEnd(s, j + 1) else j
  }

  predicate OpensAt(s: string, i: nat) {
    i + 2 <= |s| && s[i] == '{' && s[i + 1] == '{'
  }

  predicate ClosesAt(s: string, c: nat) {
    c + 2 <= |s| && s[c] == '}' && s[c + 1] == '}'
  }

  /** The end of a `{{\s*\w+\s*}}` match at `i`. White space and word
      characters are disjoint and neither is a brace, so the greedy runs
      never need to give anything back: this is the only match at `i`. */
  function AnyVariableEnd(s: string, i: nat): (r: Option<nat>)
    requires i <= |s|
    ensures r.Some? ==> i < r.value <= |s|
  {
    if !OpensAt(s, i) then None
    else
      var a := SkipSpace(s, i + 2);
      var b := WordEnd(s, a);
      var c := SkipSpace(s, b);
      if a < b && ClosesAt(s, c) then Some(c + 2) else None
  }

  /** The end of a `{{\s*name\s*}}` match at `i`, the name taken as literal
      text (exact for a name of word characters, which cannot start or end
      inside a run of white space). */
  function VariableEnd(s: string, name: string, i: nat): (r: Option<nat>)
    requires i <= |s|
    ensures r.Some? ==> i < r.value <= |s|
  {
    if !OpensAt(s, i) then None
    else
      var a := SkipSpace(s, i + 2);
      if a + |name| <= |s| && s[a..a + |name|] == name then
        var c := SkipSpace(s, a + |name|);
        if ClosesAt(s, c) then Some(c + 2) else None
      else None
  }

  /** The end of a `"key"\s*:\s*"[^"]*"` match at `i`, the key compared
      without regard to ASCII case. */
  function JsonFieldEnd(s: string, key: string, i: nat): (r: Option<nat>)
    requires i <= |s|
    ensures r.Some? ==> i < r.value <= |s|
  {
    var q := i + 1 + |key|;
    if q < |s| && s[i] == '"' && SameLetters(s[i + 1..q], key) && s[q] == '"' then
      var b := SkipSpace(s, q + 1);
      if b < |s| && s[b] == ':' then
        var c := SkipSpace(s, b + 1);
        if c < |s| && s[c] == '"' then
          var d := IndexOfCharFrom(s, '"', c + 1);
          if d == -1 then None else Some(d + 1)
        else None
      else None
    else None
  }

  /** The length of the first alternative among `keys` that matches at `i`
      (without regard to ASCII case) and is followed by `=`. */
  function FormKey(s: string, keys: seq<string>, i: nat): (r: Option<nat>)
    requires i <= |s|
    ensures r.Some? ==> i + r.value < |s| && s[i + r.value] == '='
    decreases |keys|
  {
    if keys == [] then None
    else
      var n := |keys[0]|;
      if i + n < |s| && SameLetters(s[i..i + n], keys[0]) && s[i + n] == '=' then Some(n)
      else FormKey(s, keys[1..], i)
  }

  /** The end of a `\b(k1|k2|…)=([^&\s]*)` match at `i`. The keys start
      with a letter, so the word boundary holds exactly when no word
      character comes before `i`. */
  function FormFieldEnd(s: string, keys: seq<string>, i: nat): (r: Option<nat>)
    requires i <= |s|
    ensures r.Some? ==> i < r.value <= |s|
  {
    if i < |s| && (i == 0 || !IsWordChar(s[i - 1])) then
      match FormKey(s, keys, i)
      case Some(n) => Some(StopEnd(s, i + n + 1))
      case None => None
    else None
  }

  /** The end of the match of `p` that starts at `i`, if there is one. */
  function MatchEnd(p: Pattern, s: string, i: nat): (r: Option<nat>)
    requires i <= |s|
    ensures r.Some? ==> i < r.value <= |s|
  {
    match p
    case AnyVariable => AnyVariableEnd(s, i)
    case Variable(name) => VariableEnd(s, name, i)
    case JsonField(key) => JsonFieldEnd(s, key, i)
    case FormField(keys) => FormFieldEnd(s, keys, i)
  }

  /** `p.exec(s)` with `lastIndex` at `i`: the leftmost match starting at
      or after `i`, as `[start, end)`. */
  function Search(p: Pattern, s: string, i: nat): (r: Option<(nat, nat)>)
    requires i <= |s|
    ensures r.Some? ==> i <= r.value.0 < r.value.1 <= |s|
    decreases |s| - i
  {
    match MatchEnd(p, s, i)
    case Some(e) => Some((i, e))
    case None => if i == |s| then None else Search(p, s, i + 1)
  }

  /** Search is leftmost: the match it reports is one, and no match starts
      between `i` and it (nor anywhere after `i` when it reports none). */
  lemma {:induction false} SearchLeftmost(p: Pattern, s: string, i: nat)
    requires i <= |s|
    ensures Search(p, s, i).Some? ==> MatchEnd(p, s, Search(p, s, i).value.0) == Some(Search(p, s, i).value.1)
    ensures forall k | i <= k <= |s| && (Search(p, s, i).Some? ==> k < Search(p, s, i).value.0) :: MatchEnd(p, s, k).None?
    decreases |s| - i
  {
    if MatchEnd(p, s, i).None? && i < |s| {
      SearchLeftmost(p, s, i + 1);
    }
  }

  /** `s` from `i` on, cut at the matches of `p`: literal runs and matches
      alternate, with a literal run (perhaps empty) first and last. */
  function SegmentsFrom(p: Pattern, s: string, i: nat): (ps: seq<Piece>)
    requires i <= |s|
    ensures |ps| > 0
    decreases |s| - i
  {
    match Search(p, s, i)
    case None => [Literal(s[i..])]
    case Some((a, b)) => [Literal(s[i..a]), Placeholder(s[a..b])] + SegmentsFrom(p, s, b)
  }

  function Segments(p: Pattern, s: string): seq<Piece> {
    SegmentsFrom(p, s, 0)
  }

  /** `s.match(p)` with a global pattern: the text of every match, in
      order, and no match (`null`) as the empty list. */
  function Matches(p: Pattern, s: string): seq<string> {
    PlaceholderTexts(Segments(p, s))
  }

  /** The literal runs kept, each match replaced by `f` of its text. */
  function Substitute(ps: seq<Piece>, f: string -> string): string {
    if ps == [] then [] else (if ps[0].Literal? then ps[0].text else f(ps[0].text)) + Substitute(ps[1..], f)
  }

  /** `s.replace(p, …)` with a global pattern; `f` gives the replacement
      of each match. */
  function Replace(p: Pattern, s: string, f: string -> string): string {
    Substitute(Segments(p, s), f)
  }

  lemma SegmentsFront(l: string, t: string, ps: seq<Piece>)
    ensures Text([Literal(l), Placeholder(t)] + ps) == l + (t + Text(ps))
    ensures PlaceholderTexts([Literal(l), Placeholder(t)] + ps) == [t] + PlaceholderTexts(ps)
  {
    var qs := [Literal(l), Placeholder(t)] + ps;
    assert qs[1..] == [Placeholder(t)] + ps;
    assert qs[1..][1..] == ps;
  }

  /** The segments cover the text: put together they give it back. */
  lemma {:induction false} TextSegmentsFrom(p: Pattern, s: string, i: nat)
    requires i <= |s|
    ensures Text(SegmentsFrom(p, s, i)) == s[i..]
    decreases |s| - i
  {
    match Search(p, s, i)
    case None =>
      assert Text([Literal(s[i..])]) == s[i..] + Text([]);
    case Some((a, b)) =>
      TextSegmentsFrom(p, s, b);
      TextSegmentsStep(p, s, i, a, b);
  }

  lemma TextSegmentsStep(p: Pattern, s: string, i: nat, a: nat, b: nat)
    requires i <= |s| && Search(p, s, i) == Some((a, b))
    requires Text(SegmentsFrom(p, s, b)) == s[b..]
    ensures Text(SegmentsFrom(p, s, i)) == s[i..]
  {
    SegmentsFront(s[i..a], s[a..b], SegmentsFrom(p, s, b));
    SliceSplit(s, i, a, b);
  }

  lemma TextSegments(p: Pattern, s: string)
    ensures Text(Segments(p, s)) == s
  {
    TextSegmentsFrom(p, s, 0);
    assert s[0..] == s;
  }

  /** Without a match the text is one literal run: it has no matches and
      replacing changes nothing. */
  lemma NoMatch(p: Pattern, s: string, f: string -> string)
    requires Search(p, s, 0) == None
    ensures Segments(p, s) == [Literal(s)]
    ensures Matches(p, s) == []
    ensures Replace(p, s, f) == s
  {
    assert s[0..] == s;
    assert Segments(p, s) == [Literal(s)];
    assert [Literal(s)][1..] == [];
    assert PlaceholderTexts([Literal(s)]) == [];
    assert Substitute([Literal(s)], f) == s + Substitute([], f);
  }

  /** There is no match exactly when the search finds none. */
  lemma MatchesEmpty(p: Pattern, s: string)
    ensures Matches(p, s) == [] <==> Search(p, s, 0) == None
  {
    match Search(p, s, 0)
    case None =>
      NoMatch(p, s, t => t);
    case Some((a, b)) =>
      SegmentsFront(s[0..a], s[a..b], SegmentsFrom(p, s, b));
  }

  /** Replacing every match by its own text changes nothing. */
  lemma {:induction false} SubstituteFixed(ps: seq<Piece>, f: string -> string)
    requires forall t | t in PlaceholderTexts(ps) :: f(t) == t
    ensures Substitute(ps, f) == Text(ps)
  {
    if ps != [] {
      var rest := PlaceholderTexts(ps[1..]);
      assert PlaceholderTexts(ps) == (if ps[0].Placeholder? then [ps[0].text] else []) + rest;
      assert forall t | t in rest :: t in PlaceholderTexts(ps);
      SubstituteFixed(ps[1..], f);
    }
  }

  /** A replace whose every match is already what it would be replaced by
      leaves the text as it is. */
  lemma ReplaceFixed(p: Pattern, s: string, f: string -> string)
    requires forall t | t in Matches(p, s) :: f(t) == t
    ensures Replace(p, s, f) == s
  {
    SubstituteFixed(Segments(p, s), f);
    TextSegments(p, s);
  }

  /** A text without `{` holds no placeholder of any variable. */
  lemma {:induction false} NoBraceNoVariable(p: Pattern, s: string, i: nat)
    requires p.AnyVariable? || p.Variable?
    requires '{' !in s && i <= |s|
    ensures Search(p, s, i) == None
    decreases |s| - i
  {
    if i < |s| {
      assert s[i] in s;
      NoBraceNoVariable(p, s, i + 1);
    }
  }
}
