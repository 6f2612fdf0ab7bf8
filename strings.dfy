/** The ECMAScript string operations the core relies on (trim, startsWith,
    includes, indexOf, split, join, case mapping), over `seq<char>`. */
module Strings {

  /** ECMAScript WhiteSpace and LineTerminator code points: what `\s`
      matches and what String.prototype.trim removes. */
  predicate IsSpace(c: char) {
    var n := c as int;
    n == 0x09 || n == 0x0A || n == 0x0B || n == 0x0C || n == 0x0D || n == 0x20
    || n == 0xA0 || n == 0x1680 || (0x2000 <= n <= 0x200A) || n == 0x2028
    || n == 0x2029 || n == 0x202F || n == 0x205F || n == 0x3000 || n == 0xFEFF
  }

  /** `\w` of an ECMAScript regular expression (no u flag). */
  predicate IsWordChar(c: char) {
    ('a' <= c <= 'z') || ('A' <= c <= 'Z') || ('0' <= c <= '9') || c == '_'
  }

  predicate IsWord(s: string) {
    |s| > 0 && forall i | 0 <= i < |s| :: IsWordChar(s[i])
  }

  /** Every character is white space (so `s.trim()` is empty). */
  predicate IsBlank(s: string) {
    forall i | 0 <= i < |s| :: IsSpace(s[i])
  }

  /** The index of the first character at or after `i` that is not white
      space; |s| when there is none. */
  function SkipSpace(s: string, i: nat): (j: nat)
    requires i <= |s|
    ensures i <= j <= |s| && (j < |s| ==> !IsSpace(s[j]))
    ensures forall k | i <= k < j :: IsSpace(s[k])
    decreases |s| - i
  {
    if i < |s| && IsSpace(s[i]) then SkipSpace(s, i + 1) else i
  }

  /** The index just after the last character before `j`, and not before
      `lo`, that is not white space; `lo` when there is none. */
  function SkipSpaceBack(s: string, lo: nat, j: nat): (k: nat)
    requires lo <= j <= |s|
    ensures lo <= k <= j && (k > lo ==> !IsSpace(s[k - 1]))
    ensures forall m | k <= m < j :: IsSpace(s[m])
    decreases j
  {
    if j > lo && IsSpace(s[j - 1]) then SkipSpaceBack(s, lo, j - 1) else j
  }

  /** String.prototype.trimStart */
  function TrimStart(s: string): (r: string)
    ensures |r| <= |s| && r == s[|s| - |r|..]
    ensures r == [] || !IsSpace(r[0])
  {
    s[SkipSpace(s, 0)..]
  }

  /** String.prototype.trim */
  function Trim(s: string): (r: string)
    ensures |r| <= |s|
    ensures r == [] <==> IsBlank(s)
    ensures IsTrimmed(r)
  {
    var i := SkipSpace(s, 0);
    var j := SkipSpaceBack(s, i, |s|);
    assert i < |s| ==> j > i;
    s[i..j]
  }

  lemma BlankConcat(a: string, b: string)
    requires IsBlank(a) && IsBlank(b)
    ensures IsBlank(a + b)
  {
  }

  /** No white space at either end. */
  predicate IsTrimmed(s: string) {
    s == [] || (!IsSpace(s[0]) && !IsSpace(s[|s| - 1]))
  }

  lemma TrimNoop(s: string)
    requires IsTrimmed(s)
    ensures Trim(s) == s
  {
  }

  lemma TrimIdempotent(s: string)
    ensures Trim(Trim(s)) == Trim(s)
  {
    TrimNoop(Trim(s));
  }

  lemma TrimPadLeft(x: string)
    requires IsTrimmed(x)
    ensures Trim(" " + x) == x
  {
    assert (" " + x)[1..] == x;
  }

  lemma TrimStartPadLeft(x: string)
    requires x == [] || !IsSpace(x[0])
    ensures TrimStart(" " + x) == x
  {
    if x != [] {
      assert (" " + x)[1] == x[0];
    }
    assert SkipSpace(" " + x, 0) == 1;
    assert (" " + x)[1..] == x;
  }

  lemma TrimPadRight(x: string)
    requires IsTrimmed(x)
    ensures Trim(x + " ") == x
  {
    assert (x + " ")[..|x|] == x;
    if x != [] {
      assert (x + " ")[0] == x[0];
    }
  }

  predicate StartsWith(s: string, p: string) {
    |p| <= |s| && s[..|p|] == p
  }

  predicate EndsWith(s: string, p: string) {
    |p| <= |s| && s[|s| - |p|..] == p
  }

  /** `t` occurs in `s` starting at index `i`. */
  predicate OccursAt(s: string, t: string, i: int) {
    0 <= i && i + |t| <= |s| && s[i..i + |t|] == t
  }

  /** String.prototype.includes */
  predicate Contains(s: string, t: string) {
    exists i | 0 <= i <= |s| :: OccursAt(s, t, i)
  }

  /** The first index at or after `i` holding `c`; -1 when there is none. */
  function IndexOfCharFrom(s: string, c: char, i: nat): (r: int)
    requires i <= |s|
    ensures r == -1 || i <= r < |s|
    decreases |s| - i
  {
    if i == |s| then -1
    else if s[i] == c then i
    else IndexOfCharFrom(s, c, i + 1)
  }

  /** String.prototype.indexOf for a one-character argument; -1 when absent. */
  function IndexOfChar(s: string, c: char): (r: int)
    ensures r == -1 || 0 <= r < |s|
  {
    IndexOfCharFrom(s, c, 0)
  }

  /** The search from `i` finds the first `c` at or after `i`, and fails
      exactly when there is none. */
  lemma {:induction false} IndexOfCharFromFirst(s: string, c: char, i: nat)
    requires i <= |s|
    ensures var r := IndexOfCharFrom(s, c, i);
      (r == -1 <==> c !in s[i..])
      && (r != -1 ==> s[r] == c && forall k | i <= k < r :: s[k] != c)
    decreases |s| - i
  {
    if i < |s| && s[i] != c {
      IndexOfCharFromFirst(s, c, i + 1);
      assert s[i..] == [s[i]] + s[i + 1..];
    }
  }

  /** indexOf finds the first occurrence, and -1 means there is none. */
  lemma IndexOfCharFirst(s: string, c: char)
    ensures var r := IndexOfChar(s, c);
      (r == -1 <==> c !in s)
      && (r != -1 ==> s[r] == c && c !in s[..r])
  {
    IndexOfCharFromFirst(s, c, 0);
    assert s[0..] == s;
    var r := IndexOfChar(s, c);
    if r != -1 {
      assert forall k | 0 <= k < r :: s[..r][k] == s[k];
    }
  }

  lemma IndexOfCharAt(a: string, b: string, c: char)
    requires c !in a && |b| > 0 && b[0] == c
    ensures IndexOfChar(a + b, c) == |a|
  {
    IndexOfCharFirst(a + b, c);
    assert (a + b)[|a|] == c;
  }

  function LowerChar(c: char): char {
    if 'A' <= c <= 'Z' then (c as int + 32) as char else c
  }

  function UpperChar(c: char): char {
    if 'a' <= c <= 'z' then (c as int - 32) as char else c
  }

  /** String.prototype.toLowerCase, restricted to the ASCII letters. */
  function ToLower(s: string): (r: string)
    ensures |r| == |s| && forall i | 0 <= i < |s| :: r[i] == LowerChar(s[i])
  {
    seq(|s|, i requires 0 <= i < |s| => LowerChar(s[i]))
  }

  /** String.prototype.toUpperCase, restricted to the ASCII letters. */
  function ToUpper(s: string): (r: string)
    ensures |r| == |s| && forall i | 0 <= i < |s| :: r[i] == UpperChar(s[i])
  {
    seq(|s|, i requires 0 <= i < |s| => UpperChar(s[i]))
  }

  /** Equal up to ASCII case, as a non-unicode `i` expression compares. */
  predicate SameLetters(a: string, b: string) {
    |a| == |b| && ToLower(a) == ToLower(b)
  }

  /** One layer of matching `"…"` or `'…'` removed. */
  function Unquote(v: string): string {
    if |v| > 0 && ((v[0] == '"' && v[|v| - 1] == '"') || (v[0] == '\'' && v[|v| - 1] == '\'')) then
      (if |v| >= 2 then v[1..|v| - 1] else [])
    else v
  }

  /** Array.prototype.join */
  function Join(parts: seq<string>, sep: string): string {
    if |parts| == 0 then ""
    else if |parts| == 1 then parts[0]
    else parts[0] + sep + Join(parts[1..], sep)
  }

  /** String.prototype.split with a one-character separator. */
  function Split(s: string, c: char): (r: seq<string>)
    ensures |r| > 0
    ensures forall k | 0 <= k < |r| :: c !in r[k]
    decreases |s|
  {
    var i := IndexOfChar(s, c);
    IndexOfCharFirst(s, c);
    if i == -1 then [s] else [s[..i]] + Split(s[i + 1..], c)
  }

  lemma {:induction false} JoinSplit(s: string, c: char)
    ensures Join(Split(s, c), [c]) == s
    decreases |s|
  {
    var i := IndexOfChar(s, c);
    IndexOfCharFirst(s, c);
    if i != -1 {
      JoinSplit(s[i + 1..], c);
      assert s == s[..i] + [c] + s[i + 1..];
    }
  }

  /** Splitting a join at a separator none of the parts holds gives the
      parts back. */
  lemma {:induction false} SplitJoin(parts: seq<string>, c: char)
    requires |parts| > 0 && forall k | 0 <= k < |parts| :: c !in parts[k]
    ensures Split(Join(parts, [c]), c) == parts
  {
    if |parts| > 1 {
      var rest := Join(parts[1..], [c]);
      assert Join(parts, [c]) == parts[0] + ([c] + rest);
      IndexOfCharAt(parts[0], [c] + rest, c);
      assert (parts[0] + ([c] + rest))[..|parts[0]|] == parts[0];
      assert (parts[0] + ([c] + rest))[|parts[0]| + 1..] == rest;
      SplitJoin(parts[1..], c);
    } else {
      IndexOfCharFirst(parts[0], c);
    }
  }

  /** The longest prefix of `s` without white space. */
  function Token(s: string): (r: string)
    ensures |r| <= |s| && r == s[..|r|]
    ensures forall i | 0 <= i < |r| :: !IsSpace(r[i])
    ensures |r| < |s| ==> IsSpace(s[|r|])
  {
    if s == [] || IsSpace(s[0]) then [] else [s[0]] + Token(s[1..])
  }

  /** The token of a text that starts with a space-free prefix followed by
      a space is that prefix. */
  lemma {:induction false} TokenPrefix(s: string, p: string)
    requires |p| < |s| && s[..|p|] == p && IsSpace(s[|p|])
    requires forall i | 0 <= i < |p| :: !IsSpace(p[i])
    ensures Token(s) == p
  {
    if p != [] {
      TokenPrefix(s[1..], p[1..]);
    }
  }

  /** `s.split(/\s+/)`: the pieces between maximal runs of white space. */
  function SplitWs(s: string): (r: seq<string>)
    ensures |r| > 0 && r[0] == Token(s)
    decreases |s|
  {
    var t := Token(s);
    if |t| == |s| then [s] else [t] + SplitWs(TrimStart(s[|t|..]))
  }

  /** `s.replace(/c/g, r)` for one character `c` and a replacement text
      without `$` patterns. */
  function ReplaceChar(s: string, c: char, r: string): (t: string)
    ensures c !in s ==> t == s
    ensures c !in r ==> c !in t
    decreases |s|
  {
    if s == [] then [] else (if s[0] == c then r else [s[0]]) + ReplaceChar(s[1..], c, r)
  }

  lemma {:induction false} ReplaceCharAppend(a: string, b: string, c: char, r: string)
    ensures ReplaceChar(a + b, c, r) == ReplaceChar(a, c, r) + ReplaceChar(b, c, r)
    decreases |a|
  {
    if a != [] {
      var x := if a[0] == c then r else [a[0]];
      assert (a + b)[0] == a[0] && (a + b)[1..] == a[1..] + b;
      ReplaceCharAppend(a[1..], b, c, r);
      assert ReplaceChar(a + b, c, r) == x + (ReplaceChar(a[1..], c, r) + ReplaceChar(b, c, r));
    } else {
      assert a + b == b;
    }
  }

  lemma {:induction false} ReplaceCharKeepsOut(s: string, c: char, r: string, x: char)
    requires x !in s && x !in r
    ensures x !in ReplaceChar(s, c, r)
    decreases |s|
  {
    if s != [] {
      assert s[0] in s;
      ReplaceCharKeepsOut(s[1..], c, r, x);
    }
  }

  /** Decimal rendering of a natural number (String(n)). */
  function NatToString(n: nat): (r: string)
    ensures |r| > 0 && forall i | 0 <= i < |r| :: '0' <= r[i] <= '9'
  {
    if n < 10 then [('0' as int + n) as char]
    else NatToString(n / 10) + [('0' as int + n % 10) as char]
  }
}
