/** ImportParser.encodePreservingPlaceholders: the text of a
    `--data-urlencode` value is percent-encoded as encodeURIComponent does,
    except for `{{…}}` placeholder tokens (no brace inside), which are
    copied verbatim. The token pattern is the global regular expression
    `{{[^{}]+}}`, found by repeated leftmost matching from `lastIndex`. */
module Placeholders {
  import opened Wrappers
  import opened Uri

  predicate IsBrace(c: char) {
    c == '{' || c == '}'
  }

  /** The end of the run of non-brace characters starting at `j`. */
  function PlainEnd(s: string, j: nat): (k: nat)
    requires j <= |s|
    ensures j <= k <= |s|
    decreases |s| - j
  {
    if j == |s| || IsBrace(s[j]) then j else PlainEnd(s, j + 1)
  }

  /** The end of the token `{{[^{}]+}}` that starts at `i`, if one does.
      The run of non-braces is greedy and a shorter run would leave a
      non-brace where `}}` must be, so this is the only match at `i`. */
  function TokenEnd(s: string, i: nat): (r: Option<nat>)
    requires i <= |s|
    ensures r.Some? ==> i + 5 <= r.value <= |s|
    ensures r.Some? ==> s[i] == '{' && s[i + 1] == '{'
  {
    if i + 2 > |s| || s[i] != '{' || s[i + 1] != '{' then None
    else
      var k := PlainEnd(s, i + 2);
      if k > i + 2 && k + 2 <= |s| && s[k] == '}' && s[k + 1] == '}' then Some(k + 2) else None
  }

  /** `tokenRegex.exec(value)` with `lastIndex` at `i`: the leftmost token
      starting at or after `i`, as `[start, end)`. */
  function Exec(s: string, i: nat): (r: Option<(nat, nat)>)
    requires i <= |s|
    ensures r.Some? ==> i <= r.value.0 && r.value.0 + 5 <= r.value.1 <= |s|
    decreases |s| - i
  {
    match TokenEnd(s, i)
    case Some(e) => Some((i, e))
    case None => if i == |s| then None else Exec(s, i + 1)
  }

  /** Exec is the leftmost match: a token spans what it reports, and no
      token starts between `i` and it (nor anywhere after `i` when it
      reports none). */
  lemma {:induction false} ExecLeftmost(s: string, i: nat)
    requires i <= |s|
    ensures Exec(s, i).Some? ==> TokenEnd(s, Exec(s, i).value.0) == Some(Exec(s, i).value.1)
    ensures forall k | i <= k <= |s| && (Exec(s, i).Some? ==> k < Exec(s, i).value.0) :: TokenEnd(s, k).None?
    decreases |s| - i
  {
    if TokenEnd(s, i).None? && i < |s| {
      ExecLeftmost(s, i + 1);
    }
  }

  /** A piece of a value: a literal run or a placeholder token. */
  datatype Piece = Literal(text: string) | Placeholder(text: string)

  /** The value from `i` on, cut at its tokens: literal runs and tokens
      alternate, with a literal run (perhaps empty) first and last. */
  function PiecesFrom(s: string, i: nat): (ps: seq<Piece>)
    requires i <= |s|
    ensures |ps| > 0
    decreases |s| - i
  {
    match Exec(s, i)
    case None => [Literal(s[i..])]
    case Some((a, b)) => [Literal(s[i..a]), Placeholder(s[a..b])] + PiecesFrom(s, b)
  }

  function Pieces(s: string): seq<Piece> {
    PiecesFrom(s, 0)
  }

  /** The texts of the pieces, one after the other. */
  function Text(ps: seq<Piece>): string {
    if ps == [] then [] else ps[0].text + Text(ps[1..])
  }

  /** Each literal run encoded, each token copied. */
  function Render(ps: seq<Piece>): string {
    if ps == [] then []
    else (if ps[0].Literal? then Encode(ps[0].text) else ps[0].text) + Render(ps[1..])
  }

  /** Each literal run percent-decoded, each token copied; None when a run
      does not decode. */
  function Unrender(ps: seq<Piece>): Option<string> {
    if ps == [] then Some([])
    else
      var first := if ps[0].Literal? then Decode(ps[0].text) else Some(ps[0].text);
      match (first, Unrender(ps[1..]))
      case (Some(x), Some(y)) => Some(x + y)
      case _ => None
  }

  /** The pieces with their literal runs encoded. */
  function EncodeLiterals(ps: seq<Piece>): (qs: seq<Piece>)
    ensures |qs| == |ps|
  {
    if ps == [] then []
    else [if ps[0].Literal? then Literal(Encode(ps[0].text)) else ps[0]] + EncodeLiterals(ps[1..])
  }

  /** The tokens, in order. */
  function PlaceholderTexts(ps: seq<Piece>): seq<string> {
    if ps == [] then []
    else (if ps[0].Placeholder? then [ps[0].text] else []) + PlaceholderTexts(ps[1..])
  }

  /** What encodePreservingPlaceholders returns. */
  function Preserved(s: string): string {
    Render(Pieces(s))
  }

  /** The tokens of a value, in order. */
  function Tokens(s: string): seq<string> {
    PlaceholderTexts(Pieces(s))
  }

  /** Percent-decoding the literal runs of an encoded value and keeping its
      tokens. */
  function Restored(o: string): Option<string> {
    Unrender(Pieces(o))
  }

  /** encodePreservingPlaceholders, with its exec loop over `lastIndex`. */
  method EncodePreservingPlaceholders(value: string) returns (result: string)
    ensures result == Preserved(value)
  {
    var lastIndex: nat := 0;
    result := "";
    var m := Exec(value, 0);
    while m.Some?
      invariant lastIndex <= |value|
      invariant m == Exec(value, lastIndex)
      invariant result + Render(PiecesFrom(value, lastIndex)) == Preserved(value)
      decreases |value| - lastIndex
    {
      var (start, end) := m.value;
      RenderStep(value, lastIndex, start, end);
      ghost var previous := result;
      var before := value[lastIndex..start];
      if before != [] {
        result := result + Encode(before);
      }
      assert result == previous + Encode(before);
      result := result + value[start..end];
      Assoc3(previous, Encode(before), value[start..end], Render(PiecesFrom(value, end)));
      lastIndex := end;
      m := Exec(value, lastIndex);
    }
    var remaining := value[lastIndex..];
    RenderLast(value, lastIndex);
    if remaining != [] {
      result := result + Encode(remaining);
    }
  }

  lemma Assoc3(a: string, b: string, c: string, d: string)
    ensures a + b + c + d == a + (b + (c + d))
  {
  }

  /** One turn of the exec loop: the literal run before the match, the
      token, and the rest. */
  lemma RenderStep(s: string, i: nat, a: nat, b: nat)
    requires i <= |s| && Exec(s, i) == Some((a, b))
    ensures Render(PiecesFrom(s, i)) == Encode(s[i..a]) + (s[a..b] + Render(PiecesFrom(s, b)))
  {
    RenderFront(s[i..a], s[a..b], PiecesFrom(s, b));
  }

  /** After the last match the rest is encoded whole. */
  lemma RenderLast(s: string, i: nat)
    requires i <= |s| && Exec(s, i) == None
    ensures Render(PiecesFrom(s, i)) == Encode(s[i..])
  {
    assert Render([Literal(s[i..])]) == Encode(s[i..]) + Render([]);
  }

  lemma RenderFront(l: string, t: string, ps: seq<Piece>)
    ensures Render([Literal(l), Placeholder(t)] + ps) == Encode(l) + (t + Render(ps))
  {
    var qs := [Literal(l), Placeholder(t)] + ps;
    assert qs[1..] == [Placeholder(t)] + ps;
    assert qs[1..][1..] == ps;
  }

  lemma TextFront(l: string, t: string, ps: seq<Piece>)
    ensures Text([Literal(l), Placeholder(t)] + ps) == l + (t + Text(ps))
  {
    var qs := [Literal(l), Placeholder(t)] + ps;
    assert qs[1..] == [Placeholder(t)] + ps;
    assert qs[1..][1..] == ps;
  }

  /** The pieces cover the value: their texts put together give it back. */
  lemma {:induction false} TextPiecesFrom(s: string, i: nat)
    requires i <= |s|
    ensures Text(PiecesFrom(s, i)) == s[i..]
    decreases |s| - i
  {
    match Exec(s, i)
    case None =>
      assert Text([Literal(s[i..])]) == s[i..] + Text([]);
    case Some((a, b)) =>
      TextPiecesFrom(s, b);
      TextStep(s, i, a, b);
  }

  lemma TextStep(s: string, i: nat, a: nat, b: nat)
    requires i <= |s| && Exec(s, i) == Some((a, b))
    requires Text(PiecesFrom(s, b)) == s[b..]
    ensures Text(PiecesFrom(s, i)) == s[i..]
  {
    TextFront(s[i..a], s[a..b], PiecesFrom(s, b));
    SliceSplit(s, i, a, b);
  }

  lemma TextPieces(s: string)
    ensures Text(Pieces(s)) == s
  {
    TextPiecesFrom(s, 0);
    assert s[0..] == s;
  }

  /** Cutting the encoded value finds the same tokens, with the literal runs
      encoded: encoding introduces no brace. */
  lemma PiecesPreserved(s: string)
    ensures Pieces(Preserved(s)) == EncodeLiterals(Pieces(s))
  {
    PiecesRendered(s, 0);
  }

  lemma {:induction false} PiecesRendered(s: string, i: nat)
    requires i <= |s|
    ensures Pieces(Render(PiecesFrom(s, i))) == EncodeLiterals(PiecesFrom(s, i))
    decreases |s| - i
  {
    match Exec(s, i)
    case None =>
      RenderLast(s, i);
      PiecesPlain(s[i..]);
    case Some((a, b)) =>
      PiecesRendered(s, b);
      RenderedFront(s, i, a, b);
  }

  /** A run without tokens is one literal piece, encoded. */
  lemma PiecesPlain(x: string)
    ensures Pieces(Encode(x)) == EncodeLiterals([Literal(x)])
  {
    EncodeNoBrace(x);
    NoBraceNoToken(Encode(x), 0);
    assert EncodeLiterals([Literal(x)]) == [Literal(Encode(x))] + EncodeLiterals([]);
  }

  /** One step of PiecesRendered: the first token and the literal run
      before it, given the claim for what follows the token. */
  lemma RenderedFront(s: string, i: nat, a: nat, b: nat)
    requires i <= |s| && Exec(s, i) == Some((a, b))
    requires Pieces(Render(PiecesFrom(s, b))) == EncodeLiterals(PiecesFrom(s, b))
    ensures Pieces(Render(PiecesFrom(s, i))) == EncodeLiterals(PiecesFrom(s, i))
  {
    var l, t, rest := s[i..a], s[a..b], PiecesFrom(s, b);
    RenderFront(l, t, rest);
    ExecToken(s, i, a, b);
    PiecesEncodedFront(l, t, Render(rest));
    EncodeLiteralsFront(l, t, rest);
  }

  /** What Exec reports is a whole token on its own. */
  lemma ExecToken(s: string, i: nat, a: nat, b: nat)
    requires i <= |s| && Exec(s, i) == Some((a, b))
    ensures TokenEnd(s[a..b], 0) == Some(|s[a..b]|)
  {
    ExecLeftmost(s, i);
    TokenSlice(s, a, b);
  }

  lemma PiecesEncodedFront(l: string, t: string, rest: string)
    requires TokenEnd(t, 0) == Some(|t|)
    ensures Pieces(Encode(l) + (t + rest)) == [Literal(Encode(l)), Placeholder(t)] + Pieces(rest)
  {
    EncodeNoBrace(l);
    PiecesFront(Encode(l), t, rest);
  }

  /** Cutting a text made of a brace-free run, a token and a rest: the run,
      the token, then the pieces of the rest. */
  lemma PiecesFront(e: string, t: string, rest: string)
    requires '{' !in e && TokenEnd(t, 0) == Some(|t|)
    ensures Pieces(e + (t + rest)) == [Literal(e), Placeholder(t)] + Pieces(rest)
  {
    FrontAfterPlain(e, t, rest);
    FrontSlices(e, t, rest);
    PiecesShift(e + t, rest, 0);
  }

  lemma EncodeLiteralsFront(l: string, t: string, ps: seq<Piece>)
    ensures EncodeLiterals([Literal(l), Placeholder(t)] + ps)
      == [Literal(Encode(l)), Placeholder(t)] + EncodeLiterals(ps)
  {
    var qs := [Literal(l), Placeholder(t)] + ps;
    assert qs[1..] == [Placeholder(t)] + ps;
    assert qs[1..][1..] == ps;
  }

  /** Decoding the encoded literal runs gives back the texts. */
  lemma {:induction false} UnrenderEncoded(ps: seq<Piece>)
    ensures Unrender(EncodeLiterals(ps)) == Some(Text(ps))
  {
    if ps != [] {
      var qs := EncodeLiterals(ps);
      assert qs[1..] == EncodeLiterals(ps[1..]);
      UnrenderEncoded(ps[1..]);
      if ps[0].Literal? {
        DecodeEncode(ps[0].text);
      }
    }
  }

  lemma {:induction false} PlaceholdersEncoded(ps: seq<Piece>)
    ensures PlaceholderTexts(EncodeLiterals(ps)) == PlaceholderTexts(ps)
  {
    if ps != [] {
      var qs := EncodeLiterals(ps);
      assert qs[1..] == EncodeLiterals(ps[1..]);
      PlaceholdersEncoded(ps[1..]);
    }
  }

  /** Percent-decoding the literal runs of the output restores the input. */
  lemma RestoredPreserved(s: string)
    ensures Restored(Preserved(s)) == Some(s)
  {
    PiecesPreserved(s);
    UnrenderEncoded(Pieces(s));
    TextPieces(s);
  }

  /** The tokens of the output are the tokens of the input, verbatim and in
      order. */
  lemma TokensPreserved(s: string)
    ensures Tokens(Preserved(s)) == Tokens(s)
  {
    PiecesPreserved(s);
    PlaceholdersEncoded(Pieces(s));
  }

  /** Without a `{{` the whole value is encoded: plain encodeURIComponent. */
  lemma PlainValue(s: string)
    requires forall i | 0 <= i < |s| - 1 :: !(s[i] == '{' && s[i + 1] == '{')
    ensures Preserved(s) == Encode(s)
  {
    NoOpeningNoToken(s, 0);
    RenderLast(s, 0);
    assert s[0..] == s;
  }

  /** A text with no `{{` holds no token. */
  lemma {:induction false} NoOpeningNoToken(s: string, j: nat)
    requires forall i | 0 <= i < |s| - 1 :: !(s[i] == '{' && s[i + 1] == '{')
    requires j <= |s|
    ensures Exec(s, j) == None
    decreases |s| - j
  {
    if j < |s| {
      if j + 1 < |s| {
        assert !(s[j] == '{' && s[j + 1] == '{');
      }
      NoOpeningNoToken(s, j + 1);
    }
  }

  lemma EncodeNoBrace(s: string)
    ensures '{' !in Encode(s) && '}' !in Encode(s)
  {
    EncodeAlphabet(s);
  }

  /** A text with no `{` holds no token. */
  lemma {:induction false} NoBraceNoToken(o: string, j: nat)
    requires '{' !in o && j <= |o|
    ensures Exec(o, j) == None
    decreases |o| - j
  {
    if j < |o| {
      assert o[j] != '{';
      NoBraceNoToken(o, j + 1);
    }
  }

  /** Searching in `p + x` from inside `x` finds what searching `x` finds,
      moved by `|p|`. */
  lemma {:induction false} PlainEndShift(p: string, x: string, j: nat)
    requires j <= |x|
    ensures PlainEnd(p + x, |p| + j) == |p| + PlainEnd(x, j)
    decreases |x| - j
  {
    if j < |x| {
      assert (p + x)[|p| + j] == x[j];
      if !IsBrace(x[j]) {
        PlainEndShift(p, x, j + 1);
      }
    }
  }

  lemma TokenEndShift(p: string, x: string, j: nat)
    requires j <= |x|
    ensures TokenEnd(p + x, |p| + j) == if TokenEnd(x, j).Some? then Some(|p| + TokenEnd(x, j).value) else None
  {
    if j + 2 <= |x| {
      assert (p + x)[|p| + j] == x[j] && (p + x)[|p| + j + 1] == x[j + 1];
      PlainEndShift(p, x, j + 2);
      var k := PlainEnd(x, j + 2);
      if k + 2 <= |x| {
        assert (p + x)[|p| + k] == x[k] && (p + x)[|p| + k + 1] == x[k + 1];
      }
    }
  }

  /** A match `[start, end)` moved `d` characters to the right. */
  function Shift(m: Option<(nat, nat)>, d: nat): (r: Option<(nat, nat)>)
    ensures r.Some? <==> m.Some?
    ensures r.Some? ==> r.value == (m.value.0 + d, m.value.1 + d)
  {
    match m
    case None => None
    case Some((a, b)) => Some((a + d, b + d))
  }

  lemma {:induction false} ExecShift(p: string, x: string, j: nat)
    requires j <= |x|
    ensures Exec(p + x, |p| + j) == Shift(Exec(x, j), |p|)
    decreases |x| - j
  {
    TokenEndShift(p, x, j);
    if TokenEnd(x, j).None? && j < |x| {
      ExecShift(p, x, j + 1);
    }
  }

  /** Cutting `p + x` from inside `x` cuts `x` alone. */
  lemma {:induction false} PiecesShift(p: string, x: string, j: nat)
    requires j <= |x|
    ensures PiecesFrom(p + x, |p| + j) == PiecesFrom(x, j)
    decreases |x| - j
  {
    ExecShift(p, x, j);
    match Exec(x, j)
    case None =>
      SliceOfAppend(p, x, j, |x|);
    case Some((a, b)) =>
      PiecesShift(p, x, b);
      PiecesShiftStep(p, x, j, a, b);
  }

  lemma PiecesShiftStep(p: string, x: string, j: nat, a: nat, b: nat)
    requires j <= |x| && Exec(x, j) == Some((a, b))
    requires Exec(p + x, |p| + j) == Some((|p| + a, |p| + b))
    requires PiecesFrom(p + x, |p| + b) == PiecesFrom(x, b)
    ensures PiecesFrom(p + x, |p| + j) == PiecesFrom(x, j)
  {
    var px := p + x;
    assert PiecesFrom(x, j) == [Literal(x[j..a]), Placeholder(x[a..b])] + PiecesFrom(x, b);
    assert PiecesFrom(px, |p| + j) ==
      [Literal(px[|p| + j..|p| + a]), Placeholder(px[|p| + a..|p| + b])] + PiecesFrom(px, |p| + b);
    SliceOfAppend(p, x, j, a);
    SliceOfAppend(p, x, a, b);
  }

  lemma SliceSplit(s: string, i: nat, a: nat, b: nat)
    requires i <= a <= b <= |s|
    ensures s[i..] == s[i..a] + (s[a..b] + s[b..])
  {
  }

  lemma SliceOfAppend(p: string, x: string, j: nat, k: nat)
    requires j <= k <= |x|
    ensures (p + x)[|p| + j..|p| + k] == x[j..k]
    ensures k == |x| ==> (p + x)[|p| + j..] == x[j..]
  {
  }

  lemma FrontSlices(e: string, t: string, rest: string)
    ensures (e + (t + rest))[..|e|] == e
    ensures (e + (t + rest))[|e|..|e| + |t|] == t
    ensures e + (t + rest) == (e + t) + rest
  {
  }

  /** Brace-free text in front of a token is skipped by the search. */
  lemma {:induction false} SkipPlain(o: string, e: string, k: nat)
    requires |e| <= |o| && o[..|e|] == e && '{' !in e && k <= |e|
    ensures Exec(o, k) == Exec(o, |e|)
    decreases |e| - k
  {
    if k < |e| {
      assert o[k] == e[k];
      SkipPlain(o, e, k + 1);
    }
  }

  /** A token at the front does not depend on what follows it. */
  lemma TokenEndPrefix(t: string, y: string)
    requires TokenEnd(t, 0) == Some(|t|)
    ensures TokenEnd(t + y, 0) == Some(|t|)
  {
    var k := PlainEnd(t, 2);
    assert k == |t| - 2;
    PlainEndPrefix(t, y, 2);
  }

  lemma {:induction false} PlainEndPrefix(t: string, y: string, j: nat)
    requires j <= |t| && PlainEnd(t, j) < |t|
    ensures PlainEnd(t + y, j) == PlainEnd(t, j)
    decreases |t| - j
  {
    assert (t + y)[j] == t[j];
    if !IsBrace(t[j]) {
      PlainEndPrefix(t, y, j + 1);
    }
  }

  lemma FrontAfterPlain(e: string, t: string, rest: string)
    requires '{' !in e && TokenEnd(t, 0) == Some(|t|)
    ensures Exec(e + (t + rest), 0) == Some((|e|, |e| + |t|))
  {
    var o := e + (t + rest);
    assert o[..|e|] == e;
    SkipPlain(o, e, 0);
    TokenEndPrefix(t, rest);
    TokenEndShift(e, t + rest, 0);
  }

  /** The leftmost token, cut out, is a token on its own. */
  lemma TokenSlice(s: string, a: nat, b: nat)
    requires a <= b <= |s| && TokenEnd(s, a) == Some(b)
    ensures TokenEnd(s[a..b], 0) == Some(b - a)
  {
    var k := PlainEnd(s, a + 2);
    assert k == b - 2;
    PlainEndSlice(s, a, b, 2);
  }

  lemma {:induction false} PlainEndSlice(s: string, a: nat, b: nat, j: nat)
    requires a + j <= b <= |s| && PlainEnd(s, a + j) < b
    ensures PlainEnd(s[a..b], j) == PlainEnd(s, a + j) - a
    decreases b - a - j
  {
    assert s[a..b][j] == s[a + j];
    if !IsBrace(s[a + j]) {
      PlainEndSlice(s, a, b, j + 1);
    }
  }
}
