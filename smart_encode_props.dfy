/** When smartEncodeURIComponent as written keeps its promise. On input
    without `_`, no marker text is there before shielding. The first
    occurrence of each placeholder is then the one collected for it, and
    the first occurrence of each marker is the one put in. So the source
    returns what the intended encoder does. The intermediate texts are
    described positionally: `Part` is the input with its first `m`
    placeholders shielded, `EPart` the encoded text with its first `m`
    placeholders put back. */
module SmartEncodingProps {
  import opened Wrappers
  import opened Strings
  import opened Uri
  import opened Placeholders
  import opened WebviewPatterns
  import opened SmartEncoding

  /** The placeholders found from `i` on, in order. */
  function Vars(s: string, i: nat): seq<string>
    requires i <= |s|
  {
    PlaceholderTexts(SegmentsFrom(AnyVariable, s, i))
  }

  /** The text from `i` on, its placeholders numbered from `k0`, those
      numbered below `m` replaced by their markers. */
  function Part(s: string, i: nat, k0: nat, m: nat): string
    requires i <= |s|
    decreases |s| - i
  {
    match Search(AnyVariable, s, i)
    case None => s[i..]
    case Some((a, b)) => s[i..a] + (if k0 < m then Marker(k0) else s[a..b]) + Part(s, b, k0 + 1, m)
  }

  /** The encoded text from `i` on, its placeholders numbered from `k0`:
      those numbered below `m` in place, the others still markers. */
  function EPart(s: string, i: nat, k0: nat, m: nat): string
    requires i <= |s|
    decreases |s| - i
  {
    match Search(AnyVariable, s, i)
    case None => Encode(s[i..])
    case Some((a, b)) => Encode(s[i..a]) + (if k0 < m then s[a..b] else Marker(k0)) + EPart(s, b, k0 + 1, m)
  }

  lemma PartStep(s: string, i: nat, k0: nat, m: nat, a: nat, b: nat)
    requires i <= |s| && Search(AnyVariable, s, i) == Some((a, b))
    ensures Part(s, i, k0, m) == s[i..a] + (if k0 < m then Marker(k0) else s[a..b]) + Part(s, b, k0 + 1, m)
  {
  }

  lemma EPartStep(s: string, i: nat, k0: nat, m: nat, a: nat, b: nat)
    requires i <= |s| && Search(AnyVariable, s, i) == Some((a, b))
    ensures EPart(s, i, k0, m) == Encode(s[i..a]) + (if k0 < m then s[a..b] else Marker(k0)) + EPart(s, b, k0 + 1, m)
  {
  }

  lemma VarsStep(s: string, i: nat)
    requires i <= |s|
    ensures Search(AnyVariable, s, i).None? ==> Vars(s, i) == []
    ensures Search(AnyVariable, s, i).Some? ==>
      var (a, b) := Search(AnyVariable, s, i).value;
      Vars(s, i) == [s[a..b]] + Vars(s, b)
  {
    match Search(AnyVariable, s, i)
    case None =>
      assert PlaceholderTexts([Literal(s[i..])]) == [] + PlaceholderTexts([]);
    case Some((a, b)) =>
      SegmentsFront(s[i..a], s[a..b], SegmentsFrom(AnyVariable, s, b));
  }

  // -------------------------------------------------------------------
  // A placeholder match depends only on the characters it spans

  /** `s1` at `x1 + j` and `s2` at `x2 + j` hold the same character. */
  predicate Agree(s1: string, x1: nat, s2: string, x2: nat, j: nat) {
    x1 + j < |s1| && x2 + j < |s2| && s1[x1 + j] == s2[x2 + j]
  }

  /** `s1` from `x1` and `s2` from `x2` agree on `n` characters. */
  predicate SameWindow(s1: string, x1: nat, s2: string, x2: nat, n: nat) {
    x1 + n <= |s1| && x2 + n <= |s2| && forall j | 0 <= j < n :: Agree(s1, x1, s2, x2, j)
  }

  lemma SliceWindow(s1: string, x1: nat, s2: string, x2: nat, n: nat)
    requires x1 + n <= |s1| && x2 + n <= |s2| && s1[x1..x1 + n] == s2[x2..x2 + n]
    ensures SameWindow(s1, x1, s2, x2, n)
  {
    forall j | 0 <= j < n
      ensures Agree(s1, x1, s2, x2, j)
    {
      assert s1[x1..x1 + n][j] == s2[x2..x2 + n][j];
    }
  }

  lemma WindowAt(s1: string, x1: nat, s2: string, x2: nat, n: nat, p1: nat, p2: nat)
    requires SameWindow(s1, x1, s2, x2, n) && x1 <= p1 < x1 + n && p1 + x2 == p2 + x1
    ensures p2 < |s2| && s1[p1] == s2[p2]
  {
    assert Agree(s1, x1, s2, x2, p1 - x1);
  }

  lemma {:induction false} SkipSpaceLocal(s1: string, x1: nat, s2: string, x2: nat, n: nat, p1: nat, p2: nat)
    requires SameWindow(s1, x1, s2, x2, n) && x1 <= p1 <= x1 + n && p1 + x2 == p2 + x1
    requires SkipSpace(s1, p1) < x1 + n
    ensures SkipSpace(s2, p2) + x1 == SkipSpace(s1, p1) + x2
    decreases x1 + n - p1
  {
    WindowAt(s1, x1, s2, x2, n, p1, p2);
    if IsSpace(s1[p1]) {
      SkipSpaceLocal(s1, x1, s2, x2, n, p1 + 1, p2 + 1);
    }
  }

  lemma {:induction false} WordEndLocal(s1: string, x1: nat, s2: string, x2: nat, n: nat, p1: nat, p2: nat)
    requires SameWindow(s1, x1, s2, x2, n) && x1 <= p1 <= x1 + n && p1 + x2 == p2 + x1
    requires WordEnd(s1, p1) < x1 + n
    ensures WordEnd(s2, p2) + x1 == WordEnd(s1, p1) + x2
    decreases x1 + n - p1
  {
    WindowAt(s1, x1, s2, x2, n, p1, p2);
    if IsWordChar(s1[p1]) {
      WordEndLocal(s1, x1, s2, x2, n, p1 + 1, p2 + 1);
    }
  }

  lemma AnyVariableParts(s: string, x: nat, a: nat, b: nat, c: nat)
    requires OpensAt(s, x) && SkipSpace(s, x + 2) == a && WordEnd(s, a) == b && SkipSpace(s, b) == c
    requires a < b && ClosesAt(s, c)
    ensures AnyVariableEnd(s, x) == Some(c + 2)
  {
  }

  /** A `{{\s*\w+\s*}}` match of `n` characters at `x1` is one at every
      place where the same `n` characters are written. */
  lemma AnyVariableLocal(s1: string, x1: nat, s2: string, x2: nat, n: nat)
    requires SameWindow(s1, x1, s2, x2, n) && x1 <= |s1| && AnyVariableEnd(s1, x1) == Some(x1 + n)
    ensures AnyVariableEnd(s2, x2) == Some(x2 + n)
  {
    var a := SkipSpace(s1, x1 + 2);
    var b := WordEnd(s1, a);
    var c := SkipSpace(s1, b);
    assert OpensAt(s1, x1) && a < b && ClosesAt(s1, c) && c + 2 == x1 + n;
    AnyVariableMoved(s1, x1, s2, x2, n, a, b, c);
  }

  /** The same, given the parts of the match at `x1`. */
  lemma AnyVariableMoved(s1: string, x1: nat, s2: string, x2: nat, n: nat, a: nat, b: nat, c: nat)
    requires SameWindow(s1, x1, s2, x2, n) && OpensAt(s1, x1)
    requires x1 + 2 <= |s1| && a == SkipSpace(s1, x1 + 2) && b == WordEnd(s1, a) && c == SkipSpace(s1, b)
    requires a < b && ClosesAt(s1, c) && c + 2 == x1 + n
    ensures AnyVariableEnd(s2, x2) == Some(x2 + n)
  {
    WindowAt(s1, x1, s2, x2, n, x1, x2);
    WindowAt(s1, x1, s2, x2, n, x1 + 1, x2 + 1);
    assert OpensAt(s2, x2);
    SkipSpaceLocal(s1, x1, s2, x2, n, x1 + 2, x2 + 2);
    var a2 := SkipSpace(s2, x2 + 2);
    assert a2 + x1 == a + x2;
    WordEndLocal(s1, x1, s2, x2, n, a, a2);
    var b2 := WordEnd(s2, a2);
    assert b2 + x1 == b + x2;
    SkipSpaceLocal(s1, x1, s2, x2, n, b, b2);
    var c2 := SkipSpace(s2, b2);
    assert c2 + x1 == c + x2;
    WindowAt(s1, x1, s2, x2, n, c, c2);
    WindowAt(s1, x1, s2, x2, n, c + 1, c2 + 1);
    assert ClosesAt(s2, c2);
    AnyVariableParts(s2, x2, a2, b2, c2);
  }

  /** A placeholder's own text. */
  predicate IsPlaceholderText(t: string) {
    AnyVariableEnd(t, 0) == Some(|t|)
  }

  /** A placeholder text that holds no `_`, so no marker can be inside it. */
  predicate Shieldable(t: string) {
    IsPlaceholderText(t) && '_' !in t
  }

  /** On input without `_`, each placeholder found is shieldable. */
  lemma {:induction false} VarsShieldable(s: string, i: nat)
    requires i <= |s| && '_' !in s
    ensures forall t | t in Vars(s, i) :: Shieldable(t)
    decreases |s| - i
  {
    VarsStep(s, i);
    match Search(AnyVariable, s, i)
    case None =>
    case Some((a, b)) =>
      VarsShieldable(s, b);
      MatchShieldable(s, i, a, b);
      AllShieldable(s[a..b], Vars(s, b), Vars(s, i));
  }

  lemma AllShieldable(x: string, V: seq<string>, W: seq<string>)
    requires W == [x] + V && Shieldable(x) && forall t | t in V :: Shieldable(t)
    ensures forall t | t in W :: Shieldable(t)
  {
  }

  /** The text of a match is a placeholder text. */
  lemma MatchShieldable(s: string, i: nat, a: nat, b: nat)
    requires i <= |s| && '_' !in s && Search(AnyVariable, s, i) == Some((a, b))
    ensures Shieldable(s[a..b])
  {
    SearchLeftmost(AnyVariable, s, i);
    assert s[a..b][0..b - a] == s[a..b];
    SliceWindow(s, a, s[a..b], 0, b - a);
    AnyVariableLocal(s, a, s[a..b], 0, b - a);
    NoCharInSlice(s, a, b, '_');
  }

  lemma NoCharInSlice(s: string, a: nat, b: nat, c: char)
    requires a <= b <= |s| && c !in s
    ensures c !in s[a..b]
  {
    assert forall x | x in s[a..b] :: x in s;
  }

  /** No placeholder text is written anywhere in the literal run before
      the next match: it would have been matched there. */
  lemma NoPlaceholderBefore(s: string, i: nat, x: nat, t: string)
    requires i <= x <= |s| && IsPlaceholderText(t)
    requires Search(AnyVariable, s, i).None? || x < Search(AnyVariable, s, i).value.0
    ensures !OccursAt(s, t, x)
  {
    SearchLeftmost(AnyVariable, s, i);
    assert MatchEnd(AnyVariable, s, x) == AnyVariableEnd(s, x);
    if x + |t| <= |s| && s[x..x + |t|] == t {
      assert t[0..|t|] == t;
      SliceWindow(t, 0, s, x, |t|);
      AnyVariableLocal(t, 0, s, x, |t|);
      assert false;
    }
  }

  // -------------------------------------------------------------------
  // First occurrences in a concatenation

  /** No occurrence of `t` starts in `[i, j)` of `S`. */
  predicate NoWindow(S: string, t: string, i: nat, j: nat) {
    forall x | i <= x < j :: !OccursAt(S, t, x)
  }

  lemma {:induction false} FindFromSkipTo(S: string, t: string, i: nat, j: nat)
    requires i <= j <= |S| && NoWindow(S, t, i, j)
    ensures FindFrom(S, t, i) == FindFrom(S, t, j)
    decreases j - i
  {
    if i < j && i + |t| <= |S| {
      assert !OccursAt(S, t, i);
      FindFromSkipTo(S, t, i + 1, j);
    }
  }

  lemma {:induction false} FindFromShift(X: string, Y: string, t: string, j: nat)
    requires j <= |Y|
    ensures FindFrom(X + Y, t, |X| + j) == if FindFrom(Y, t, j) == -1 then -1 else |X| + FindFrom(Y, t, j)
    decreases |Y| - j
  {
    if |X| + j + |t| <= |X + Y| {
      SliceOfRight(X, Y, j, j + |t|);
      assert OccursAt(X + Y, t, |X| + j) == OccursAt(Y, t, j);
      if !OccursAt(Y, t, j) {
        FindFromShift(X, Y, t, j + 1);
      }
    }
  }

  lemma SliceOfRight(X: string, Y: string, lo: nat, hi: nat)
    requires lo <= hi <= |Y|
    ensures (X + Y)[|X| + lo..|X| + hi] == Y[lo..hi]
  {
  }

  /** When no occurrence of `t` starts in `X`, replacing the first one in
      `X + R` replaces the first one in `R`. */
  lemma ReplaceFirstAfter(X: string, R: string, t: string, r: string)
    requires NoWindow(X + R, t, 0, |X|)
    ensures ReplaceFirst(X + R, t, r) == X + ReplaceFirst(R, t, r)
  {
    FindFromSkipTo(X + R, t, 0, |X|);
    FindFromShift(X, R, t, 0);
    if FindFrom(R, t, 0) != -1 {
      ReplaceFirstFound(X, R, t, r, FindFrom(R, t, 0));
    }
  }

  lemma ReplaceFirstFound(X: string, R: string, t: string, r: string, k: nat)
    requires FindFrom(R, t, 0) == k && FindFrom(X + R, t, 0) == |X| + k
    ensures ReplaceFirst(X + R, t, r) == X + ReplaceFirst(R, t, r)
  {
    calc {
      ReplaceFirst(X + R, t, r);
      { ReplaceFirstAt(X + R, t, r, |X| + k); }
      (X + R)[..|X| + k] + r + (X + R)[|X| + k + |t|..];
      { SpliceShift(X, R, k, |t|, r); }
      X + (R[..k] + r + R[k + |t|..]);
      { ReplaceFirstAt(R, t, r, k); }
      X + ReplaceFirst(R, t, r);
    }
  }

  lemma ReplaceFirstAt(S: string, t: string, r: string, k: nat)
    requires FindFrom(S, t, 0) == k
    ensures k + |t| <= |S| && ReplaceFirst(S, t, r) == S[..k] + r + S[k + |t|..]
  {
  }

  lemma SpliceShift(X: string, R: string, k: nat, n: nat, r: string)
    requires k + n <= |R|
    ensures (X + R)[..|X| + k] + r + (X + R)[|X| + k + n..] == X + (R[..k] + r + R[k + n..])
  {
    assert (X + R)[..|X| + k] == X + R[..k];
    assert (X + R)[|X| + k + n..] == R[k + n..];
  }

  // -------------------------------------------------------------------
  // Shielding

  lemma {:induction false} PartNone(s: string, i: nat, k0: nat, m: nat)
    requires i <= |s| && m <= k0
    ensures Part(s, i, k0, m) == s[i..]
    decreases |s| - i
  {
    match Search(AnyVariable, s, i)
    case None =>
    case Some((a, b)) =>
      PartNone(s, b, k0 + 1, m);
      SliceSplit(s, i, a, b);
  }

  lemma MarkerChars(k: nat)
    ensures |Marker(k)| > 0 && Marker(k)[0] == '_' && Marker(k)[|Marker(k)| - 1] == '_'
    ensures forall j | 0 <= j < |Marker(k)| :: IsUnreserved(Marker(k)[j]) && Marker(k)[j] != '{'
  {
    var d := NatToString(k);
    assert Marker(k) == "__VAR_" + d + "__";
    forall j | 0 <= j < |Marker(k)|
      ensures IsUnreserved(Marker(k)[j]) && Marker(k)[j] != '{'
    {
      if 6 <= j < 6 + |d| {
        assert Marker(k)[j] == d[j - 6];
      }
    }
  }

  /** No occurrence of a placeholder text without `_` starts in a literal
      run of `s` (from `i` to the match at `a`) followed by a marker. */
  lemma NoWindowBeforeMarker(s: string, i: nat, a: nat, k: nat, R: string, t: string)
    requires i <= a <= |s| && IsPlaceholderText(t) && '_' !in t
    requires Search(AnyVariable, s, i).Some? && Search(AnyVariable, s, i).value.0 == a
    ensures NoWindow(s[i..a] + Marker(k) + R, t, 0, |s[i..a] + Marker(k)|)
  {
    var L, M := s[i..a], Marker(k);
    MarkerChars(k);
    forall x | 0 <= x < |L + M|
      ensures !OccursAt(L + M + R, t, x)
    {
      if x + |t| <= |L| {
        NoPlaceholderBefore(s, i, i + x, t);
        OccursInRun(s, i, a, M + R, x, t);
        assert L + M + R == L + (M + R);
      } else if x < |L| {
        OccursChar(L + M + R, t, x, |L|);
      } else {
        assert t[0] == '{';
        OccursChar(L + M + R, t, x, x);
      }
    }
  }

  /** An occurrence spells `t` character by character. */
  lemma OccursChar(S: string, t: string, x: nat, p: nat)
    requires x <= p < x + |t|
    ensures OccursAt(S, t, x) ==> S[p] == t[p - x]
  {
    if OccursAt(S, t, x) {
      assert S[x..x + |t|][p - x] == S[p];
    }
  }

  /** A window inside the run from `i` to `a` is one of `s`. */
  lemma OccursInRun(s: string, i: nat, a: nat, Y: string, x: nat, t: string)
    requires i <= a <= |s| && x + |t| <= a - i
    ensures OccursAt(s[i..a] + Y, t, x) == OccursAt(s, t, i + x)
  {
    var L := s[i..a];
    assert (L + Y)[x..x + |t|] == L[x..x + |t|];
    var W, V := L[x..x + |t|], s[i + x..i + x + |t|];
    forall q | 0 <= q < |t|
      ensures W[q] == V[q]
    {
      assert L[x + q] == s[i + x + q];
    }
    assert W == V;
  }

  /** No placeholder text occurs in the literal run before the next
      match. */
  lemma NoWindowInRun(s: string, i: nat, a: nat, t: string)
    requires i <= a <= |s| && IsPlaceholderText(t)
    requires Search(AnyVariable, s, i).Some? && Search(AnyVariable, s, i).value.0 == a
    ensures NoWindow(s[i..], t, 0, a - i)
  {
    forall x | 0 <= x < a - i
      ensures !OccursAt(s[i..], t, x)
    {
      NoPlaceholderInSuffix(s, i, a, x, t);
    }
  }

  lemma NoPlaceholderInSuffix(s: string, i: nat, a: nat, x: nat, t: string)
    requires i <= a <= |s| && x < a - i && IsPlaceholderText(t)
    requires Search(AnyVariable, s, i).Some? && Search(AnyVariable, s, i).value.0 == a
    ensures !OccursAt(s[i..], t, x)
  {
    NoPlaceholderBefore(s, i, i + x, t);
    OccursShift(s, i, x, t);
  }

  lemma OccursShift(s: string, i: nat, x: nat, t: string)
    requires i <= |s|
    ensures OccursAt(s[i..], t, x) == OccursAt(s, t, i + x)
  {
    if x + |t| <= |s| - i {
      SliceOfSuffix(s, i, i + x, i + x + |t|);
    }
  }

  /** Replacing the first occurrence in `X + P` when none starts in `X`. */
  lemma ReplaceAfterPrefix(A: string, X: string, P: string, t: string, r: string, Q: string, B: string)
    requires A == X + P && NoWindow(X + P, t, 0, |X|) && ReplaceFirst(P, t, r) == Q && B == X + Q
    ensures ReplaceFirst(A, t, r) == B
  {
    ReplaceFirstAfter(X, P, t, r);
  }

  /** Replacing the first occurrence when it is known to be at `j`. */
  lemma ReplaceKnown(A: string, t: string, r: string, j: nat, L: string, Rt: string, B: string)
    requires FindFrom(A, t, 0) == j
    requires A[..j] == L && A[j + |t|..] == Rt && B == L + r + Rt
    ensures ReplaceFirst(A, t, r) == B
  {
    ReplaceFirstAt(A, t, r, j);
  }

  /** One step of the shielding loop: replacing the first occurrence of
      the next placeholder shields that placeholder. */
  lemma {:induction false} ShieldStep(s: string, i: nat, k0: nat, m: nat)
    requires i <= |s| && '_' !in s && k0 <= m < k0 + |Vars(s, i)|
    ensures ReplaceFirst(Part(s, i, k0, m), Vars(s, i)[m - k0], Marker(m)) == Part(s, i, k0, m + 1)
    decreases |s| - i, 1
  {
    VarsShieldable(s, i);
    assert Vars(s, i)[m - k0] in Vars(s, i);
    VarsStep(s, i);
    var (a, b) := Search(AnyVariable, s, i).value;
    if k0 < m {
      ShieldStepLater(s, i, k0, m, a, b);
    } else {
      ShieldStepHere(s, i, k0, m, a, b);
    }
  }

  /** The placeholder to shield comes after the next match, which is
      already shielded. */
  lemma {:induction false} ShieldStepLater(s: string, i: nat, k0: nat, m: nat, a: nat, b: nat)
    requires i <= |s| && '_' !in s && k0 < m < k0 + |Vars(s, i)|
    requires Search(AnyVariable, s, i) == Some((a, b)) && Shieldable(Vars(s, i)[m - k0])
    ensures ReplaceFirst(Part(s, i, k0, m), Vars(s, i)[m - k0], Marker(m)) == Part(s, i, k0, m + 1)
    decreases |s| - i, 0
  {
    var t := Vars(s, i)[m - k0];
    VarsStep(s, i);
    assert t == Vars(s, b)[m - (k0 + 1)];
    ShieldStep(s, b, k0 + 1, m);
    var X := s[i..a] + Marker(k0);
    NoWindowBeforeMarker(s, i, a, k0, Part(s, b, k0 + 1, m), t);
    ReplaceAfterPrefix(Part(s, i, k0, m), X, Part(s, b, k0 + 1, m), t, Marker(m),
      Part(s, b, k0 + 1, m + 1), Part(s, i, k0, m + 1));
  }

  /** The placeholder to shield is the next match. */
  lemma ShieldStepHere(s: string, i: nat, k0: nat, m: nat, a: nat, b: nat)
    requires i <= |s| && k0 == m < k0 + |Vars(s, i)|
    requires Search(AnyVariable, s, i) == Some((a, b)) && Shieldable(Vars(s, i)[m - k0])
    ensures ReplaceFirst(Part(s, i, k0, m), Vars(s, i)[m - k0], Marker(m)) == Part(s, i, k0, m + 1)
  {
    var t := Vars(s, i)[m - k0];
    VarsStep(s, i);
    assert t == s[a..b];
    PartHere(s, i, k0, a, b);
    NoWindowInRun(s, i, a, t);
    MatchFirst(s, i, a, b, t);
    ReplaceKnown(Part(s, i, k0, m), t, Marker(m), a - i, s[i..a], s[b..], Part(s, i, k0, m + 1));
  }

  lemma PartHere(s: string, i: nat, k0: nat, a: nat, b: nat)
    requires i <= |s| && Search(AnyVariable, s, i) == Some((a, b))
    ensures Part(s, i, k0, k0) == s[i..] && Part(s, i, k0, k0 + 1) == s[i..a] + Marker(k0) + s[b..]
  {
    PartNone(s, i, k0, k0);
    PartNone(s, b, k0 + 1, k0 + 1);
    PartStep(s, i, k0, k0 + 1, a, b);
  }

  /** In the text from `i` on, the first occurrence of a match's text with
      none before it is that match. */
  lemma MatchFirst(s: string, i: nat, a: nat, b: nat, t: string)
    requires i <= a <= b <= |s| && t == s[a..b] && NoWindow(s[i..], t, 0, a - i)
    ensures FindFrom(s[i..], t, 0) == a - i && s[i..][..a - i] == s[i..a] && s[i..][a - i + |t|..] == s[b..]
  {
    MatchFound(s, i, a, b, t);
    PrefixOfSuffix(s, i, a);
    SuffixOfSuffix(s, i, b);
  }

  lemma MatchFound(s: string, i: nat, a: nat, b: nat, t: string)
    requires i <= a <= b <= |s| && t == s[a..b] && NoWindow(s[i..], t, 0, a - i)
    ensures FindFrom(s[i..], t, 0) == a - i
  {
    SliceOfSuffix(s, i, a, b);
    FindHere(s[i..], t, a - i);
  }

  lemma PrefixOfSuffix(s: string, i: nat, c: nat)
    requires i <= c <= |s|
    ensures s[i..][..c - i] == s[i..c]
  {
  }

  lemma SuffixOfSuffix(s: string, i: nat, c: nat)
    requires i <= c <= |s|
    ensures s[i..][c - i..] == s[c..]
  {
  }

  /** The first occurrence of `t` is at `j` when there is one at `j` and
      none before. */
  lemma FindHere(S: string, t: string, j: nat)
    requires j + |t| <= |S| && NoWindow(S, t, 0, j) && S[j..j + |t|] == t
    ensures FindFrom(S, t, 0) == j
  {
    FindFromSkipTo(S, t, 0, j);
    FindFromHit(S, t, j);
  }

  lemma SliceOfSuffix(s: string, i: nat, a: nat, b: nat)
    requires i <= a <= b <= |s|
    ensures s[i..][a - i..b - i] == s[a..b]
  {
  }

  lemma FindFromHit(S: string, t: string, j: nat)
    requires j + |t| <= |S| && S[j..j + |t|] == t
    ensures FindFrom(S, t, j) == j
  {
  }

  lemma {:induction false} ShieldIsPart(s: string, m: nat)
    requires '_' !in s && m <= |Vars(s, 0)|
    ensures Shield(s, Vars(s, 0), m) == Part(s, 0, 0, m)
  {
    if m == 0 {
      PartNone(s, 0, 0, 0);
    } else {
      ShieldIsPart(s, m - 1);
      ShieldStep(s, 0, 0, m - 1);
    }
  }

  // -------------------------------------------------------------------
  // Encoding and putting the placeholders back

  lemma {:induction false} EPartNone(s: string, i: nat, k0: nat, m1: nat, m2: nat)
    requires i <= |s| && m1 <= k0 && m2 <= k0
    ensures EPart(s, i, k0, m1) == EPart(s, i, k0, m2)
    decreases |s| - i
  {
    match Search(AnyVariable, s, i)
    case None =>
    case Some((a, b)) =>
      EPartNone(s, b, k0 + 1, m1, m2);
  }

  /** Encoding the fully shielded text gives the encoded runs with every
      marker left as it is. */
  lemma {:induction false} EncodePart(s: string, i: nat, k0: nat, m: nat)
    requires i <= |s| && k0 + |Vars(s, i)| <= m
    ensures Encode(Part(s, i, k0, m)) == EPart(s, i, k0, k0)
    decreases |s| - i
  {
    VarsStep(s, i);
    match Search(AnyVariable, s, i)
    case None =>
    case Some((a, b)) =>
      EncodePart(s, b, k0 + 1, m);
      EPartNone(s, b, k0 + 1, k0 + 1, k0);
      MarkerChars(k0);
      EncodeUnreserved(Marker(k0));
      EncodeAppend(s[i..a], Marker(k0));
      EncodeAppend(s[i..a] + Marker(k0), Part(s, b, k0 + 1, m));
  }

  lemma {:induction false} EncodeKeepsOut(x: string, c: char)
    requires c !in x && c != '%' && !IsUpperHex(c)
    ensures c !in Encode(x)
  {
    if x != [] {
      EncodeKeepsOut(x[1..], c);
      assert x[0] in x;
      if !IsUnreserved(x[0]) {
        PercentBytesAlphabet(Utf8(x[0]));
      }
      assert Encode(x) == EncodeChar(x[0]) + Encode(x[1..]);
    }
  }

  /** No occurrence of `t` starts in `X` when `X` lacks its first
      character. */
  lemma NoWindowOfStart(X: string, R: string, t: string)
    requires |t| > 0 && t[0] !in X
    ensures NoWindow(X + R, t, 0, |X|)
  {
    forall x | 0 <= x < |X|
      ensures !OccursAt(X + R, t, x)
    {
      if x + |t| <= |X + R| {
        assert (X + R)[x..x + |t|][0] == X[x];
      }
    }
  }

  /** One step of the restoring loop: replacing the first occurrence of
      the next marker puts its placeholder back. */
  /** Restoring the `m`-th marker in the text encoded from `i` on puts
      back the `m`-th placeholder. */
  predicate Unshielded(s: string, i: nat, k0: nat, m: nat)
    requires i <= |s| && k0 <= m < k0 + |Vars(s, i)|
  {
    ReplaceFirst(EPart(s, i, k0, m), Marker(m), Vars(s, i)[m - k0]) == EPart(s, i, k0, m + 1)
  }

  lemma {:induction false} UnshieldStep(s: string, i: nat, k0: nat, m: nat)
    requires i <= |s| && '_' !in s && k0 <= m < k0 + |Vars(s, i)|
    ensures Unshielded(s, i, k0, m)
    decreases |s| - i, 1
  {
    if k0 < m {
      UnshieldFrom(s, i, k0, m);
    } else {
      VarsSome(s, i, k0, m);
      var (a, b) := Search(AnyVariable, s, i).value;
      UnshieldStepHere(s, i, k0, m, a, b);
    }
  }

  /** A later marker: the step is the one from the end of the first
      placeholder on. */
  lemma {:induction false} UnshieldFrom(s: string, i: nat, k0: nat, m: nat)
    requires i <= |s| && '_' !in s && k0 < m < k0 + |Vars(s, i)|
    ensures Unshielded(s, i, k0, m)
    decreases |s| - i, 0
  {
    var a, b := VarsLater(s, i, k0, m);
    UnshieldStep(s, b, k0 + 1, m);
    UnshieldStepLater(s, i, k0, m, a, b);
  }

  /** The placeholder text before a later marker holds no marker start, so
      the first marker found is the one in the rest. */
  lemma UnshieldStepLater(s: string, i: nat, k0: nat, m: nat, a: nat, b: nat)
    requires i <= |s| && '_' !in s && k0 < m < k0 + |Vars(s, i)|
    requires Search(AnyVariable, s, i) == Some((a, b)) && i <= a < b <= |s|
    requires k0 + 1 <= m < k0 + 1 + |Vars(s, b)| && Vars(s, b)[m - (k0 + 1)] == Vars(s, i)[m - k0]
    requires Unshielded(s, b, k0 + 1, m)
    ensures Unshielded(s, i, k0, m)
  {
    var t := Vars(s, i)[m - k0];
    var X := Encode(s[i..a]) + s[a..b];
    var P, Q := EPart(s, b, k0 + 1, m), EPart(s, b, k0 + 1, m + 1);
    assert ReplaceFirst(P, Marker(m), t) == Q;
    assert EPart(s, i, k0, m) == X + P;
    assert EPart(s, i, k0, m + 1) == X + Q;
    PrefixClean(s, i, a, b);
    MarkerChars(m);
    NoWindowOfStart(X, P, Marker(m));
    ReplaceAfterPrefix(X + P, X, P, Marker(m), t, Q, X + Q);
  }

  /** A placeholder is left from `i` on: the search finds one. */
  lemma VarsSome(s: string, i: nat, k0: nat, m: nat)
    requires i <= |s| && k0 <= m < k0 + |Vars(s, i)|
    ensures Search(AnyVariable, s, i).Some?
  {
    VarsStep(s, i);
  }

  /** The first placeholder from `i` on spans `[a, b)`; the text of a
      later one is found again from `b`. */
  lemma VarsLater(s: string, i: nat, k0: nat, m: nat) returns (a: nat, b: nat)
    requires i <= |s| && k0 < m < k0 + |Vars(s, i)|
    ensures Search(AnyVariable, s, i) == Some((a, b)) && i <= a < b <= |s|
    ensures k0 + 1 <= m < k0 + 1 + |Vars(s, b)| && Vars(s, b)[m - (k0 + 1)] == Vars(s, i)[m - k0]
  {
    VarsStep(s, i);
    a, b := Search(AnyVariable, s, i).value.0, Search(AnyVariable, s, i).value.1;
  }


  lemma EncodedRunClean(s: string, i: nat, a: nat)
    requires i <= a <= |s| && '_' !in s
    ensures '_' !in Encode(s[i..a])
  {
    NoCharInSlice(s, i, a, '_');
    EncodeKeepsOut(s[i..a], '_');
  }

  /** The encoded run and the placeholder before a later marker hold no
      `_`. */
  lemma PrefixClean(s: string, i: nat, a: nat, b: nat)
    requires i <= a <= b <= |s| && '_' !in s
    ensures '_' !in Encode(s[i..a]) + s[a..b]
  {
    EncodedRunClean(s, i, a);
    NoCharInSlice(s, a, b, '_');
  }

  lemma UnshieldStepHere(s: string, i: nat, k0: nat, m: nat, a: nat, b: nat)
    requires i <= |s| && '_' !in s && k0 == m < k0 + |Vars(s, i)|
    requires Search(AnyVariable, s, i) == Some((a, b))
    ensures ReplaceFirst(EPart(s, i, k0, m), Marker(m), Vars(s, i)[m - k0]) == EPart(s, i, k0, m + 1)
  {
    var t := Vars(s, i)[m - k0];
    VarsStep(s, i);
    assert t == s[a..b];
    var X, M, R := Encode(s[i..a]), Marker(m), EPart(s, b, k0 + 1, m);
    var S := EPart(s, i, k0, m);
    assert S == X + M + R;
    EPartNone(s, b, k0 + 1, m, m + 1);
    assert EPart(s, i, k0, m + 1) == X + t + R;
    EncodedRunClean(s, i, a);
    MarkerChars(m);
    MarkerNext(S, X, M, R);
    ReplaceKnown(S, M, t, |X|, X, R, EPart(s, i, k0, m + 1));
  }

  /** A marker right after a run without `_` is the first occurrence. */
  lemma MarkerNext(S: string, X: string, M: string, R: string)
    requires S == X + M + R && |M| > 0 && M[0] !in X
    ensures FindFrom(S, M, 0) == |X| && S[..|X|] == X && S[|X| + |M|..] == R
  {
    assert X + M + R == X + (M + R);
    NoWindowOfStart(X, M + R, M);
    assert S[|X|..|X| + |M|] == M;
    FindHere(S, M, |X|);
  }

  lemma {:induction false} UnshieldIsEPart(s: string, m: nat)
    requires '_' !in s && m <= |Vars(s, 0)|
    ensures Unshield(EPart(s, 0, 0, 0), Vars(s, 0), m) == EPart(s, 0, 0, m)
  {
    if m > 0 {
      UnshieldIsEPart(s, m - 1);
      UnshieldStep(s, 0, 0, m - 1);
      assert Unshielded(s, 0, 0, m - 1);
    }
  }

  /** With every placeholder back, the text is the intended rendering. */
  lemma {:induction false} EPartAll(s: string, i: nat, k0: nat, m: nat)
    requires i <= |s| && k0 + |Vars(s, i)| <= m
    ensures EPart(s, i, k0, m) == Render(SegmentsFrom(AnyVariable, s, i))
    decreases |s| - i
  {
    VarsStep(s, i);
    match Search(AnyVariable, s, i)
    case None =>
      assert Render([Literal(s[i..])]) == Encode(s[i..]) + Render([]);
    case Some((a, b)) =>
      EPartAll(s, b, k0 + 1, m);
      RenderFront(s[i..a], s[a..b], SegmentsFrom(AnyVariable, s, b));
  }

  /** On input without `_`, smartEncodeURIComponent as written returns
      exactly what the intended encoder does, so it too keeps every
      placeholder verbatim and in order and encodes the rest
      (SmartEncodeRestores, SmartEncodeKeepsPlaceholders). */
  lemma SmartEncodeAsWrittenAgrees(s: string)
    requires '_' !in s
    ensures SmartEncodeAsWritten(s) == SmartEncode(s)
  {
    if s != [] {
      var vars := Vars(s, 0);
      assert vars == Matches(AnyVariable, s);
      ShieldIsPart(s, |vars|);
      EncodePart(s, 0, 0, |vars|);
      UnshieldIsEPart(s, |vars|);
      EPartAll(s, 0, 0, |vars|);
    }
  }
}
