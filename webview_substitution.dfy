/** replaceVariables read as one pass over the text. The webview applies
    the merged variables one after another, each with a global replace of
    `{{\s*name\s*}}`. When every `{` of the text belongs to a placeholder,
    this is the same as cutting the text at its placeholders once and
    replacing each placeholder of a known variable by that variable's
    value. Without that condition a value can join the braces around it
    into a new placeholder, which a later variable then replaces. */
module WebviewSubstitution {
  import opened Wrappers
  import opened Strings
  import opened Dicts
  import opened Placeholders
  import opened WebviewPatterns
  import opened Webview
  import SmartEncodingProps

  /** The variable named by a placeholder text `{{ name }}`. */
  function NameOf(t: string): string {
    if |t| < 2 then [] else
      var a := SkipSpace(t, 2);
      t[a..WordEnd(t, a)]
  }

  /** The one-pass reading: a placeholder becomes the value of its
      variable when `m` has one, and stays as it is otherwise. */
  function Lookup(m: Dict): string -> string {
    t => Get(m, NameOf(t)).GetOr(t)
  }

  /** Every `{` of `text` is part of a placeholder. */
  predicate BracesInPlaceholders(text: string) {
    forall q | q in Segments(AnyVariable, text) && q.Literal? :: '{' !in q.text
  }

  /** Literal runs without `{`, and matches that are placeholder texts. */
  predicate Clean(qs: seq<Piece>) {
    forall q | q in qs :: if q.Literal? then '{' !in q.text else SmartEncodingProps.IsPlaceholderText(q.text)
  }

  /** A placeholder of a variable in `e` turned into its value. */
  function ResolvePiece(q: Piece, e: Dict): Piece {
    if q.Placeholder? && NameOf(q.text) in Keys(e) then Literal(Get(e, NameOf(q.text)).value) else q
  }

  function Resolve(qs: seq<Piece>, e: Dict): (rs: seq<Piece>)
    ensures |rs| == |qs|
  {
    if qs == [] then [] else [ResolvePiece(qs[0], e)] + Resolve(qs[1..], e)
  }

  // -------------------------------------------------------------------
  // The main result

  /** replaceVariables on a text whose braces all belong to placeholders
      replaces each placeholder of a known variable by the variable's
      value and keeps every other placeholder and every literal run. */
  lemma SubstitutedResolves(text: string, m: Dict)
    requires WellFormed(m) && BracesInPlaceholders(text)
    ensures Substituted(text, m) == Replace(AnyVariable, text, Lookup(m))
  {
    var qs := Segments(AnyVariable, text);
    TextSegments(AnyVariable, text);
    if text == [] {
      NoMatch(AnyVariable, text, Lookup(m));
    } else {
      SegmentsClean(text, 0);
      ApplyAllResolves(qs, m);
      TextResolve(qs, m);
    }
  }

  /** A placeholder in a second pair of braces: `{{{{a}}}}`. */
  function Nested(a: string): string {
    "{{" + (PlaceholderOf(a) + "}}")
  }

  /** The passes cascade when a brace lies outside every placeholder:
      `{{{{a}}}}` with `a` set to `x` and `x` set to `v` comes out as `v`,
      where the one-pass reading gives `{{x}}`. */
  lemma SubstitutedCascade(a: string, x: string, v: string)
    requires IsWord(a) && IsWord(x) && a != x && '{' !in v
    ensures WellFormed([(a, x), (x, v)])
    ensures Substituted(Nested(a), [(a, x), (x, v)]) == v
    ensures Replace(AnyVariable, Nested(a), Lookup([(a, x), (x, v)])) == PlaceholderOf(x)
  {
    var m := [(a, x), (x, v)];
    assert WellFormed(m);
    CascadeFirstPass(a, x);
    assert m[..1] == [(a, x)] && m[..1][..0] == [];
    assert ApplyAll(Nested(a), m[..1]) == PlaceholderOf(x);
    VariableSelf(x, v);
    CascadeOnePass(a, x, v);
  }

  /** The passes also cascade when a value holds a placeholder: with `u`
      set to `{{h}}` and `h` set to `v`, the text `{{u}}` comes out as `v`,
      where the one-pass reading gives `{{h}}`. Such entries are not
      WellFormed. */
  lemma SubstitutedNestedValue(u: string, h: string, v: string)
    requires IsWord(u) && IsWord(h)
    ensures !WellFormed([(u, PlaceholderOf(h)), (h, v)])
    ensures Substituted(PlaceholderOf(u), [(u, PlaceholderOf(h)), (h, v)]) == v
    ensures Replace(AnyVariable, PlaceholderOf(u), Lookup([(u, PlaceholderOf(h)), (h, v)])) == PlaceholderOf(h)
  {
    var m := [(u, PlaceholderOf(h)), (h, v)];
    assert m[0].1[0] == '{';
    NestedValuePasses(u, h, v);
    NestedValueOnePass(u, h, v);
  }

  lemma NestedValuePasses(u: string, h: string, v: string)
    requires IsWord(u) && IsWord(h)
    ensures Substituted(PlaceholderOf(u), [(u, PlaceholderOf(h)), (h, v)]) == v
  {
    var m := [(u, PlaceholderOf(h)), (h, v)];
    assert m[..1] == [(u, PlaceholderOf(h))] && m[..1][..0] == [];
    VariableSelf(u, PlaceholderOf(h));
    assert ApplyAll(PlaceholderOf(u), m[..1]) == PlaceholderOf(h);
    VariableSelf(h, v);
  }

  lemma NestedValueOnePass(u: string, h: string, v: string)
    requires IsWord(u)
    ensures Replace(AnyVariable, PlaceholderOf(u), Lookup([(u, PlaceholderOf(h)), (h, v)])) == PlaceholderOf(h)
  {
    var m := [(u, PlaceholderOf(h)), (h, v)];
    BarePlaceholderOnePass(u, Lookup(m));
    NameOfPlaceholder(u);
    assert Get(m, u) == Some(PlaceholderOf(h));
  }

  /** One pass over a bare placeholder replaces it as a whole. */
  lemma BarePlaceholderOnePass(u: string, f: string -> string)
    requires IsWord(u)
    ensures Replace(AnyVariable, PlaceholderOf(u), f) == f(PlaceholderOf(u))
  {
    var t := PlaceholderOf(u);
    PlaceholderOfText(u);
    assert Search(AnyVariable, t, 0) == Some((0, |t|));
    SegmentsStep(AnyVariable, t, 0, 0, |t|);
    assert MatchEnd(AnyVariable, t, |t|).None?;
    assert Search(AnyVariable, t, |t|) == None;
    assert t[|t|..] == "";
    assert SegmentsFrom(AnyVariable, t, |t|) == [Literal("")];
    assert t[0..0] == "" && t[0..|t|] == t;
    SubstituteFront("", t, [Literal("")], f);
    SubstituteLiteral("", f);
  }

  /** The first pass turns the inner placeholder into `x`, which the
      outer braces make the placeholder `{{x}}`. */
  lemma CascadeFirstPass(a: string, x: string)
    requires IsWord(a)
    ensures ReplaceVariable(Nested(a), (a, x)) == PlaceholderOf(x)
  {
    var t := PlaceholderOf(a);
    var f := _ => x;
    CascadeFront(a);
    PlaceholderOfText(a);
    NameOfPlaceholder(a);
    ReplaceAfterPlain(a, "{{", t + "}}", f);
    ReplaceAfterOwn(a, t, "}}", f);
    NoBraceNoVariable(Variable(a), "}}", 0);
    NoMatch(Variable(a), "}}", f);
    Assoc("{{", x, "}}");
  }

  /** No placeholder of `a` starts in the outer braces. */
  lemma CascadeFront(a: string)
    requires IsWord(a)
    ensures forall j | 0 <= j < 2 :: MatchEnd(Variable(a), Nested(a), j).None?
  {
    var s := Nested(a);
    assert s[2] == '{' && s[3] == '{';
    assert !IsWordChar(s[2]) && IsWordChar(a[0]);
    assert SkipSpace(s, 2) == 2 && SkipSpace(s, 3) == 3;
    assert VariableEnd(s, a, 0) == None by {
      if 2 + |a| <= |s| {
        assert s[2..2 + |a|][0] == s[2];
      }
    }
    assert VariableEnd(s, a, 1) == None by {
      if 3 + |a| <= |s| {
        assert s[3..3 + |a|][0] == s[3];
      }
    }
  }

  /** The one pass replaces only the inner placeholder. */
  lemma CascadeOnePass(a: string, x: string, v: string)
    requires IsWord(a)
    ensures Replace(AnyVariable, Nested(a), Lookup([(a, x), (x, v)])) == PlaceholderOf(x)
  {
    var t := PlaceholderOf(a);
    var f := Lookup([(a, x), (x, v)]);
    CascadeSegments(a);
    CascadeLookup(a, x, v);
    SubstituteFront("{{", t, [Literal("}}")], f);
    SubstituteLiteral("}}", f);
    Assoc("{{", x, "}}");
  }

  lemma CascadeLookup(a: string, x: string, v: string)
    requires IsWord(a)
    ensures Lookup([(a, x), (x, v)])(PlaceholderOf(a)) == x
  {
    NameOfPlaceholder(a);
  }

  lemma SubstituteLiteral(l: string, f: string -> string)
    ensures Substitute([Literal(l)], f) == l
  {
    assert [Literal(l)][1..] == [];
  }

  /** The cuts of `{{{{a}}}}`: the outer braces are literal runs. */
  lemma CascadeSegments(a: string)
    requires IsWord(a)
    ensures Segments(AnyVariable, Nested(a)) == [Literal("{{"), Placeholder(PlaceholderOf(a))] + [Literal("}}")]
  {
    var s := Nested(a);
    var t := PlaceholderOf(a);
    var e := 2 + |t|;
    NestedParts(a);
    CascadeSearch(a);
    SegmentsStep(AnyVariable, s, 0, 2, e);
    assert SegmentsFrom(AnyVariable, s, e) == [Literal("}}")];
  }

  lemma NestedParts(a: string)
    ensures var s := Nested(a); var t := PlaceholderOf(a);
      |s| == |t| + 4 && s[0..2] == "{{" && s[2..2 + |t|] == t && s[2 + |t|..] == "}}"
      && s[2] == '{' && s[3] == '{' && forall j | 2 + |t| <= j < |s| :: s[j] == '}'
  {
  }

  lemma CascadeSearch(a: string)
    requires IsWord(a)
    ensures Search(AnyVariable, Nested(a), 0) == Some((2, 2 + |PlaceholderOf(a)|))
    ensures Search(AnyVariable, Nested(a), 2 + |PlaceholderOf(a)|) == None
  {
    var s := Nested(a);
    var t := PlaceholderOf(a);
    NestedParts(a);
    CascadeOuter(a);
    CascadeInner(a);
    assert Search(AnyVariable, s, 1) == Search(AnyVariable, s, 2);
    NoOpening(AnyVariable, s, 2 + |t|);
  }

  lemma CascadeOuter(a: string)
    requires IsWord(a)
    ensures MatchEnd(AnyVariable, Nested(a), 0) == None && MatchEnd(AnyVariable, Nested(a), 1) == None
  {
    var s := Nested(a);
    NestedParts(a);
    assert !IsWordChar(s[2]) && !IsWordChar(s[3]);
    assert SkipSpace(s, 2) == 2 && SkipSpace(s, 3) == 3;
  }

  lemma CascadeInner(a: string)
    requires IsWord(a)
    ensures MatchEnd(AnyVariable, Nested(a), 2) == Some(2 + |PlaceholderOf(a)|)
  {
    var s := Nested(a);
    var t := PlaceholderOf(a);
    NestedParts(a);
    PlaceholderOfText(a);
    assert t[0..|t|] == t;
    SmartEncodingProps.SliceWindow(t, 0, s, 2, |t|);
    SmartEncodingProps.AnyVariableLocal(t, 0, s, 2, |t|);
  }

  // -------------------------------------------------------------------
  // Resolving pieces

  lemma {:induction false} ResolveNone(qs: seq<Piece>)
    ensures Resolve(qs, []) == qs
  {
    if qs != [] {
      ResolveNone(qs[1..]);
    }
  }

  /** Resolving by `init` and then by `last` is resolving by both. */
  lemma {:induction false} ResolveSnoc(qs: seq<Piece>, init: Dict, last: (string, string))
    ensures Resolve(Resolve(qs, init), [last]) == Resolve(qs, init + [last])
  {
    if qs != [] {
      ResolveSnoc(qs[1..], init, last);
      var q := qs[0];
      if q.Placeholder? {
        KeysSnoc(init, last);
        GetSnoc(init, last, NameOf(q.text));
        assert Keys([last]) == [last.0];
      }
      assert Resolve(qs, init)[1..] == Resolve(qs[1..], init);
    }
  }

  /** Resolved pieces stay clean when no value holds `{`. */
  lemma {:induction false} ResolveClean(qs: seq<Piece>, e: Dict)
    requires Clean(qs) && forall j | 0 <= j < |e| :: '{' !in e[j].1
    ensures Clean(Resolve(qs, e))
  {
    if qs != [] {
      assert Clean(qs[1..]) by {
        forall q | q in qs[1..] ensures q in qs { }
      }
      ResolveClean(qs[1..], e);
      var q := qs[0];
      if q.Placeholder? && NameOf(q.text) in Keys(e) {
        var v := Get(e, NameOf(q.text)).value;
        var j :| 0 <= j < |e| && e[j] == (NameOf(q.text), v);
        assert '{' !in v;
      }
      assert q in qs;
      var rs := Resolve(qs, e);
      forall r | r in rs ensures if r.Literal? then '{' !in r.text else SmartEncodingProps.IsPlaceholderText(r.text) {
        if r != rs[0] {
          assert r in rs[1..];
        }
      }
    }
  }

  /** Put together, the resolved pieces are the one-pass replacement. */
  lemma {:induction false} TextResolve(qs: seq<Piece>, m: Dict)
    ensures Text(Resolve(qs, m)) == Substitute(qs, Lookup(m))
  {
    if qs != [] {
      TextResolve(qs[1..], m);
      assert Resolve(qs, m)[1..] == Resolve(qs[1..], m);
    }
  }

  // -------------------------------------------------------------------
  // Applying the entries

  /** The passes over clean pieces resolve them entry by entry. */
  lemma {:induction false} ApplyAllResolves(qs: seq<Piece>, e: Dict)
    requires Clean(qs) && WellFormed(e)
    ensures ApplyAll(Text(qs), e) == Text(Resolve(qs, e))
    decreases |e|
  {
    if e == [] {
      ResolveNone(qs);
    } else {
      var init := e[..|e| - 1];
      var last := e[|e| - 1];
      assert e == init + [last];
      assert WellFormed(init);
      ApplyAllResolves(qs, init);
      ResolveClean(qs, init);
      ReplaceResolves(Resolve(qs, init), last);
      ResolveSnoc(qs, init, last);
    }
  }

  /** One pass over clean pieces resolves the placeholders of its
      variable and nothing else. */
  lemma {:induction false} ReplaceResolves(qs: seq<Piece>, entry: (string, string))
    requires Clean(qs) && IsWord(entry.0)
    ensures ReplaceVariable(Text(qs), entry) == Text(Resolve(qs, [entry]))
  {
    var f := _ => entry.1;
    ReplaceResolvesWith(qs, entry.0, entry.1, f);
  }

  lemma {:induction false} ReplaceResolvesWith(qs: seq<Piece>, n: string, v: string, f: string -> string)
    requires Clean(qs) && IsWord(n) && forall t :: f(t) == v
    ensures Replace(Variable(n), Text(qs), f) == Text(Resolve(qs, [(n, v)]))
  {
    var p := Variable(n);
    if qs == [] {
      NoMatch(p, [], f);
    } else {
      var q := qs[0];
      var y := Text(qs[1..]);
      assert Clean(qs[1..]) by {
        forall r | r in qs[1..] ensures r in qs { }
      }
      ReplaceResolvesWith(qs[1..], n, v, f);
      assert q in qs;
      assert Keys([(n, v)]) == [n];
      if q.Literal? {
        forall j | 0 <= j < |q.text| ensures MatchEnd(p, q.text + y, j).None? {
          assert q.text[j] in q.text;
        }
        ReplaceAfterPlain(n, q.text, y, f);
      } else if NameOf(q.text) == n {
        ReplaceAfterOwn(n, q.text, y, f);
      } else {
        PlaceholderOther(n, q.text, y);
        ReplaceAfterPlain(n, q.text, y, f);
      }
      assert Resolve(qs, [(n, v)])[1..] == Resolve(qs[1..], [(n, v)]);
    }
  }

  // -------------------------------------------------------------------
  // A replace over a text with a known front

  /** A front in which no placeholder of `n` starts is kept as it is. */
  lemma ReplaceAfterPlain(n: string, x: string, y: string, f: string -> string)
    requires forall j | 0 <= j < |x| :: MatchEnd(Variable(n), x + y, j).None?
    ensures Replace(Variable(n), x + y, f) == x + Replace(Variable(n), y, f)
  {
    SegmentsPrepend(n, x, y);
    SubstitutePrepend(x, Segments(Variable(n), y), f);
  }

  /** A front that is a placeholder of `n` is replaced. */
  lemma ReplaceAfterOwn(n: string, t: string, y: string, f: string -> string)
    requires SmartEncodingProps.IsPlaceholderText(t) && NameOf(t) == n
    ensures Replace(Variable(n), t + y, f) == f(t) + Replace(Variable(n), y, f)
  {
    SegmentsOwn(n, t, y);
    SubstituteFront([], t, Segments(Variable(n), y), f);
  }

  /** The first literal run with `x` put in front. */
  function Prepend(x: string, ps: seq<Piece>): seq<Piece>
    requires |ps| > 0
  {
    [Literal(x + ps[0].text)] + ps[1..]
  }

  lemma SubstitutePrepend(x: string, ps: seq<Piece>, f: string -> string)
    requires |ps| > 0 && ps[0].Literal?
    ensures Substitute(Prepend(x, ps), f) == x + Substitute(ps, f)
  {
    var qs := Prepend(x, ps);
    assert qs[1..] == ps[1..];
    Assoc(x, ps[0].text, Substitute(ps[1..], f));
  }

  /** The cuts of `x + y`, no match starting in `x`: those of `y`, with
      `x` in front of the first literal run. */
  lemma SegmentsPrepend(n: string, x: string, y: string)
    requires forall j | 0 <= j < |x| :: MatchEnd(Variable(n), x + y, j).None?
    ensures Segments(Variable(n), y)[0].Literal?
    ensures Segments(Variable(n), x + y) == Prepend(x, Segments(Variable(n), y))
  {
    var p := Variable(n);
    var s := x + y;
    SearchSkip(p, s, |x|, 0);
    SearchShift(n, x, y, s, 0, |x|);
    if Search(p, y, 0).None? {
      assert s[0..] == x + y[0..];
    } else {
      var (a, b) := Search(p, y, 0).value;
      var (a2, b2) := Search(p, s, 0).value;
      SegmentsShift(n, x, y, s, b, b2);
      SegmentsStep(p, y, 0, a, b);
      SegmentsStep(p, s, 0, a2, b2);
      SliceOfLeft(x, y, s, a, a2);
      SliceAt(x, y, s, a, b, a2, b2);
      PrependPieces(Segments(p, s), Segments(p, y), x, y[0..a], y[a..b], SegmentsFrom(p, y, b),
        s[0..a2], s[a2..b2], SegmentsFrom(p, s, b2));
    }
  }

  lemma PrependPieces(A: seq<Piece>, B: seq<Piece>, x: string, l: string, t: string, R: seq<Piece>,
                      lx: string, tx: string, Rx: seq<Piece>)
    requires A == [Literal(lx), Placeholder(tx)] + Rx && B == [Literal(l), Placeholder(t)] + R
    requires lx == x + l && tx == t && Rx == R
    ensures B[0].Literal? && A == Prepend(x, B)
  {
    assert B[1..] == [Placeholder(t)] + R;
  }

  /** The cuts of `t + y` for a placeholder `t` of `n`: an empty literal
      run, `t`, and the cuts of `y`. */
  lemma SegmentsOwn(n: string, t: string, y: string)
    requires SmartEncodingProps.IsPlaceholderText(t) && NameOf(t) == n
    ensures Segments(Variable(n), t + y) == [Literal([]), Placeholder(t)] + Segments(Variable(n), y)
  {
    var p := Variable(n);
    var s := t + y;
    PlaceholderOwn(t, y);
    assert Search(p, s, 0) == Some((0, |t|));
    SegmentsShift(n, t, y, s, 0, |t|);
    SegmentsStep(p, s, 0, 0, |t|);
    assert s[0..0] == [] && s[0..|t|] == t;
  }

  lemma SliceOfLeft(x: string, y: string, s: string, a: nat, a2: nat)
    requires s == x + y && a <= |y| && a2 == |x| + a
    ensures s[0..a2] == x + y[0..a]
  {
  }

  lemma SliceAt(x: string, y: string, s: string, lo: nat, hi: nat, lo2: nat, hi2: nat)
    requires s == x + y && lo <= hi <= |y| && lo2 == |x| + lo && hi2 == |x| + hi
    ensures s[lo2..hi2] == y[lo..hi]
  {
    SmartEncodingProps.SliceOfRight(x, y, lo, hi);
  }

  lemma SubstituteFront(l: string, t: string, ps: seq<Piece>, f: string -> string)
    ensures Substitute([Literal(l), Placeholder(t)] + ps, f) == l + (f(t) + Substitute(ps, f))
  {
    var qs := [Literal(l), Placeholder(t)] + ps;
    assert qs[1..] == [Placeholder(t)] + ps;
    assert qs[1..][1..] == ps;
  }

  /** No match between `j` and `e`: the search goes on from `e`. */
  lemma {:induction false} SearchSkip(p: Pattern, s: string, e: nat, j: nat)
    requires j <= e <= |s| && forall k | j <= k < e :: MatchEnd(p, s, k).None?
    ensures Search(p, s, j) == Search(p, s, e)
    decreases e - j
  {
    if j < e {
      SearchSkip(p, s, e, j + 1);
    }
  }

  // -------------------------------------------------------------------
  // A placeholder of a variable matches at the same place after any front

  lemma {:induction false} SkipSpaceShift(x: string, y: string, j: nat)
    requires j <= |y|
    ensures SkipSpace(x + y, |x| + j) == |x| + SkipSpace(y, j)
    decreases |y| - j
  {
    if j < |y| && IsSpace(y[j]) {
      SkipSpaceShift(x, y, j + 1);
    }
  }

  /** A match end `d` characters further on. */
  function ShiftEnd(r: Option<nat>, d: nat): Option<nat> {
    match r
    case None => None
    case Some(e) => Some(e + d)
  }

  /** A match `d` characters further on. */
  function ShiftMatch(r: Option<(nat, nat)>, d: nat): Option<(nat, nat)> {
    match r
    case None => None
    case Some((a, b)) => Some((a + d, b + d))
  }

  lemma MatchEndShift(n: string, x: string, y: string, s: string, j: nat, i: nat)
    requires s == x + y && j <= |y| && i == |x| + j
    ensures MatchEnd(Variable(n), s, i) == ShiftEnd(MatchEnd(Variable(n), y, j), |x|)
  {
    assert OpensAt(s, i) == OpensAt(y, j);
    if OpensAt(y, j) {
      OpenedShift(n, x, y, j);
    }
  }

  lemma OpenedShift(n: string, x: string, y: string, j: nat)
    requires j + 2 <= |y| && OpensAt(y, j) && OpensAt(x + y, |x| + j)
    ensures VariableEnd(x + y, n, |x| + j) == ShiftEnd(VariableEnd(y, n, j), |x|)
  {
    var s := x + y;
    var a := SkipSpace(y, j + 2);
    var a2 := SkipSpace(s, |x| + j + 2);
    SkipSpaceAt(x, y, s, j + 2, |x| + j + 2);
    VariableEndAt(y, n, j, a);
    VariableEndAt(s, n, |x| + j, a2);
    NamedShift(n, x, y, s, a, a2);
    EndsChain(VariableEnd(s, n, |x| + j), VariableEnd(y, n, j), NamedEnd(s, n, a2), NamedEnd(y, n, a), |x|);
  }

  lemma EndsChain(v1: Option<nat>, v2: Option<nat>, n1: Option<nat>, n2: Option<nat>, d: nat)
    requires v1 == n1 && v2 == n2 && n1 == ShiftEnd(n2, d)
    ensures v1 == ShiftEnd(v2, d)
  {
  }

  /** The rest of a `{{\s*name\s*}}` match once the opening braces and
      the white space after them are read. */
  function NamedEnd(s: string, n: string, a: nat): Option<nat>
    requires a <= |s|
  {
    if a + |n| <= |s| && s[a..a + |n|] == n then
      var c := SkipSpace(s, a + |n|);
      if ClosesAt(s, c) then Some(c + 2) else None
    else None
  }

  lemma VariableEndAt(s: string, n: string, i: nat, a: nat)
    requires OpensAt(s, i) && a == SkipSpace(s, i + 2)
    ensures VariableEnd(s, n, i) == NamedEnd(s, n, a)
  {
  }

  lemma NamedShift(n: string, x: string, y: string, s: string, a: nat, a2: nat)
    requires s == x + y && a <= |y| && a2 == |x| + a
    ensures NamedEnd(s, n, a2) == ShiftEnd(NamedEnd(y, n, a), |x|)
  {
    if a + |n| <= |y| {
      var c := SkipSpace(y, a + |n|);
      var c2 := SkipSpace(s, a2 + |n|);
      SliceAt(x, y, s, a, a + |n|, a2, a2 + |n|);
      SkipSpaceAt(x, y, s, a + |n|, a2 + |n|);
      assert ClosesAt(s, c2) == ClosesAt(y, c);
    }
  }

  lemma SkipSpaceAt(x: string, y: string, s: string, j: nat, i: nat)
    requires s == x + y && j <= |y| && i == |x| + j
    ensures SkipSpace(s, i) == |x| + SkipSpace(y, j)
  {
    SkipSpaceShift(x, y, j);
  }

  lemma {:induction false} SearchShift(n: string, x: string, y: string, s: string, j: nat, i: nat)
    requires s == x + y && j <= |y| && i == |x| + j
    ensures Search(Variable(n), s, i) == ShiftMatch(Search(Variable(n), y, j), |x|)
    decreases |y| - j, 1
  {
    MatchEndShift(n, x, y, s, j, i);
    if j < |y| {
      SearchShiftNext(n, x, y, s, j, i);
    } else {
      SearchShiftLast(Variable(n), s, y, i, j, |x|);
    }
  }

  /** SearchShift before the end of the texts. */
  lemma {:induction false} SearchShiftNext(n: string, x: string, y: string, s: string, j: nat, i: nat)
    requires s == x + y && j < |y| && i == |x| + j
    requires MatchEnd(Variable(n), s, i) == ShiftEnd(MatchEnd(Variable(n), y, j), |x|)
    ensures Search(Variable(n), s, i) == ShiftMatch(Search(Variable(n), y, j), |x|)
    decreases |y| - j, 0
  {
    SearchShift(n, x, y, s, j + 1, i + 1);
    SearchShiftStep(Variable(n), s, y, i, j, |x|);
  }

  /** One step of SearchShift, with the match here and the search from the
      next position already related. */
  lemma SearchShiftStep(p: Pattern, s: string, y: string, i: nat, j: nat, d: nat)
    requires j < |y| && i == d + j && |s| == d + |y|
    requires MatchEnd(p, s, i) == ShiftEnd(MatchEnd(p, y, j), d)
    requires Search(p, s, i + 1) == ShiftMatch(Search(p, y, j + 1), d)
    ensures Search(p, s, i) == ShiftMatch(Search(p, y, j), d)
  {
    SearchStepOf(p, s, i);
    SearchStepOf(p, y, j);
    ShiftStep(MatchEnd(p, y, j), Search(p, y, j + 1), j, d);
  }

  /** One step of Search: the match here, else the search further on. */
  function StepSearch(m: Option<nat>, i: nat, rest: Option<(nat, nat)>): Option<(nat, nat)> {
    match m
    case Some(e) => Some((i, e))
    case None => rest
  }

  lemma SearchStepOf(p: Pattern, s: string, i: nat)
    requires i < |s|
    ensures Search(p, s, i) == StepSearch(MatchEnd(p, s, i), i, Search(p, s, i + 1))
  {
  }

  /** Shifting commutes with one step of Search. */
  lemma ShiftStep(m: Option<nat>, r: Option<(nat, nat)>, j: nat, d: nat)
    ensures ShiftMatch(StepSearch(m, j, r), d) == StepSearch(ShiftEnd(m, d), j + d, ShiftMatch(r, d))
  {
  }

  /** The last step of SearchShift, at the end of both texts. */
  lemma SearchShiftLast(p: Pattern, s: string, y: string, i: nat, j: nat, d: nat)
    requires j == |y| && i == d + j && |s| == d + |y|
    requires MatchEnd(p, s, i) == ShiftEnd(MatchEnd(p, y, j), d)
    ensures Search(p, s, i) == ShiftMatch(Search(p, y, j), d)
  {
  }

  /** After a front, the cuts of the rest are the cuts of the rest alone. */
  lemma {:induction false} SegmentsShift(n: string, x: string, y: string, s: string, j: nat, i: nat)
    requires s == x + y && j <= |y| && i == |x| + j
    ensures SegmentsFrom(Variable(n), s, i) == SegmentsFrom(Variable(n), y, j)
    decreases |y| - j
  {
    var p := Variable(n);
    SearchShift(n, x, y, s, j, i);
    match Search(p, y, j)
    case None =>
      assert s[i..] == y[j..];
    case Some((a, b)) =>
      var (a2, b2) := Search(p, s, i).value;
      SegmentsShift(n, x, y, s, b, b2);
      SliceAt(x, y, s, j, a, i, a2);
      SliceAt(x, y, s, a, b, a2, b2);
      SegmentsShiftSome(p, y, s, j, a, b, i, a2, b2);
  }

  lemma SegmentsShiftSome(p: Pattern, y: string, s: string, j: nat, a: nat, b: nat, j2: nat, a2: nat, b2: nat)
    requires j <= |y| && j2 <= |s|
    requires Search(p, y, j) == Some((a, b)) && Search(p, s, j2) == Some((a2, b2))
    requires s[j2..a2] == y[j..a] && s[a2..b2] == y[a..b]
    requires SegmentsFrom(p, s, b2) == SegmentsFrom(p, y, b)
    ensures SegmentsFrom(p, s, j2) == SegmentsFrom(p, y, j)
  {
    SegmentsStep(p, y, j, a, b);
    SegmentsStep(p, s, j2, a2, b2);
    PiecesEqual(SegmentsFrom(p, s, j2), SegmentsFrom(p, y, j),
      s[j2..a2], s[a2..b2], SegmentsFrom(p, s, b2), y[j..a], y[a..b], SegmentsFrom(p, y, b));
  }

  lemma PiecesEqual(A: seq<Piece>, B: seq<Piece>, L1: string, T1: string, R1: seq<Piece>, L2: string, T2: string, R2: seq<Piece>)
    requires A == [Literal(L1), Placeholder(T1)] + R1 && B == [Literal(L2), Placeholder(T2)] + R2
    requires L1 == L2 && T1 == T2 && R1 == R2
    ensures A == B
  {
  }

  lemma SegmentsStep(p: Pattern, s: string, i: nat, a: nat, b: nat)
    requires i <= |s| && Search(p, s, i) == Some((a, b))
    ensures SegmentsFrom(p, s, i) == [Literal(s[i..a]), Placeholder(s[a..b])] + SegmentsFrom(p, s, b)
  {
  }

  // -------------------------------------------------------------------
  // The shape of a placeholder text

  lemma {:induction false} WordEndFacts(s: string, j: nat)
    requires j <= |s|
    ensures WordEnd(s, j) < |s| ==> !IsWordChar(s[WordEnd(s, j)])
    ensures forall k | j <= k < WordEnd(s, j) :: IsWordChar(s[k])
    decreases |s| - j
  {
    if j < |s| && IsWordChar(s[j]) {
      WordEndFacts(s, j + 1);
    }
  }

  /** A run that stops inside `t` stops at the same place after `t` is
      continued. */
  lemma {:induction false} SkipSpacePrefix(t: string, y: string, i: nat)
    requires i <= |t| && SkipSpace(t, i) < |t|
    ensures SkipSpace(t + y, i) == SkipSpace(t, i)
    decreases |t| - i
  {
    if IsSpace(t[i]) {
      SkipSpacePrefix(t, y, i + 1);
    }
  }

  /** The parts of a placeholder text: `{{`, white space from 2 to `a`,
      the name from `a` to `b`, white space from `b` to `c`, `}}`. */
  lemma PlaceholderParts(t: string)
    requires SmartEncodingProps.IsPlaceholderText(t)
    ensures |t| >= 5 && t[0] == '{' && t[1] == '{'
    ensures var a := SkipSpace(t, 2); var b := WordEnd(t, a);
      a < b && SkipSpace(t, b) + 2 == |t| && NameOf(t) == t[a..b] && IsWord(NameOf(t))
      && !IsWordChar(t[b]) && ClosesAt(t, SkipSpace(t, b))
    ensures forall j | 2 <= j < |t| :: t[j] != '{'
  {
    var a := SkipSpace(t, 2);
    var b := WordEnd(t, a);
    var c := SkipSpace(t, b);
    WordEndFacts(t, a);
    forall j | 2 <= j < |t| ensures t[j] != '{' {
      if j < a {
        assert IsSpace(t[j]);
      } else if j < b {
        assert IsWordChar(t[j]);
      } else if j < c {
        assert IsSpace(t[j]);
      }
    }
  }

  /** A placeholder of `n` matches the pattern of `n` over its whole text. */
  lemma PlaceholderOwn(t: string, y: string)
    requires SmartEncodingProps.IsPlaceholderText(t)
    ensures MatchEnd(Variable(NameOf(t)), t + y, 0) == Some(|t|)
  {
    PlaceholderParts(t);
    var s := t + y;
    var a := SkipSpace(t, 2);
    var b := WordEnd(t, a);
    var c := SkipSpace(t, b);
    SkipSpacePrefix(t, y, 2);
    SkipSpacePrefix(t, y, b);
    PrefixSlice(t, y, a, b);
    PrefixCloses(t, y, c);
    NamedEndAt(s, NameOf(t), a, c);
    VariableEndAt(s, NameOf(t), 0, a);
  }

  lemma PrefixCloses(t: string, y: string, c: nat)
    requires ClosesAt(t, c)
    ensures ClosesAt(t + y, c)
  {
  }

  /** The name at `a`, then white space up to `c`, then `}}`. */
  lemma NamedEndAt(s: string, n: string, a: nat, c: nat)
    requires a + |n| <= |s| && s[a..a + |n|] == n && SkipSpace(s, a + |n|) == c && ClosesAt(s, c)
    ensures NamedEnd(s, n, a) == Some(c + 2)
  {
  }

  lemma PrefixSlice(t: string, y: string, a: nat, b: nat)
    requires a <= b <= |t|
    ensures (t + y)[a..b] == t[a..b]
  {
  }

  /** A placeholder of another variable holds no match of the pattern of
      `n`, wherever it stands. */
  lemma PlaceholderOther(n: string, t: string, y: string)
    requires SmartEncodingProps.IsPlaceholderText(t) && IsWord(n) && NameOf(t) != n
    ensures forall j | 0 <= j < |t| :: MatchEnd(Variable(n), t + y, j).None?
  {
    PlaceholderParts(t);
    var s := t + y;
    var a := SkipSpace(t, 2);
    var b := WordEnd(t, a);
    SkipSpacePrefix(t, y, 2);
    WordEndFacts(t, a);
    assert s[a..b] == t[a..b];
    assert forall k | a <= k < b :: IsWordChar(s[k]);
    NameMismatch(s, a, b, n);
    OtherAtStart(s, n, a);
    forall j | 1 <= j < |t| ensures !OpensAt(s, j) {
      if j == 1 {
        assert s[2] == t[2];
      } else {
        assert s[j] == t[j];
      }
    }
  }

  /** A name read at `a` that is not the word there runs past it or
      stops inside it, before a word character. */
  lemma NameMismatch(s: string, a: nat, b: nat, n: string)
    requires a < b < |s| && IsWord(n) && s[a..b] != n && !IsWordChar(s[b])
    requires forall k | a <= k < b :: IsWordChar(s[k])
    ensures a + |n| <= |s| && s[a..a + |n|] == n ==> a + |n| < |s| && IsWordChar(s[a + |n|])
  {
  }

  lemma OtherAtStart(s: string, n: string, a: nat)
    requires OpensAt(s, 0) && SkipSpace(s, 2) == a
    requires a + |n| <= |s| && s[a..a + |n|] == n ==> a + |n| < |s| && IsWordChar(s[a + |n|])
    ensures VariableEnd(s, n, 0).None?
  {
    if a + |n| <= |s| && s[a..a + |n|] == n {
      assert SkipSpace(s, a + |n|) == a + |n|;
    }
  }

  /** Every match of the any-variable pattern is a placeholder text, and
      with `BracesInPlaceholders` its cuts are clean. */
  lemma {:induction false} SegmentsClean(s: string, i: nat)
    requires i <= |s|
    requires forall q | q in SegmentsFrom(AnyVariable, s, i) && q.Literal? :: '{' !in q.text
    ensures Clean(SegmentsFrom(AnyVariable, s, i))
    decreases |s| - i
  {
    var qs := SegmentsFrom(AnyVariable, s, i);
    match Search(AnyVariable, s, i)
    case None =>
      assert qs == [Literal(s[i..])];
      assert qs[0] in qs;
    case Some((a, b)) =>
      var rest := SegmentsFrom(AnyVariable, s, b);
      assert qs == [Literal(s[i..a]), Placeholder(s[a..b])] + rest;
      assert forall q | q in rest :: q in qs;
      SegmentsClean(s, b);
      MatchIsPlaceholder(s, i, a, b);
      assert qs[0] in qs;
  }

  lemma MatchIsPlaceholder(s: string, i: nat, a: nat, b: nat)
    requires i <= |s| && Search(AnyVariable, s, i) == Some((a, b))
    ensures SmartEncodingProps.IsPlaceholderText(s[a..b])
  {
    SearchLeftmost(AnyVariable, s, i);
    assert s[a..b][0..b - a] == s[a..b];
    SmartEncodingProps.SliceWindow(s, a, s[a..b], 0, b - a);
    SmartEncodingProps.AnyVariableLocal(s, a, s[a..b], 0, b - a);
  }

  // -------------------------------------------------------------------
  // The placeholder `{{name}}`

  lemma PlaceholderOfText(name: string)
    requires IsWord(name)
    ensures SmartEncodingProps.IsPlaceholderText(PlaceholderOf(name))
  {
    var t := PlaceholderOf(name);
    assert SkipSpace(t, 2) == 2;
    WordEndFacts(t, 2);
    WordEndName(t, name, 2);
    assert SkipSpace(t, 2 + |name|) == 2 + |name|;
  }

  lemma NameOfPlaceholder(name: string)
    requires IsWord(name)
    ensures NameOf(PlaceholderOf(name)) == name
  {
    var t := PlaceholderOf(name);
    assert SkipSpace(t, 2) == 2;
    WordEndName(t, name, 2);
    assert t[2..2 + |name|] == name;
  }

  lemma {:induction false} WordEndName(t: string, name: string, j: nat)
    requires IsWord(name) && t == PlaceholderOf(name) && 2 <= j <= 2 + |name|
    ensures WordEnd(t, j) == 2 + |name|
    decreases |t| - j
  {
    if j < 2 + |name| {
      assert t[j] == name[j - 2];
      WordEndName(t, name, j + 1);
    } else {
      assert t[j] == '}';
    }
  }
}
