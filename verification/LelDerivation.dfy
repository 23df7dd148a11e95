/** Whatever the parser accepts is a text of the grammar, and the tree is that of the expression the text stands for. */
module LelDerivation {
  import opened Wrappers
  import opened LelNodes
  import opened LelTyping
  import opened LelGrammar
  import opened LelSyntax
  import opened LelText
  import opened LelRoundTrip

  /** The text s is the phrase p, white space, and the rest; p stands for an expression with the tree n. */
  ghost predicate Derived(ctx: Context, p: Phrase, gap: string, s: string, n: TypedNode, rest: string) {
    Proper(p, false) && AllBlank(gap) && s == Spell(p) + gap + rest && Elab(ctx, Meant(p)) == Some(n)
  }

  lemma {:induction false} Blanks(s: string) returns (w: string)
    ensures AllBlank(w) && s == w + SkipWs(s)
  {
    w := "";
    if s != "" && IsSpace(s[0]) {
      var v := Blanks(s[1..]);
      w := [s[0]] + v;
    }
  }

  /** White space before a phrase belongs to its first token. */
  function Spaced(w: string, p: Phrase): (q: Phrase)
    ensures LevelOf(q) == LevelOf(p)
    decreases p
  {
    match p
    case Word(v, e) => Word(w + v, e)
    case Group(v, inner, gap) => Group(w + v, inner, gap)
    case Apply(v, n, gap, args, last) => Apply(w + v, n, gap, args, last)
    case Prefix(v, minus, operand) => Prefix(w + v, minus, operand)
    case Infix(op, l, gap, r) => Infix(op, Spaced(w, l), gap, r)
  }

  lemma {:induction false} SpacedIs(w: string, p: Phrase)
    requires AllBlank(w)
    ensures Spell(Spaced(w, p)) == w + Spell(p) && Meant(Spaced(w, p)) == Meant(p)
    ensures Proper(p, false) ==> Proper(Spaced(w, p), false)
  {
    hide AllBlank, Spell, Proper;
    if p.Infix? {
      SpacedIs(w, p.left);
      SpellInfix(p);
      SpellInfix(Spaced(w, p));
      SpacedInfix(w, p);
    } else {
      BothBlank(w, p.space);
      SpellToken(p);
      SpellToken(Spaced(w, p));
      SpacedToken(w, p);
      assert (w + p.space) + Token(p) + Behind(p) == w + (p.space + Token(p) + Behind(p));
    }
  }

  lemma SpacedInfix(w: string, p: Phrase)
    requires p.Infix? && (Proper(p.left, false) ==> Proper(Spaced(w, p.left), false))
    ensures Proper(p, false) ==> Proper(Spaced(w, p), false)
  {
    hide AllBlank;
  }

  lemma SpacedToken(w: string, p: Phrase)
    requires !p.Infix? && (AllBlank(p.space) ==> AllBlank(w + p.space))
    ensures var q := Spaced(w, p);
      !q.Infix? && q.space == w + p.space && Token(q) == Token(p) && Behind(q) == Behind(p) && Meant(q) == Meant(p)
    ensures Proper(p, false) ==> Proper(Spaced(w, p), false)
  {
    hide AllBlank, IsWord, ProperArgs, MeantArgs, WordText, Spell, SpellArgs;
  }

  lemma BothBlank(a: string, b: string)
    requires AllBlank(a)
    ensures AllBlank(b) ==> AllBlank(a + b)
  {
  }

  lemma Respaced(ctx: Context, p: Phrase, gap: string, s: string, n: TypedNode, rest: string, w: string)
    requires AllBlank(w) && Derived(ctx, p, gap, s, n, rest)
    ensures Derived(ctx, Spaced(w, p), gap, w + s, n, rest)
  {
    hide Proper, Spell, Meant, Elab, AllBlank;
    SpacedIs(w, p);
    assert w + (Spell(p) + gap + rest) == (w + Spell(p)) + gap + rest;
  }

  // ---- joining operands ----

  /** An operation on two derived operands. */
  lemma Joined(ctx: Context, op: BinaryOp, p: Phrase, gap: string, x: TypedNode, q: Phrase, s: string, y: TypedNode, end: string, rest: string)
    requires Proper(p, false) && AllBlank(gap) && Elab(ctx, Meant(p)) == Some(x) && LevelOf(p) >= LeftLevel(op)
    requires Derived(ctx, q, end, s, y, rest) && LevelOf(q) >= OpLevel(op) + 1 && MakeBinary(op, x, y).Some?
    ensures var r := Infix(op, p, gap, q);
      Derived(ctx, r, end, Spell(p) + gap + Symbol(op) + s, MakeBinary(op, x, y).value, rest) && LevelOf(r) == OpLevel(op)
  {
    hide MakeBinary, AllBlank, Symbol, Spell;
    SpellInfix(Infix(op, p, gap, q));
    GapsKept(Spell(p), gap, Symbol(op), Spell(q), end, rest);
  }

  lemma GapsKept(a: string, gap: string, b: string, c: string, end: string, rest: string)
    ensures a + gap + b + (c + end + rest) == (a + (gap + b + c)) + end + rest
  {
  }

  /**
   * A loop of the grammar, begun behind a phrase p with the tree x and the white space g: what it ends with is a phrase that
   * begins with p.
   */
  ghost predicate Continued(ctx: Context, p: Phrase, g: string, s: string, q: Phrase, gap: string, n: TypedNode, rest: string) {
    Derived(ctx, q, gap, Spell(p) + g + s, n, rest)
  }

  lemma Stopped(ctx: Context, p: Phrase, g: string, x: TypedNode, s: string) returns (gap: string)
    requires Proper(p, false) && AllBlank(g) && Elab(ctx, Meant(p)) == Some(x)
    ensures Continued(ctx, p, g, s, p, gap, x, SkipWs(s))
  {
    var w := Blanks(s);
    gap := g + w;
    BothBlank(g, w);
    assert Spell(p) + g + (w + SkipWs(s)) == Spell(p) + (g + w) + SkipWs(s);
  }

  /** The operator found behind the phrase and the right operand derived after it. */
  lemma Extended(ctx: Context, op: BinaryOp, p: Phrase, g: string, x: TypedNode, s: string, t: string, q: Phrase, y: TypedNode,
                 end: string, rest: string)
    returns (r: Phrase)
    requires Proper(p, false) && AllBlank(g) && Elab(ctx, Meant(p)) == Some(x) && LevelOf(p) >= LeftLevel(op)
    requires SkipWs(s) == Symbol(op) + t && Derived(ctx, q, end, t, y, rest) && LevelOf(q) >= OpLevel(op) + 1
    requires MakeBinary(op, x, y).Some?
    ensures Continued(ctx, p, g, s, r, end, MakeBinary(op, x, y).value, rest) && LevelOf(r) == OpLevel(op)
  {
    hide MakeBinary, Symbol, Proper, Elab, Meant, Spell, Derived, AllBlank, SkipWs;
    var w := Blanks(s);
    BothBlank(g, w);
    r := Infix(op, p, g + w, q);
    Joined(ctx, op, p, g + w, x, q, t, y, end, rest);
    GapsJoin(Spell(p), g, w, Symbol(op), t);
  }

  lemma GapsJoin(a: string, g: string, w: string, b: string, t: string)
    ensures a + g + (w + (b + t)) == a + (g + w) + b + t
  {
  }

  /** A derived text continued by the loop of a level is derived. */
  lemma Chained(ctx: Context, p: Phrase, gap: string, s: string, n: TypedNode, rest: string,
                q: Phrase, end: string, m: TypedNode, left: string)
    requires Derived(ctx, p, gap, s, n, rest) && Continued(ctx, p, gap, rest, q, end, m, left)
    ensures Derived(ctx, q, end, s, m, left)
  {
  }

  // ---- the levels ----

  lemma {:induction false} OrDerived(ctx: Context, s: string) returns (p: Phrase, gap: string)
    requires ParseOr(ctx, s).Some?
    ensures Derived(ctx, p, gap, s, ParseOr(ctx, s).value.0, ParseOr(ctx, s).value.1)
    decreases |s|, 8
  {
    hide Derived, Continued;
    var q, g := AndDerived(ctx, s);
    var (left, rest) := ParseAnd(ctx, s).value;
    Derives(ctx, q, g, s, left, rest);
    p, gap := OrTailDerived(ctx, q, g, left, rest);
    Chained(ctx, q, g, s, left, rest, p, gap, ParseOr(ctx, s).value.0, ParseOr(ctx, s).value.1);
  }

  lemma Derives(ctx: Context, p: Phrase, gap: string, s: string, n: TypedNode, rest: string)
    requires Derived(ctx, p, gap, s, n, rest)
    ensures Proper(p, false) && AllBlank(gap) && Elab(ctx, Meant(p)) == Some(n) && s == Spell(p) + gap + rest
  {
  }

  lemma {:induction false} OrTailDerived(ctx: Context, p: Phrase, g: string, x: TypedNode, s: string) returns (q: Phrase, gap: string)
    requires Proper(p, false) && AllBlank(g) && Elab(ctx, Meant(p)) == Some(x) && OrTail(ctx, x, s).Some?
    ensures Continued(ctx, p, g, s, q, gap, OrTail(ctx, x, s).value.0, OrTail(ctx, x, s).value.1)
    decreases |s|, 9
  {
    hide Derived, Continued, Proper, AllBlank, Meant, Elab, MakeBinary;
    var u := SkipWs(s);
    if "||" <= u {
      assert u == Symbol(Or) + u[2..];
      var r, end := AndDerived(ctx, u[2..]);
      var (y, rest) := ParseAnd(ctx, u[2..]).value;
      q := Extended(ctx, Or, p, g, x, s, u[2..], r, y, end, rest);
      var n := MakeBinary(Or, x, y).value;
      Continues(ctx, p, g, s, q, end, n, rest);
      var t;
      t, gap := OrTailDerived(ctx, q, end, n, rest);
      Chained(ctx, q, end, Spell(p) + g + s, n, rest, t, gap, OrTail(ctx, n, rest).value.0, OrTail(ctx, n, rest).value.1);
      IsContinued(ctx, p, g, s, t, gap, OrTail(ctx, n, rest).value.0, OrTail(ctx, n, rest).value.1);
      q := t;
    } else {
      q := p;
      gap := Stopped(ctx, p, g, x, s);
    }
  }

  lemma Continues(ctx: Context, p: Phrase, g: string, s: string, q: Phrase, gap: string, n: TypedNode, rest: string)
    requires Continued(ctx, p, g, s, q, gap, n, rest)
    ensures Derived(ctx, q, gap, Spell(p) + g + s, n, rest)
    ensures Proper(q, false) && AllBlank(gap) && Elab(ctx, Meant(q)) == Some(n)
  {
  }

  lemma IsContinued(ctx: Context, p: Phrase, g: string, s: string, q: Phrase, gap: string, n: TypedNode, rest: string)
    requires Derived(ctx, q, gap, Spell(p) + g + s, n, rest)
    ensures Continued(ctx, p, g, s, q, gap, n, rest)
  {
  }

  lemma {:induction false} AndDerived(ctx: Context, s: string) returns (p: Phrase, gap: string)
    requires ParseAnd(ctx, s).Some?
    ensures Derived(ctx, p, gap, s, ParseAnd(ctx, s).value.0, ParseAnd(ctx, s).value.1) && LevelOf(p) >= AND
    decreases |s|, 7
  {
    hide Derived, Continued;
    var q, g := ComparisonDerived(ctx, s);
    var (left, rest) := ParseComparison(ctx, s).value;
    Derives(ctx, q, g, s, left, rest);
    p, gap := AndTailDerived(ctx, q, g, left, rest);
    Chained(ctx, q, g, s, left, rest, p, gap, ParseAnd(ctx, s).value.0, ParseAnd(ctx, s).value.1);
  }

  lemma {:induction false} AndTailDerived(ctx: Context, p: Phrase, g: string, x: TypedNode, s: string) returns (q: Phrase, gap: string)
    requires Proper(p, false) && AllBlank(g) && Elab(ctx, Meant(p)) == Some(x) && LevelOf(p) >= AND && AndTail(ctx, x, s).Some?
    ensures Continued(ctx, p, g, s, q, gap, AndTail(ctx, x, s).value.0, AndTail(ctx, x, s).value.1) && LevelOf(q) >= AND
    decreases |s|, 9
  {
    hide Derived, Continued, Proper, AllBlank, Meant, Elab, MakeBinary;
    var u := SkipWs(s);
    if "&&" <= u {
      assert u == Symbol(And) + u[2..];
      var r, end := ComparisonDerived(ctx, u[2..]);
      var (y, rest) := ParseComparison(ctx, u[2..]).value;
      q := Extended(ctx, And, p, g, x, s, u[2..], r, y, end, rest);
      var n := MakeBinary(And, x, y).value;
      Continues(ctx, p, g, s, q, end, n, rest);
      var t;
      t, gap := AndTailDerived(ctx, q, end, n, rest);
      Chained(ctx, q, end, Spell(p) + g + s, n, rest, t, gap, AndTail(ctx, n, rest).value.0, AndTail(ctx, n, rest).value.1);
      IsContinued(ctx, p, g, s, t, gap, AndTail(ctx, n, rest).value.0, AndTail(ctx, n, rest).value.1);
      q := t;
    } else {
      q := p;
      gap := Stopped(ctx, p, g, x, s);
    }
  }

  lemma CompareText(s: string)
    requires CompareOp(s).Some?
    ensures var (op, t) := CompareOp(s).value; OpLevel(op) == COMPARE && s == Symbol(op) + t
  {
  }

  lemma {:induction false} ComparisonDerived(ctx: Context, s: string) returns (p: Phrase, gap: string)
    requires ParseComparison(ctx, s).Some?
    ensures Derived(ctx, p, gap, s, ParseComparison(ctx, s).value.0, ParseComparison(ctx, s).value.1) && LevelOf(p) >= COMPARE
    decreases |s|, 6
  {
    hide Derived, Continued, CompareOp, MakeBinary, Proper, AllBlank, Meant, Elab, Symbol, OpLevel;
    var q, g := AdditiveDerived(ctx, s);
    var (left, rest) := ParseAdditive(ctx, s).value;
    Derives(ctx, q, g, s, left, rest);
    var c := CompareOp(SkipWs(rest));
    if c.Some? {
      var (op, t) := c.value;
      CompareText(SkipWs(rest));
      var r, end := AdditiveDerived(ctx, t);
      var (y, after) := ParseAdditive(ctx, t).value;
      p := Extended(ctx, op, q, g, left, rest, t, r, y, end, after);
      gap := end;
      Chained(ctx, q, g, s, left, rest, p, gap, MakeBinary(op, left, y).value, after);
    } else {
      p := q;
      gap := Stopped(ctx, q, g, left, rest);
      Chained(ctx, q, g, s, left, rest, p, gap, left, SkipWs(rest));
    }
  }

  lemma {:induction false} AdditiveDerived(ctx: Context, s: string) returns (p: Phrase, gap: string)
    requires ParseAdditive(ctx, s).Some?
    ensures Derived(ctx, p, gap, s, ParseAdditive(ctx, s).value.0, ParseAdditive(ctx, s).value.1) && LevelOf(p) >= ADD
    decreases |s|, 5
  {
    hide Derived, Continued;
    var q, g := MultiplicativeDerived(ctx, s);
    var (left, rest) := ParseMultiplicative(ctx, s).value;
    Derives(ctx, q, g, s, left, rest);
    p, gap := AddTailDerived(ctx, q, g, left, rest);
    Chained(ctx, q, g, s, left, rest, p, gap, ParseAdditive(ctx, s).value.0, ParseAdditive(ctx, s).value.1);
  }

  lemma AddText(s: string)
    requires AddOp(s).Some?
    ensures var (op, t) := AddOp(s).value; OpLevel(op) == ADD && s == Symbol(op) + t
  {
  }

  lemma {:induction false} AddTailDerived(ctx: Context, p: Phrase, g: string, x: TypedNode, s: string) returns (q: Phrase, gap: string)
    requires Proper(p, false) && AllBlank(g) && Elab(ctx, Meant(p)) == Some(x) && LevelOf(p) >= ADD && AddTail(ctx, x, s).Some?
    ensures Continued(ctx, p, g, s, q, gap, AddTail(ctx, x, s).value.0, AddTail(ctx, x, s).value.1) && LevelOf(q) >= ADD
    decreases |s|, 9
  {
    hide Derived, Continued, Proper, AllBlank, Meant, Elab, MakeBinary, AddOp, Symbol, OpLevel;
    var a := AddOp(SkipWs(s));
    if a.Some? {
      var (op, v) := a.value;
      AddText(SkipWs(s));
      var r, end := MultiplicativeDerived(ctx, v);
      var (y, rest) := ParseMultiplicative(ctx, v).value;
      q := Extended(ctx, op, p, g, x, s, v, r, y, end, rest);
      var n := MakeBinary(op, x, y).value;
      Continues(ctx, p, g, s, q, end, n, rest);
      var t;
      t, gap := AddTailDerived(ctx, q, end, n, rest);
      Chained(ctx, q, end, Spell(p) + g + s, n, rest, t, gap, AddTail(ctx, n, rest).value.0, AddTail(ctx, n, rest).value.1);
      IsContinued(ctx, p, g, s, t, gap, AddTail(ctx, n, rest).value.0, AddTail(ctx, n, rest).value.1);
      q := t;
    } else {
      q := p;
      gap := Stopped(ctx, p, g, x, s);
    }
  }

  lemma {:induction false} MultiplicativeDerived(ctx: Context, s: string) returns (p: Phrase, gap: string)
    requires ParseMultiplicative(ctx, s).Some?
    ensures Derived(ctx, p, gap, s, ParseMultiplicative(ctx, s).value.0, ParseMultiplicative(ctx, s).value.1) && LevelOf(p) >= MUL
    decreases |s|, 4
  {
    hide Derived, Continued;
    var q, g := UnaryDerived(ctx, s);
    var (left, rest) := ParseUnary(ctx, s).value;
    Derives(ctx, q, g, s, left, rest);
    p, gap := MulTailDerived(ctx, q, g, left, rest);
    Chained(ctx, q, g, s, left, rest, p, gap, ParseMultiplicative(ctx, s).value.0, ParseMultiplicative(ctx, s).value.1);
  }

  lemma MulText(s: string)
    requires MulOp(s).Some?
    ensures var (op, t) := MulOp(s).value; OpLevel(op) == MUL && s == Symbol(op) + t
  {
  }

  lemma {:induction false} MulTailDerived(ctx: Context, p: Phrase, g: string, x: TypedNode, s: string) returns (q: Phrase, gap: string)
    requires Proper(p, false) && AllBlank(g) && Elab(ctx, Meant(p)) == Some(x) && LevelOf(p) >= MUL && MulTail(ctx, x, s).Some?
    ensures Continued(ctx, p, g, s, q, gap, MulTail(ctx, x, s).value.0, MulTail(ctx, x, s).value.1) && LevelOf(q) >= MUL
    decreases |s|, 9
  {
    hide Derived, Continued, Proper, AllBlank, Meant, Elab, MakeBinary, MulOp, Symbol, OpLevel;
    var a := MulOp(SkipWs(s));
    if a.Some? {
      var (op, v) := a.value;
      MulText(SkipWs(s));
      var r, end := UnaryDerived(ctx, v);
      var (y, rest) := ParseUnary(ctx, v).value;
      q := Extended(ctx, op, p, g, x, s, v, r, y, end, rest);
      var n := MakeBinary(op, x, y).value;
      Continues(ctx, p, g, s, q, end, n, rest);
      var t;
      t, gap := MulTailDerived(ctx, q, end, n, rest);
      Chained(ctx, q, end, Spell(p) + g + s, n, rest, t, gap, MulTail(ctx, n, rest).value.0, MulTail(ctx, n, rest).value.1);
      IsContinued(ctx, p, g, s, t, gap, MulTail(ctx, n, rest).value.0, MulTail(ctx, n, rest).value.1);
      q := t;
    } else {
      q := p;
      gap := Stopped(ctx, p, g, x, s);
    }
  }

  // ---- prefixes ----

  lemma Signed(ctx: Context, w: string, minus: bool, q: Phrase, gap: string, t: string, y: TypedNode, rest: string)
    requires AllBlank(w) && Derived(ctx, q, gap, t, y, rest) && LevelOf(q) >= if minus then PRIMARY else UNARY
    requires (if minus then MakeNegate(y) else MakeNot(y)).Some?
    ensures Derived(ctx, Prefix(w, minus, q), gap, w + (if minus then "-" else "!") + t,
                    (if minus then MakeNegate(y) else MakeNot(y)).value, rest)
  {
    hide AllBlank, MakeNegate, MakeNot;
    var sign := if minus then "-" else "!";
    assert w + sign + (Spell(q) + gap + rest) == (w + sign + Spell(q)) + gap + rest;
  }

  lemma {:induction false} UnaryDerived(ctx: Context, s: string) returns (p: Phrase, gap: string)
    requires ParseUnary(ctx, s).Some?
    ensures Derived(ctx, p, gap, s, ParseUnary(ctx, s).value.0, ParseUnary(ctx, s).value.1) && LevelOf(p) >= UNARY
    decreases |s|, 3
  {
    hide Derived, Proper, AllBlank, Meant, Elab, Spell, MakeNot, MakeNegate;
    var w := Blanks(s);
    var u := SkipWs(s);
    var q: Phrase;
    if StartsWith(u, '!') {
      assert w + "!" + u[1..] == w + u;
      q, gap := UnaryDerived(ctx, u[1..]);
      var (y, rest) := ParseUnary(ctx, u[1..]).value;
      p := Prefix(w, false, q);
      Signed(ctx, w, false, q, gap, u[1..], y, rest);
    } else if StartsWith(u, '-') {
      assert w + "-" + u[1..] == w + u;
      q, gap := PrimaryDerived(ctx, u[1..]);
      var (y, rest) := ParsePrimary(ctx, u[1..]).value;
      p := Prefix(w, true, q);
      Signed(ctx, w, true, q, gap, u[1..], y, rest);
    } else {
      q, gap := PrimaryDerived(ctx, u);
      var (y, rest) := ParsePrimary(ctx, u).value;
      p := Spaced(w, q);
      Respaced(ctx, q, gap, u, y, rest, w);
    }
  }

  // ---- words ----

  lemma {:induction false} NumberChars(s: string, i: nat)
    requires i <= |s| && forall k :: 0 <= k < i ==> NumberChar(s, k)
    ensures forall k :: 0 <= k < NumberSpan(s, i) ==> NumberChar(s, k)
    decreases |s| - i
  {
    if i < |s| && InNumber(s, i) {
      NumberChars(s, i + 1);
    }
  }

  lemma {:induction false} NameChars(s: string, i: nat)
    requires i <= |s| && forall k :: 0 <= k < i ==> IsNameChar(s[k])
    ensures forall k :: 0 <= k < NameSpan(s, i) ==> IsNameChar(s[k])
    decreases |s| - i
  {
    if i < |s| && IsNameChar(s[i]) {
      NameChars(s, i + 1);
    }
  }

  lemma NumberDerived(ctx: Context, u: string) returns (p: Phrase)
    requires u != "" && (IsDigit(u[0]) || u[0] == '.') && ParseNumber(ctx, u).Some?
    ensures Derived(ctx, p, "", u, ParseNumber(ctx, u).value.0, ParseNumber(ctx, u).value.1) && LevelOf(p) == PRIMARY
  {
    var n := NumberSpan(u, 0);
    assert InNumber(u, 0);
    NumberChars(u, 0);
    var t := u[..n];
    assert forall i :: 0 <= i < n ==> (NumberChar(t, i) <==> NumberChar(u, i));
    p := Word("", Number(t));
    assert u == Spell(p) + "" + u[n..];
  }

  lemma Literals(t: string)
    ensures BoolLiteral(t).Some? <==> IsTrue(t) || IsFalse(t)
    ensures BoolLiteral(t).Some? ==> BoolLiteral(t).value == IsTrue(t)
  {
  }

  /** The scanned name, and the text behind it. */
  lemma Named(u: string) returns (n: nat)
    requires u != "" && IsNameStart(u[0])
    ensures n == NameSpan(u, 0) && 0 < n <= |u| && u == u[..n] + u[n..]
    ensures IsTrue(u[..n]) || IsFalse(u[..n]) || IsName(u[..n])
  {
    n := NameSpan(u, 0);
    NameChars(u, 0);
  }

  lemma WordDerived(ctx: Context, e: Expr, gap: string, s: string, n: TypedNode, rest: string)
    requires IsWord(e, false) && AllBlank(gap) && s == WordText(e) + gap + rest && Elab(ctx, e) == Some(n)
    ensures Derived(ctx, Word("", e), gap, s, n, rest)
  {
    hide IsWord, Elab;
    assert "" + WordText(e) == WordText(e);
  }

  // ---- primaries ----

  lemma Closed(ctx: Context, q: Phrase, gap: string, t: string, y: TypedNode, rest: string) returns (p: Phrase)
    requires Derived(ctx, q, gap, t, y, rest) && Match(rest, ")").Some?
    ensures Derived(ctx, p, "", "(" + t, y, Match(rest, ")").value) && LevelOf(p) == PRIMARY
  {
    hide AllBlank, Elab, SkipWs;
    var w := Blanks(rest);
    var after := Match(rest, ")").value;
    Matched(rest, ')', after);
    BothBlank(gap, w);
    NoBlank();
    p := Group("", q, gap + w);
    assert "(" + (Spell(q) + gap + (w + (")" + after))) == ("" + "(" + Spell(q) + (gap + w) + ")") + "" + after;
  }

  lemma NoBlank()
    ensures AllBlank("")
  {
  }

  lemma Matched(s: string, c: char, after: string)
    requires Match(s, [c]) == Some(after)
    ensures SkipWs(s) == [c] + after
  {
  }

  lemma {:induction false} PrimaryDerived(ctx: Context, s: string) returns (p: Phrase, gap: string)
    requires ParsePrimary(ctx, s).Some?
    ensures Derived(ctx, p, gap, s, ParsePrimary(ctx, s).value.0, ParsePrimary(ctx, s).value.1) && LevelOf(p) == PRIMARY
    decreases |s|, 2
  {
    hide Derived, Proper, AllBlank, Meant, Elab, Spell, Match, ParseNumber, ParseName;
    var w := Blanks(s);
    var u := SkipWs(s);
    var q: Phrase;
    gap := "";
    if u[0] == '(' {
      assert u == "(" + u[1..];
      var r, g := OrDerived(ctx, u[1..]);
      var (y, rest) := ParseOr(ctx, u[1..]).value;
      q := Closed(ctx, r, g, u[1..], y, rest);
    } else if IsDigit(u[0]) || u[0] == '.' {
      q := NumberDerived(ctx, u);
    } else {
      q, gap := NameDerived(ctx, u);
    }
    p := Spaced(w, q);
    Respaced(ctx, q, gap, u, ParsePrimary(ctx, s).value.0, ParsePrimary(ctx, s).value.1, w);
  }

  lemma {:induction false} NameDerived(ctx: Context, u: string) returns (p: Phrase, gap: string)
    requires u != "" && IsNameStart(u[0]) && ParseName(ctx, u).Some?
    ensures Derived(ctx, p, gap, u, ParseName(ctx, u).value.0, ParseName(ctx, u).value.1) && LevelOf(p) == PRIMARY
    decreases |u|, 1
  {
    hide Derived, AllBlank, BoolLiteral, IsTrue, IsFalse, IsName, NameSpan, Match, ApplyCall, SkipWs, Proper, Meant, Spell;
    var n := Named(u);
    var name := u[..n];
    Literals(name);
    NoBlank();
    gap := "";
    if BoolLiteral(name).Some? {
      p := Word("", Literal(name));
      assert u == name + "" + u[n..];
      WordDerived(ctx, Literal(name), "", u, ParseName(ctx, u).value.0, u[n..]);
    } else {
      var w := Blanks(u[n..]);
      var v := SkipWs(u[n..]);
      if StartsWith(v, '(') {
        var args, g := ArgsDerived(ctx, v[1..]);
        p := Called(ctx, u, name, w, v, args, g);
      } else {
        p := Word("", Ref(name));
        gap := w;
        assert u == name + w + v;
        WordDerived(ctx, Ref(name), w, u, ParseName(ctx, u).value.0, v);
      }
    }
  }

  // ---- arguments ----

  ghost predicate ArgsText(ctx: Context, args: Args, gap: string, s: string, nodes: seq<TypedNode>, rest: string) {
    ProperArgs(args, false) && AllBlank(gap) && s == SpellArgs(args) + gap + rest && ElabAll(ctx, MeantArgs(args)) == Some(nodes)
  }

  lemma Called(ctx: Context, u: string, name: string, w: string, v: string, args: Args, g: string) returns (p: Phrase)
    requires IsName(name) && AllBlank(w) && u == name + (w + v) && StartsWith(v, '(') && ParseArgs(ctx, v[1..]).Some?
    requires ArgsText(ctx, args, g, v[1..], ParseArgs(ctx, v[1..]).value.0, ParseArgs(ctx, v[1..]).value.1)
    requires Match(ParseArgs(ctx, v[1..]).value.1, ")").Some? && ApplyCall(name, ParseArgs(ctx, v[1..]).value.0).Some?
    ensures Derived(ctx, p, "", u, ApplyCall(name, ParseArgs(ctx, v[1..]).value.0).value, Match(ParseArgs(ctx, v[1..]).value.1, ")").value)
    ensures LevelOf(p) == PRIMARY
  {
    hide AllBlank, IsName, ParseArgs, ApplyCall, SkipWs, Match, SpellArgs, MeantArgs, ProperArgs;
    var rest := ParseArgs(ctx, v[1..]).value.1;
    var after := Match(rest, ")").value;
    var b := Blanks(rest);
    Matched(rest, ')', after);
    BothBlank(g, b);
    NoBlank();
    p := Apply("", name, w, args, g + b);
    assert v == "(" + v[1..];
    assert name + (w + ("(" + (SpellArgs(args) + g + (b + (")" + after)))))
        == ("" + name + w + "(" + SpellArgs(args) + (g + b) + ")") + "" + after;
  }

  lemma {:induction false} ArgsDerived(ctx: Context, s: string) returns (args: Args, gap: string)
    requires ParseArgs(ctx, s).Some?
    ensures ArgsText(ctx, args, gap, s, ParseArgs(ctx, s).value.0, ParseArgs(ctx, s).value.1)
    decreases |s|, 9
  {
    hide AllBlank, Proper, Meant, Spell, Elab;
    var w := Blanks(s);
    var u := SkipWs(s);
    if StartsWith(u, ')') {
      args, gap := NoArgs, w;
      assert s == "" + w + u;
    } else {
      var q, g := OrDerived(ctx, u);
      var (y, rest) := ParseOr(ctx, u).value;
      Respaced(ctx, q, g, u, y, rest, w);
      var first := Spaced(w, q);
      OneArgument(ctx, first, y);
      assert SpellMore([]) == "" && Spell(first) + "" == Spell(first);
      args, gap := ArgsTailDerived(ctx, first, [], g, [y], rest);
    }
  }

  lemma OneArgument(ctx: Context, first: Phrase, y: TypedNode)
    requires Elab(ctx, Meant(first)) == Some(y)
    ensures ElabAll(ctx, MeantArgs(Args(first, []))) == Some([y])
  {
    hide Elab, Meant;
    FirstElab(ctx, Meant(first), []);
    assert MeantMore([]) == [] && ElabAll(ctx, []) == Some([]) && [y] + [] == [y];
  }

  /** One more argument. */
  lemma MoreSnoc(ctx: Context, first: Phrase, more: seq<More>, m: More, nodes: seq<TypedNode>, y: TypedNode)
    requires Proper(first, false) && ProperMore(more, false) && AllBlank(m.gap) && Proper(m.arg, false)
    requires ElabAll(ctx, MeantArgs(Args(first, more))) == Some(nodes) && Elab(ctx, Meant(m.arg)) == Some(y)
    ensures ProperMore(more + [m], false) && SpellMore(more + [m]) == SpellMore(more) + m.gap + "," + Spell(m.arg)
    ensures ElabAll(ctx, MeantArgs(Args(first, more + [m]))) == Some(nodes + [y])
  {
    hide AllBlank, Proper, Meant, Spell, Elab;
    MoreEnd(more, m);
    var es := [Meant(first)] + MeantMore(more);
    assert [Meant(first)] + (MeantMore(more) + [Meant(m.arg)]) == es + [Meant(m.arg)];
    ElabSnoc(ctx, es, Meant(m.arg));
  }

  lemma {:induction false} MoreEnd(more: seq<More>, m: More)
    requires ProperMore(more, false) && AllBlank(m.gap) && Proper(m.arg, false)
    ensures ProperMore(more + [m], false) && SpellMore(more + [m]) == SpellMore(more) + m.gap + "," + Spell(m.arg)
    ensures MeantMore(more + [m]) == MeantMore(more) + [Meant(m.arg)]
  {
    hide AllBlank, Proper, Meant, Spell;
    if more == [] {
      assert more + [m] == [m] && [m][1..] == [];
      assert SpellMore([m]) == m.gap + "," + Spell(m.arg) + SpellMore([]);
      assert MeantMore([m]) == [Meant(m.arg)] + MeantMore([]);
    } else {
      MoreEnd(more[1..], m);
      assert (more + [m])[1..] == more[1..] + [m] && (more + [m])[0] == more[0];
    }
  }

  lemma {:induction false} ElabSnoc(ctx: Context, es: seq<Expr>, e: Expr)
    requires ElabAll(ctx, es).Some? && Elab(ctx, e).Some?
    ensures ElabAll(ctx, es + [e]) == Some(ElabAll(ctx, es).value + [Elab(ctx, e).value])
  {
    hide Elab;
    if es == [] {
      assert [] + [e] == [e] && [e] + [] == [e];
      FirstElab(ctx, e, []);
      assert ElabAll(ctx, []) == Some([]);
      var x := Elab(ctx, e).value;
      assert [x] + [] == [x] && [] + [x] == [x];
    } else {
      ElabSnoc(ctx, es[1..], e);
      assert es == [es[0]] + es[1..] && es + [e] == [es[0]] + (es[1..] + [e]);
      FirstElab(ctx, es[0], es[1..]);
      FirstElab(ctx, es[0], es[1..] + [e]);
      var f, r, x := Elab(ctx, es[0]).value, ElabAll(ctx, es[1..]).value, Elab(ctx, e).value;
      assert [f] + (r + [x]) == ([f] + r) + [x];
    }
  }

  lemma {:induction false} ArgsTailDerived(ctx: Context, first: Phrase, more: seq<More>, g: string, nodes: seq<TypedNode>, s: string)
    returns (args: Args, gap: string)
    requires Proper(first, false) && ProperMore(more, false) && AllBlank(g) && ElabAll(ctx, MeantArgs(Args(first, more))) == Some(nodes)
    requires ArgsTail(ctx, nodes, s).Some?
    ensures ArgsText(ctx, args, gap, Spell(first) + SpellMore(more) + g + s, ArgsTail(ctx, nodes, s).value.0, ArgsTail(ctx, nodes, s).value.1)
    decreases |s|, 10
  {
    hide AllBlank, Proper, Meant, Spell, Elab, MeantArgs, SpellMore, ProperMore, Derived, ArgsText;
    var w := Blanks(s);
    var u := SkipWs(s);
    BothBlank(g, w);
    if StartsWith(u, ',') {
      var q, end := OrDerived(ctx, u[1..]);
      var (y, rest) := ParseOr(ctx, u[1..]).value;
      Derives(ctx, q, end, u[1..], y, rest);
      var m := More(g + w, q);
      MoreSnoc(ctx, first, more, m, nodes, y);
      args, gap := ArgsTailDerived(ctx, first, more + [m], end, nodes + [y], rest);
      assert u == "," + u[1..];
      Regrouped(Spell(first), SpellMore(more), g, w, ",", Spell(q), end, rest);
    } else {
      args, gap := Args(first, more), g + w;
      ArgsEnded(ctx, args, g, w, u, nodes);
    }
  }

  lemma Regrouped(a: string, b: string, g: string, w: string, comma: string, c: string, end: string, rest: string)
    ensures a + b + g + (w + (comma + (c + end + rest))) == a + (b + (g + w) + comma + c) + end + rest
  {
  }

  lemma ArgsEnded(ctx: Context, args: Args, g: string, w: string, u: string, nodes: seq<TypedNode>)
    requires args.Args? && ProperArgs(args, false) && AllBlank(g + w) && ElabAll(ctx, MeantArgs(args)) == Some(nodes)
    ensures ArgsText(ctx, args, g + w, Spell(args.first) + SpellMore(args.more) + g + (w + u), nodes, u)
  {
    hide AllBlank, Proper, Meant, Spell, Elab, SpellMore, ProperMore, MeantArgs, ElabAll;
    assert Spell(args.first) + SpellMore(args.more) + g + (w + u) == (Spell(args.first) + SpellMore(args.more)) + (g + w) + u;
  }

  // ---- whole texts ----

  /** An accepted text is a text of the grammar; the tree is that of the expression it stands for. */
  lemma AcceptedIsDerived(ctx: Context, s: string) returns (p: Phrase, gap: string)
    requires ParseAll(ctx, s).Some?
    ensures Proper(p, false) && AllBlank(gap) && s == Spell(p) + gap && Elab(ctx, Meant(p)) == ParseAll(ctx, s)
  {
    hide Proper, AllBlank, Meant, Elab, Spell, ParseOr, Derived, Spaced;
    var w := Blanks(s);
    var u := SkipWs(s);
    var q, g := OrDerived(ctx, u);
    var (n, rest) := ParseOr(ctx, u).value;
    Respaced(ctx, q, g, u, n, rest, w);
    p := Spaced(w, q);
    Derives(ctx, p, g, s, n, rest);
    var b := Blanks(rest);
    gap := g + b;
    BothBlank(g, b);
    assert rest == b;
  }
}
