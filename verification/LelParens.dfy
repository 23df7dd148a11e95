/** The parentheses of a shown expression are needed: without the pair around an operand the text parses differently. */
module LelParens {
  import opened Wrappers
  import opened LelNodes
  import opened LelTyping
  import opened LelGrammar
  import opened LelSyntax
  import opened LelRoundTrip

  /** The operand of the expression's own operation: the right one of two, or the left one, or the only one. */
  function Operand(e: Expr, right: bool): Expr
    requires e.BinOp? || e.Neg? || e.Not?
  {
    if !e.BinOp? then e.arg else if right then e.right else e.left
  }

  /** The level the grammar expects there. */
  function OperandLevel(e: Expr, right: bool): nat
    requires e.BinOp? || e.Neg? || e.Not?
  {
    if e.Neg? then PRIMARY else if e.Not? then UNARY
    else if right then OpLevel(e.op) + 1 else LeftLevel(e.op)
  }

  /** Show writes a pair of parentheses around the operand. */
  predicate HasPair(e: Expr, right: bool) {
    (e.BinOp? || e.Neg? || e.Not?) && Level(Operand(e, right)) < OperandLevel(e, right)
  }

  /** An operator's text, with the white space before it. */
  function Sym(op: BinaryOp, w: string): string {
    w + Symbol(op)
  }

  function Sign(minus: bool, w: string): string {
    w + if minus then "-" else "!"
  }

  /** The text without that pair. */
  function WithoutPair(e: Expr, right: bool, w: string): string
    requires HasPair(e, right)
  {
    if !e.BinOp? then Sign(e.Neg?, w) + Body(e.arg, w)
    else if right then Show(e.left, LeftLevel(e.op), w) + Sym(e.op, w) + Body(e.right, w)
    else Body(e.left, w) + Sym(e.op, w) + Show(e.right, OpLevel(e.op) + 1, w)
  }

  // ---- sizes of trees ----

  /** Operations in a tree, promotions aside. */
  function Weight(n: Node): nat {
    match n
    case Scalar(_) => 1
    case ArrayRef(_, _) => 1
    case Node1(op, a) => if op == PromoteFloat then Weight(a) else 1 + Weight(a)
    case Node2(_, l, r) => 1 + Weight(l) + Weight(r)
    case Reduce(_, a) => 1 + Weight(a)
    case Iif(c, t, f) => 1 + Weight(c) + Weight(t) + Weight(f)
    case ValueExtract(a) => 1 + Weight(a)
    case MaskExtract(a) => 1 + Weight(a)
  }

  lemma BinaryShape(op: BinaryOp, x: TypedNode, y: TypedNode)
    requires MakeBinary(op, x, y).Some?
    ensures var n := MakeBinary(op, x, y).value.node;
      n.Node2? && Weight(n.left) == Weight(x.node) && Weight(n.right) == Weight(y.node)
  {
  }

  lemma OperandWeights(ctx: Context, e: Expr)
    requires e.BinOp? && Elab(ctx, e).Some?
    ensures Elab(ctx, e.left).Some? && Elab(ctx, e.right).Some? && Elab(ctx, e).value.node.Node2?
    ensures var n := Elab(ctx, e).value.node;
      Weight(n.left) == Weight(Elab(ctx, e.left).value.node) && Weight(n.right) == Weight(Elab(ctx, e.right).value.node)
  {
    hide MakeBinary, Weight;
    BinaryShape(e.op, Elab(ctx, e.left).value, Elab(ctx, e.right).value);
  }

  // ---- types keep arithmetic and logic apart ----

  /** A parenthesized operand of an operator that denotes something is of the operator's own kind. */
  lemma OperandKind(ctx: Context, e: Expr, right: bool)
    requires e.BinOp? && HasPair(e, right) && Elab(ctx, e).Some?
    ensures Operand(e, right).BinOp? && OpLevel(e.op) != COMPARE
    ensures OpLevel(e.op) > COMPARE ==> OpLevel(Operand(e, right).op) > COMPARE
  {
    var x := Operand(e, right);
    var inner, outer := OpLevel(x.op), OpLevel(e.op);
    if outer >= COMPARE && inner <= COMPARE {
      GivesBoolean(ctx, x);
      TakesReal(ctx, e);
      assert false;
    }
  }

  lemma GivesBoolean(ctx: Context, e: Expr)
    requires e.BinOp? && OpLevel(e.op) <= COMPARE && Elab(ctx, e).Some?
    ensures Elab(ctx, e).value.kind == Boolean
  {
  }

  lemma TakesReal(ctx: Context, e: Expr)
    requires e.BinOp? && OpLevel(e.op) >= COMPARE && Elab(ctx, e).Some?
    ensures Elab(ctx, e.left).Some? && Real(Elab(ctx, e.left).value.kind)
    ensures Elab(ctx, e.right).Some? && Real(Elab(ctx, e.right).value.kind)
  {
  }

  // ---- how the text is read instead ----

  /** The tree of l op r without parentheses around r: the operator takes only the first operand on r's left. */
  function TakeFirst(l: Expr, op: BinaryOp, r: Expr): (e: Expr)
    requires r.BinOp?
    ensures e.BinOp? && e.op == r.op && e.right == r.right
  {
    var x := r.left;
    if ChainsLeft(op, r) then BinOp(r.op, TakeFirst(l, op, x), r.right)
    else BinOp(r.op, BinOp(op, l, x), r.right)
  }

  lemma BinaryBody(op: BinaryOp, l: Expr, r: Expr, w: string)
    ensures Body(BinOp(op, l, r), w) == Show(l, LeftLevel(op), w) + Sym(op, w) + Show(r, OpLevel(op) + 1, w)
    ensures Lexical(BinOp(op, l, r)) <==> Lexical(l) && Lexical(r)
  {
  }

  lemma ShowAgrees(e: Expr, a: nat, b: nat, w: string)
    ensures (Level(e) < a <==> Level(e) < b) ==> Show(e, a, w) == Show(e, b, w)
    ensures Level(e) >= a ==> Show(e, a, w) == Body(e, w)
  {
  }

  lemma Regroup(a: string, b: string, c: string, d: string, e: string)
    ensures a + b + (c + d + e) == (a + b + c) + d + e
    ensures (a + b + c) + d + e == a + b + (c + d + e)
  {
  }

  predicate ChainsLeft(op: BinaryOp, r: Expr)
    requires r.BinOp?
  {
    r.left.BinOp? && LeftLevel(r.op) <= OpLevel(r.left.op) <= OpLevel(op)
  }

  /** Either way no parentheses come or go. */
  lemma FirstLevels(l: Expr, op: BinaryOp, r: Expr, inner: Expr)
    requires r.BinOp? && OpLevel(op) != COMPARE && OpLevel(r.op) <= OpLevel(op)
    requires OpLevel(op) > COMPARE ==> OpLevel(r.op) > COMPARE
    requires inner == if ChainsLeft(op, r) then TakeFirst(l, op, r.left) else BinOp(op, l, r.left)
    ensures Level(inner) >= LeftLevel(r.op) && TakeFirst(l, op, r) == BinOp(r.op, inner, r.right)
    ensures if ChainsLeft(op, r) then Level(r.left) >= LeftLevel(r.op)
            else Level(r.left) < LeftLevel(r.op) <==> Level(r.left) < OpLevel(op) + 1
    ensures ChainsLeft(op, r) ==> OpLevel(op) > COMPARE ==> OpLevel(r.left.op) > COMPARE
    ensures ChainsLeft(op, r) ==> OpLevel(r.left.op) <= OpLevel(op)
  {
  }

  lemma {:induction false} TakeFirstText(l: Expr, op: BinaryOp, r: Expr, w: string)
    requires r.BinOp? && OpLevel(op) != COMPARE && OpLevel(r.op) <= OpLevel(op)
    requires OpLevel(op) > COMPARE ==> OpLevel(r.op) > COMPARE
    requires Lexical(l) && Lexical(r)
    ensures Show(l, LeftLevel(op), w) + Sym(op, w) + Body(r, w) == Body(TakeFirst(l, op, r), w) && Lexical(TakeFirst(l, op, r))
  {
    hide Body, Show, Sym, Lexical, Level, LeftLevel, OpLevel, TakeFirst;
    var x, level := r.left, LeftLevel(r.op);
    var inner := if ChainsLeft(op, r) then TakeFirst(l, op, x) else BinOp(op, l, x);
    FirstLevels(l, op, r, inner);
    BinaryBody(r.op, x, r.right, w);
    ShowAgrees(x, level, OpLevel(op) + 1, w);
    var head, tail := Show(l, LeftLevel(op), w), Show(r.right, OpLevel(r.op) + 1, w);
    Regroup(head, Sym(op, w), Show(x, level, w), Sym(r.op, w), tail);
    if ChainsLeft(op, r) {
      TakeFirstText(l, op, x, w);
    } else {
      BinaryBody(op, l, x, w);
    }
    ShowAgrees(inner, level, level, w);
    BinaryBody(r.op, inner, r.right, w);
  }

  /** The tree of l op r without parentheses around l: the operator takes only the last operand on l's right. */
  function TakeLast(l: Expr, op: BinaryOp, r: Expr): (e: Expr)
    requires l.BinOp?
    ensures e.BinOp? && e.op == l.op && e.left == l.left
  {
    var x := l.right;
    if x.BinOp? && OpLevel(l.op) < OpLevel(x.op) < OpLevel(op) then BinOp(l.op, l.left, TakeLast(x, op, r))
    else BinOp(l.op, l.left, BinOp(op, x, r))
  }

  lemma {:induction false} TakeLastText(l: Expr, op: BinaryOp, r: Expr, w: string)
    requires l.BinOp? && OpLevel(op) != COMPARE && OpLevel(l.op) < OpLevel(op) && Lexical(l) && Lexical(r)
    ensures Body(l, w) + Sym(op, w) + Show(r, OpLevel(op) + 1, w) == Body(TakeLast(l, op, r), w) && Lexical(TakeLast(l, op, r))
  {
    hide Body, Show, Sym, Lexical;
    var x, level := l.right, OpLevel(l.op) + 1;
    BinaryBody(l.op, l.left, x, w);
    ShowAgrees(x, level, LeftLevel(op), w);
    var head, tail := Show(l.left, LeftLevel(l.op), w), Show(r, OpLevel(op) + 1, w);
    Regroup(head, Sym(l.op, w), Show(x, level, w), Sym(op, w), tail);
    var inner := if x.BinOp? && OpLevel(l.op) < OpLevel(x.op) < OpLevel(op) then TakeLast(x, op, r) else BinOp(op, x, r);
    if x.BinOp? && OpLevel(l.op) < OpLevel(x.op) < OpLevel(op) {
      TakeLastText(x, op, r, w);
    } else {
      BinaryBody(op, x, r, w);
    }
    ShowAgrees(inner, level, level, w);
    BinaryBody(l.op, l.left, inner, w);
  }

  function Signed(minus: bool, x: Expr): Expr {
    if minus then Neg(x) else Not(x)
  }


  /** The tree of a signed operation without parentheses: the sign goes to the first operand. */
  function SignFirst(minus: bool, a: Expr): (e: Expr)
    requires a.BinOp?
    ensures e.BinOp? && e.op == a.op
  {
    var x := a.left;
    if x.BinOp? && LeftLevel(a.op) <= OpLevel(x.op) then BinOp(a.op, SignFirst(minus, x), a.right)
    else BinOp(a.op, Signed(minus, x), a.right)
  }

  predicate BeginsSigned(s: string) {
    StartsWith(SkipWs(s), '-') || StartsWith(SkipWs(s), '!')
  }

  lemma SignedBody(minus: bool, x: Expr, w: string)
    ensures Body(Signed(minus, x), w) == Sign(minus, w) + Show(x, if minus then PRIMARY else UNARY, w)
    ensures Lexical(Signed(minus, x)) <==> Lexical(x)
  {
  }

  lemma {:induction false} SkipPrefix(x: string, y: string)
    requires SkipWs(x) != ""
    ensures SkipWs(x + y) == SkipWs(x) + y
  {
    if IsSpace(x[0]) {
      assert (x + y)[1..] == x[1..] + y;
      SkipPrefix(x[1..], y);
    }
  }

  lemma SignedBegins(x: Expr, w: string)
    requires (x.Neg? || x.Not?) && AllBlank(w)
    ensures BeginsSigned(Body(x, w))
  {
    var sign, rest := if x.Neg? then "-" else "!", Show(x.arg, if x.Neg? then PRIMARY else UNARY, w);
    assert Body(x, w) == w + sign + rest;
    Front(w, sign, rest);
  }

  lemma SignedStart(a: Expr, w: string)
    requires a.BinOp? && Lexical(a) && AllBlank(w)
    ensures Level(a.left) >= LeftLevel(a.op) ==> (BeginsSigned(Body(a, w)) <==> BeginsSigned(Body(a.left, w)))
    ensures Level(a.left) == UNARY ==> BeginsSigned(Body(a, w))
  {
    hide Body, SkipWs, Lexical, AllBlank;
    PartsLexical(a);
    BinaryBody(a.op, a.left, a.right, w);
    var level := LeftLevel(a.op);
    var x, after := Show(a.left, level, w), Sym(a.op, w) + Show(a.right, OpLevel(a.op) + 1, w);
    assert Body(a, w) == x + after && x + "" == x;
    Beginning(a.left, level, w, "");
    SkipPrefix(x, after);
    if Level(a.left) == UNARY {
      SignedBegins(a.left, w);
    }
  }

  lemma {:induction false} SignFirstText(minus: bool, a: Expr, w: string)
    requires a.BinOp? && Lexical(a) && !(minus && BeginsSigned(Body(a, w))) && AllBlank(w)
    ensures Sign(minus, w) + Body(a, w) == Body(SignFirst(minus, a), w) && Lexical(SignFirst(minus, a))
  {
    hide Body, Show, Sym, Lexical, BeginsSigned, Sign, Signed;
    var x, level := a.left, LeftLevel(a.op);
    var tail := Show(a.right, OpLevel(a.op) + 1, w);
    var chains := x.BinOp? && level <= OpLevel(x.op);
    var inner := if chains then SignFirst(minus, x) else Signed(minus, x);
    PartsLexical(a);
    SignedStart(a, w);
    BinaryBody(a.op, x, a.right, w);
    ShowAgrees(x, level, if minus then PRIMARY else UNARY, w);
    assert Sign(minus, w) + (Show(x, level, w) + Sym(a.op, w) + tail) == (Sign(minus, w) + Show(x, level, w)) + Sym(a.op, w) + tail;
    if chains {
      SignFirstText(minus, x, w);
    } else {
      SignedBody(minus, x, w);
      SignedLevel(minus, x);
    }
    ShowAgrees(inner, level, level, w);
    BinaryBody(a.op, inner, a.right, w);
  }

  lemma SignedLevel(minus: bool, x: Expr)
    ensures Level(Signed(minus, x)) == UNARY
  {
  }

  /** A sign directly after a minus is not an expression. */
  lemma TwoSigns(ctx: Context, s: string, w: string)
    requires BeginsSigned(s) && AllBlank(w)
    ensures ParseAll(ctx, w + "-" + s + w) == None
  {
    hide ParseOr, ParseAnd, ParseComparison, ParseAdditive, ParseMultiplicative, SkipWs, AllBlank;
    var t := w + "-" + s + w;
    assert t == w + "-" + (s + w);
    Front(w, "-", s + w);
    SkipPrefix(s, w);
    NoPrimary(ctx, s + w);
    PrefixStep(ctx, t, true, s + w);
    LevelSplit(ctx, MUL, t);
    LevelSplit(ctx, ADD, t);
    LevelSplit(ctx, COMPARE, t);
    LevelSplit(ctx, AND, t);
    LevelSplit(ctx, OR, t);
    ParseSkips(ctx, OR, t);
  }

  lemma NoPrimary(ctx: Context, s: string)
    requires StartsWith(SkipWs(s), '-') || StartsWith(SkipWs(s), '!')
    ensures ParseAt(ctx, PRIMARY, s) == None
  {
  }

  // ---- the theorem ----

  lemma WithoutRight(ctx: Context, e: Expr, w: string)
    requires e.BinOp? && Lexical(e) && Elab(ctx, e).Some? && HasPair(e, true) && AllBlank(w)
    ensures ParseAll(ctx, WithoutPair(e, true, w) + w) != Elab(ctx, e)
  {
    hide ParseAll, Lexical, Show, MakeBinary;
    PartsLexical(e);
    OperandKind(ctx, e, true);
    TakeFirstText(e.left, e.op, e.right, w);
    var g := TakeFirst(e.left, e.op, e.right);
    Unparenthesized(ctx, g, w);
    if Elab(ctx, g) == Elab(ctx, e) {
      OperandWeights(ctx, e);
      OperandWeights(ctx, g);
      OperandWeights(ctx, e.right);
    }
  }

  lemma WithoutLeft(ctx: Context, e: Expr, w: string)
    requires e.BinOp? && Lexical(e) && Elab(ctx, e).Some? && HasPair(e, false) && AllBlank(w)
    ensures ParseAll(ctx, WithoutPair(e, false, w) + w) != Elab(ctx, e)
  {
    hide ParseAll, Lexical, Show, MakeBinary;
    PartsLexical(e);
    OperandKind(ctx, e, false);
    TakeLastText(e.left, e.op, e.right, w);
    var g := TakeLast(e.left, e.op, e.right);
    Unparenthesized(ctx, g, w);
    if Elab(ctx, g) == Elab(ctx, e) {
      OperandWeights(ctx, e);
      OperandWeights(ctx, g);
      OperandWeights(ctx, e.left);
    }
  }

  lemma Unparenthesized(ctx: Context, g: Expr, w: string)
    requires Lexical(g) && AllBlank(w)
    ensures ParseAll(ctx, Body(g, w) + w) == Elab(ctx, g)
  {
    ParseInvertsShow(ctx, g, w);
  }

  lemma WithoutSign(ctx: Context, e: Expr, w: string)
    requires (e.Neg? || e.Not?) && Lexical(e) && Elab(ctx, e).Some? && HasPair(e, true) && AllBlank(w)
    ensures ParseAll(ctx, WithoutPair(e, true, w) + w) != Elab(ctx, e)
  {
    hide ParseAll, Lexical, MakeBinary;
    PartsLexical(e);
    if !e.arg.BinOp? {
      SignedBegins(e.arg, w);
    }
    if e.Neg? && BeginsSigned(Body(e.arg, w)) {
      TwoSigns(ctx, Body(e.arg, w), w);
    } else {
      SignFirstText(e.Neg?, e.arg, w);
      var g := SignFirst(e.Neg?, e.arg);
      Unparenthesized(ctx, g, w);
      if Elab(ctx, g).Some? {
        OperandWeights(ctx, g);
      }
    }
  }

  /** Dropping a pair that Show writes around an operand changes the tree, or the text no longer parses. */
  lemma PairsAreNeeded(ctx: Context, e: Expr, right: bool, w: string)
    requires Lexical(e) && Elab(ctx, e).Some? && HasPair(e, right) && AllBlank(w)
    ensures ParseAll(ctx, WithoutPair(e, right, w) + w) != Elab(ctx, e)
  {
    hide ParseAll, Lexical, Elab, WithoutPair;
    if !e.BinOp? {
      SameWithout(e, right, w);
      WithoutSign(ctx, e, w);
    } else if right {
      WithoutRight(ctx, e, w);
    } else {
      WithoutLeft(ctx, e, w);
    }
  }

  lemma SameWithout(e: Expr, right: bool, w: string)
    requires !e.BinOp? && HasPair(e, right)
    ensures HasPair(e, true) && WithoutPair(e, right, w) == WithoutPair(e, true, w)
  {
  }
}
