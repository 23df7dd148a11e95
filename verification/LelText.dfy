/**
 * The texts of the LEL grammar: phrases with any white space between their tokens and parentheses wherever one likes, what they
 * spell and the expression they stand for.
 */
module LelText {
  import opened Wrappers
  import opened LelNodes
  import opened LelTyping
  import opened LelGrammar
  import opened LelSyntax

  /** White space stands before each token: `space` before the first one, `gap` and `last` before those inside. */
  datatype Phrase =
    | Word(space: string, word: Expr)
    | Group(space: string, inner: Phrase, gap: string)
    | Apply(space: string, name: string, gap: string, args: Args, last: string)
    | Prefix(space: string, minus: bool, operand: Phrase)
    | Infix(op: BinaryOp, left: Phrase, gap: string, right: Phrase)

  datatype Args = NoArgs | Args(first: Phrase, more: seq<More>)

  datatype More = More(gap: string, arg: Phrase)

  // ---- what it spells ----

  function WordText(e: Expr): string {
    match e
    case Number(t) => t
    case Literal(t) => t
    case Ref(n) => n
    case _ => ""
  }

  function Spell(p: Phrase): string
    decreases p
  {
    match p
    case Word(w, e) => w + WordText(e)
    case Group(w, inner, gap) => w + "(" + Spell(inner) + gap + ")"
    case Apply(w, n, gap, args, last) => w + n + gap + "(" + SpellArgs(args) + last + ")"
    case Prefix(w, minus, operand) => w + (if minus then "-" else "!") + Spell(operand)
    case Infix(op, l, gap, r) => Spell(l) + gap + Symbol(op) + Spell(r)
  }

  function SpellArgs(args: Args): string
    decreases args
  {
    match args
    case NoArgs => ""
    case Args(first, more) => Spell(first) + SpellMore(more)
  }

  function SpellMore(more: seq<More>): string
    decreases more
  {
    if more == [] then "" else more[0].gap + "," + Spell(more[0].arg) + SpellMore(more[1..])
  }

  /** The first token of a phrase that begins with one of its own. */
  function Token(p: Phrase): string
    requires !p.Infix?
  {
    match p
    case Word(_, e) => WordText(e)
    case Group(_, _, _) => "("
    case Apply(_, n, _, _, _) => n
    case Prefix(_, minus, _) => if minus then "-" else "!"
  }

  function Behind(p: Phrase): string
    requires !p.Infix?
  {
    match p
    case Word(_, _) => ""
    case Group(_, inner, gap) => Spell(inner) + gap + ")"
    case Apply(_, _, gap, args, last) => gap + "(" + SpellArgs(args) + last + ")"
    case Prefix(_, _, operand) => Spell(operand)
  }

  lemma SpellToken(p: Phrase)
    requires !p.Infix?
    ensures Spell(p) == p.space + Token(p) + Behind(p)
  {
    hide WordText;
    match p
    case Word(w, e) => assert w + WordText(e) + "" == w + WordText(e);
    case Group(w, inner, gap) =>
      assert w + "(" + (Spell(inner) + gap + ")") == w + "(" + Spell(inner) + gap + ")";
    case Apply(w, n, gap, args, last) =>
      assert w + n + (gap + "(" + SpellArgs(args) + last + ")") == w + n + gap + "(" + SpellArgs(args) + last + ")";
    case Prefix(_, _, _) =>
  }

  lemma SpellInfix(p: Phrase)
    requires p.Infix?
    ensures Spell(p) == Spell(p.left) + (p.gap + Symbol(p.op) + Spell(p.right))
  {
    hide Symbol;
    assert Spell(p.left) + (p.gap + Symbol(p.op) + Spell(p.right)) == Spell(p.left) + p.gap + Symbol(p.op) + Spell(p.right);
  }

  // ---- what it stands for ----

  function Meant(p: Phrase): Expr
    decreases p
  {
    match p
    case Word(_, e) => e
    case Group(_, inner, _) => Meant(inner)
    case Apply(_, n, _, args, _) => Call(n, MeantArgs(args))
    case Prefix(_, minus, operand) => if minus then Neg(Meant(operand)) else Not(Meant(operand))
    case Infix(op, l, _, r) => BinOp(op, Meant(l), Meant(r))
  }

  function MeantArgs(args: Args): seq<Expr>
    decreases args
  {
    match args
    case NoArgs => []
    case Args(first, more) => [Meant(first)] + MeantMore(more)
  }

  function MeantMore(more: seq<More>): (es: seq<Expr>)
    ensures |es| == |more|
    decreases more
  {
    if more == [] then [] else [Meant(more[0].arg)] + MeantMore(more[1..])
  }

  // ---- which phrases the grammar has ----

  /** The grammar level a phrase belongs to; parentheses make anything primary. */
  function LevelOf(p: Phrase): (k: nat)
    ensures k <= PRIMARY
  {
    match p
    case Infix(op, _, _, _) => OpLevel(op)
    case Prefix(_, _, _) => UNARY
    case _ => PRIMARY
  }

  /** Number text up to where the scanner stops. */
  predicate Scanned(s: string) {
    s != "" && (Digit(s[0]) || s[0] == '.') && forall i :: 0 <= i < |s| ==> NumberChar(s, i)
  }

  /** A number, a literal or a name; a complete number does not end in an exponent letter. */
  predicate IsWord(e: Expr, complete: bool) {
    match e
    case Number(t) => if complete then IsNumber(t) else Scanned(t)
    case Literal(t) => IsTrue(t) || IsFalse(t)
    case Ref(n) => IsName(n)
    case _ => false
  }

  /** Operands of an operator belong to its level or a tighter one; a minus takes a primary. */
  predicate Proper(p: Phrase, complete: bool)
    decreases p
  {
    match p
    case Word(w, e) => AllBlank(w) && IsWord(e, complete)
    case Group(w, inner, gap) => AllBlank(w) && AllBlank(gap) && Proper(inner, complete)
    case Apply(w, n, gap, args, last) =>
      AllBlank(w) && AllBlank(gap) && AllBlank(last) && IsName(n) && ProperArgs(args, complete)
    case Prefix(w, minus, operand) =>
      AllBlank(w) && Proper(operand, complete) && LevelOf(operand) >= if minus then PRIMARY else UNARY
    case Infix(op, l, gap, r) =>
      && AllBlank(gap) && Proper(l, complete) && Proper(r, complete)
      && LevelOf(l) >= LeftLevel(op) && LevelOf(r) >= OpLevel(op) + 1
  }

  predicate ProperArgs(args: Args, complete: bool)
    decreases args
  {
    args.NoArgs? || (Proper(args.first, complete) && ProperMore(args.more, complete))
  }

  predicate ProperMore(more: seq<More>, complete: bool)
    decreases more
  {
    more == [] || (AllBlank(more[0].gap) && Proper(more[0].arg, complete) && ProperMore(more[1..], complete))
  }

  // ---- the phrase that Show writes ----

  function Bare(e: Expr, w: string): Phrase
    decreases e, 0
  {
    match e
    case Call(n, args) => Apply(w, n, w, ShownArgs(args, w), w)
    case Neg(a) => Prefix(w, true, Shown(a, PRIMARY, w))
    case Not(a) => Prefix(w, false, Shown(a, UNARY, w))
    case BinOp(op, l, r) => Infix(op, Shown(l, LeftLevel(op), w), w, Shown(r, OpLevel(op) + 1, w))
    case _ => Word(w, e)
  }

  function Shown(e: Expr, level: nat, w: string): Phrase
    decreases e, 1
  {
    if Level(e) < level then Group(w, Bare(e, w), w) else Bare(e, w)
  }

  function ShownArgs(args: seq<Expr>, w: string): Args
    decreases args, 0
  {
    if args == [] then NoArgs else Args(Shown(args[0], OR, w), ShownMore(args[1..], w))
  }

  function ShownMore(args: seq<Expr>, w: string): seq<More>
    decreases args, 0
  {
    if args == [] then [] else [More(w, Shown(args[0], OR, w))] + ShownMore(args[1..], w)
  }

  lemma {:induction false} BareIs(e: Expr, w: string)
    requires Lexical(e) && AllBlank(w)
    ensures Spell(Bare(e, w)) == Body(e, w) && Proper(Bare(e, w), true) && Meant(Bare(e, w)) == e && LevelOf(Bare(e, w)) == Level(e)
    decreases e, 0
  {
    hide AllBlank, IsName, IsNumber, IsTrue, IsFalse;
    match e
    case Call(n, args) => ShownArgsAre(args, w);
    case Neg(a) => ShownIs(a, PRIMARY, w);
    case Not(a) => ShownIs(a, UNARY, w);
    case BinOp(op, l, r) =>
      ShownIs(l, LeftLevel(op), w);
      ShownIs(r, OpLevel(op) + 1, w);
    case _ =>
  }

  /** The text of an expression is that of a phrase which stands for it. */
  lemma {:induction false} ShownIs(e: Expr, level: nat, w: string)
    requires Lexical(e) && AllBlank(w) && level <= PRIMARY
    ensures var p := Shown(e, level, w);
      Spell(p) == Show(e, level, w) && Proper(p, true) && Meant(p) == e && LevelOf(p) >= level
    decreases e, 1
  {
    hide AllBlank, Lexical;
    BareIs(e, w);
  }

  lemma {:induction false} ShownArgsAre(args: seq<Expr>, w: string)
    requires (forall i :: 0 <= i < |args| ==> Lexical(args[i])) && AllBlank(w)
    ensures var a := ShownArgs(args, w);
      SpellArgs(a) == ShowArgs(args, w) && ProperArgs(a, true) && MeantArgs(a) == args
    decreases args, 1
  {
    hide AllBlank, Lexical, Shown, Show, Proper, Meant, Spell;
    if args != [] {
      ShownIs(args[0], OR, w);
      ShownMoreAre(args[1..], w);
    }
  }

  lemma {:induction false} ShownMoreAre(args: seq<Expr>, w: string)
    requires (forall i :: 0 <= i < |args| ==> Lexical(args[i])) && AllBlank(w)
    ensures var m := ShownMore(args, w);
      SpellMore(m) == ShowMore(args, w) && ProperMore(m, true) && MeantMore(m) == args
    decreases args, 0
  {
    hide AllBlank, Lexical, Shown, Show, Proper, Meant, Spell;
    if args != [] {
      ShownIs(args[0], OR, w);
      ShownMoreAre(args[1..], w);
      var m := More(w, Shown(args[0], OR, w));
      assert ShownMore(args, w) == [m] + ShownMore(args[1..], w);
      assert ([m] + ShownMore(args[1..], w))[1..] == ShownMore(args[1..], w);
    }
  }
}
