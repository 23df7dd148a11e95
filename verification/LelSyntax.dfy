/** Surface expressions of the LEL grammar: what they denote, and their text, parenthesized where an operand binds more loosely. */
module LelSyntax {
  import opened Wrappers
  import opened LelNodes
  import opened LelTyping
  import opened LelGrammar

  datatype Expr =
    | Number(text: string)
    | Literal(word: string)
    | Ref(name: string)
    | Call(name: string, args: seq<Expr>)
    | Neg(arg: Expr)
    | Not(arg: Expr)
    | BinOp(op: BinaryOp, left: Expr, right: Expr)

  // ---- well-formed text ----

  predicate Blank(c: char) {
    c == ' ' || c == '\t' || c == '\n' || c as int == 11 || c as int == 12 || c == '\r'
  }

  /** White space, as much as one likes. */
  predicate AllBlank(w: string) {
    forall i :: 0 <= i < |w| ==> Blank(w[i])
  }

  predicate Digit(c: char) {
    48 <= c as int <= 57
  }

  predicate Letter(c: char) {
    65 <= c as int <= 90 || 97 <= c as int <= 122
  }

  predicate IsTrue(s: string) {
    s in ["T", "TRUE", "true"]
  }

  predicate IsFalse(s: string) {
    s in ["F", "FALSE", "false"]
  }

  predicate IsName(s: string) {
    && s != "" && !Digit(s[0]) && !IsTrue(s) && !IsFalse(s)
    && forall i :: 0 <= i < |s| ==> Letter(s[i]) || Digit(s[i]) || s[i] == '_'
  }

  /** Number text as the scanner takes it, complete: it does not stop at an exponent letter. */
  predicate IsNumber(s: string) {
    && s != "" && (Digit(s[0]) || s[0] == '.') && (forall i :: 0 <= i < |s| ==> NumberChar(s, i))
    && s[|s| - 1] !in ['e', 'E']
  }

  /** A digit, a point, an exponent letter, or a sign directly after one. */
  predicate NumberChar(s: string, i: nat)
    requires i < |s|
  {
    Digit(s[i]) || s[i] in ['.', 'e', 'E'] || (i > 0 && s[i] in ['+', '-'] && s[i - 1] in ['e', 'E'])
  }

  predicate Lexical(e: Expr) {
    match e
    case Number(t) => IsNumber(t)
    case Literal(t) => IsTrue(t) || IsFalse(t)
    case Ref(n) => IsName(n)
    case Call(n, args) => IsName(n) && forall i :: 0 <= i < |args| ==> Lexical(args[i])
    case Neg(a) => Lexical(a)
    case Not(a) => Lexical(a)
    case BinOp(_, l, r) => Lexical(l) && Lexical(r)
  }

  // ---- meaning ----

  /** The tree an expression denotes; nothing for an undefined name, a bad number or operands of the wrong type. */
  function Elab(ctx: Context, e: Expr): Option<TypedNode> {
    match e
    case Number(t) =>
      var x :- ctx.number(t);
      Some(TypedNode(Float32, Scalar(F(x))))
    case Literal(t) => Some(TypedNode(Boolean, Scalar(B(IsTrue(t)))))
    case Ref(n) => if n in ctx.symbols then Some(ctx.symbols[n]) else None
    case Call(n, args) =>
      var nodes :- ElabAll(ctx, args);
      ApplyCall(n, nodes)
    case Neg(a) =>
      var n :- Elab(ctx, a);
      MakeNegate(n)
    case Not(a) =>
      var n :- Elab(ctx, a);
      MakeNot(n)
    case BinOp(op, l, r) =>
      var x :- Elab(ctx, l);
      var y :- Elab(ctx, r);
      MakeBinary(op, x, y)
  }

  function ElabAll(ctx: Context, args: seq<Expr>): (r: Option<seq<TypedNode>>)
    ensures r.Some? ==> |r.value| == |args|
  {
    if args == [] then Some([])
    else
      var first :- Elab(ctx, args[0]);
      var rest :- ElabAll(ctx, args[1..]);
      Some([first] + rest)
  }

  // ---- text ----

  function Symbol(op: BinaryOp): string {
    match op
    case Add => "+"
    case Sub => "-"
    case Mul => "*"
    case Div => "/"
    case Eq => "=="
    case Ne => "!="
    case Gt => ">"
    case Ge => ">="
    case Lt => "<"
    case Le => "<="
    case And => "&&"
    case Or => "||"
  }

  const OR: nat := 0
  const AND: nat := 1
  const COMPARE: nat := 2
  const ADD: nat := 3
  const MUL: nat := 4
  const UNARY: nat := 5
  const PRIMARY: nat := 6

  function OpLevel(op: BinaryOp): (k: nat)
    ensures k <= MUL
  {
    match op
    case Or => OR
    case And => AND
    case Add => ADD
    case Sub => ADD
    case Mul => MUL
    case Div => MUL
    case _ => COMPARE
  }

  /** The grammar level an expression belongs to. */
  function Level(e: Expr): (k: nat)
    ensures k <= PRIMARY
  {
    match e
    case BinOp(op, _, _) => OpLevel(op)
    case Neg(_) => UNARY
    case Not(_) => UNARY
    case _ => PRIMARY
  }

  /** Comparisons do not associate; the others associate to the left. */
  function LeftLevel(op: BinaryOp): nat {
    if OpLevel(op) == COMPARE then ADD else OpLevel(op)
  }

  /** The text with the white space w before every token. */
  function Body(e: Expr, w: string): string
    decreases e, 0
  {
    match e
    case Number(t) => w + t
    case Literal(t) => w + t
    case Ref(n) => w + n
    case Call(n, args) => w + n + w + "(" + ShowArgs(args, w) + w + ")"
    case Neg(a) => w + "-" + Show(a, PRIMARY, w)
    case Not(a) => w + "!" + Show(a, UNARY, w)
    case BinOp(op, l, r) => Show(l, LeftLevel(op), w) + w + Symbol(op) + Show(r, OpLevel(op) + 1, w)
  }

  /** The text where the grammar expects the given level: parenthesized only if it belongs to a lower one. */
  function Show(e: Expr, level: nat, w: string): string
    decreases e, 1
  {
    if Level(e) < level then w + "(" + Body(e, w) + w + ")" else Body(e, w)
  }

  function ShowArgs(args: seq<Expr>, w: string): string
    decreases args, 0
  {
    if args == [] then "" else Show(args[0], OR, w) + ShowMore(args[1..], w)
  }

  function ShowMore(args: seq<Expr>, w: string): string
    decreases args, 0
  {
    if args == [] then "" else w + "," + Show(args[0], OR, w) + ShowMore(args[1..], w)
  }
}
