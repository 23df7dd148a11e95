/** The grammar of LelParser in src/lattice_expr.cpp as functions on the remaining text. */
module LelGrammar {
  import opened Wrappers
  import opened LelNodes
  import opened LelTyping

  /** Symbol table, and the conversion of number text to a float; nothing where std::stod throws. */
  datatype Context = Context(symbols: map<string, TypedNode>, number: string -> Option<real>)

  /** A node and the text after it; nothing where the parser throws. */
  type Parse = Option<(TypedNode, string)>

  // ---- characters ----

  predicate IsSpace(c: char) { c == ' ' || 9 <= c as int <= 13 }

  predicate IsDigit(c: char) { '0' <= c <= '9' }

  predicate IsAlpha(c: char) { 'a' <= c <= 'z' || 'A' <= c <= 'Z' }

  predicate IsNameChar(c: char) { IsAlpha(c) || IsDigit(c) || c == '_' }

  predicate IsNameStart(c: char) { IsAlpha(c) || c == '_' }

  predicate StartsWith(s: string, c: char) {
    s != "" && s[0] == c
  }

  function SkipWs(s: string): (r: string)
    ensures |r| <= |s| && (r != "" ==> !IsSpace(r[0]))
  {
    if s != "" && IsSpace(s[0]) then SkipWs(s[1..]) else s
  }

  /** The text after `t`, leading whitespace aside. */
  function Match(s: string, t: string): (r: Option<string>)
    ensures r.Some? ==> |r.value| + |t| <= |s|
  {
    var u := SkipWs(s);
    if t <= u then Some(u[|t|..]) else None
  }

  /** Position i belongs to the number that starts the text; a sign only directly after an exponent letter. */
  predicate InNumber(s: string, i: nat)
    requires i < |s|
  {
    IsDigit(s[i]) || s[i] == '.' || s[i] == 'e' || s[i] == 'E'
    || ((s[i] == '+' || s[i] == '-') && i > 0 && (s[i - 1] == 'e' || s[i - 1] == 'E'))
  }

  function NumberSpan(s: string, i: nat): (n: nat)
    requires i <= |s|
    ensures i <= n <= |s|
    decreases |s| - i
  {
    if i < |s| && InNumber(s, i) then NumberSpan(s, i + 1) else i
  }

  function NameSpan(s: string, i: nat): (n: nat)
    requires i <= |s|
    ensures i <= n <= |s|
    decreases |s| - i
  {
    if i < |s| && IsNameChar(s[i]) then NameSpan(s, i + 1) else i
  }

  // ---- operators ----

  function CompareOp(s: string): (r: Option<(BinaryOp, string)>)
    ensures r.Some? ==> |r.value.1| < |s|
  {
    if "==" <= s then Some((Eq, s[2..]))
    else if "!=" <= s then Some((Ne, s[2..]))
    else if ">=" <= s then Some((Ge, s[2..]))
    else if "<=" <= s then Some((Le, s[2..]))
    else if ">" <= s then Some((Gt, s[1..]))
    else if "<" <= s then Some((Lt, s[1..]))
    else None
  }

  function AddOp(s: string): (r: Option<(BinaryOp, string)>)
    ensures r.Some? ==> |r.value.1| < |s|
  {
    if StartsWith(s, '+') then Some((Add, s[1..])) else if StartsWith(s, '-') then Some((Sub, s[1..])) else None
  }

  function MulOp(s: string): (r: Option<(BinaryOp, string)>)
    ensures r.Some? ==> |r.value.1| < |s|
  {
    if StartsWith(s, '*') then Some((Mul, s[1..])) else if StartsWith(s, '/') then Some((Div, s[1..])) else None
  }

  // ---- the levels ----

  /** or: and ("||" and)* */
  function ParseOr(ctx: Context, s: string): (r: Parse)
    ensures r.Some? ==> |r.value.1| < |s|
    decreases |s|, 8
  {
    var (left, rest) :- ParseAnd(ctx, s);
    OrTail(ctx, left, rest)
  }

  function OrTail(ctx: Context, left: TypedNode, s: string): (r: Parse)
    ensures r.Some? ==> |r.value.1| <= |s|
    decreases |s|, 9
  {
    var u := SkipWs(s);
    if "||" <= u then
      var (right, rest) :- ParseAnd(ctx, u[2..]);
      var n :- MakeBinary(Or, left, right);
      OrTail(ctx, n, rest)
    else Some((left, u))
  }

  /** and: comparison ("&&" comparison)* */
  function ParseAnd(ctx: Context, s: string): (r: Parse)
    ensures r.Some? ==> |r.value.1| < |s|
    decreases |s|, 7
  {
    var (left, rest) :- ParseComparison(ctx, s);
    AndTail(ctx, left, rest)
  }

  function AndTail(ctx: Context, left: TypedNode, s: string): (r: Parse)
    ensures r.Some? ==> |r.value.1| <= |s|
    decreases |s|, 9
  {
    var u := SkipWs(s);
    if "&&" <= u then
      var (right, rest) :- ParseComparison(ctx, u[2..]);
      var n :- MakeBinary(And, left, right);
      AndTail(ctx, n, rest)
    else Some((left, u))
  }

  /** comparison: additive (op additive)? */
  function ParseComparison(ctx: Context, s: string): (r: Parse)
    ensures r.Some? ==> |r.value.1| < |s|
    decreases |s|, 6
  {
    var (left, rest) :- ParseAdditive(ctx, s);
    CompareTail(ctx, left, rest)
  }

  function CompareTail(ctx: Context, left: TypedNode, s: string): (r: Parse)
    ensures r.Some? ==> |r.value.1| <= |s|
    decreases |s|, 9
  {
    var u := SkipWs(s);
    match CompareOp(u)
    case None => Some((left, u))
    case Some((op, t)) =>
      var (right, rest) :- ParseAdditive(ctx, t);
      var n :- MakeBinary(op, left, right);
      Some((n, rest))
  }

  /** additive: multiplicative (("+" | "-") multiplicative)* */
  function ParseAdditive(ctx: Context, s: string): (r: Parse)
    ensures r.Some? ==> |r.value.1| < |s|
    decreases |s|, 5
  {
    var (left, rest) :- ParseMultiplicative(ctx, s);
    AddTail(ctx, left, rest)
  }

  function AddTail(ctx: Context, left: TypedNode, s: string): (r: Parse)
    ensures r.Some? ==> |r.value.1| <= |s|
    decreases |s|, 9
  {
    var u := SkipWs(s);
    match AddOp(u)
    case None => Some((left, u))
    case Some((op, t)) =>
      var (right, rest) :- ParseMultiplicative(ctx, t);
      var n :- MakeBinary(op, left, right);
      AddTail(ctx, n, rest)
  }

  /** multiplicative: unary (("*" | "/") unary)* */
  function ParseMultiplicative(ctx: Context, s: string): (r: Parse)
    ensures r.Some? ==> |r.value.1| < |s|
    decreases |s|, 4
  {
    var (left, rest) :- ParseUnary(ctx, s);
    MulTail(ctx, left, rest)
  }

  function MulTail(ctx: Context, left: TypedNode, s: string): (r: Parse)
    ensures r.Some? ==> |r.value.1| <= |s|
    decreases |s|, 9
  {
    var u := SkipWs(s);
    match MulOp(u)
    case None => Some((left, u))
    case Some((op, t)) =>
      var (right, rest) :- ParseUnary(ctx, t);
      var n :- MakeBinary(op, left, right);
      MulTail(ctx, n, rest)
  }

  /** unary: "!" unary | "-" primary | primary */
  function ParseUnary(ctx: Context, s: string): (r: Parse)
    ensures r.Some? ==> |r.value.1| < |s|
    decreases |s|, 3
  {
    var u := SkipWs(s);
    if StartsWith(u, '!') then
      var (operand, rest) :- ParseUnary(ctx, u[1..]);
      var n :- MakeNot(operand);
      Some((n, rest))
    else if StartsWith(u, '-') then
      var (operand, rest) :- ParsePrimary(ctx, u[1..]);
      var n :- MakeNegate(operand);
      Some((n, rest))
    else ParsePrimary(ctx, u)
  }

  /** primary: "(" or ")" | number | name | call */
  function ParsePrimary(ctx: Context, s: string): (r: Parse)
    ensures r.Some? ==> |r.value.1| < |s|
    decreases |s|, 2
  {
    var u := SkipWs(s);
    if u == "" then None
    else if u[0] == '(' then
      var (inner, t) :- ParseOr(ctx, u[1..]);
      var rest :- Match(t, ")");
      Some((inner, rest))
    else if IsDigit(u[0]) || u[0] == '.' then ParseNumber(ctx, u)
    else if IsNameStart(u[0]) then ParseName(ctx, u)
    else None
  }

  function ParseNumber(ctx: Context, s: string): (r: Parse)
    requires s != "" && (IsDigit(s[0]) || s[0] == '.')
    ensures r.Some? ==> |r.value.1| < |s|
    decreases |s|, 0
  {
    var n := NumberSpan(s, 0);
    assert InNumber(s, 0);
    var x :- ctx.number(s[..n]);
    Some((TypedNode(Float32, Scalar(F(x))), s[n..]))
  }

  function BoolLiteral(name: string): Option<bool> {
    if name == "T" || name == "TRUE" || name == "true" then Some(true)
    else if name == "F" || name == "FALSE" || name == "false" then Some(false)
    else None
  }

  function ParseName(ctx: Context, s: string): (r: Parse)
    requires s != "" && IsNameStart(s[0])
    ensures r.Some? ==> |r.value.1| < |s|
    decreases |s|, 1
  {
    var n := NameSpan(s, 0);
    assert n > 0;
    var name := s[..n];
    if BoolLiteral(name).Some? then Some((TypedNode(Boolean, Scalar(B(BoolLiteral(name).value))), s[n..]))
    else
      var v := SkipWs(s[n..]);
      if StartsWith(v, '(') then
        var (args, t) :- ParseArgs(ctx, v[1..]);
        var rest :- Match(t, ")");
        var node :- ApplyCall(name, args);
        Some((node, rest))
      else if name in ctx.symbols then Some((ctx.symbols[name], v))
      else None
  }

  /** Arguments up to the closing parenthesis: none, or one or more separated by commas. */
  function ParseArgs(ctx: Context, s: string): (r: Option<(seq<TypedNode>, string)>)
    ensures r.Some? ==> |r.value.1| <= |s|
    decreases |s|, 9
  {
    var u := SkipWs(s);
    if StartsWith(u, ')') then Some(([], u))
    else
      var (first, rest) :- ParseOr(ctx, u);
      ArgsTail(ctx, [first], rest)
  }

  function ArgsTail(ctx: Context, args: seq<TypedNode>, s: string): (r: Option<(seq<TypedNode>, string)>)
    ensures r.Some? ==> |r.value.1| <= |s|
    decreases |s|, 10
  {
    var u := SkipWs(s);
    if StartsWith(u, ',') then
      var (next, rest) :- ParseOr(ctx, u[1..]);
      ArgsTail(ctx, args + [next], rest)
    else Some((args, u))
  }

  /** lel_parse: the whole text is one expression. */
  function ParseAll(ctx: Context, s: string): Option<TypedNode> {
    if SkipWs(s) == "" then None
    else
      var (n, rest) :- ParseOr(ctx, SkipWs(s));
      if SkipWs(rest) == "" then Some(n) else None
  }
}
