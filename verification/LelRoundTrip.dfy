/** Parsing a text of the grammar gives the tree that the expression it stands for denotes. */
module LelRoundTrip {
  import opened Wrappers
  import opened LelNodes
  import opened LelTyping
  import opened LelGrammar
  import opened LelSyntax
  import opened LelText

  // ---- white space ----

  lemma {:induction false} SkipBlank(w: string, s: string)
    requires AllBlank(w)
    ensures SkipWs(w + s) == SkipWs(s)
  {
    if w == "" {
      assert w + s == s;
    } else {
      assert (w + s)[1..] == w[1..] + s && IsSpace(w[0]);
      SkipBlank(w[1..], s);
    }
  }

  /** White space before a token is passed over. */
  lemma Front(w: string, t: string, more: string)
    requires AllBlank(w) && t != "" && !IsSpace(t[0])
    ensures SkipWs(w + t + more) == t + more
  {
    assert w + t + more == w + (t + more);
    SkipBlank(w, t + more);
  }

  function Trimmed(p: Parse): Parse {
    match p
    case None => None
    case Some((n, rest)) => Some((n, SkipWs(rest)))
  }

  // ---- what can follow an expression ----

  /** How loosely the text after an expression binds: 0 for a terminator, otherwise one more than its operator's level. */
  function Start(rest: string): nat {
    FirstToken(SkipWs(rest))
  }

  function FirstToken(u: string): nat {
    if u == "" || u[0] == ')' || u[0] == ',' then 0
    else if "||" <= u then 1
    else if "&&" <= u then 2
    else if CompareOp(u).Some? then 3
    else if AddOp(u).Some? then 4
    else if MulOp(u).Some? then 5
    else 9
  }

  /** What may follow an expression parsed at this level. */
  function Limit(level: nat): nat {
    if level <= AND then level + 1
    else if level == COMPARE then 2
    else if level <= MUL then level + 1
    else 5
  }

  /** Parsing at a level, white space behind a unary or primary expression aside. */
  function ParseAt(ctx: Context, level: nat, s: string): Parse {
    if level == OR then ParseOr(ctx, s)
    else if level == AND then ParseAnd(ctx, s)
    else if level == COMPARE then ParseComparison(ctx, s)
    else if level == ADD then ParseAdditive(ctx, s)
    else if level == MUL then ParseMultiplicative(ctx, s)
    else if level == UNARY then Trimmed(ParseUnary(ctx, s))
    else Trimmed(ParsePrimary(ctx, s))
  }

  function TailAt(ctx: Context, level: nat, n: TypedNode, s: string): Parse {
    if level == OR then OrTail(ctx, n, s)
    else if level == AND then AndTail(ctx, n, s)
    else if level == COMPARE then CompareTail(ctx, n, s)
    else if level == ADD then AddTail(ctx, n, s)
    else if level == MUL then MulTail(ctx, n, s)
    else Some((n, SkipWs(s)))
  }

  /** The outcome of parsing an expression that denotes p, with `rest` after it. */
  function Then(ctx: Context, level: nat, p: Option<TypedNode>, rest: string): Parse {
    match p
    case None => None
    case Some(n) => TailAt(ctx, level, n, rest)
  }

  lemma TailSkips(ctx: Context, level: nat, n: TypedNode, s: string)
    ensures TailAt(ctx, level, n, s) == TailAt(ctx, level, n, SkipWs(s))
  {
    hide MakeBinary, CompareOp, AddOp, MulOp, ParseAnd, ParseComparison, ParseAdditive, ParseMultiplicative, ParseUnary;
    var u := SkipWs(s);
    assert SkipWs(u) == u;
  }

  lemma AfterToken(rest: string)
    requires Start(rest) <= 5
    ensures rest != "" ==> !IsNameChar(rest[0]) && !IsDigit(rest[0]) && rest[0] != '.'
    ensures !StartsWith(SkipWs(rest), '(')
  {
    hide FirstToken;
    var u := SkipWs(rest);
    if u != "" {
      TokenChars(u);
    }
    if rest != "" && !IsSpace(rest[0]) {
      assert SkipWs(rest) == rest;
    }
  }

  lemma TokenChars(u: string)
    requires FirstToken(u) <= 5 && u != ""
    ensures u[0] in [')', ',', '|', '&', '=', '!', '<', '>', '+', '-', '*', '/']
  {
  }

  /** Text that binds more loosely ends the loop of a level. */
  lemma TailQuiet(ctx: Context, level: nat, n: TypedNode, rest: string)
    requires Start(rest) <= level && Start(rest) <= 5
    ensures TailAt(ctx, level, n, rest) == Some((n, SkipWs(rest)))
  {
    hide SkipWs, ParseAnd, ParseComparison, ParseAdditive, ParseMultiplicative, ParseUnary;
    StartOps(rest);
  }

  lemma StartOps(rest: string)
    requires Start(rest) <= 5
    ensures Start(rest) < 1 ==> !("||" <= SkipWs(rest))
    ensures Start(rest) < 2 ==> !("&&" <= SkipWs(rest))
    ensures Start(rest) < 3 ==> CompareOp(SkipWs(rest)).None?
    ensures Start(rest) < 4 ==> AddOp(SkipWs(rest)).None?
    ensures Start(rest) < 5 ==> MulOp(SkipWs(rest)).None?
  {
    hide SkipWs;
  }

  // ---- how a text begins ----

  predicate BeginsPrimary(s: string) {
    s != "" && (s[0] == '(' || IsDigit(s[0]) || s[0] == '.' || IsNameStart(s[0]))
  }

  predicate BeginsExpr(s: string) {
    BeginsPrimary(s) || StartsWith(s, '!') || StartsWith(s, '-')
  }

  lemma {:induction false} Begins(p: Phrase, more: string)
    requires Proper(p, true)
    ensures BeginsExpr(SkipWs(Spell(p) + more))
    ensures LevelOf(p) == PRIMARY ==> BeginsPrimary(SkipWs(Spell(p) + more))
  {
    hide SkipWs, Proper, Spell, Token, Behind, AllBlank;
    if p.Infix? {
      PartsProper(p);
      SpellInfix(p);
      var after := p.gap + Symbol(p.op) + Spell(p.right);
      assert Spell(p) + more == Spell(p.left) + (after + more);
      Begins(p.left, after + more);
    } else {
      TokenBegins(p);
      SpellToken(p);
      TokenFirst(p.space, Token(p), Behind(p), more, Spell(p));
    }
  }

  lemma TokenBegins(p: Phrase)
    requires Proper(p, true) && !p.Infix?
    ensures AllBlank(p.space) && Token(p) != "" && !IsSpace(Token(p)[0])
    ensures p.Prefix? || BeginsPrimary(Token(p))
    ensures p.Prefix? ==> Token(p) == "-" || Token(p) == "!"
  {
    hide AllBlank, IsTrue, IsFalse, IsName, IsNumber;
    match p
    case Apply(_, n, _, _, _) => NameWord(n);
    case Prefix(_, _, _) =>
    case Group(_, _, _) =>
    case Word(_, e) =>
      match e
      case Number(t) => NumberWord(t);
      case Literal(t) => LiteralWord(t);
      case Ref(n) => NameWord(n);
  }

  /** The same for the text that Show writes. */
  lemma Beginning(e: Expr, level: nat, w: string, more: string)
    requires Lexical(e) && level <= PRIMARY && AllBlank(w)
    ensures BeginsExpr(SkipWs(Show(e, level, w) + more))
  {
    hide Show, Shown, Lexical, Spell, Proper, SkipWs, AllBlank;
    ShownIs(e, level, w);
    Begins(Shown(e, level, w), more);
  }

  lemma TokenFirst(w: string, t: string, after: string, more: string, s: string)
    requires AllBlank(w) && t != "" && !IsSpace(t[0]) && s == w + t + after
    ensures StartsWith(SkipWs(s + more), t[0])
  {
    Front(w, t, after + more);
    assert s + more == w + t + (after + more);
  }

  lemma NumberWord(t: string)
    requires IsNumber(t)
    ensures t != "" && (IsDigit(t[0]) || t[0] == '.') && !IsSpace(t[0])
  {
  }

  lemma LiteralWord(t: string)
    requires IsTrue(t) || IsFalse(t)
    ensures Word(t) && BoolLiteral(t) == Some(IsTrue(t))
  {
  }

  lemma NoEquals(s: string)
    requires BeginsExpr(SkipWs(s))
    ensures !StartsWith(s, '=') && SkipWs(s) != "" && !StartsWith(SkipWs(s), ')')
  {
    if s != "" && !IsSpace(s[0]) {
      assert SkipWs(s) == s;
    }
  }

  // ---- one level down ----

  /** What a tighter level makes of the text, the looser level passes on. */
  lemma StepDown(ctx: Context, level: nat, s: string, p: Option<TypedNode>, rest: string)
    requires level < UNARY && Start(rest) <= Limit(level)
    requires ParseAt(ctx, level + 1, s) == Then(ctx, level + 1, p, rest)
    ensures ParseAt(ctx, level, s) == Then(ctx, level, p, rest)
  {
    hide ParseOr, OrTail, AndTail, CompareTail, AddTail, MulTail, Start, SkipWs;
    LevelSplit(ctx, level, s);
    if p.Some? {
      if level + 1 <= MUL {
        TailQuiet(ctx, level + 1, p.value, rest);
      }
      TailSkips(ctx, level, p.value, rest);
    }
  }

  lemma LevelSplit(ctx: Context, level: nat, s: string)
    requires level < UNARY
    ensures ParseAt(ctx, level, s)
         == match ParseAt(ctx, level + 1, s)
            case None => None
            case Some((n, rest)) => TailAt(ctx, level, n, rest)
  {
    hide OrTail, AndTail, CompareTail, AddTail, MulTail, SkipWs;
    if level == MUL && ParseUnary(ctx, s).Some? {
      TailSkips(ctx, MUL, ParseUnary(ctx, s).value.0, ParseUnary(ctx, s).value.1);
    }
  }

  /** White space before an expression makes no difference. */
  lemma {:induction false} ParseSkips(ctx: Context, level: nat, s: string)
    requires level <= PRIMARY
    ensures ParseAt(ctx, level, s) == ParseAt(ctx, level, SkipWs(s))
    decreases PRIMARY - level
  {
    hide ParseOr, OrTail, AndTail, CompareTail, AddTail, MulTail, TailAt;
    assert SkipWs(SkipWs(s)) == SkipWs(s);
    if level < UNARY {
      LevelSplit(ctx, level, s);
      LevelSplit(ctx, level, SkipWs(s));
      ParseSkips(ctx, level + 1, s);
    }
  }

  lemma UnaryIsPrimary(ctx: Context, s: string)
    requires BeginsPrimary(SkipWs(s))
    ensures ParseUnary(ctx, s) == ParsePrimary(ctx, s)
  {
    assert SkipWs(SkipWs(s)) == SkipWs(s);
  }

  // ---- words ----

  lemma {:induction false} NumberScan(t: string, rest: string, i: nat)
    requires IsNumber(t) && i <= |t| && Start(rest) <= 5
    ensures NumberSpan(t + rest, i) == |t|
    decreases |t| - i
  {
    hide Start;
    AfterToken(rest);
    var s := t + rest;
    if i < |t| {
      assert NumberChar(t, i);
      assert s[i] == t[i] && (i > 0 ==> s[i - 1] == t[i - 1]);
      NumberScan(t, rest, i + 1);
    } else if rest != "" {
      assert s[i] == rest[0] && s[i - 1] == t[|t| - 1];
    }
  }

  lemma {:induction false} NameScan(t: string, rest: string, i: nat)
    requires i <= |t| && (forall k :: 0 <= k < |t| ==> IsNameChar(t[k])) && (rest != "" ==> !IsNameChar(rest[0]))
    ensures NameSpan(t + rest, i) == |t|
    decreases |t| - i
  {
    var s := t + rest;
    if i < |t| {
      assert s[i] == t[i];
      NameScan(t, rest, i + 1);
    } else if rest != "" {
      assert s[i] == rest[0];
    }
  }

  lemma NumberRound(ctx: Context, t: string, w: string, rest: string)
    requires IsNumber(t) && Start(rest) <= 5 && AllBlank(w)
    ensures ParseAt(ctx, PRIMARY, w + t + rest) == Then(ctx, PRIMARY, Elab(ctx, Number(t)), rest)
  {
    hide Start, SkipWs, ParseName;
    Front(w, t, rest);
    NumberScan(t, rest, 0);
    assert (t + rest)[..|t|] == t && (t + rest)[|t|..] == rest;
  }

  lemma NameWord(n: string)
    requires IsName(n)
    ensures BoolLiteral(n).None? && Word(n)
  {
  }

  predicate Word(n: string) {
    n != "" && IsNameStart(n[0]) && !IsSpace(n[0]) && n[0] != '(' && !IsDigit(n[0]) && n[0] != '.'
    && forall i :: 0 <= i < |n| ==> IsNameChar(n[i])
  }

  /** A word is scanned to its end. */
  lemma WordStep(ctx: Context, s: string, n: string, behind: string)
    requires Word(n) && SkipWs(s) == n + behind && (behind != "" ==> !IsNameChar(behind[0]))
    ensures var u := n + behind;
      && u != "" && IsNameStart(u[0]) && ParsePrimary(ctx, s) == ParseName(ctx, u)
      && NameSpan(u, 0) == |n| && u[..|n|] == n && u[|n|..] == behind
  {
    hide ParseName, ParseNumber, SkipWs;
    NameScan(n, behind, 0);
    assert (n + behind)[0] == n[0];
  }

  lemma LiteralRound(ctx: Context, t: string, w: string, rest: string)
    requires (IsTrue(t) || IsFalse(t)) && Start(rest) <= 5 && AllBlank(w)
    ensures ParseAt(ctx, PRIMARY, w + t + rest) == Then(ctx, PRIMARY, Elab(ctx, Literal(t)), rest)
  {
    hide Start, SkipWs, BoolLiteral, IsTrue, IsFalse, ParsePrimary, NameSpan;
    LiteralWord(t);
    Front(w, t, rest);
    AfterToken(rest);
    WordStep(ctx, w + t + rest, t, rest);
  }

  lemma RefRound(ctx: Context, n: string, w: string, rest: string)
    requires IsName(n) && Start(rest) <= 5 && AllBlank(w)
    ensures ParseAt(ctx, PRIMARY, w + n + rest) == Then(ctx, PRIMARY, Elab(ctx, Ref(n)), rest)
  {
    hide Start, IsName, BoolLiteral, ParsePrimary, NameSpan;
    NameWord(n);
    Front(w, n, rest);
    AfterToken(rest);
    WordStep(ctx, w + n + rest, n, rest);
    assert SkipWs(SkipWs(rest)) == SkipWs(rest);
  }

  // ---- operators ----

  /** The outcome after an operator whose right operand parsed as r. */
  function AfterRight(ctx: Context, op: BinaryOp, left: TypedNode, r: Parse): Parse {
    if r.None? then None
    else
      var n := MakeBinary(op, left, r.value.0);
      if n.None? then None
      else if OpLevel(op) == COMPARE then Some((n.value, r.value.1))
      else TailAt(ctx, OpLevel(op), n.value, r.value.1)
  }

  lemma OrStep(ctx: Context, left: TypedNode, t: string, s: string)
    requires SkipWs(t) == "||" + s
    ensures OrTail(ctx, left, t) == AfterRight(ctx, Or, left, ParseAnd(ctx, s))
  {
    hide MakeBinary, ParseAnd;
    assert ("||" + s)[2..] == s;
  }

  lemma AndStep(ctx: Context, left: TypedNode, t: string, s: string)
    requires SkipWs(t) == "&&" + s
    ensures AndTail(ctx, left, t) == AfterRight(ctx, And, left, ParseComparison(ctx, s))
  {
    hide MakeBinary, ParseComparison;
    assert ("&&" + s)[2..] == s;
  }

  lemma CompareSymbol(op: BinaryOp, s: string)
    requires OpLevel(op) == COMPARE && !StartsWith(s, '=')
    ensures CompareOp(Symbol(op) + s) == Some((op, s))
  {
    var u := Symbol(op) + s;
    if |Symbol(op)| == 2 {
      assert u[0] == Symbol(op)[0] && u[1] == '=' && u[2..] == s;
    } else {
      assert u[0] == Symbol(op)[0] && u[1..] == s;
      assert |u| > 1 ==> u[1] == s[0];
      assert !("==" <= u) && !("!=" <= u) && !(">=" <= u) && !("<=" <= u);
    }
  }

  lemma CompareStep(ctx: Context, op: BinaryOp, left: TypedNode, t: string, s: string)
    requires OpLevel(op) == COMPARE && !StartsWith(s, '=') && SkipWs(t) == Symbol(op) + s
    ensures CompareTail(ctx, left, t) == AfterRight(ctx, op, left, ParseAdditive(ctx, s))
  {
    hide MakeBinary, CompareOp, ParseAdditive, SkipWs;
    CompareSymbol(op, s);
  }

  lemma AddStep(ctx: Context, op: BinaryOp, left: TypedNode, t: string, s: string)
    requires OpLevel(op) == ADD && SkipWs(t) == Symbol(op) + s
    ensures AddTail(ctx, left, t) == AfterRight(ctx, op, left, ParseMultiplicative(ctx, s))
  {
    hide MakeBinary, ParseMultiplicative, SkipWs;
    assert (Symbol(op) + s)[1..] == s;
  }

  lemma MulStep(ctx: Context, op: BinaryOp, left: TypedNode, t: string, s: string)
    requires OpLevel(op) == MUL && SkipWs(t) == Symbol(op) + s
    ensures MulTail(ctx, left, t) == AfterRight(ctx, op, left, Trimmed(ParseUnary(ctx, s)))
  {
    hide MakeBinary, ParseUnary, SkipWs;
    assert (Symbol(op) + s)[1..] == s;
    var r := ParseUnary(ctx, s);
    if r.Some? && MakeBinary(op, left, r.value.0).Some? {
      TailSkips(ctx, MUL, MakeBinary(op, left, r.value.0).value, r.value.1);
    }
  }

  /** After a left operand, the loop of the operator's level takes the operator and its right operand. */
  lemma OperatorStep(ctx: Context, op: BinaryOp, left: TypedNode, t: string, s: string)
    requires !StartsWith(s, '=') && SkipWs(t) == Symbol(op) + s
    ensures TailAt(ctx, OpLevel(op), left, t) == AfterRight(ctx, op, left, ParseAt(ctx, OpLevel(op) + 1, s))
  {
    hide MakeBinary, OrTail, AndTail, CompareTail, AddTail, MulTail, AfterRight, ParseOr, ParseAnd, ParseComparison, ParseAdditive,
      ParseMultiplicative, ParseUnary, SkipWs;
    match op
    case Or => OrStep(ctx, left, t, s);
    case And => AndStep(ctx, left, t, s);
    case Add => AddStep(ctx, op, left, t, s);
    case Sub => AddStep(ctx, op, left, t, s);
    case Mul => MulStep(ctx, op, left, t, s);
    case Div => MulStep(ctx, op, left, t, s);
    case _ => CompareStep(ctx, op, left, t, s);
  }

  lemma StartOfSymbol(op: BinaryOp, t: string, s: string)
    requires !StartsWith(s, '=') && SkipWs(t) == Symbol(op) + s
    ensures Start(t) == OpLevel(op) + 1
  {
    hide SkipWs;
    if OpLevel(op) == COMPARE {
      CompareSymbol(op, s);
    }
  }

  // ---- the round trip ----

  /** The tree of an operation on two operands. */
  function Operation(op: BinaryOp, l: Option<TypedNode>, r: Option<TypedNode>): Option<TypedNode> {
    var x :- l;
    var y :- r;
    MakeBinary(op, x, y)
  }

  /** At every level up to its own: a phrase parses to what it stands for, and the level's loop goes on with the rest. */
  lemma {:induction false} Round(ctx: Context, p: Phrase, level: nat, rest: string)
    requires Proper(p, true) && level <= LevelOf(p) && Start(rest) <= Limit(level)
    ensures ParseAt(ctx, level, Spell(p) + rest) == Then(ctx, level, Elab(ctx, Meant(p)), rest)
    decreases p, 2, LevelOf(p) - level
  {
    hide ParseAt, TailAt, Elab, Start, Proper, Spell, Meant;
    if LevelOf(p) == level {
      if p.Infix? {
        InfixRound(ctx, p, rest);
      } else if p.Prefix? {
        PrefixRound(ctx, p, rest);
      } else {
        PrimaryRound(ctx, p, rest);
      }
    } else {
      Round(ctx, p, level + 1, rest);
      if level < UNARY {
        StepDown(ctx, level, Spell(p) + rest, Elab(ctx, Meant(p)), rest);
      } else {
        Begins(p, rest);
        UnaryStep(ctx, Spell(p) + rest, Elab(ctx, Meant(p)), rest);
      }
    }
  }

  lemma UnaryStep(ctx: Context, s: string, p: Option<TypedNode>, rest: string)
    requires BeginsPrimary(SkipWs(s)) && ParseAt(ctx, PRIMARY, s) == Then(ctx, PRIMARY, p, rest)
    ensures ParseAt(ctx, UNARY, s) == Then(ctx, UNARY, p, rest)
  {
    hide ParseUnary, ParsePrimary, SkipWs;
    UnaryIsPrimary(ctx, s);
  }

  lemma PartsProper(p: Phrase)
    requires Proper(p, true)
    ensures p.Infix? ==> AllBlank(p.gap) && Proper(p.left, true) && Proper(p.right, true)
    ensures p.Infix? ==> LevelOf(p.left) >= LeftLevel(p.op) && LevelOf(p.right) >= OpLevel(p.op) + 1
    ensures p.Prefix? ==> AllBlank(p.space) && Proper(p.operand, true) && LevelOf(p.operand) >= if p.minus then PRIMARY else UNARY
    ensures p.Group? ==> AllBlank(p.space) && AllBlank(p.gap) && Proper(p.inner, true)
    ensures p.Apply? ==> AllBlank(p.space) && AllBlank(p.gap) && AllBlank(p.last) && IsName(p.name) && ProperArgs(p.args, true)
    ensures p.Word? ==> AllBlank(p.space) && IsWord(p.word, true)
  {
  }

  lemma SymbolToken(op: BinaryOp)
    ensures Symbol(op) != "" && !IsSpace(Symbol(op)[0])
  {
  }

  /** The text from the operator on, and how it starts. */
  lemma OperatorText(p: Phrase, rest: string)
    requires p.Infix? && Proper(p, true)
    ensures var right := Spell(p.right) + rest; var t := p.gap + Symbol(p.op) + right;
      && !StartsWith(right, '=') && SkipWs(t) == Symbol(p.op) + right && Start(t) == OpLevel(p.op) + 1
      && Spell(p) + rest == Spell(p.left) + t
  {
    hide SkipWs, AllBlank, Start, Proper, Spell, Symbol;
    PartsProper(p);
    SpellInfix(p);
    var right := Spell(p.right) + rest;
    SymbolToken(p.op);
    Begins(p.right, rest);
    NoEquals(right);
    Front(p.gap, Symbol(p.op), right);
    StartOfSymbol(p.op, p.gap + Symbol(p.op) + right, right);
    assert p.gap + Symbol(p.op) + Spell(p.right) + rest == p.gap + Symbol(p.op) + right;
    assert Spell(p.left) + (p.gap + Symbol(p.op) + Spell(p.right)) + rest == Spell(p.left) + (p.gap + Symbol(p.op) + Spell(p.right) + rest);
  }

  /** What the operator's level makes of both operands. */
  lemma BinaryStep(ctx: Context, op: BinaryOp, l: Option<TypedNode>, r: Option<TypedNode>, t: string, right: string, rest: string)
    requires !StartsWith(right, '=') && SkipWs(t) == Symbol(op) + right && Start(rest) <= Limit(OpLevel(op))
    requires ParseAt(ctx, OpLevel(op) + 1, right) == Then(ctx, OpLevel(op) + 1, r, rest)
    ensures Then(ctx, OpLevel(op), l, t) == Then(ctx, OpLevel(op), Operation(op, l, r), rest)
  {
    hide ParseAt, TailAt, Start, MakeBinary, SkipWs, Symbol;
    var level := OpLevel(op);
    if l.Some? {
      OperatorStep(ctx, op, l.value, t, right);
      RightQuiet(ctx, level, r, rest);
      if Operation(op, l, r).Some? {
        TailSkips(ctx, level, Operation(op, l, r).value, rest);
        if level == COMPARE {
          TailQuiet(ctx, level, Operation(op, l, r).value, rest);
        }
      }
    }
  }

  lemma ElabInfix(ctx: Context, p: Phrase)
    requires p.Infix?
    ensures Elab(ctx, Meant(p)) == Operation(p.op, Elab(ctx, Meant(p.left)), Elab(ctx, Meant(p.right)))
  {
    hide MakeBinary;
  }

  lemma {:induction false} InfixRound(ctx: Context, p: Phrase, rest: string)
    requires p.Infix? && Proper(p, true) && Start(rest) <= Limit(LevelOf(p))
    ensures ParseAt(ctx, LevelOf(p), Spell(p) + rest) == Then(ctx, LevelOf(p), Elab(ctx, Meant(p)), rest)
    decreases p, 1
  {
    hide ParseAt, Then, Start, Proper, Elab, Meant, SkipWs, AllBlank, Spell, Symbol, Operation;
    var level := OpLevel(p.op);
    PartsProper(p);
    OperatorText(p, rest);
    var right := Spell(p.right) + rest;
    var t := p.gap + Symbol(p.op) + right;
    Round(ctx, p.left, LeftLevel(p.op), t);
    if level == COMPARE {
      LeftOfCompare(ctx, Spell(p.left) + t, Elab(ctx, Meant(p.left)), t);
    }
    Round(ctx, p.right, level + 1, rest);
    BinaryStep(ctx, p.op, Elab(ctx, Meant(p.left)), Elab(ctx, Meant(p.right)), t, right, rest);
    ElabInfix(ctx, p);
  }

  /** The left operand of a comparison is an additive expression; the comparison level then looks for its operator. */
  lemma LeftOfCompare(ctx: Context, s: string, p: Option<TypedNode>, rest: string)
    requires Start(rest) == 3 && ParseAt(ctx, ADD, s) == Then(ctx, ADD, p, rest)
    ensures ParseAt(ctx, COMPARE, s) == Then(ctx, COMPARE, p, rest)
  {
    hide ParseAt, TailAt, Start;
    LevelSplit(ctx, COMPARE, s);
    if p.Some? {
      TailQuiet(ctx, ADD, p.value, rest);
      TailSkips(ctx, COMPARE, p.value, rest);
    }
  }

  lemma RightQuiet(ctx: Context, level: nat, p: Option<TypedNode>, rest: string)
    requires level <= MUL && Start(rest) <= Limit(level)
    ensures Then(ctx, level + 1, p, rest) == if p.None? then None else Some((p.value, SkipWs(rest)))
  {
    if p.Some? && level < MUL {
      TailQuiet(ctx, level + 1, p.value, rest);
    }
  }

  lemma PartsLexical(e: Expr)
    requires Lexical(e)
    ensures e.BinOp? ==> Lexical(e.left) && Lexical(e.right)
    ensures e.Neg? || e.Not? ==> Lexical(e.arg)
    ensures e.Number? ==> IsNumber(e.text)
    ensures e.Literal? ==> IsTrue(e.word) || IsFalse(e.word)
    ensures e.Ref? ==> IsName(e.name)
    ensures e.Call? ==> IsName(e.name) && forall i :: 0 <= i < |e.args| ==> Lexical(e.args[i])
  {
  }

  /** A prefix operator hands the text behind it to the operand's level. */
  lemma PrefixStep(ctx: Context, s: string, minus: bool, inner: string)
    requires SkipWs(s) == (if minus then "-" else "!") + inner
    ensures var p := ParseAt(ctx, if minus then PRIMARY else UNARY, inner);
      ParseAt(ctx, UNARY, s)
      == if p.None? then None
         else if (if minus then MakeNegate(p.value.0) else MakeNot(p.value.0)).None? then None
         else Some(((if minus then MakeNegate(p.value.0) else MakeNot(p.value.0)).value, p.value.1))
  {
    hide ParsePrimary, MakeNegate, MakeNot;
    assert SkipWs(s)[1..] == inner;
  }

  lemma {:induction false} PrefixRound(ctx: Context, p: Phrase, rest: string)
    requires p.Prefix? && Proper(p, true) && Start(rest) <= Limit(UNARY)
    ensures ParseAt(ctx, UNARY, Spell(p) + rest) == Then(ctx, UNARY, Elab(ctx, Meant(p)), rest)
    decreases p, 1
  {
    hide Start, ParseAt, MakeNot, MakeNegate, SkipWs, AllBlank, Proper;
    PartsProper(p);
    var sign := if p.minus then "-" else "!";
    var inner := Spell(p.operand) + rest;
    assert Spell(p) + rest == p.space + sign + inner;
    Front(p.space, sign, inner);
    PrefixStep(ctx, Spell(p) + rest, p.minus, inner);
    Round(ctx, p.operand, if p.minus then PRIMARY else UNARY, rest);
  }

  lemma {:induction false} PrimaryRound(ctx: Context, p: Phrase, rest: string)
    requires LevelOf(p) == PRIMARY && Proper(p, true) && Start(rest) <= 5
    ensures ParseAt(ctx, PRIMARY, Spell(p) + rest) == Then(ctx, PRIMARY, Elab(ctx, Meant(p)), rest)
    decreases p, 1
  {
    hide Start, ParseAt, TailAt, AllBlank, Proper;
    PartsProper(p);
    match p
    case Group(_, _, _) => GroupRound(ctx, p, rest);
    case Apply(_, _, _, _, _) => ApplyRound(ctx, p, rest);
    case Word(w, e) =>
      match e
      case Number(t) => NumberRound(ctx, t, w, rest);
      case Literal(t) => LiteralRound(ctx, t, w, rest);
      case Ref(n) => RefRound(ctx, n, w, rest);
  }

  lemma StopStart(w: string, c: char, rest: string)
    requires AllBlank(w) && (c == ')' || c == ',')
    ensures SkipWs(w + [c] + rest) == [c] + rest && Start(w + [c] + rest) == 0
  {
    Front(w, [c], rest);
  }

  /** A parenthesized text is what is inside. */
  lemma ParenStep(ctx: Context, s: string, inner: string, n: Option<TypedNode>, rest: string)
    requires SkipWs(s) == "(" + inner
    requires ParseOr(ctx, inner) == if n.None? then None else Some((n.value, ")" + rest))
    ensures ParseAt(ctx, PRIMARY, s) == Then(ctx, PRIMARY, n, rest)
  {
    hide ParseOr;
    assert SkipWs(s)[1..] == inner && (")" + rest)[1..] == rest;
  }

  lemma {:induction false} GroupRound(ctx: Context, p: Phrase, rest: string)
    requires p.Group? && Proper(p, true)
    ensures ParseAt(ctx, PRIMARY, Spell(p) + rest) == Then(ctx, PRIMARY, Elab(ctx, Meant(p)), rest)
    decreases p, 0
  {
    hide ParseOr, Elab, SkipWs, AllBlank, Start, Proper;
    PartsProper(p);
    var after := p.gap + ")" + rest;
    var inner := Spell(p.inner) + after;
    StopStart(p.gap, ')', rest);
    Round(ctx, p.inner, OR, after);
    if Elab(ctx, Meant(p.inner)).Some? {
      TailQuiet(ctx, OR, Elab(ctx, Meant(p.inner)).value, after);
    }
    Front(p.space, "(", inner);
    assert Spell(p) + rest == p.space + "(" + inner;
    ParenStep(ctx, p.space + "(" + inner, inner, Elab(ctx, Meant(p)), rest);
  }

  // ---- calls ----

  /** A comma takes the next argument; anything else ends the list. */
  lemma CommaStep(ctx: Context, done: seq<TypedNode>, s: string, inner: string)
    requires SkipWs(s) == "," + inner
    ensures ArgsTail(ctx, done, s)
         == if ParseOr(ctx, inner).None? then None
            else ArgsTail(ctx, done + [ParseOr(ctx, inner).value.0], ParseOr(ctx, inner).value.1)
  {
    hide ParseOr;
    assert SkipWs(s)[1..] == inner;
  }

  lemma ArgsEnd(ctx: Context, done: seq<TypedNode>, s: string, rest: string)
    requires SkipWs(s) == ")" + rest
    ensures ArgsTail(ctx, done, s) == Some((done, ")" + rest))
  {
  }

  lemma ArgsSkip(ctx: Context, done: seq<TypedNode>, s: string)
    ensures ArgsTail(ctx, done, s) == ArgsTail(ctx, done, SkipWs(s))
  {
    hide ParseOr;
    assert SkipWs(SkipWs(s)) == SkipWs(s);
  }

  lemma {:induction false} MoreRound(ctx: Context, more: seq<More>, done: seq<TypedNode>, last: string, rest: string)
    requires ProperMore(more, true) && AllBlank(last)
    ensures ArgsTail(ctx, done, SpellMore(more) + last + ")" + rest)
         == match ElabAll(ctx, MeantMore(more)) case None => None case Some(nodes) => Some((done + nodes, ")" + rest))
    decreases more, 3
  {
    hide ParseOr, ArgsTail, SkipWs, AllBlank, Start, Elab, Proper, Meant, Spell;
    if more == [] {
      assert done + [] == done;
      assert SpellMore(more) + last + ")" + rest == last + ")" + rest;
      StopStart(last, ')', rest);
      ArgsEnd(ctx, done, last + ")" + rest, rest);
    } else {
      var arg, after := more[0].arg, SpellMore(more[1..]) + last + ")" + rest;
      var inner := Spell(arg) + after;
      assert SpellMore(more) + last + ")" + rest == more[0].gap + "," + inner;
      StopStart(more[0].gap, ',', inner);
      CommaStep(ctx, done, more[0].gap + "," + inner, inner);
      MoreStops(more[1..], last, rest);
      Round(ctx, arg, OR, after);
      if Elab(ctx, Meant(arg)).Some? {
        var n := Elab(ctx, Meant(arg)).value;
        TailQuiet(ctx, OR, n, after);
        ArgsSkip(ctx, done + [n], after);
        MoreRound(ctx, more[1..], done + [n], last, rest);
        FirstElab(ctx, Meant(arg), MeantMore(more[1..]));
        if ElabAll(ctx, MeantMore(more[1..])).Some? {
          assert done + [n] + ElabAll(ctx, MeantMore(more[1..])).value == done + ([n] + ElabAll(ctx, MeantMore(more[1..])).value);
        }
      } else {
        FirstElab(ctx, Meant(arg), MeantMore(more[1..]));
      }
    }
  }

  lemma FirstElab(ctx: Context, e: Expr, es: seq<Expr>)
    ensures ElabAll(ctx, [e] + es)
         == if Elab(ctx, e).None? || ElabAll(ctx, es).None? then None
            else Some([Elab(ctx, e).value] + ElabAll(ctx, es).value)
  {
    hide Elab;
    assert ([e] + es)[1..] == es;
  }

  lemma MoreStops(more: seq<More>, last: string, rest: string)
    requires ProperMore(more, true) && AllBlank(last)
    ensures Start(SpellMore(more) + last + ")" + rest) == 0
  {
    hide Start, AllBlank, Proper, Spell;
    if more == [] {
      assert SpellMore(more) + last + ")" + rest == last + ")" + rest;
      StopStart(last, ')', rest);
    } else {
      var inner := Spell(more[0].arg) + SpellMore(more[1..]) + last + ")" + rest;
      assert SpellMore(more) + last + ")" + rest == more[0].gap + "," + inner;
      StopStart(more[0].gap, ',', inner);
    }
  }

  /** A name with a parenthesis behind it calls the function on what the parentheses hold. */
  lemma CallStep(ctx: Context, s: string, n: string, w: string, inside: string, args: Option<seq<TypedNode>>, rest: string)
    requires IsName(n) && AllBlank(w) && SkipWs(s) == n + (w + "(" + inside)
    requires ParseArgs(ctx, inside) == if args.None? then None else Some((args.value, ")" + rest))
    ensures ParseAt(ctx, PRIMARY, s) == Then(ctx, PRIMARY, if args.None? then None else ApplyCall(n, args.value), rest)
  {
    hide ParseArgs, ApplyCall, BoolLiteral, IsName, ParsePrimary, NameSpan;
    NameWord(n);
    Front(w, "(", inside);
    var behind := w + "(" + inside;
    assert behind[0] == '(' || (w != "" && behind[0] == w[0]);
    WordStep(ctx, s, n, behind);
    assert ("(" + inside)[1..] == inside && (")" + rest)[1..] == rest;
  }

  lemma {:induction false} ApplyRound(ctx: Context, p: Phrase, rest: string)
    requires p.Apply? && Proper(p, true) && Start(rest) <= 5
    ensures ParseAt(ctx, PRIMARY, Spell(p) + rest) == Then(ctx, PRIMARY, Elab(ctx, Meant(p)), rest)
    decreases p, 0
  {
    hide Start, ParseArgs, SpellArgs, MeantArgs, ApplyCall, ParseAt, TailAt, AllBlank, IsName, Proper, ProperArgs;
    PartsProper(p);
    var inside := SpellArgs(p.args) + p.last + ")" + rest;
    var s := Spell(p) + rest;
    assert s == p.space + p.name + (p.gap + "(" + inside);
    NameWord(p.name);
    Front(p.space, p.name, p.gap + "(" + inside);
    ArgumentsRound(ctx, p.args, p.last, rest);
    CallStep(ctx, s, p.name, p.gap, inside, ElabAll(ctx, MeantArgs(p.args)), rest);
  }

  lemma FirstArgument(ctx: Context, s: string)
    requires !StartsWith(SkipWs(s), ')')
    ensures ParseArgs(ctx, s)
         == if ParseOr(ctx, s).None? then None else ArgsTail(ctx, [ParseOr(ctx, s).value.0], ParseOr(ctx, s).value.1)
  {
    hide ParseOr;
    ParseSkips(ctx, OR, s);
  }

  lemma {:induction false} ArgumentsRound(ctx: Context, args: Args, last: string, rest: string)
    requires ProperArgs(args, true) && AllBlank(last)
    ensures ParseArgs(ctx, SpellArgs(args) + last + ")" + rest)
         == match ElabAll(ctx, MeantArgs(args)) case None => None case Some(nodes) => Some((nodes, ")" + rest))
    decreases args, 3
  {
    hide ParseOr, ArgsTail, SkipWs, AllBlank, Start, Elab, Proper, Meant, Spell, MeantMore, SpellMore;
    if args.NoArgs? {
      assert SpellArgs(args) + last + ")" + rest == last + ")" + rest;
      StopStart(last, ')', rest);
    } else {
      hide ParseArgs;
      var first, more := args.first, args.more;
      var after := SpellMore(more) + last + ")" + rest;
      var s := Spell(first) + after;
      assert SpellArgs(args) + last + ")" + rest == s;
      Begins(first, after);
      NoEquals(s);
      FirstArgument(ctx, s);
      MoreStops(more, last, rest);
      Round(ctx, first, OR, after);
      FirstElab(ctx, Meant(first), MeantMore(more));
      if Elab(ctx, Meant(first)).Some? {
        var n := Elab(ctx, Meant(first)).value;
        TailQuiet(ctx, OR, n, after);
        ArgsSkip(ctx, [n], after);
        MoreRound(ctx, more, [n], last, rest);
      }
    }
  }

  // ---- whole texts ----

  /**
   * Parsing a text of the grammar, with any white space and any further parentheses, gives exactly the tree that the expression
   * it stands for denotes, with all input consumed; it fails exactly when that expression denotes nothing.
   */
  lemma ParseInvertsSpell(ctx: Context, p: Phrase, gap: string)
    requires Proper(p, true) && AllBlank(gap)
    ensures ParseAll(ctx, Spell(p) + gap) == Elab(ctx, Meant(p))
  {
    hide ParseOr, Proper, Elab, Spell, Meant, SkipWs, AllBlank;
    var s := Spell(p) + gap;
    Begins(p, gap);
    NoEquals(s);
    OnlyBlank(gap);
    Round(ctx, p, OR, gap);
    ParseSkips(ctx, OR, s);
    if Elab(ctx, Meant(p)).Some? {
      TailQuiet(ctx, OR, Elab(ctx, Meant(p)).value, gap);
    }
  }

  /** The same for the text that Show writes, with parentheses only around operands of looser levels. */
  lemma ParseInvertsShow(ctx: Context, e: Expr, w: string)
    requires Lexical(e) && AllBlank(w)
    ensures ParseAll(ctx, Show(e, OR, w) + w) == Elab(ctx, e)
  {
    hide ParseAll, Lexical, Elab, Show, Shown, Proper, Spell, Meant, AllBlank;
    ShownIs(e, OR, w);
    ParseInvertsSpell(ctx, Shown(e, OR, w), w);
  }

  lemma OnlyBlank(w: string)
    requires AllBlank(w)
    ensures SkipWs(w) == "" && SkipWs("") == "" && Start(w) == 0
  {
    SkipBlank(w, "");
    assert w + "" == w;
  }
}
