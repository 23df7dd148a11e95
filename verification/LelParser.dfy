/** LelParser of src/lattice_expr.cpp: a cursor moved by loops, following the grammar; what it builds is well typed. */
module LelParser {
  import opened Wrappers
  import opened LelNodes
  import opened LelTyping
  import opened LelGrammar

  // ---- the parser builds well-typed trees ----

  ghost predicate TypedSymbols(ctx: Context) {
    forall name :: name in ctx.symbols ==> Typed(ctx.symbols[name])
  }

  ghost predicate TypedParse(r: Parse) {
    r.Some? ==> Typed(r.value.0)
  }

  lemma {:induction false} OrTyped(ctx: Context, s: string)
    requires TypedSymbols(ctx)
    ensures TypedParse(ParseOr(ctx, s))
    decreases |s|, 8
  {
    hide Typed, TypedSymbols;
    AndTyped(ctx, s);
    if ParseAnd(ctx, s).Some? {
      var (left, rest) := ParseAnd(ctx, s).value;
      OrTailTyped(ctx, left, rest);
    }
  }

  lemma {:induction false} OrTailTyped(ctx: Context, left: TypedNode, s: string)
    requires TypedSymbols(ctx) && Typed(left)
    ensures TypedParse(OrTail(ctx, left, s))
    decreases |s|, 9
  {
    hide Typed, TypedSymbols, MakeBinary;
    var u := SkipWs(s);
    if "||" <= u {
      AndTyped(ctx, u[2..]);
      var r := ParseAnd(ctx, u[2..]);
      if r.Some? {
        BinaryTyped(Or, left, r.value.0);
        if MakeBinary(Or, left, r.value.0).Some? {
          OrTailTyped(ctx, MakeBinary(Or, left, r.value.0).value, r.value.1);
        }
      }
    }
  }

  lemma {:induction false} AndTyped(ctx: Context, s: string)
    requires TypedSymbols(ctx)
    ensures TypedParse(ParseAnd(ctx, s))
    decreases |s|, 7
  {
    hide Typed, TypedSymbols;
    ComparisonTyped(ctx, s);
    if ParseComparison(ctx, s).Some? {
      var (left, rest) := ParseComparison(ctx, s).value;
      AndTailTyped(ctx, left, rest);
    }
  }

  lemma {:induction false} AndTailTyped(ctx: Context, left: TypedNode, s: string)
    requires TypedSymbols(ctx) && Typed(left)
    ensures TypedParse(AndTail(ctx, left, s))
    decreases |s|, 9
  {
    hide Typed, TypedSymbols, MakeBinary;
    var u := SkipWs(s);
    if "&&" <= u {
      ComparisonTyped(ctx, u[2..]);
      var r := ParseComparison(ctx, u[2..]);
      if r.Some? {
        BinaryTyped(And, left, r.value.0);
        if MakeBinary(And, left, r.value.0).Some? {
          AndTailTyped(ctx, MakeBinary(And, left, r.value.0).value, r.value.1);
        }
      }
    }
  }

  lemma {:induction false} ComparisonTyped(ctx: Context, s: string)
    requires TypedSymbols(ctx)
    ensures TypedParse(ParseComparison(ctx, s))
    decreases |s|, 6
  {
    hide Typed, TypedSymbols, MakeBinary, CompareOp;
    AdditiveTyped(ctx, s);
    if ParseAdditive(ctx, s).Some? {
      var (left, rest) := ParseAdditive(ctx, s).value;
      var c := CompareOp(SkipWs(rest));
      if c.Some? {
        AdditiveTyped(ctx, c.value.1);
        var r := ParseAdditive(ctx, c.value.1);
        if r.Some? {
          BinaryTyped(c.value.0, left, r.value.0);
        }
      }
    }
  }

  lemma {:induction false} AdditiveTyped(ctx: Context, s: string)
    requires TypedSymbols(ctx)
    ensures TypedParse(ParseAdditive(ctx, s))
    decreases |s|, 5
  {
    hide Typed, TypedSymbols;
    MultiplicativeTyped(ctx, s);
    if ParseMultiplicative(ctx, s).Some? {
      var (left, rest) := ParseMultiplicative(ctx, s).value;
      AddTailTyped(ctx, left, rest);
    }
  }

  lemma {:induction false} AddTailTyped(ctx: Context, left: TypedNode, s: string)
    requires TypedSymbols(ctx) && Typed(left)
    ensures TypedParse(AddTail(ctx, left, s))
    decreases |s|, 9
  {
    hide Typed, TypedSymbols, MakeBinary, AddOp;
    var a := AddOp(SkipWs(s));
    if a.Some? {
      MultiplicativeTyped(ctx, a.value.1);
      var r := ParseMultiplicative(ctx, a.value.1);
      if r.Some? {
        BinaryTyped(a.value.0, left, r.value.0);
        if MakeBinary(a.value.0, left, r.value.0).Some? {
          AddTailTyped(ctx, MakeBinary(a.value.0, left, r.value.0).value, r.value.1);
        }
      }
    }
  }

  lemma {:induction false} MultiplicativeTyped(ctx: Context, s: string)
    requires TypedSymbols(ctx)
    ensures TypedParse(ParseMultiplicative(ctx, s))
    decreases |s|, 4
  {
    hide Typed, TypedSymbols;
    UnaryTyped(ctx, s);
    if ParseUnary(ctx, s).Some? {
      var (left, rest) := ParseUnary(ctx, s).value;
      MulTailTyped(ctx, left, rest);
    }
  }

  lemma {:induction false} MulTailTyped(ctx: Context, left: TypedNode, s: string)
    requires TypedSymbols(ctx) && Typed(left)
    ensures TypedParse(MulTail(ctx, left, s))
    decreases |s|, 9
  {
    hide Typed, TypedSymbols, MakeBinary, MulOp;
    var a := MulOp(SkipWs(s));
    if a.Some? {
      UnaryTyped(ctx, a.value.1);
      var r := ParseUnary(ctx, a.value.1);
      if r.Some? {
        BinaryTyped(a.value.0, left, r.value.0);
        if MakeBinary(a.value.0, left, r.value.0).Some? {
          MulTailTyped(ctx, MakeBinary(a.value.0, left, r.value.0).value, r.value.1);
        }
      }
    }
  }

  lemma PrefixTyped(n: TypedNode)
    requires Typed(n)
    ensures MakeNot(n).Some? ==> Typed(MakeNot(n).value)
    ensures MakeNegate(n).Some? ==> Typed(MakeNegate(n).value)
  {
  }

  lemma {:induction false} UnaryTyped(ctx: Context, s: string)
    requires TypedSymbols(ctx)
    ensures TypedParse(ParseUnary(ctx, s))
    decreases |s|, 3
  {
    hide Typed, TypedSymbols, MakeNot, MakeNegate;
    var u := SkipWs(s);
    if StartsWith(u, '!') {
      UnaryTyped(ctx, u[1..]);
      var r := ParseUnary(ctx, u[1..]);
      if r.Some? { PrefixTyped(r.value.0); }
    } else if StartsWith(u, '-') {
      PrimaryTyped(ctx, u[1..]);
      var r := ParsePrimary(ctx, u[1..]);
      if r.Some? { PrefixTyped(r.value.0); }
    } else {
      PrimaryTyped(ctx, u);
    }
  }

  lemma {:induction false} PrimaryTyped(ctx: Context, s: string)
    requires TypedSymbols(ctx)
    ensures TypedParse(ParsePrimary(ctx, s))
    decreases |s|, 2
  {
    hide TypedSymbols, NumberSpan, Match;
    var u := SkipWs(s);
    if u != "" {
      if u[0] == '(' {
        OrTyped(ctx, u[1..]);
      } else if IsNameStart(u[0]) {
        NameTyped(ctx, u);
      }
    }
  }

  lemma {:induction false} NameTyped(ctx: Context, s: string)
    requires TypedSymbols(ctx) && s != "" && IsNameStart(s[0])
    ensures TypedParse(ParseName(ctx, s))
    decreases |s|, 1
  {
    hide ApplyCall, Match, BoolLiteral, HasType;
    var n := NameSpan(s, 0);
    if BoolLiteral(s[..n]).Some? {
      LiteralTyped(BoolLiteral(s[..n]).value);
    } else {
      assert n > 0;
      var v := SkipWs(s[n..]);
      if StartsWith(v, '(') {
        ArgsTyped(ctx, v[1..]);
        var a := ParseArgs(ctx, v[1..]);
        if a.Some? { CallTyped(s[..n], a.value.0); }
      }
    }
  }

  lemma LiteralTyped(b: bool)
    ensures Typed(TypedNode(Boolean, Scalar(B(b))))
  {
  }

  lemma {:induction false} ArgsTyped(ctx: Context, s: string)
    requires TypedSymbols(ctx)
    ensures var r := ParseArgs(ctx, s); r.Some? ==> forall i :: 0 <= i < |r.value.0| ==> Typed(r.value.0[i])
    decreases |s|, 9
  {
    hide Typed, TypedSymbols;
    var u := SkipWs(s);
    if !StartsWith(u, ')') {
      OrTyped(ctx, u);
      var f := ParseOr(ctx, u);
      if f.Some? { ArgsTailTyped(ctx, [f.value.0], f.value.1); }
    }
  }

  lemma {:induction false} ArgsTailTyped(ctx: Context, args: seq<TypedNode>, s: string)
    requires TypedSymbols(ctx) && forall i :: 0 <= i < |args| ==> Typed(args[i])
    ensures var r := ArgsTail(ctx, args, s); r.Some? ==> forall i :: 0 <= i < |r.value.0| ==> Typed(r.value.0[i])
    decreases |s|, 10
  {
    hide Typed, TypedSymbols;
    var u := SkipWs(s);
    if StartsWith(u, ',') {
      OrTyped(ctx, u[1..]);
      var f := ParseOr(ctx, u[1..]);
      if f.Some? { ArgsTailTyped(ctx, args + [f.value.0], f.value.1); }
    }
  }

  /** Whatever text is accepted, the tree is well typed in the type it declares. */
  lemma AcceptedIsTyped(ctx: Context, s: string)
    requires TypedSymbols(ctx)
    ensures var r := ParseAll(ctx, s); r.Some? ==> Typed(r.value)
  {
    hide Typed, TypedSymbols;
    OrTyped(ctx, SkipWs(s));
  }

  // ---- the parser ----

  /** The method's outcome is the grammar's: the same node with the same text left, or a failure in both. */
  ghost predicate Yields(r: Option<TypedNode>, p: Parse, input: string, pos: nat) {
    && (r.Some? <==> p.Some?)
    && (r.Some? ==> p.value.0 == r.value && pos <= |input| && p.value.1 == input[pos..])
  }

  class LelParser {
    const input: string
    const ctx: Context
    var pos: nat

    constructor (input: string, ctx: Context)
      ensures this.input == input && this.ctx == ctx && pos == 0
    {
      this.input := input;
      this.ctx := ctx;
      pos := 0;
    }

    ghost function Ahead(): string
      reads this
      requires pos <= |input|
    {
      input[pos..]
    }

    method SkipSpaces()
      requires pos <= |input|
      modifies `pos
      ensures old(pos) <= pos <= |input| && Ahead() == SkipWs(old(Ahead()))
    {
      while pos < |input| && IsSpace(input[pos])
        invariant old(pos) <= pos <= |input| && SkipWs(old(Ahead())) == SkipWs(Ahead())
      {
        assert input[pos..][1..] == input[pos + 1..];
        pos := pos + 1;
      }
    }

    predicate PeekIs(c: char)
      reads this
    {
      pos < |input| && input[pos] == c
    }

    /** match: skips whitespace, then consumes the text if it is next. */
    method MatchText(t: string) returns (found: bool)
      requires pos <= |input|
      modifies `pos
      ensures old(pos) <= pos <= |input|
      ensures found <==> t <= SkipWs(old(Ahead()))
      ensures Ahead() == if found then SkipWs(old(Ahead()))[|t|..] else SkipWs(old(Ahead()))
    {
      SkipSpaces();
      var n := |t|;
      assert pos + n <= |input| ==> input[pos..][..n] == input[pos..pos + n];
      if pos + n <= |input| && input[pos..pos + n] == t {
        assert input[pos..][n..] == input[pos + n..];
        pos := pos + n;
        return true;
      }
      return false;
    }

    /** expect */
    method Expect(c: char) returns (found: bool)
      requires pos <= |input|
      modifies `pos
      ensures old(pos) <= pos <= |input|
      ensures found <==> Match(old(Ahead()), [c]).Some?
      ensures found ==> Match(old(Ahead()), [c]).value == Ahead()
    {
      SkipSpaces();
      if !PeekIs(c) {
        return false;
      }
      assert input[pos..][1..] == input[pos + 1..];
      pos := pos + 1;
      return true;
    }

    /** parse */
    method Parse() returns (r: Option<TypedNode>)
      requires pos == 0
      modifies `pos
      ensures r == ParseAll(ctx, input)
    {
      hide ParseOr, SkipWs;
      assert input[0..] == input;
      SkipSpaces();
      if pos >= |input| {
        return None;
      }
      r := ParseOrs();
      if r.None? {
        return;
      }
      SkipSpaces();
      if pos < |input| {
        return None;
      }
    }

    method ParseOrs() returns (r: Option<TypedNode>)
      requires pos <= |input|
      modifies `pos
      ensures Yields(r, ParseOr(ctx, old(Ahead())), input, pos)
      decreases |input| - pos, 8
    {
      hide ParseAnd, MakeBinary, SkipWs;
      r := ParseAnds();
      if r.None? {
        return;
      }
      while true
        invariant r.Some? && old(pos) < pos <= |input|
        invariant ParseOr(ctx, old(Ahead())) == OrTail(ctx, r.value, Ahead())
        decreases |input| - pos
      {
        SkipTwice(Ahead());
        SkipSpaces();
        var found := MatchText("||");
        if !found {
          return;
        }
        var right := ParseAnds();
        if right.None? {
          return None;
        }
        r := MakeBinary(Or, r.value, right.value);
        if r.None? {
          return;
        }
      }
    }

    method ParseAnds() returns (r: Option<TypedNode>)
      requires pos <= |input|
      modifies `pos
      ensures Yields(r, ParseAnd(ctx, old(Ahead())), input, pos)
      decreases |input| - pos, 7
    {
      hide ParseComparison, MakeBinary, SkipWs;
      r := ParseCompare();
      if r.None? {
        return;
      }
      while true
        invariant r.Some? && old(pos) < pos <= |input|
        invariant ParseAnd(ctx, old(Ahead())) == AndTail(ctx, r.value, Ahead())
        decreases |input| - pos
      {
        SkipTwice(Ahead());
        SkipSpaces();
        var found := MatchText("&&");
        if !found {
          return;
        }
        var right := ParseCompare();
        if right.None? {
          return None;
        }
        r := MakeBinary(And, r.value, right.value);
        if r.None? {
          return;
        }
      }
    }

    /** Tries the comparison operators in order, the two-character ones first. */
    method MatchCompare() returns (op: Option<BinaryOp>)
      requires pos <= |input|
      modifies `pos
      ensures old(pos) <= pos <= |input|
      ensures var c := CompareOp(SkipWs(old(Ahead())));
        if c.None? then op == None && Ahead() == SkipWs(old(Ahead()))
        else op == Some(c.value.0) && Ahead() == c.value.1
    {
      hide SkipWs;
      SkipTwice(Ahead());
      var found := MatchText("==");
      if found { return Some(Eq); }
      found := MatchText("!=");
      if found { return Some(Ne); }
      found := MatchText(">=");
      if found { return Some(Ge); }
      found := MatchText("<=");
      if found { return Some(Le); }
      found := MatchText(">");
      if found { return Some(Gt); }
      found := MatchText("<");
      if found { return Some(Lt); }
      return None;
    }

    method ParseCompare() returns (r: Option<TypedNode>)
      requires pos <= |input|
      modifies `pos
      ensures Yields(r, ParseComparison(ctx, old(Ahead())), input, pos)
      decreases |input| - pos, 6
    {
      hide ParseAdditive, MakeBinary, SkipWs, CompareOp;
      r := ParseSum();
      if r.None? {
        return;
      }
      SkipTwice(Ahead());
      SkipSpaces();
      var op := MatchCompare();
      if op.None? {
        return;
      }
      var right := ParseSum();
      if right.None? {
        return None;
      }
      r := MakeBinary(op.value, r.value, right.value);
    }

    /** The lookahead behind a minus makes no difference: both branches subtract. */
    method MatchAddOp() returns (op: Option<BinaryOp>)
      requires pos <= |input|
      modifies `pos
      ensures old(pos) <= pos <= |input|
      ensures var c := AddOp(SkipWs(old(Ahead())));
        if c.None? then op == None && Ahead() == SkipWs(old(Ahead()))
        else op == Some(c.value.0) && Ahead() == c.value.1
    {
      hide SkipWs;
      SkipTwice(Ahead());
      SkipSpaces();
      var found := MatchText("+");
      if found { return Some(Add); }
      if PeekIs('-') && pos + 1 < |input| && !IsDigit(input[pos + 1]) && input[pos + 1] != '.' {
        assert input[pos..][1..] == input[pos + 1..];
        pos := pos + 1;
        return Some(Sub);
      }
      found := MatchText("-");
      if found { return Some(Sub); }
      return None;
    }

    method ParseSum() returns (r: Option<TypedNode>)
      requires pos <= |input|
      modifies `pos
      ensures Yields(r, ParseAdditive(ctx, old(Ahead())), input, pos)
      decreases |input| - pos, 5
    {
      hide ParseMultiplicative, MakeBinary, SkipWs, AddOp;
      r := ParseProduct();
      if r.None? {
        return;
      }
      while true
        invariant r.Some? && old(pos) < pos <= |input|
        invariant ParseAdditive(ctx, old(Ahead())) == AddTail(ctx, r.value, Ahead())
        decreases |input| - pos
      {
        var op := MatchAddOp();
        if op.None? {
          return;
        }
        var right := ParseProduct();
        if right.None? {
          return None;
        }
        r := MakeBinary(op.value, r.value, right.value);
        if r.None? {
          return;
        }
      }
    }

    method MatchMulOp() returns (op: Option<BinaryOp>)
      requires pos <= |input|
      modifies `pos
      ensures old(pos) <= pos <= |input|
      ensures var c := MulOp(SkipWs(old(Ahead())));
        if c.None? then op == None && Ahead() == SkipWs(old(Ahead()))
        else op == Some(c.value.0) && Ahead() == c.value.1
    {
      hide SkipWs;
      SkipTwice(Ahead());
      SkipSpaces();
      var found := MatchText("*");
      if found { return Some(Mul); }
      found := MatchText("/");
      if found { return Some(Div); }
      return None;
    }

    method ParseProduct() returns (r: Option<TypedNode>)
      requires pos <= |input|
      modifies `pos
      ensures Yields(r, ParseMultiplicative(ctx, old(Ahead())), input, pos)
      decreases |input| - pos, 4
    {
      hide ParseUnary, MakeBinary, SkipWs, MulOp;
      r := ParsePrefix();
      if r.None? {
        return;
      }
      while true
        invariant r.Some? && old(pos) < pos <= |input|
        invariant ParseMultiplicative(ctx, old(Ahead())) == MulTail(ctx, r.value, Ahead())
        decreases |input| - pos
      {
        var op := MatchMulOp();
        if op.None? {
          return;
        }
        var right := ParsePrefix();
        if right.None? {
          return None;
        }
        r := MakeBinary(op.value, r.value, right.value);
        if r.None? {
          return;
        }
      }
    }

    method ParsePrefix() returns (r: Option<TypedNode>)
      requires pos <= |input|
      modifies `pos
      ensures Yields(r, ParseUnary(ctx, old(Ahead())), input, pos)
      decreases |input| - pos, 3
    {
      hide ParsePrimary, MakeNot, MakeNegate, SkipWs;
      SkipTwice(Ahead());
      SkipSpaces();
      var found := MatchText("!");
      if found {
        r := ParsePrefix();
        if r.Some? {
          r := MakeNot(r.value);
        }
        return;
      }
      if PeekIs('-') {
        assert input[pos..][1..] == input[pos + 1..];
        pos := pos + 1;
        PrimarySkips(ctx, Ahead());
        SkipSpaces();
        r := ParseAtom();
        if r.Some? {
          r := MakeNegate(r.value);
        }
        return;
      }
      r := ParseAtom();
    }

    method ParseAtom() returns (r: Option<TypedNode>)
      requires pos <= |input|
      modifies `pos
      ensures Yields(r, ParsePrimary(ctx, old(Ahead())), input, pos)
      decreases |input| - pos, 2
    {
      hide ParseOr, ParseName, ParseNumber, SkipWs, Match;
      SkipSpaces();
      if pos >= |input| {
        return None;
      }
      if PeekIs('(') {
        assert input[pos..][1..] == input[pos + 1..];
        pos := pos + 1;
        r := ParseOrs();
        if r.None? {
          return;
        }
        var closed := Expect(')');
        if !closed {
          return None;
        }
        return;
      }
      if IsDigit(input[pos]) || input[pos] == '.' {
        r := ParseDigits();
        return;
      }
      if IsNameStart(input[pos]) {
        r := ParseWord();
        return;
      }
      return None;
    }

    method ParseDigits() returns (r: Option<TypedNode>)
      requires pos < |input| && (IsDigit(input[pos]) || input[pos] == '.')
      modifies `pos
      ensures Yields(r, ParseNumber(ctx, old(Ahead())), input, pos)
    {
      var start := pos;
      while pos < |input| && (IsDigit(input[pos]) || input[pos] == '.' || input[pos] == 'e' || input[pos] == 'E'
                              || ((input[pos] == '+' || input[pos] == '-') && pos > start
                                  && (input[pos - 1] == 'e' || input[pos - 1] == 'E')))
        invariant start <= pos <= |input|
        invariant NumberSpan(input[start..], 0) == NumberSpan(input[start..], pos - start)
      {
        pos := pos + 1;
      }
      assert input[start..][..pos - start] == input[start..pos] && input[start..][pos - start..] == input[pos..];
      var x := ctx.number(input[start..pos]);
      if x.None? {
        return None;
      }
      return Some(TypedNode(Float32, Scalar(F(x.value))));
    }

    method ParseWord() returns (r: Option<TypedNode>)
      requires pos < |input| && IsNameStart(input[pos])
      modifies `pos
      ensures Yields(r, ParseName(ctx, old(Ahead())), input, pos)
      decreases |input| - pos, 1
    {
      hide ParseArgs, ApplyCall, SkipWs, BoolLiteral;
      var start := pos;
      while pos < |input| && IsNameChar(input[pos])
        invariant start <= pos <= |input|
        invariant NameSpan(input[start..], 0) == NameSpan(input[start..], pos - start)
      {
        pos := pos + 1;
      }
      assert input[start..][..pos - start] == input[start..pos] && input[start..][pos - start..] == input[pos..];
      var name := input[start..pos];
      var literal := BoolLiteral(name);
      if literal.Some? {
        return Some(TypedNode(Boolean, Scalar(B(literal.value))));
      }
      assert pos > start;
      SkipSpaces();
      if PeekIs('(') {
        assert input[pos..][1..] == input[pos + 1..];
        r := ParseCall(name);
        return;
      }
      if name !in ctx.symbols {
        return None;
      }
      return Some(ctx.symbols[name]);
    }

    /** parse_function_call, from the opening parenthesis on. */
    method ParseCall(name: string) returns (r: Option<TypedNode>)
      requires pos < |input| && input[pos] == '('
      modifies `pos
      ensures var a := ParseArgs(ctx, old(input[pos + 1..]));
        if a.None? || Match(a.value.1, ")").None? then r == None
        else r == ApplyCall(name, a.value.0) && (r.Some? ==> pos <= |input| && Match(a.value.1, ")").value == Ahead())
      decreases |input| - pos, 0
    {
      hide ParseOr, ApplyCall, SkipWs, Match;
      pos := pos + 1;
      ghost var start := Ahead();
      SkipSpaces();
      var args := [];
      if !PeekIs(')') {
        var first := ParseOrs();
        if first.None? {
          return None;
        }
        args := [first.value];
        while true
          invariant old(pos) < pos <= |input|
          invariant ParseArgs(ctx, start) == ArgsTail(ctx, args, Ahead())
          decreases |input| - pos
        {
          SkipTwice(Ahead());
          var more := MatchText(",");
          if !more {
            break;
          }
          var next := ParseOrs();
          if next.None? {
            return None;
          }
          args := args + [next.value];
        }
      }
      assert ParseArgs(ctx, start) == Some((args, Ahead()));
      var closed := Expect(')');
      if !closed {
        return None;
      }
      r := ApplyCall(name, args);
    }
  }

  lemma SkipTwice(s: string)
    ensures SkipWs(SkipWs(s)) == SkipWs(s)
  {
  }

  lemma PrimarySkips(ctx: Context, s: string)
    ensures ParsePrimary(ctx, SkipWs(s)) == ParsePrimary(ctx, s)
  {
    hide ParseOr, ParseName, ParseNumber, Match;
    SkipTwice(s);
  }
}
