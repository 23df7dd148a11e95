/**
 * What a LEL expression means, said directly on the expression: its type, its shape and masks, and its value at every
 * element. The tree the parser builds means the same.
 */
module LelMeaning {
  import opened Wrappers
  import opened LatticeShape
  import opened LatticeArray
  import opened LelNodes
  import opened LelTyping
  import opened LelGrammar
  import opened LelSyntax
  import opened LelText
  import opened LelRoundTrip
  import opened LelDerivation

  // ---- functions ----

  datatype Callee = Unary(f: Func1) | Binary2(g: Func2) | Reducing(r: Reduction) | Choosing | TakingValue | TakingMask | Unknown

  /** What a function name stands for with n arguments. */
  function CalleeOf(name: string, n: nat): Callee {
    if n == 1 then
      match name
      case "sin" => Unary(Sin)
      case "cos" => Unary(Cos)
      case "tan" => Unary(Tan)
      case "asin" => Unary(Asin)
      case "acos" => Unary(Acos)
      case "atan" => Unary(Atan)
      case "exp" => Unary(Exp)
      case "log" => Unary(Log)
      case "log10" => Unary(Log10)
      case "sqrt" => Unary(Sqrt)
      case "abs" => Unary(Abs)
      case "sign" => Unary(Sign)
      case "round" => Unary(Round)
      case "ceil" => Unary(Ceil)
      case "floor" => Unary(Floor)
      case "min" => Reducing(Min)
      case "max" => Reducing(Max)
      case "sum" => Reducing(Sum)
      case "mean" => Reducing(Mean)
      case "median" => Reducing(Median)
      case "variance" => Reducing(Variance)
      case "stddev" => Reducing(Stddev)
      case "ntrue" => Reducing(Ntrue)
      case "nfalse" => Reducing(Nfalse)
      case "any" => Reducing(Any)
      case "all" => Reducing(All)
      case "value" => TakingValue
      case "mask" => TakingMask
      case _ => Unknown
    else if n == 2 then
      match name
      case "atan2" => Binary2(Atan2)
      case "pow" => Binary2(Pow)
      case "fmod" => Binary2(Fmod)
      case "min" => Binary2(Min2)
      case "max" => Binary2(Max2)
      case _ => Unknown
    else if n == 3 && name == "iif" then Choosing
    else Unknown
  }

  // ---- types ----

  /** Mixed real operands meet in double; nothing else mixes. */
  function Meeting(s: Option<LelType>, t: Option<LelType>): Option<LelType> {
    if s.None? || t.None? || s.value !in {Float32, Float64} || t.value !in {Float32, Float64} then None
    else if s.value == Float64 || t.value == Float64 then Some(Float64)
    else Some(Float32)
  }

  function OnlyReal(t: Option<LelType>): Option<LelType> {
    if t == Some(Float32) || t == Some(Float64) then t else None
  }

  function OnlyBoolean(t: Option<LelType>): Option<LelType> {
    if t == Some(Boolean) then t else None
  }

  /** The element type of an expression; nothing if it is not well typed. */
  function TypeFor(ctx: Context, e: Expr): Option<LelType> {
    match e
    case Number(t) => if ctx.number(t).Some? then Some(Float32) else None
    case Literal(_) => Some(Boolean)
    case Ref(n) => if n in ctx.symbols then Some(ctx.symbols[n].kind) else None
    case Neg(a) => OnlyReal(TypeFor(ctx, a))
    case Not(a) => OnlyBoolean(TypeFor(ctx, a))
    case BinOp(op, l, r) =>
      if op in {And, Or} then
        if TypeFor(ctx, l) == TypeFor(ctx, r) == Some(Boolean) then Some(Boolean) else None
      else if op in {Add, Sub, Mul, Div} then Meeting(TypeFor(ctx, l), TypeFor(ctx, r))
      else if Meeting(TypeFor(ctx, l), TypeFor(ctx, r)).Some? then Some(Boolean)
      else None
    case Call(n, args) =>
      match CalleeOf(n, |args|)
      case Unary(_) => OnlyReal(TypeFor(ctx, args[0]))
      case Binary2(_) => Meeting(TypeFor(ctx, args[0]), TypeFor(ctx, args[1]))
      case Reducing(r) =>
        if r in {Ntrue, Nfalse, Any, All} then if TypeFor(ctx, args[0]) == Some(Boolean) then Some(Float32) else None
        else OnlyReal(TypeFor(ctx, args[0]))
      case Choosing =>
        if TypeFor(ctx, args[0]) == Some(Boolean) && TypeFor(ctx, args[1]) == TypeFor(ctx, args[2])
          && (TypeFor(ctx, args[1]) == Some(Boolean) || OnlyReal(TypeFor(ctx, args[1])).Some?) then TypeFor(ctx, args[1])
        else None
      case TakingValue =>
        if TypeFor(ctx, args[0]) == Some(Boolean) || OnlyReal(TypeFor(ctx, args[0])).Some? then TypeFor(ctx, args[0]) else None
      case TakingMask =>
        if TypeFor(ctx, args[0]) == Some(Boolean) || OnlyReal(TypeFor(ctx, args[0])).Some? then Some(Boolean) else None
      case Unknown => None
  }

  // ---- shapes and masks ----

  /** Operands of equal shape keep it, a scalar takes the other's, anything else throws. */
  function Shared(s: ShapeResult, t: ShapeResult): ShapeResult {
    if s == t || t == Shapeless then s else if s == Shapeless then t else Mismatch
  }

  /** The first shape there is. */
  function Leading(a: ShapeResult, b: ShapeResult, c: ShapeResult): ShapeResult {
    if Mismatch in [a, b, c] then Mismatch else if a != Shapeless then a else if b != Shapeless then b else c
  }

  /** Two masks are combined in the shape of the result, a lone one stays as it is. */
  function Both(a: Option<IPosition>, b: Option<IPosition>, shape: IPosition): Option<IPosition> {
    if a.None? then b else if b.None? then a else Some(shape)
  }

  /** What shape() announces. */
  function ShapeFor(ctx: Context, e: Expr): ShapeResult {
    match e
    case Number(_) => Shapeless
    case Literal(_) => Shapeless
    case Ref(n) => if n in ctx.symbols then ShapeOf(ctx.symbols[n].node) else Shapeless
    case Neg(a) => ShapeFor(ctx, a)
    case Not(a) => ShapeFor(ctx, a)
    case BinOp(_, l, r) => Shared(ShapeFor(ctx, l), ShapeFor(ctx, r))
    case Call(n, args) =>
      match CalleeOf(n, |args|)
      case Binary2(_) => Shared(ShapeFor(ctx, args[0]), ShapeFor(ctx, args[1]))
      case Choosing => Leading(ShapeFor(ctx, args[0]), ShapeFor(ctx, args[1]), ShapeFor(ctx, args[2]))
      case Reducing(_) => Shapeless
      case Unknown => Shapeless
      case _ => ShapeFor(ctx, args[0])
  }

  function Extents(s: ShapeResult): IPosition {
    if s.Shaped? then s.shape else [1]
  }

  function MaskFor(ctx: Context, e: Expr): Option<IPosition> {
    match e
    case Number(_) => None
    case Literal(_) => None
    case Ref(n) => if n in ctx.symbols then MaskShape(ctx.symbols[n].node) else None
    case Neg(a) => MaskFor(ctx, a)
    case Not(a) => MaskFor(ctx, a)
    case BinOp(_, l, r) => Both(MaskFor(ctx, l), MaskFor(ctx, r), Extents(ShapeFor(ctx, e)))
    case Call(n, args) =>
      match CalleeOf(n, |args|)
      case Unary(_) => MaskFor(ctx, args[0])
      case Binary2(_) => Both(MaskFor(ctx, args[0]), MaskFor(ctx, args[1]), Extents(ShapeFor(ctx, e)))
      case Choosing =>
        Both(MaskFor(ctx, args[0]),
                      Both(MaskFor(ctx, args[1]), MaskFor(ctx, args[2]), Extents(ShapeFor(ctx, e))), Extents(ShapeFor(ctx, e)))
      case _ => None
  }

  /** The shape of the values. */
  function ArrayFor(ctx: Context, e: Expr): IPosition {
    match e
    case Ref(n) => if n in ctx.symbols then ValueShape(ctx.symbols[n].node) else [1]
    case Neg(a) => ArrayFor(ctx, a)
    case Not(a) => ArrayFor(ctx, a)
    case Call(n, args) =>
      (match CalleeOf(n, |args|)
       case Unary(_) => ArrayFor(ctx, args[0])
       case TakingValue => ArrayFor(ctx, args[0])
       case TakingMask => if MaskFor(ctx, args[0]).Some? then MaskFor(ctx, args[0]).value else ArrayFor(ctx, args[0])
       case _ => Extents(ShapeFor(ctx, e)))
    case _ => Extents(ShapeFor(ctx, e))
  }

  /** Whether every mask that contributes to element i is true there. */
  predicate ShownFor(ctx: Context, e: Expr, i: nat) {
    match e
    case Number(_) => true
    case Literal(_) => true
    case Ref(n) => n in ctx.symbols ==> Unmasked(ctx.symbols[n].node, i)
    case Neg(a) => ShownFor(ctx, a, i)
    case Not(a) => ShownFor(ctx, a, i)
    case BinOp(_, l, r) => ShownFor(ctx, l, i) && ShownFor(ctx, r, i)
    case Call(n, args) =>
      match CalleeOf(n, |args|)
      case Unary(_) => ShownFor(ctx, args[0], i)
      case Binary2(_) => ShownFor(ctx, args[0], i) && ShownFor(ctx, args[1], i)
      case Choosing => ShownFor(ctx, args[0], i) && ShownFor(ctx, args[1], i) && ShownFor(ctx, args[2], i)
      case _ => true
  }

  // ---- values ----

  /** A float beside a double is promoted. */
  function Beside(m: Interp, v: Value, own: Option<LelType>, other: Option<LelType>): Value {
    if own == Some(Float32) && other == Some(Float64) then m.op1(PromoteFloat, v) else v
  }

  /** The value at element i. */
  function ValueFor(m: Interp, ctx: Context, e: Expr, i: nat): Value
    decreases e, 0
  {
    match e
    case Number(t) => if ctx.number(t).Some? then F(ctx.number(t).value) else B(false)
    case Literal(t) => B(t in ["T", "TRUE", "true"])
    case Ref(n) => if n in ctx.symbols then Point(m, ctx.symbols[n].node, i) else B(false)
    case Neg(a) => m.op1(Negate, ValueFor(m, ctx, a, i))
    case Not(a) => m.op1(LogicalNot, ValueFor(m, ctx, a, i))
    case BinOp(op, l, r) =>
      m.op2(Binary(op), Beside(m, ValueFor(m, ctx, l, i), TypeFor(ctx, l), TypeFor(ctx, r)),
                        Beside(m, ValueFor(m, ctx, r, i), TypeFor(ctx, r), TypeFor(ctx, l)))
    case Call(n, args) =>
      match CalleeOf(n, |args|)
      case Unary(f) => m.op1(Math1(f), ValueFor(m, ctx, args[0], i))
      case Binary2(g) =>
        m.op2(Math2(g), Beside(m, ValueFor(m, ctx, args[0], i), TypeFor(ctx, args[0]), TypeFor(ctx, args[1])),
                        Beside(m, ValueFor(m, ctx, args[1], i), TypeFor(ctx, args[1]), TypeFor(ctx, args[0])))
      case Reducing(r) =>
        m.reduce(r, ValuesFor(m, ctx, args[0]), if MaskFor(ctx, args[0]).Some? then Some(ShownAll(ctx, args[0])) else None)
      case Choosing =>
        if ValueFor(m, ctx, args[0], i) == B(true) then ValueFor(m, ctx, args[1], i) else ValueFor(m, ctx, args[2], i)
      case TakingValue => ValueFor(m, ctx, args[0], i)
      case TakingMask => B(ShownFor(ctx, args[0], i))
      case Unknown => B(false)
  }

  function ValuesFor(m: Interp, ctx: Context, e: Expr): (s: seq<Value>)
    decreases e, 1
  {
    var n := Elements(ArrayFor(ctx, e));
    seq(n, j requires 0 <= j < n => ValueFor(m, ctx, e, j))
  }

  function ShownAll(ctx: Context, e: Expr): (s: seq<bool>)
    requires MaskFor(ctx, e).Some?
  {
    var n := Elements(MaskFor(ctx, e).value);
    seq(n, j requires 0 <= j < n => ShownFor(ctx, e, j))
  }

  // ---- the tree means the same ----

  /** The tree agrees with the expression in type, shape and masks. */
  ghost predicate Matches(ctx: Context, e: Expr, n: TypedNode) {
    && TypeFor(ctx, e) == Some(n.kind) && ShapeFor(ctx, e) == ShapeOf(n.node)
    && MaskFor(ctx, e) == MaskShape(n.node) && ArrayFor(ctx, e) == ValueShape(n.node)
    && forall i: nat :: ShownFor(ctx, e, i) == Unmasked(n.node, i)
  }

  predicate IsBooleanReduction(r: Reduction) {
    r in {Ntrue, Nfalse, Any, All}
  }

  function ApplyCallee(c: Callee, nodes: seq<TypedNode>): Option<TypedNode>
    requires c.Unary? || c.Reducing? || c.TakingValue? || c.TakingMask? ==> |nodes| == 1
    requires c.Binary2? ==> |nodes| == 2
    requires c.Choosing? ==> |nodes| == 3
  {
    match c
    case Unary(f) => ApplyMath1(f, nodes[0])
    case Binary2(g) => ApplyMath2(g, nodes[0], nodes[1])
    case Reducing(r) => if IsBooleanReduction(r) then ApplyBoolReduce(r, nodes[0]) else ApplyReduce(r, nodes[0])
    case Choosing => MakeIif(nodes[0], nodes[1], nodes[2])
    case TakingValue => MakeValue(nodes[0])
    case TakingMask => MakeMask(nodes[0])
    case Unknown => None
  }

  lemma CalleeArity(name: string, n: nat)
    ensures var c := CalleeOf(name, n);
      && (c.Unary? || c.Reducing? || c.TakingValue? || c.TakingMask? ==> n == 1)
      && (c.Binary2? ==> n == 2) && (c.Choosing? ==> n == 3)
  {
  }

  lemma NoOtherCalls(name: string, nodes: seq<TypedNode>)
    requires |nodes| == 0 || |nodes| > 2
    ensures CalleeOf(name, |nodes|) == if |nodes| == 3 && name == "iif" then Choosing else Unknown
    ensures ApplyCall(name, nodes) == if |nodes| == 3 && name == "iif" then MakeIif(nodes[0], nodes[1], nodes[2]) else None
  {
  }

  lemma TwoArguments(name: string, nodes: seq<TypedNode>)
    requires |nodes| == 2
    ensures CalleeOf(name, 2).Binary2? || CalleeOf(name, 2).Unknown?
    ensures ApplyCall(name, nodes)
         == if CalleeOf(name, 2).Binary2? then ApplyMath2(CalleeOf(name, 2).g, nodes[0], nodes[1]) else None
  {
    hide ApplyMath2, ReduceOf, BoolReduceOf;
  }

  /** The functions of one argument that the maps list. */
  lemma MathNames(name: string)
    ensures Math1Of(name) == if CalleeOf(name, 1).Unary? then Some(CalleeOf(name, 1).f) else None
  {
  }

  lemma ReductionNames(name: string)
    ensures ReduceOf(name).Some? ==> CalleeOf(name, 1) == Reducing(ReduceOf(name).value)
    ensures BoolReduceOf(name).Some? ==> CalleeOf(name, 1) == Reducing(BoolReduceOf(name).value)
    ensures Math2Of(name).Some? ==> CalleeOf(name, 1) == Unknown
    ensures ReduceOf(name).Some? ==> !IsBooleanReduction(ReduceOf(name).value)
    ensures BoolReduceOf(name).Some? ==> IsBooleanReduction(BoolReduceOf(name).value) && ReduceOf(name).None? && Math2Of(name).None?
    ensures ReduceOf(name).Some? ==> Math2Of(name).None?
  {
  }

  lemma SpecialNames(name: string)
    ensures name == "min" ==> CalleeOf(name, 1) == Reducing(Min)
    ensures name == "max" ==> CalleeOf(name, 1) == Reducing(Max)
    ensures name == "value" ==> CalleeOf(name, 1) == TakingValue
    ensures name == "mask" ==> CalleeOf(name, 1) == TakingMask
    ensures name == "iif" ==> CalleeOf(name, 1) == Unknown
  {
  }

  lemma OtherNames(name: string)
    requires name !in ["min", "max", "value", "mask"] && !CalleeOf(name, 1).Unary?
    requires ReduceOf(name).None? && BoolReduceOf(name).None?
    ensures CalleeOf(name, 1) == Unknown
  {
  }

  lemma OneArgument(name: string, nodes: seq<TypedNode>)
    requires |nodes| == 1
    ensures !CalleeOf(name, 1).Binary2? && !CalleeOf(name, 1).Choosing?
    ensures ApplyCall(name, nodes) == ApplyCallee(CalleeOf(name, 1), nodes)
  {
    hide ApplyMath1, ApplyReduce, ApplyBoolReduce, MakeValue, MakeMask, CalleeOf, Math1Of, Math2Of, ReduceOf, BoolReduceOf;
    MathNames(name);
    ReductionNames(name);
    SpecialNames(name);
    CalleeArity(name, 1);
    if name !in ["min", "max", "value", "mask", "iif"] && !CalleeOf(name, 1).Unary? && ReduceOf(name).None? && BoolReduceOf(name).None? {
      OtherNames(name);
    }
  }

  /** The parser's dispatch on names is the table above. */
  lemma Dispatched(name: string, nodes: seq<TypedNode>)
    ensures var c := CalleeOf(name, |nodes|);
      && (c.Unary? || c.Reducing? || c.TakingValue? || c.TakingMask? ==> |nodes| == 1)
      && (c.Binary2? ==> |nodes| == 2) && (c.Choosing? ==> |nodes| == 3)
      && ApplyCall(name, nodes) == ApplyCallee(c, nodes)
  {
    hide ApplyCall, CalleeOf;
    if |nodes| == 1 {
      OneArgument(name, nodes);
    } else if |nodes| == 2 {
      TwoArguments(name, nodes);
    } else {
      NoOtherCalls(name, nodes);
    }
    CalleeArity(name, |nodes|);
  }

  ghost predicate AllMatch(ctx: Context, args: seq<Expr>, nodes: seq<TypedNode>) {
    |nodes| == |args| && forall k :: 0 <= k < |args| ==> Matches(ctx, args[k], nodes[k])
  }

  /** Agreement, and failure together, of an expression with the node built for it. */
  ghost predicate Agree(ctx: Context, e: Expr, n: Option<TypedNode>) {
    (n.None? <==> TypeFor(ctx, e).None?) && (n.Some? ==> Matches(ctx, e, n.value))
  }

  lemma BinaryAgrees(ctx: Context, op: BinaryOp, l: Expr, r: Expr, x: TypedNode, y: TypedNode)
    requires Matches(ctx, l, x) && Matches(ctx, r, y)
    ensures Agree(ctx, BinOp(op, l, r), MakeBinary(op, x, y))
  {
    hide TypeFor, ShapeFor, MaskFor, ArrayFor, ShownFor;
    PromotedSame(x);
    PromotedSame(y);
    BinaryType(ctx, op, l, r);
    BinaryFor(ctx, op, l, r);
    var n := MakeBinary(op, x, y);
    if n.Some? {
      hide MakeBinary;
      MadeOf(op, x, y);
      SharedIsJoin(ShapeOf(x.node), ShapeOf(y.node));
      forall i: nat ensures ShownFor(ctx, BinOp(op, l, r), i) == Unmasked(n.value.node, i) {
        ShownPair(ctx, op, l, r, i);
      }
    }
  }

  lemma ShownPair(ctx: Context, op: BinaryOp, l: Expr, r: Expr, i: nat)
    ensures ShownFor(ctx, BinOp(op, l, r), i) <==> ShownFor(ctx, l, i) && ShownFor(ctx, r, i)
  {
  }

  /** Type, shape and masks of an operation from those of its operands. */
  lemma BinaryType(ctx: Context, op: BinaryOp, l: Expr, r: Expr)
    ensures var s, t := TypeFor(ctx, l), TypeFor(ctx, r);
      TypeFor(ctx, BinOp(op, l, r))
      == if op in {And, Or} then if s == t == Some(Boolean) then Some(Boolean) else None
         else if op in {Add, Sub, Mul, Div} then Meeting(s, t)
         else if Meeting(s, t).Some? then Some(Boolean)
         else None
  {
    hide Meeting, CalleeOf;
  }

  lemma BinaryFor(ctx: Context, op: BinaryOp, l: Expr, r: Expr)
    ensures var e := BinOp(op, l, r);
      && ShapeFor(ctx, e) == Shared(ShapeFor(ctx, l), ShapeFor(ctx, r))
      && MaskFor(ctx, e) == Both(MaskFor(ctx, l), MaskFor(ctx, r), Extents(ShapeFor(ctx, e)))
      && ArrayFor(ctx, e) == Extents(ShapeFor(ctx, e))
  {
    hide ShapeFor, MaskFor, ArrayFor;
    BinaryShape(ctx, op, l, r);
    BinaryMask(ctx, op, l, r);
    BinaryArray(ctx, op, l, r);
  }

  lemma BinaryShape(ctx: Context, op: BinaryOp, l: Expr, r: Expr)
    ensures ShapeFor(ctx, BinOp(op, l, r)) == Shared(ShapeFor(ctx, l), ShapeFor(ctx, r))
  {
    hide Shared, CalleeOf;
  }

  lemma BinaryMask(ctx: Context, op: BinaryOp, l: Expr, r: Expr)
    ensures MaskFor(ctx, BinOp(op, l, r)) == Both(MaskFor(ctx, l), MaskFor(ctx, r), Extents(ShapeFor(ctx, BinOp(op, l, r))))
  {
    hide ShapeFor, Both, Extents, CalleeOf;
  }

  lemma BinaryArray(ctx: Context, op: BinaryOp, l: Expr, r: Expr)
    ensures ArrayFor(ctx, BinOp(op, l, r)) == Extents(ShapeFor(ctx, BinOp(op, l, r)))
  {
    hide ShapeFor, MaskFor, Extents, CalleeOf;
  }

  lemma SharedIsJoin(s: ShapeResult, t: ShapeResult)
    ensures Shared(s, t) == LelNodes.Join(s, t)
  {
  }

  /** The node of an operation, and its attributes from those of the operands. */
  lemma MadeOf(op: BinaryOp, x: TypedNode, y: TypedNode)
    requires MakeBinary(op, x, y).Some?
    ensures var n := MakeBinary(op, x, y).value.node;
      && ShapeOf(n) == LelNodes.Join(ShapeOf(x.node), ShapeOf(y.node))
      && MaskShape(n) == CombinedShape(MaskShape(x.node), MaskShape(y.node), ResultShape(n)) && ValueShape(n) == ResultShape(n)
      && forall i: nat :: Unmasked(n, i) == (Unmasked(x.node, i) && Unmasked(y.node, i))
  {
    PromotedSame(x);
    PromotedSame(y);
  }

  lemma UnaryAgrees(ctx: Context, a: Expr, x: TypedNode)
    requires Matches(ctx, a, x)
    ensures Agree(ctx, Neg(a), MakeNegate(x)) && Agree(ctx, Not(a), MakeNot(x))
  {
  }

  lemma PromotedSame(x: TypedNode)
    ensures ShapeOf(Promote(x)) == ShapeOf(x.node) && MaskShape(Promote(x)) == MaskShape(x.node)
    ensures forall i: nat :: Unmasked(Promote(x), i) == Unmasked(x.node, i)
  {
  }

  lemma UnaryCallAgrees(ctx: Context, name: string, args: seq<Expr>, f: Func1, x: TypedNode)
    requires |args| == 1 && CalleeOf(name, 1) == Unary(f) && Matches(ctx, args[0], x)
    ensures Agree(ctx, Call(name, args), ApplyMath1(f, x))
  {
    hide CalleeOf;
    var e, n := Call(name, args), Node1(Math1(f), x.node);
    assert ArrayFor(ctx, e) == ValueShape(n) && MaskFor(ctx, e) == MaskShape(n) && ShapeFor(ctx, e) == ShapeOf(n);
    assert forall i: nat :: ShownFor(ctx, e, i) == Unmasked(n, i);
  }

  lemma BinaryCallAgrees(ctx: Context, name: string, args: seq<Expr>, g: Func2, x: TypedNode, y: TypedNode)
    requires |args| == 2 && CalleeOf(name, 2) == Binary2(g) && Matches(ctx, args[0], x) && Matches(ctx, args[1], y)
    ensures Agree(ctx, Call(name, args), ApplyMath2(g, x, y))
  {
    hide CalleeOf;
    var e, r := Call(name, args), ApplyMath2(g, x, y);
    PromotedSame(x);
    PromotedSame(y);
    if r.Some? {
      var n := r.value.node;
      assert ShapeFor(ctx, e) == ShapeOf(n);
      assert MaskFor(ctx, e) == MaskShape(n) && ArrayFor(ctx, e) == ValueShape(n);
      assert forall i: nat :: ShownFor(ctx, e, i) == Unmasked(n, i);
    }
  }

  lemma ReducingCallAgrees(ctx: Context, name: string, args: seq<Expr>, r: Reduction, x: TypedNode)
    requires |args| == 1 && CalleeOf(name, 1) == Reducing(r) && Matches(ctx, args[0], x)
    ensures Agree(ctx, Call(name, args), if IsBooleanReduction(r) then ApplyBoolReduce(r, x) else ApplyReduce(r, x))
  {
    hide CalleeOf;
  }

  lemma ChoosingCallAgrees(ctx: Context, name: string, args: seq<Expr>, x: TypedNode, y: TypedNode, z: TypedNode)
    requires |args| == 3 && CalleeOf(name, 3) == Choosing
    requires Matches(ctx, args[0], x) && Matches(ctx, args[1], y) && Matches(ctx, args[2], z)
    ensures Agree(ctx, Call(name, args), MakeIif(x, y, z))
  {
    hide CalleeOf;
    var e, n := Call(name, args), Iif(x.node, y.node, z.node);
    assert ShapeFor(ctx, e) == ShapeOf(n) && MaskFor(ctx, e) == MaskShape(n) && ArrayFor(ctx, e) == ValueShape(n);
    assert forall i: nat :: ShownFor(ctx, e, i) == Unmasked(n, i);
  }

  lemma ExtractCallAgrees(ctx: Context, name: string, args: seq<Expr>, x: TypedNode)
    requires |args| == 1 && Matches(ctx, args[0], x)
    ensures CalleeOf(name, 1) == TakingValue ==> Agree(ctx, Call(name, args), MakeValue(x))
    ensures CalleeOf(name, 1) == TakingMask ==> Agree(ctx, Call(name, args), MakeMask(x))
  {
    hide CalleeOf;
  }

  lemma CallAgrees(ctx: Context, name: string, args: seq<Expr>, nodes: seq<TypedNode>)
    requires AllMatch(ctx, args, nodes)
    ensures Agree(ctx, Call(name, args), ApplyCall(name, nodes))
  {
    hide ApplyCall, CalleeOf, Matches, ApplyMath1, ApplyMath2, ApplyReduce, ApplyBoolReduce, MakeIif, MakeValue, MakeMask;
    Dispatched(name, nodes);
    match CalleeOf(name, |args|)
    case Unary(f) => UnaryCallAgrees(ctx, name, args, f, nodes[0]);
    case Binary2(g) => BinaryCallAgrees(ctx, name, args, g, nodes[0], nodes[1]);
    case Reducing(r) => ReducingCallAgrees(ctx, name, args, r, nodes[0]);
    case Choosing => ChoosingCallAgrees(ctx, name, args, nodes[0], nodes[1], nodes[2]);
    case TakingValue => ExtractCallAgrees(ctx, name, args, nodes[0]);
    case TakingMask => ExtractCallAgrees(ctx, name, args, nodes[0]);
    case Unknown =>
  }

  lemma {:induction false} ElabAllParts(ctx: Context, args: seq<Expr>)
    ensures ElabAll(ctx, args).Some? <==> forall k :: 0 <= k < |args| ==> Elab(ctx, args[k]).Some?
    ensures ElabAll(ctx, args).Some? ==>
      |ElabAll(ctx, args).value| == |args| && forall k :: 0 <= k < |args| ==> Elab(ctx, args[k]) == Some(ElabAll(ctx, args).value[k])
  {
    hide Elab;
    if args != [] {
      ElabAllParts(ctx, args[1..]);
      assert forall k :: 1 <= k < |args| ==> args[k] == args[1..][k - 1];
    }
  }

  /** An expression denotes a tree exactly if it is well typed, and the tree has its type, shape and masks. */
  lemma {:induction false} TreeAgrees(ctx: Context, e: Expr)
    ensures Agree(ctx, e, Elab(ctx, e))
  {
    hide MakeBinary, MakeNegate, MakeNot, ApplyCall, CalleeOf;
    match e
    case Number(_) =>
    case Literal(_) =>
    case Ref(_) =>
    case Neg(a) =>
      TreeAgrees(ctx, a);
      if Elab(ctx, a).Some? { UnaryAgrees(ctx, a, Elab(ctx, a).value); }
    case Not(a) =>
      TreeAgrees(ctx, a);
      if Elab(ctx, a).Some? { UnaryAgrees(ctx, a, Elab(ctx, a).value); }
    case BinOp(op, l, r) =>
      TreeAgrees(ctx, l);
      TreeAgrees(ctx, r);
      if Elab(ctx, l).Some? && Elab(ctx, r).Some? { BinaryAgrees(ctx, op, l, r, Elab(ctx, l).value, Elab(ctx, r).value); }
    case Call(n, args) =>
      forall k | 0 <= k < |args| ensures Agree(ctx, args[k], Elab(ctx, args[k])) {
        TreeAgrees(ctx, args[k]);
      }
      ElabAllParts(ctx, args);
      if ElabAll(ctx, args).Some? {
        CallAgrees(ctx, n, args, ElabAll(ctx, args).value);
      } else {
        IllTypedArgument(ctx, n, args);
      }
  }

  lemma IllTypedArgument(ctx: Context, n: string, args: seq<Expr>)
    requires exists k :: 0 <= k < |args| && TypeFor(ctx, args[k]).None?
    ensures TypeFor(ctx, Call(n, args)).None?
  {
    hide CalleeOf;
    CalleeArity(n, |args|);
  }

  // ---- the tree has the same values ----

  /** The trees of the arguments have the arguments' values everywhere. */
  ghost predicate SameValues(m: Interp, ctx: Context, e: Expr, n: TypedNode) {
    forall i: nat :: Point(m, n.node, i) == ValueFor(m, ctx, e, i)
  }

  lemma PromotedPoint(m: Interp, x: TypedNode, i: nat)
    ensures Point(m, Promote(x), i) == if x.kind == Float32 then m.op1(PromoteFloat, Point(m, x.node, i)) else Point(m, x.node, i)
  {
  }

  lemma CommonValues(m: Interp, ctx: Context, a: Expr, b: Expr, x: TypedNode, y: TypedNode, i: nat)
    requires Matches(ctx, a, x) && Matches(ctx, b, y) && SameValues(m, ctx, a, x) && SameValues(m, ctx, b, y)
    ensures Common(x, y).Some? ==>
      Point(m, Common(x, y).value.1, i) == Beside(m, ValueFor(m, ctx, a, i), TypeFor(ctx, a), TypeFor(ctx, b))
      && Point(m, Common(x, y).value.2, i) == Beside(m, ValueFor(m, ctx, b, i), TypeFor(ctx, b), TypeFor(ctx, a))
  {
    hide Point, ValueFor, TypeFor;
    PromotedPoint(m, x, i);
    PromotedPoint(m, y, i);
  }

  lemma ScalarPoints(m: Interp, v: Value)
    ensures forall i: nat :: Point(m, Scalar(v), i) == v
  {
  }

  lemma SinglePoint(m: Interp, op: Op1, u: Node)
    ensures forall i: nat :: Point(m, Node1(op, u), i) == m.op1(op, Point(m, u, i))
  {
  }

  lemma PairPoint(m: Interp, op: Op2, u: Node, v: Node, i: nat)
    ensures Point(m, Node2(op, u, v), i) == m.op2(op, Point(m, u, i), Point(m, v, i))
  {
  }

  lemma BinaryValue(m: Interp, ctx: Context, op: BinaryOp, l: Expr, r: Expr, x: TypedNode, y: TypedNode, i: nat)
    requires Matches(ctx, l, x) && Matches(ctx, r, y) && SameValues(m, ctx, l, x) && SameValues(m, ctx, r, y)
    requires MakeBinary(op, x, y).Some?
    ensures Point(m, MakeBinary(op, x, y).value.node, i) == ValueFor(m, ctx, BinOp(op, l, r), i)
  {
    hide Point, TypeFor, ValueFor, MakeBinary, Common, ShapeFor, MaskFor, ArrayFor, ShownFor;
    OperationValue(m, ctx, op, l, r, i);
    MadeNode(op, x, y);
    if op in {And, Or} {
      PairPoint(m, Binary(op), x.node, y.node, i);
    } else {
      CommonValues(m, ctx, l, r, x, y, i);
      PairPoint(m, Binary(op), Common(x, y).value.1, Common(x, y).value.2, i);
    }
  }

  lemma OperationValue(m: Interp, ctx: Context, op: BinaryOp, l: Expr, r: Expr, i: nat)
    ensures ValueFor(m, ctx, BinOp(op, l, r), i)
         == m.op2(Binary(op), Beside(m, ValueFor(m, ctx, l, i), TypeFor(ctx, l), TypeFor(ctx, r)),
                              Beside(m, ValueFor(m, ctx, r, i), TypeFor(ctx, r), TypeFor(ctx, l)))
  {
    hide Beside, TypeFor, CalleeOf;
  }

  lemma MadeNode(op: BinaryOp, x: TypedNode, y: TypedNode)
    requires MakeBinary(op, x, y).Some?
    ensures var n := MakeBinary(op, x, y).value.node;
      if op in {And, Or} then x.kind == y.kind == Boolean && n == Node2(Binary(op), x.node, y.node)
      else Common(x, y).Some? && n == Node2(Binary(op), Common(x, y).value.1, Common(x, y).value.2)
  {
    hide Common;
  }

  lemma ReductionPoint(m: Interp, r: Reduction, a: Node, i: nat)
    ensures Point(m, Reduce(r, a), i) == m.reduce(r, Points(m, a), if HasMask(a) then Some(MaskPoints(a)) else None)
  {
  }

  lemma ReducedSequences(m: Interp, ctx: Context, a: Expr, x: TypedNode)
    requires Matches(ctx, a, x) && SameValues(m, ctx, a, x)
    ensures Points(m, x.node) == ValuesFor(m, ctx, a) && HasMask(x.node) == MaskFor(ctx, a).Some?
    ensures HasMask(x.node) ==> MaskPoints(x.node) == ShownAll(ctx, a)
  {
    hide Point, ValueFor, TypeFor, Unmasked, ShownFor;
    assert Points(m, x.node) == ValuesFor(m, ctx, a);
    if HasMask(x.node) {
      assert MaskPoints(x.node) == ShownAll(ctx, a);
    }
  }

  lemma ReducingValue(m: Interp, ctx: Context, name: string, args: seq<Expr>, r: Reduction, x: TypedNode, i: nat)
    requires |args| == 1 && CalleeOf(name, 1) == Reducing(r) && Matches(ctx, args[0], x) && SameValues(m, ctx, args[0], x)
    ensures Point(m, Reduce(r, x.node), i) == ValueFor(m, ctx, Call(name, args), i)
  {
    hide CalleeOf, Point, Points, MaskPoints, ValuesFor, ShownAll, HasMask;
    ReductionPoint(m, r, x.node, i);
    ReducedSequences(m, ctx, args[0], x);
  }

  lemma Binary2Value(m: Interp, ctx: Context, name: string, args: seq<Expr>, g: Func2, x: TypedNode, y: TypedNode, i: nat)
    requires |args| == 2 && CalleeOf(name, 2) == Binary2(g) && Matches(ctx, args[0], x) && Matches(ctx, args[1], y)
    requires SameValues(m, ctx, args[0], x) && SameValues(m, ctx, args[1], y) && ApplyMath2(g, x, y).Some?
    ensures Point(m, ApplyMath2(g, x, y).value.node, i) == ValueFor(m, ctx, Call(name, args), i)
  {
    hide CalleeOf, Point, TypeFor;
    CommonValues(m, ctx, args[0], args[1], x, y, i);
    PairPoint(m, Math2(g), Common(x, y).value.1, Common(x, y).value.2, i);
  }

  lemma SimpleCallValue(m: Interp, ctx: Context, name: string, args: seq<Expr>, nodes: seq<TypedNode>, i: nat)
    requires AllMatch(ctx, args, nodes) && forall k :: 0 <= k < |args| ==> SameValues(m, ctx, args[k], nodes[k])
    requires var c := CalleeOf(name, |args|); c.Unary? || c.Choosing? || c.TakingValue? || c.TakingMask?
    requires ApplyCall(name, nodes).Some?
    ensures Point(m, ApplyCall(name, nodes).value.node, i) == ValueFor(m, ctx, Call(name, args), i)
  {
    hide CalleeOf, ApplyCall, TypeFor;
    Dispatched(name, nodes);
    assert Matches(ctx, args[0], nodes[0]) && SameValues(m, ctx, args[0], nodes[0]);
    if CalleeOf(name, |args|).Choosing? {
      assert SameValues(m, ctx, args[1], nodes[1]) && SameValues(m, ctx, args[2], nodes[2]);
    }
  }

  lemma CallValue(m: Interp, ctx: Context, name: string, args: seq<Expr>, nodes: seq<TypedNode>, i: nat)
    requires AllMatch(ctx, args, nodes) && forall k :: 0 <= k < |args| ==> SameValues(m, ctx, args[k], nodes[k])
    requires ApplyCall(name, nodes).Some?
    ensures Point(m, ApplyCall(name, nodes).value.node, i) == ValueFor(m, ctx, Call(name, args), i)
  {
    hide CalleeOf, ApplyCall, Matches, SameValues, Point, ValueFor;
    Dispatched(name, nodes);
    match CalleeOf(name, |args|)
    case Binary2(g) => Binary2Value(m, ctx, name, args, g, nodes[0], nodes[1], i);
    case Reducing(r) => ReducingValue(m, ctx, name, args, r, nodes[0], i);
    case Unknown =>
    case _ => SimpleCallValue(m, ctx, name, args, nodes, i);
  }

  /** At every element the tree of a well-typed expression has the value of the expression. */
  lemma {:induction false} TreeHasValue(m: Interp, ctx: Context, e: Expr)
    requires Elab(ctx, e).Some?
    ensures SameValues(m, ctx, e, Elab(ctx, e).value)
  {
    hide MakeBinary, ApplyCall, CalleeOf, Matches, TypeFor, Point;
    match e
    case Number(t) => ScalarPoints(m, F(ctx.number(t).value));
    case Literal(t) => ScalarPoints(m, B(IsTrue(t)));
    case Ref(_) =>
    case Neg(a) => TreeHasValue(m, ctx, a); SinglePoint(m, Negate, Elab(ctx, a).value.node);
    case Not(a) => TreeHasValue(m, ctx, a); SinglePoint(m, LogicalNot, Elab(ctx, a).value.node);
    case BinOp(op, l, r) =>
      TreeHasValue(m, ctx, l);
      TreeHasValue(m, ctx, r);
      TreeAgrees(ctx, l);
      TreeAgrees(ctx, r);
      var x, y := Elab(ctx, l).value, Elab(ctx, r).value;
      forall i: nat ensures Point(m, Elab(ctx, e).value.node, i) == ValueFor(m, ctx, e, i) {
        BinaryValue(m, ctx, op, l, r, x, y, i);
      }
    case Call(n, args) =>
      ElabAllParts(ctx, args);
      var nodes := ElabAll(ctx, args).value;
      forall k | 0 <= k < |args| ensures Matches(ctx, args[k], nodes[k]) && SameValues(m, ctx, args[k], nodes[k]) {
        TreeHasValue(m, ctx, args[k]);
        TreeAgrees(ctx, args[k]);
      }
      forall i: nat ensures Point(m, Elab(ctx, e).value.node, i) == ValueFor(m, ctx, e, i) {
        CallValue(m, ctx, n, args, nodes, i);
      }
  }

  /**
   * The text of an expression is accepted exactly if the expression is well typed, and the tree parsed from it has the
   * expression's type, shape, masks and values.
   */
  lemma ParsedMeaning(m: Interp, ctx: Context, e: Expr, w: string)
    requires Lexical(e) && AllBlank(w)
    ensures var r := ParseAll(ctx, Show(e, OR, w) + w);
      && (r.Some? <==> TypeFor(ctx, e).Some?)
      && (r.Some? ==> Matches(ctx, e, r.value) && SameValues(m, ctx, e, r.value))
  {
    hide ParseAll, Show, Elab, TypeFor, Matches, SameValues;
    ParseInvertsShow(ctx, e, w);
    TreeAgrees(ctx, e);
    if Elab(ctx, e).Some? {
      TreeHasValue(m, ctx, e);
    }
  }

  /** Whatever text is accepted spells a phrase of the grammar, and the tree means what the expression of that phrase means. */
  lemma AcceptedMeaning(m: Interp, ctx: Context, s: string) returns (p: Phrase, gap: string)
    requires ParseAll(ctx, s).Some?
    ensures Proper(p, false) && AllBlank(gap) && s == Spell(p) + gap
    ensures Matches(ctx, Meant(p), ParseAll(ctx, s).value) && SameValues(m, ctx, Meant(p), ParseAll(ctx, s).value)
  {
    hide ParseAll, Elab, TypeFor, Matches, SameValues, Proper, Spell, Meant, AllBlank;
    p, gap := AcceptedIsDerived(ctx, s);
    TreeAgrees(ctx, Meant(p));
    TreeHasValue(m, ctx, Meant(p));
  }
}
