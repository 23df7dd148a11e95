/** Type dispatch of the LEL parser in src/lattice_expr.cpp: which nodes it builds for which operand types. */
module LelTyping {
  import opened Wrappers
  import opened LatticeArray
  import opened LelNodes

  /** LatticeExprNode: a tree and the element type of its result. */
  datatype TypedNode = TypedNode(kind: LelType, node: Node)

  predicate Real(t: LelType) {
    t == Float32 || t == Float64
  }

  function Promote(n: TypedNode): Node {
    if n.kind == Float32 then Node1(PromoteFloat, n.node) else n.node
  }

  /** Operands of equal real type stay, mixed ones become double, anything else is rejected. */
  function Common(l: TypedNode, r: TypedNode): Option<(LelType, Node, Node)> {
    if !Real(l.kind) || !Real(r.kind) then None
    else if l.kind == r.kind then Some((l.kind, l.node, r.node))
    else Some((Float64, Promote(l), Promote(r)))
  }

  /** make_arith, make_compare and make_logical. */
  function MakeBinary(op: BinaryOp, l: TypedNode, r: TypedNode): Option<TypedNode> {
    match op
    case And => MakeLogical(op, l, r)
    case Or => MakeLogical(op, l, r)
    case _ =>
      var (t, x, y) :- Common(l, r);
      Some(TypedNode(if op.Add? || op.Sub? || op.Mul? || op.Div? then t else Boolean, Node2(Binary(op), x, y)))
  }

  function MakeLogical(op: BinaryOp, l: TypedNode, r: TypedNode): Option<TypedNode> {
    if l.kind != Boolean || r.kind != Boolean then None
    else Some(TypedNode(Boolean, Node2(Binary(op), l.node, r.node)))
  }

  function MakeNot(n: TypedNode): Option<TypedNode> {
    if n.kind != Boolean then None else Some(TypedNode(Boolean, Node1(LogicalNot, n.node)))
  }

  function MakeNegate(n: TypedNode): Option<TypedNode> {
    if !Real(n.kind) then None else Some(TypedNode(n.kind, Node1(Negate, n.node)))
  }

  function ApplyMath1(f: Func1, n: TypedNode): Option<TypedNode> {
    if !Real(n.kind) then None else Some(TypedNode(n.kind, Node1(Math1(f), n.node)))
  }

  function ApplyMath2(f: Func2, l: TypedNode, r: TypedNode): Option<TypedNode> {
    var (t, x, y) :- Common(l, r);
    Some(TypedNode(t, Node2(Math2(f), x, y)))
  }

  function ApplyReduce(f: Reduction, n: TypedNode): Option<TypedNode> {
    if !Real(n.kind) then None else Some(TypedNode(n.kind, Reduce(f, n.node)))
  }

  /** Counts and tests of a boolean lattice come as float. */
  function ApplyBoolReduce(f: Reduction, n: TypedNode): Option<TypedNode> {
    if n.kind != Boolean then None else Some(TypedNode(Float32, Reduce(f, n.node)))
  }

  function MakeIif(c: TypedNode, t: TypedNode, f: TypedNode): Option<TypedNode> {
    if c.kind != Boolean || !(Real(t.kind) || t.kind == Boolean) || f.kind != t.kind then None
    else Some(TypedNode(t.kind, Iif(c.node, t.node, f.node)))
  }

  function MakeValue(n: TypedNode): Option<TypedNode> {
    if Real(n.kind) || n.kind == Boolean then Some(TypedNode(n.kind, ValueExtract(n.node))) else None
  }

  function MakeMask(n: TypedNode): Option<TypedNode> {
    if Real(n.kind) || n.kind == Boolean then Some(TypedNode(Boolean, MaskExtract(n.node))) else None
  }

  // ---- function names ----

  function Math1Of(name: string): Option<Func1> {
    if name == "sin" then Some(Sin) else if name == "cos" then Some(Cos) else if name == "tan" then Some(Tan)
    else if name == "asin" then Some(Asin) else if name == "acos" then Some(Acos) else if name == "atan" then Some(Atan)
    else if name == "exp" then Some(Exp) else if name == "log" then Some(Log) else if name == "log10" then Some(Log10)
    else if name == "sqrt" then Some(Sqrt) else if name == "abs" then Some(Abs) else if name == "sign" then Some(Sign)
    else if name == "round" then Some(Round) else if name == "ceil" then Some(Ceil) else if name == "floor" then Some(Floor)
    else None
  }

  function Math2Of(name: string): Option<Func2> {
    if name == "atan2" then Some(Atan2) else if name == "pow" then Some(Pow) else if name == "fmod" then Some(Fmod) else None
  }

  function ReduceOf(name: string): Option<Reduction> {
    if name == "sum" then Some(Sum) else if name == "mean" then Some(Mean) else if name == "median" then Some(Median)
    else if name == "variance" then Some(Variance) else if name == "stddev" then Some(Stddev) else None
  }

  function BoolReduceOf(name: string): Option<Reduction> {
    if name == "ntrue" then Some(Ntrue) else if name == "nfalse" then Some(Nfalse)
    else if name == "any" then Some(Any) else if name == "all" then Some(All) else None
  }

  /** parse_function_call once the arguments are there. */
  function ApplyCall(name: string, args: seq<TypedNode>): Option<TypedNode> {
    if name == "min" || name == "max" then
      if |args| == 1 then ApplyReduce(if name == "min" then Min else Max, args[0])
      else if |args| == 2 then ApplyMath2(if name == "min" then Min2 else Max2, args[0], args[1])
      else None
    else if name == "iif" then
      if |args| == 3 then MakeIif(args[0], args[1], args[2]) else None
    else if name == "value" then
      if |args| == 1 then MakeValue(args[0]) else None
    else if name == "mask" then
      if |args| == 1 then MakeMask(args[0]) else None
    else if Math1Of(name).Some? then
      if |args| == 1 then ApplyMath1(Math1Of(name).value, args[0]) else None
    else if Math2Of(name).Some? then
      if |args| == 2 then ApplyMath2(Math2Of(name).value, args[0], args[1]) else None
    else if ReduceOf(name).Some? then
      if |args| == 1 then ApplyReduce(ReduceOf(name).value, args[0]) else None
    else if BoolReduceOf(name).Some? then
      if |args| == 1 then ApplyBoolReduce(BoolReduceOf(name).value, args[0]) else None
    else None
  }

  // ---- typing rules ----

  function ValueType(v: Value): LelType {
    match v
    case F(_) => Float32
    case D(_) => Float64
    case C(_, _) => Complex64
    case Z(_, _) => Complex128
    case B(_) => Boolean
  }

  predicate AllOfType(data: Lattice<Value>, t: LelType) {
    forall i :: 0 <= i < |data.flat| ==> ValueType(data.flat[i]) == t
  }

  predicate IsBoolReduction(r: Reduction) {
    r.Ntrue? || r.Nfalse? || r.Any? || r.All?
  }

  /** The typing the class templates enforce: the tree n is a LelNode of element type t. */
  ghost predicate HasType(n: Node, t: LelType)
    decreases n, 0
  {
    match n
    case Scalar(v) => ValueType(v) == t
    case ArrayRef(data, _) => AllOfType(data, t)
    case Node1(op, a) =>
      (match op
       case Negate => Real(t) && HasType(a, t)
       case LogicalNot => t == Boolean && HasType(a, Boolean)
       case Identity => HasType(a, t)
       case Math1(_) => Real(t) && HasType(a, t)
       case PromoteFloat => t == Float64 && HasType(a, Float32)
       case RealPart => HasComplexArg(a, t)
       case ImagPart => HasComplexArg(a, t)
       case Conj => (t == Complex64 || t == Complex128) && HasType(a, t)
       case Arg => HasComplexArg(a, t)
       case ComplexAbs => HasComplexArg(a, t))
    case Node2(op, l, r) =>
      (match op
       case Binary(b) =>
         if b.And? || b.Or? then t == Boolean && HasType(l, Boolean) && HasType(r, Boolean)
         else if b.Add? || b.Sub? || b.Mul? || b.Div? then t != Boolean && HasType(l, t) && HasType(r, t)
         else t == Boolean && ((HasType(l, Float32) && HasType(r, Float32)) || (HasType(l, Float64) && HasType(r, Float64)))
       case Math2(_) => Real(t) && HasType(l, t) && HasType(r, t)
       case FormComplex =>
         (t == Complex64 && HasType(l, Float32) && HasType(r, Float32))
         || (t == Complex128 && HasType(l, Float64) && HasType(r, Float64)))
    case Reduce(r, a) =>
      if IsBoolReduction(r) then t == Float32 && HasType(a, Boolean) else Real(t) && HasType(a, t)
    case Iif(c, x, y) => HasType(c, Boolean) && HasType(x, t) && HasType(y, t)
    case ValueExtract(a) => HasType(a, t)
    case MaskExtract(a) => t == Boolean && (HasType(a, Float32) || HasType(a, Float64) || HasType(a, Boolean))
  }

  ghost predicate HasComplexArg(a: Node, t: LelType)
    decreases a, 1
  {
    (t == Float32 && HasType(a, Complex64)) || (t == Float64 && HasType(a, Complex128))
  }

  ghost predicate Typed(n: TypedNode) {
    HasType(n.node, n.kind)
  }

  lemma BinaryTyped(op: BinaryOp, l: TypedNode, r: TypedNode)
    requires Typed(l) && Typed(r)
    ensures MakeBinary(op, l, r).Some? ==> Typed(MakeBinary(op, l, r).value)
  {
  }

  lemma CommonTyped(l: TypedNode, r: TypedNode)
    requires Typed(l) && Typed(r) && Common(l, r).Some?
    ensures var (t, x, y) := Common(l, r).value; Real(t) && HasType(x, t) && HasType(y, t)
  {
  }

  lemma Math2Typed(f: Func2, l: TypedNode, r: TypedNode)
    requires Typed(l) && Typed(r)
    ensures ApplyMath2(f, l, r).Some? ==> Typed(ApplyMath2(f, l, r).value)
  {
    if Common(l, r).Some? {
      CommonTyped(l, r);
    }
  }

  lemma ReduceTyped(f: Reduction, n: TypedNode)
    requires Typed(n)
    ensures !IsBoolReduction(f) && ApplyReduce(f, n).Some? ==> Typed(ApplyReduce(f, n).value)
    ensures IsBoolReduction(f) && ApplyBoolReduce(f, n).Some? ==> Typed(ApplyBoolReduce(f, n).value)
  {
  }

  lemma ExtractTyped(n: TypedNode)
    requires Typed(n)
    ensures MakeValue(n).Some? ==> Typed(MakeValue(n).value)
    ensures MakeMask(n).Some? ==> Typed(MakeMask(n).value)
  {
  }

  /** A call dispatched on well-typed arguments gives a well-typed node of the type it declares. */
  lemma CallTyped(name: string, args: seq<TypedNode>)
    requires forall i :: 0 <= i < |args| ==> Typed(args[i])
    ensures ApplyCall(name, args).Some? ==> Typed(ApplyCall(name, args).value)
  {
    hide Math1Of, Math2Of, ReduceOf, BoolReduceOf, ApplyMath2, ApplyReduce, ApplyBoolReduce, MakeValue, MakeMask, IsBoolReduction;
    BoolReductions(name);
    MinMax();
    if |args| == 1 {
      ReduceTyped(Min, args[0]);
      ReduceTyped(Max, args[0]);
      ExtractTyped(args[0]);
      if ReduceOf(name).Some? { ReduceTyped(ReduceOf(name).value, args[0]); }
      if BoolReduceOf(name).Some? { ReduceTyped(BoolReduceOf(name).value, args[0]); }
    } else if |args| == 2 {
      Math2Typed(Min2, args[0], args[1]);
      Math2Typed(Max2, args[0], args[1]);
      if Math2Of(name).Some? { Math2Typed(Math2Of(name).value, args[0], args[1]); }
    }
  }

  lemma MinMax()
    ensures !IsBoolReduction(Min) && !IsBoolReduction(Max)
  {
  }

  lemma BoolReductions(name: string)
    ensures BoolReduceOf(name).Some? ==> IsBoolReduction(BoolReduceOf(name).value)
    ensures ReduceOf(name).Some? ==> !IsBoolReduction(ReduceOf(name).value)
  {
  }
}
