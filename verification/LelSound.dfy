/** The values a tree evaluates to have the element type the class templates of src/lattice_expr.cpp give it. */
module LelSound {
  import opened Wrappers
  import opened LatticeArray
  import opened LelNodes
  import opened LelTyping
  import opened LelGrammar
  import opened LelParser

  // ---- the types of the scalar functions ----

  /** The real type of the parts of a complex type. */
  function PartType(t: LelType): Option<LelType> {
    match t
    case Complex64 => Some(Float32)
    case Complex128 => Some(Float64)
    case _ => None
  }

  function Type1(op: Op1, t: LelType): Option<LelType> {
    match op
    case Negate => if t in {Float32, Float64} then Some(t) else None
    case Math1(_) => if t in {Float32, Float64} then Some(t) else None
    case LogicalNot => if t == Boolean then Some(t) else None
    case Identity => Some(t)
    case PromoteFloat => if t == Float32 then Some(Float64) else None
    case Conj => if PartType(t).Some? then Some(t) else None
    case _ => PartType(t)
  }

  /** Both operands have type t. */
  function Type2(op: Op2, t: LelType): Option<LelType> {
    match op
    case Binary(b) =>
      if b in {And, Or} then if t == Boolean then Some(Boolean) else None
      else if b in {Add, Sub, Mul, Div} then if t == Boolean then None else Some(t)
      else if t in {Float32, Float64} then Some(Boolean)
      else None
    case Math2(_) => if t in {Float32, Float64} then Some(t) else None
    case FormComplex => if t == Float32 then Some(Complex64) else if t == Float64 then Some(Complex128) else None
  }

  function TypeR(r: Reduction, t: LelType): Option<LelType> {
    if r in {Ntrue, Nfalse, Any, All} then if t == Boolean then Some(Float32) else None
    else if t in {Float32, Float64} then Some(t)
    else None
  }

  predicate AllTyped(vs: seq<Value>, t: LelType) {
    forall i :: 0 <= i < |vs| ==> ValueType(vs[i]) == t
  }

  /** The scalar functions and reductions give values of these types; of a reduction of nothing nothing is said. */
  ghost predicate RespectsTypes(m: Interp) {
    && (forall op, v :: Type1(op, ValueType(v)).Some? ==> ValueType(m.op1(op, v)) == Type1(op, ValueType(v)).value)
    && (forall op, v, w :: ValueType(v) == ValueType(w) && Type2(op, ValueType(v)).Some? ==>
          ValueType(m.op2(op, v, w)) == Type2(op, ValueType(v)).value)
    && (forall r, vs, mask, t :: vs != [] && AllTyped(vs, t) && TypeR(r, t).Some? ==>
          ValueType(m.reduce(r, vs, mask)) == TypeR(r, t).value)
  }

  predicate ReducesSomething(n: Node) {
    match n
    case Scalar(_) => true
    case ArrayRef(_, _) => true
    case Node1(_, a) => ReducesSomething(a)
    case Node2(_, l, r) => ReducesSomething(l) && ReducesSomething(r)
    case Reduce(_, a) => ReducesSomething(a) && ValueCount(a) > 0
    case Iif(c, t, f) => ReducesSomething(c) && ReducesSomething(t) && ReducesSomething(f)
    case ValueExtract(a) => ReducesSomething(a)
    case MaskExtract(a) => ReducesSomething(a)
  }

  // ---- soundness ----

  /** What evaluation needs: the tree throws nowhere and every read stays inside. */
  ghost predicate Evaluates(m: Interp, n: Node) {
    WellFormed(n) && Evaluable(n) && InRange(m, n) && ReducesSomething(n)
  }

  lemma LeafTyped(m: Interp, n: Node, t: LelType, i: nat)
    requires (n.Scalar? || n.ArrayRef?) && HasType(n, t) && WellFormed(n) && Reaches(n, i)
    ensures ValueType(Point(m, n, i)) == t
  {
  }

  lemma OperandTypes(m: Interp, n: Node, t: LelType) returns (s: LelType)
    requires n.Node1? && HasType(n, t)
    ensures HasType(n.arg, s) && Type1(n.op1, s) == Some(t)
  {
    s := match n.op1
      case PromoteFloat => Float32
      case RealPart => if t == Float32 then Complex64 else Complex128
      case ImagPart => if t == Float32 then Complex64 else Complex128
      case Arg => if t == Float32 then Complex64 else Complex128
      case ComplexAbs => if t == Float32 then Complex64 else Complex128
      case _ => t;
  }

  lemma PairTypes(n: Node, t: LelType) returns (s: LelType)
    requires n.Node2? && HasType(n, t)
    ensures HasType(n.left, s) && HasType(n.right, s) && Type2(n.op2, s) == Some(t)
  {
    s := match n.op2
      case Binary(b) =>
        if b in {And, Or} then Boolean
        else if b in {Add, Sub, Mul, Div} then t
        else if HasType(n.left, Float32) && HasType(n.right, Float32) then Float32
        else Float64
      case Math2(_) => t
      case FormComplex => if t == Complex64 then Float32 else Float64;
  }

  /** Operands of a node that evaluates evaluate, and are read where the node has an element. */
  lemma OperandsEvaluate(m: Interp, n: Node, i: nat)
    requires Evaluates(m, n) && Reaches(n, i)
    ensures n.Node1? || n.ValueExtract? ==> Evaluates(m, n.arg) && Reaches(n.arg, i)
    ensures n.Node2? ==> Evaluates(m, n.left) && Evaluates(m, n.right) && Reaches(n.left, i) && Reaches(n.right, i)
    ensures n.Reduce? ==> Evaluates(m, n.arg) && ValueCount(n.arg) > 0
    ensures n.Iif? ==> Evaluates(m, n.cond) && Evaluates(m, n.trueVal) && Evaluates(m, n.falseVal) && Reaches(n.cond, i)
                       && Reaches(if Point(m, n.cond, i) == B(true) then n.trueVal else n.falseVal, i)
  {
    hide Point, Elements, MaskCount, Unmasked, HasMask;
    if ShapeOf(n).Shaped? && n.Node2? {
      assert OperandsReach(n.left, n.right, i);
    }
    if ShapeOf(n).Shaped? && n.Iif? {
      assert ChoiceReaches(m, n.cond, n.trueVal, n.falseVal, ResultShape(n), i);
    }
  }

  /** Every value a well-typed tree evaluates to has the tree's type. */
  lemma {:induction false} ValuesHaveType(m: Interp, n: Node, t: LelType, i: nat)
    requires RespectsTypes(m) && HasType(n, t) && Evaluates(m, n) && Reaches(n, i)
    ensures ValueType(Point(m, n, i)) == t
    decreases n
  {
    hide HasType, Evaluates, Reaches, RespectsTypes, Points, MaskPoints;
    match n
    case Scalar(_) => LeafOf(m, n, t, i);
    case ArrayRef(_, _) => LeafOf(m, n, t, i);
    case Node1(op, a) =>
      var s := OperandTypes(m, n, t);
      OperandsEvaluate(m, n, i);
      ValuesHaveType(m, a, s, i);
      Respect1(m, op, Point(m, a, i));
    case Node2(op, l, r) =>
      var s := PairTypes(n, t);
      OperandsEvaluate(m, n, i);
      ValuesHaveType(m, l, s, i);
      ValuesHaveType(m, r, s, i);
      Respect2(m, op, Point(m, l, i), Point(m, r, i));
    case Reduce(r, a) =>
      OperandsEvaluate(m, n, i);
      var s := ReducedType(n, t);
      forall j: nat | j < ValueCount(a) ensures ValueType(Point(m, a, j)) == s {
        Readable(a, j);
        ValuesHaveType(m, a, s, j);
      }
      ReductionTyped(m, n, s, t, i);
    case Iif(c, x, y) =>
      BranchTypes(n, t);
      OperandsEvaluate(m, n, i);
      if Point(m, c, i) == B(true) {
        ValuesHaveType(m, x, t, i);
      } else {
        ValuesHaveType(m, y, t, i);
      }
    case ValueExtract(a) =>
      ExtractTypes(n, t);
      OperandsEvaluate(m, n, i);
      ValuesHaveType(m, a, t, i);
    case MaskExtract(a) => ExtractTypes(n, t);
  }

  lemma LeafOf(m: Interp, n: Node, t: LelType, i: nat)
    requires (n.Scalar? || n.ArrayRef?) && HasType(n, t) && Evaluates(m, n) && Reaches(n, i)
    ensures ValueType(Point(m, n, i)) == t
  {
    LeafTyped(m, n, t, i);
  }

  lemma Respect1(m: Interp, op: Op1, v: Value)
    requires RespectsTypes(m) && Type1(op, ValueType(v)).Some?
    ensures ValueType(m.op1(op, v)) == Type1(op, ValueType(v)).value
  {
  }

  lemma Respect2(m: Interp, op: Op2, v: Value, w: Value)
    requires RespectsTypes(m) && ValueType(v) == ValueType(w) && Type2(op, ValueType(v)).Some?
    ensures ValueType(m.op2(op, v, w)) == Type2(op, ValueType(v)).value
  {
  }

  lemma Readable(n: Node, j: nat)
    requires j < ValueCount(n)
    ensures Reaches(n, j)
  {
  }

  lemma ReducedType(n: Node, t: LelType) returns (s: LelType)
    requires n.Reduce? && HasType(n, t)
    ensures HasType(n.arg, s) && TypeR(n.r, s) == Some(t)
  {
    s := if n.r in {Ntrue, Nfalse, Any, All} then Boolean else t;
  }

  lemma ReductionTyped(m: Interp, n: Node, s: LelType, t: LelType, i: nat)
    requires RespectsTypes(m) && n.Reduce? && TypeR(n.r, s) == Some(t) && ValueCount(n.arg) > 0
    requires forall j: nat :: j < ValueCount(n.arg) ==> ValueType(Point(m, n.arg, j)) == s
    ensures ValueType(Point(m, n, i)) == t
  {
    hide ValueCount, TypeR, MaskPoints;
    assert AllTyped(Points(m, n.arg), s);
  }

  lemma BranchTypes(n: Node, t: LelType)
    requires n.Iif? && HasType(n, t)
    ensures HasType(n.trueVal, t) && HasType(n.falseVal, t)
  {
  }

  lemma ExtractTypes(n: Node, t: LelType)
    requires HasType(n, t)
    ensures n.ValueExtract? ==> HasType(n.arg, t)
    ensures n.MaskExtract? ==> t == Boolean
  {
  }

  /** Whatever text is accepted, the values of the tree, where it evaluates, have the type it declares. */
  lemma AcceptedValuesTyped(m: Interp, ctx: Context, s: string, i: nat)
    requires TypedSymbols(ctx) && RespectsTypes(m) && ParseAll(ctx, s).Some?
    requires var n := ParseAll(ctx, s).value.node; Evaluates(m, n) && Reaches(n, i)
    ensures var n := ParseAll(ctx, s).value; ValueType(Point(m, n.node, i)) == n.kind
  {
    hide ParseAll, TypedSymbols, RespectsTypes, Evaluates, Reaches, Point, HasType;
    AcceptedIsTyped(ctx, s);
    ValuesHaveType(m, ParseAll(ctx, s).value.node, ParseAll(ctx, s).value.kind, i);
  }
}
