/** Expression trees of src/lattice_expr.cpp and their meaning element by element. */
module LelNodes {
  import opened Wrappers
  import opened LatticeShape
  import opened LatticeArray

  datatype LelType = Float32 | Float64 | Complex64 | Complex128 | Boolean

  datatype Value =
    | F(x: real)
    | D(x: real)
    | C(re: real, im: real)
    | Z(re: real, im: real)
    | B(b: bool)

  datatype BinaryOp = Add | Sub | Mul | Div | Eq | Ne | Gt | Ge | Lt | Le | And | Or

  datatype Func1 = Sin | Cos | Tan | Asin | Acos | Atan | Exp | Log | Log10 | Sqrt | Abs | Sign | Round | Ceil | Floor
  datatype Func2 = Atan2 | Pow | Fmod | Min2 | Max2
  datatype Reduction = Min | Max | Sum | Mean | Median | Variance | Stddev | Ntrue | Nfalse | Any | All

  /** Operations on one element. */
  datatype Op1 = Negate | LogicalNot | Identity | Math1(f: Func1) | PromoteFloat | RealPart | ImagPart | Conj | Arg | ComplexAbs

  /** Operations on two elements. */
  datatype Op2 = Binary(op: BinaryOp) | Math2(f: Func2) | FormComplex

  /** The scalar functions; their content is not part of this model. */
  datatype Interp = Interp(
    op1: (Op1, Value) -> Value,
    op2: (Op2, Value, Value) -> Value,
    reduce: (Reduction, seq<Value>, Option<seq<bool>>) -> Value)

  type Mask = Option<Lattice<bool>>

  datatype Node =
    | Scalar(v: Value)
    | ArrayRef(data: Lattice<Value>, mask: Mask)
    | Node1(op1: Op1, arg: Node)
    | Node2(op2: Op2, left: Node, right: Node)
    | Reduce(r: Reduction, arg: Node)
    | Iif(cond: Node, trueVal: Node, falseVal: Node)
    | ValueExtract(arg: Node)
    | MaskExtract(arg: Node)

  datatype LelResult = LelResult(values: Lattice<Value>, mask: Mask)

  // ---- shapes ----

  /** What shape() gives: an exception, no shape, or a shape. */
  datatype ShapeResult = Mismatch | Shapeless | Shaped(shape: IPosition)

  function Join(a: ShapeResult, b: ShapeResult): ShapeResult {
    match (a, b)
    case (Mismatch, _) => Mismatch
    case (_, Mismatch) => Mismatch
    case (Shapeless, _) => b
    case (_, Shapeless) => a
    case (Shaped(x), Shaped(y)) => if x == y then a else Mismatch
  }

  /** The conditional takes the first shape available and compares nothing. */
  function First(a: ShapeResult, b: ShapeResult, c: ShapeResult): ShapeResult {
    if a.Mismatch? || b.Mismatch? || c.Mismatch? then Mismatch
    else if a.Shaped? then a
    else if b.Shaped? then b
    else c
  }

  function ShapeOf(n: Node): ShapeResult {
    match n
    case Scalar(_) => Shapeless
    case ArrayRef(data, _) => Shaped(data.shape)
    case Node1(_, a) => ShapeOf(a)
    case Node2(_, l, r) => Join(ShapeOf(l), ShapeOf(r))
    case Reduce(_, _) => Shapeless
    case Iif(c, t, f) => First(ShapeOf(c), ShapeOf(t), ShapeOf(f))
    case ValueExtract(a) => ShapeOf(a)
    case MaskExtract(a) => ShapeOf(a)
  }

  /** eval() throws nowhere in the tree, reduced operands included. */
  predicate Evaluable(n: Node) {
    !ShapeOf(n).Mismatch? &&
    match n
    case Scalar(_) => true
    case ArrayRef(_, _) => true
    case Node1(_, a) => Evaluable(a)
    case Node2(_, l, r) => Evaluable(l) && Evaluable(r)
    case Reduce(_, a) => Evaluable(a)
    case Iif(c, t, f) => Evaluable(c) && Evaluable(t) && Evaluable(f)
    case ValueExtract(a) => Evaluable(a)
    case MaskExtract(a) => Evaluable(a)
  }

  /** Leaves are arrays; a mask may have any shape, as the source checks none. */
  predicate WellFormed(n: Node) {
    match n
    case Scalar(_) => true
    case ArrayRef(data, mask) => ValidLattice(data) && (mask.Some? ==> ValidLattice(mask.value))
    case Node1(_, a) => WellFormed(a)
    case Node2(_, l, r) => WellFormed(l) && WellFormed(r)
    case Reduce(_, a) => WellFormed(a)
    case Iif(c, t, f) => WellFormed(c) && WellFormed(t) && WellFormed(f)
    case ValueExtract(a) => WellFormed(a)
    case MaskExtract(a) => WellFormed(a)
  }

  // ---- the arrays a tree evaluates to ----

  function Elements(shape: IPosition): (k: nat) {
    if NonNegative(shape) then ProductNonNegative(shape); Product(shape) else 0
  }

  /** combine_masks gives a lone mask unchanged, whatever its shape. */
  function CombinedShape(a: Option<IPosition>, b: Option<IPosition>, shape: IPosition): Option<IPosition> {
    if a.Some? && b.Some? then Some(shape) else if a.Some? then a else b
  }

  function MaskShape(n: Node): Option<IPosition> {
    match n
    case Scalar(_) => None
    case ArrayRef(_, mask) => if mask.Some? then Some(mask.value.shape) else None
    case Node1(_, a) => MaskShape(a)
    case Node2(_, l, r) => CombinedShape(MaskShape(l), MaskShape(r), ResultShape(n))
    case Reduce(_, _) => None
    case Iif(c, t, f) => CombinedShape(MaskShape(c), CombinedShape(MaskShape(t), MaskShape(f), ResultShape(n)), ResultShape(n))
    case ValueExtract(_) => None
    case MaskExtract(_) => None
  }

  /** The shape that shape() announces; scalars come as one element. */
  function ResultShape(n: Node): IPosition {
    if ShapeOf(n).Shaped? then ShapeOf(n).shape else [1]
  }

  /** The shape of the values eval() gives: the announced one, except behind mask(). */
  function ValueShape(n: Node): IPosition {
    match n
    case Node1(_, a) => ValueShape(a)
    case ValueExtract(a) => ValueShape(a)
    case MaskExtract(a) => if MaskShape(a).Some? then MaskShape(a).value else ValueShape(a)
    case _ => ResultShape(n)
  }

  predicate HasMask(n: Node) {
    MaskShape(n).Some?
  }

  function ValueCount(n: Node): nat {
    Elements(ValueShape(n))
  }

  function MaskCount(n: Node): nat {
    if HasMask(n) then Elements(MaskShape(n).value) else 0
  }

  // ---- the pointwise meaning ----

  /** The value at flat element i; a scalar has the same value everywhere. */
  function Point(m: Interp, n: Node, i: nat): Value
    decreases n, 0
  {
    match n
    case Scalar(v) => v
    case ArrayRef(data, _) => if i < |data.flat| then data.flat[i] else B(false)
    case Node1(op, a) => m.op1(op, Point(m, a, i))
    case Node2(op, l, r) => m.op2(op, Point(m, l, i), Point(m, r, i))
    case Reduce(r, a) => m.reduce(r, Points(m, a), if HasMask(a) then Some(MaskPoints(a)) else None)
    case Iif(c, t, f) => if Point(m, c, i) == B(true) then Point(m, t, i) else Point(m, f, i)
    case ValueExtract(a) => Point(m, a, i)
    case MaskExtract(a) => B(Unmasked(a, i))
  }

  function Points(m: Interp, n: Node): (s: seq<Value>)
    ensures |s| == ValueCount(n)
    decreases n, 1
  {
    seq(ValueCount(n), i requires 0 <= i < ValueCount(n) => Point(m, n, i))
  }

  /** Whether every mask that contributes to element i is true there. */
  predicate Unmasked(n: Node, i: nat) {
    match n
    case Scalar(_) => true
    case ArrayRef(_, mask) => mask.Some? && i < |mask.value.flat| ==> mask.value.flat[i]
    case Node1(_, a) => Unmasked(a, i)
    case Node2(_, l, r) => Unmasked(l, i) && Unmasked(r, i)
    case Reduce(_, _) => true
    case Iif(c, t, f) => Unmasked(c, i) && Unmasked(t, i) && Unmasked(f, i)
    case ValueExtract(_) => true
    case MaskExtract(_) => true
  }

  function MaskPoints(n: Node): (s: seq<bool>)
    ensures |s| == MaskCount(n)
  {
    seq(MaskCount(n), i requires 0 <= i < MaskCount(n) => Unmasked(n, i))
  }

  // ---- which reads stay inside the arrays ----

  /** Element i of an operand can be read; a scalar is broadcast to whatever is needed. */
  predicate Reaches(n: Node, i: nat) {
    ShapeOf(n).Shapeless? || i < ValueCount(n)
  }

  /** The loop of combine_masks reads the second of two masks only where the first is true. */
  predicate MasksReach(hasA: bool, countA: nat, openA: bool, hasB: bool, countB: nat, i: nat) {
    hasA && hasB ==> i < countA && (openA ==> i < countB)
  }

  predicate OperandsReach(l: Node, r: Node, i: nat) {
    && Reaches(l, i) && Reaches(r, i)
    && MasksReach(HasMask(l), MaskCount(l), Unmasked(l, i), HasMask(r), MaskCount(r), i)
  }

  /** Elements of the combined mask of the two branches of a conditional. */
  function BranchMaskCount(t: Node, f: Node, shape: IPosition): nat {
    var s := CombinedShape(MaskShape(t), MaskShape(f), shape);
    if s.Some? then Elements(s.value) else 0
  }

  predicate OuterMasksReach(c: Node, t: Node, f: Node, shape: IPosition, i: nat) {
    MasksReach(HasMask(c), MaskCount(c), Unmasked(c, i), HasMask(t) || HasMask(f), BranchMaskCount(t, f, shape), i)
  }

  /** At element i the conditional reads the condition and the branch it selects, and the masks. */
  predicate ChoiceReaches(m: Interp, c: Node, t: Node, f: Node, shape: IPosition, i: nat) {
    && Reaches(c, i) && Reaches(if Point(m, c, i) == B(true) then t else f, i)
    && MasksReach(HasMask(t), MaskCount(t), Unmasked(t, i), HasMask(f), MaskCount(f), i)
    && OuterMasksReach(c, t, f, shape, i)
  }

  /** any() and all() stop at the first element that decides. */
  predicate Decides(m: Interp, r: Reduction, a: Node, j: nat) {
    (r == Any || r == All) && Unmasked(a, j) && (Point(m, a, j) == B(true) <==> r == Any)
  }

  predicate ReductionReaches(m: Interp, r: Reduction, a: Node) {
    HasMask(a) && MaskCount(a) < ValueCount(a) ==> exists j: nat :: j < MaskCount(a) && Decides(m, r, a, j)
  }

  /** Every read eval() comes to stays inside its array; operands are evaluated from left to right. */
  predicate InRange(m: Interp, n: Node) {
    match n
    case Scalar(_) => true
    case ArrayRef(_, _) => true
    case Node1(_, a) => InRange(m, a)
    case Node2(_, l, r) =>
      && InRange(m, l) && (Evaluable(l) ==> InRange(m, r))
      && (Evaluable(n) && ShapeOf(n).Shaped? ==> forall i: nat :: i < Elements(ResultShape(n)) ==> OperandsReach(l, r, i))
    case Reduce(r, a) => InRange(m, a) && (Evaluable(a) ==> ReductionReaches(m, r, a))
    case Iif(c, t, f) =>
      && InRange(m, c) && (Evaluable(c) ==> InRange(m, t) && (Evaluable(t) ==> InRange(m, f)))
      && (Evaluable(n) && ShapeOf(n).Shaped? ==>
            forall i: nat :: i < Elements(ResultShape(n)) ==> ChoiceReaches(m, c, t, f, ResultShape(n), i))
    case ValueExtract(a) => InRange(m, a)
    case MaskExtract(a) => InRange(m, a)
  }

  // ---- sizes ----

  lemma {:induction false} ShapesNonNegative(n: Node)
    requires WellFormed(n)
    ensures ShapeOf(n).Shaped? ==> NonNegative(ShapeOf(n).shape)
    ensures NonNegative(ResultShape(n)) && NonNegative(ValueShape(n))
    ensures HasMask(n) ==> NonNegative(MaskShape(n).value)
  {
    match n
    case Scalar(_) =>
    case ArrayRef(_, _) =>
    case Node1(_, a) => ShapesNonNegative(a);
    case Node2(_, l, r) => ShapesNonNegative(l); ShapesNonNegative(r);
    case Reduce(_, a) => ShapesNonNegative(a);
    case Iif(c, t, f) => ShapesNonNegative(c); ShapesNonNegative(t); ShapesNonNegative(f);
    case ValueExtract(a) => ShapesNonNegative(a);
    case MaskExtract(a) => ShapesNonNegative(a);
  }

  /** Scalars are single elements and never carry a mask. */
  lemma {:induction false} ScalarHasNoMask(n: Node)
    requires ShapeOf(n).Shapeless?
    ensures !HasMask(n) && ValueShape(n) == [1] && ValueCount(n) == 1
    ensures forall i :: Unmasked(n, i)
  {
    assert Product([1]) == 1 * Product([]);
    match n
    case Node1(_, a) => ScalarHasNoMask(a);
    case Node2(_, l, r) => ScalarHasNoMask(l); ScalarHasNoMask(r);
    case Iif(c, t, f) => ScalarHasNoMask(c); ScalarHasNoMask(t); ScalarHasNoMask(f);
    case ValueExtract(a) => ScalarHasNoMask(a);
    case MaskExtract(a) => ScalarHasNoMask(a);
    case _ =>
  }

  lemma {:induction false} NoMaskNothingMasked(n: Node)
    requires !HasMask(n)
    ensures forall i :: Unmasked(n, i)
  {
    match n
    case Node1(_, a) => NoMaskNothingMasked(a);
    case Node2(_, l, r) => NoMaskNothingMasked(l); NoMaskNothingMasked(r);
    case Iif(c, t, f) => NoMaskNothingMasked(c); NoMaskNothingMasked(t); NoMaskNothingMasked(f);
    case _ =>
  }

  /** A scalar has one value, whichever element is asked for: broadcasting loses nothing. */
  lemma {:induction false} ScalarPoint(m: Interp, n: Node, i: nat)
    requires ShapeOf(n).Shapeless?
    ensures Point(m, n, i) == Point(m, n, 0)
  {
    hide Points, MaskPoints, MaskShape;
    match n
    case Node1(_, a) => ScalarPoint(m, a, i);
    case Node2(_, l, r) => ScalarPoint(m, l, i); ScalarPoint(m, r, i);
    case Iif(c, t, f) => ScalarPoint(m, c, i); ScalarPoint(m, t, i); ScalarPoint(m, f, i);
    case ValueExtract(a) => ScalarPoint(m, a, i);
    case MaskExtract(a) => ScalarHasNoMask(a);
    case _ =>
  }

  // ---- trees over one shape ----

  /** Every lattice in the tree, and every mask of one, has the given shape. */
  predicate LeavesHave(n: Node, shape: IPosition) {
    match n
    case Scalar(_) => true
    case ArrayRef(data, mask) => data.shape == shape && (mask.Some? ==> mask.value.shape == shape)
    case Node1(_, a) => LeavesHave(a, shape)
    case Node2(_, l, r) => LeavesHave(l, shape) && LeavesHave(r, shape)
    case Reduce(_, a) => LeavesHave(a, shape)
    case Iif(c, t, f) => LeavesHave(c, shape) && LeavesHave(t, shape) && LeavesHave(f, shape)
    case ValueExtract(a) => LeavesHave(a, shape)
    case MaskExtract(a) => LeavesHave(a, shape)
  }

  predicate HasShape(n: Node, shape: IPosition) {
    && Evaluable(n)
    && if ShapeOf(n) == Shapeless then ValueShape(n) == [1] && !HasMask(n)
       else ShapeOf(n) == Shaped(shape) && ValueShape(n) == shape && (HasMask(n) ==> MaskShape(n) == Some(shape))
  }

  lemma {:induction false} OneShapeShapes(n: Node, shape: IPosition)
    requires LeavesHave(n, shape)
    ensures HasShape(n, shape)
  {
    match n
    case Scalar(_) =>
    case ArrayRef(_, _) =>
    case Node1(_, a) => OneShapeShapes(a, shape);
    case Node2(_, l, r) => OneShapeShapes(l, shape); OneShapeShapes(r, shape);
    case Reduce(_, a) => OneShapeShapes(a, shape);
    case Iif(c, t, f) => OneShapeShapes(c, shape); OneShapeShapes(t, shape); OneShapeShapes(f, shape);
    case ValueExtract(a) => OneShapeShapes(a, shape);
    case MaskExtract(a) => OneShapeShapes(a, shape);
  }

  /** A tree over lattices of one shape always evaluates inside its arrays, to that shape or to a scalar. */
  lemma {:induction false} OneShapeEvaluates(m: Interp, n: Node, shape: IPosition)
    requires LeavesHave(n, shape)
    ensures HasShape(n, shape) && InRange(m, n)
  {
    OneShapeShapes(n, shape);
    match n
    case Scalar(_) =>
    case ArrayRef(_, _) =>
    case Node1(_, a) => OneShapeEvaluates(m, a, shape);
    case Node2(_, l, r) => OneShapeEvaluates(m, l, shape); OneShapeEvaluates(m, r, shape);
    case Reduce(_, a) => OneShapeEvaluates(m, a, shape);
    case Iif(c, t, f) => OneShapeEvaluates(m, c, shape); OneShapeEvaluates(m, t, shape); OneShapeEvaluates(m, f, shape);
    case ValueExtract(a) => OneShapeEvaluates(m, a, shape);
    case MaskExtract(a) => OneShapeEvaluates(m, a, shape);
  }

  // ---- a condition on the sizes alone ----

  predicate Covers(part: Node, shape: IPosition) {
    ShapeOf(part).Shaped? ==> ValueCount(part) >= Elements(shape)
  }

  /** Masks are as long as their lattices, and no shaped operand of a conditional is smaller than its first shape. */
  predicate Covered(n: Node) {
    match n
    case Scalar(_) => true
    case ArrayRef(data, mask) => mask.Some? ==> Elements(mask.value.shape) >= Elements(data.shape)
    case Node1(_, a) => Covered(a)
    case Node2(_, l, r) => Covered(l) && Covered(r)
    case Reduce(_, a) => Covered(a)
    case Iif(c, t, f) =>
      && Covered(c) && Covered(t) && Covered(f)
      && Covers(c, ResultShape(n)) && Covers(t, ResultShape(n)) && Covers(f, ResultShape(n))
    case ValueExtract(a) => Covered(a)
    case MaskExtract(a) => Covered(a)
  }

  lemma {:induction false} CoveredSizes(n: Node)
    requires Covered(n) && Evaluable(n)
    ensures ValueCount(n) >= Elements(ResultShape(n))
    ensures HasMask(n) ==> MaskCount(n) >= ValueCount(n)
    decreases n, 0
  {
    if ShapeOf(n).Shapeless? {
      ScalarHasNoMask(n);
    } else {
      hide Elements;
      match n
      case ArrayRef(_, _) =>
      case Node1(_, a) => CoveredSizes(a);
      case Node2(_, l, r) => CoveredOperand(l); CoveredOperand(r);
      case Iif(c, t, f) => CoveredOperand(c); CoveredOperand(t); CoveredOperand(f);
      case ValueExtract(a) => CoveredSizes(a);
      case MaskExtract(a) => CoveredSizes(a);
    }
  }

  lemma {:induction false} CoveredOperand(n: Node)
    requires Covered(n) && Evaluable(n)
    ensures ShapeOf(n).Shapeless? ==> !HasMask(n)
    ensures ValueCount(n) >= Elements(ResultShape(n))
    ensures HasMask(n) ==> MaskCount(n) >= ValueCount(n)
    decreases n, 1
  {
    if ShapeOf(n).Shapeless? {
      ScalarHasNoMask(n);
    }
    CoveredSizes(n);
  }

  /** Under that condition every read stays inside its array, whatever the scalar functions give. */
  lemma {:induction false} CoveredInRange(m: Interp, n: Node)
    requires Covered(n)
    ensures InRange(m, n)
  {
    hide Elements;
    match n
    case Scalar(_) =>
    case ArrayRef(_, _) =>
    case Node1(_, a) => CoveredInRange(m, a);
    case Node2(_, l, r) =>
      CoveredInRange(m, l);
      CoveredInRange(m, r);
      if Evaluable(n) {
        CoveredOperand(l);
        CoveredOperand(r);
      }
    case Reduce(_, a) =>
      CoveredInRange(m, a);
      if Evaluable(a) {
        CoveredOperand(a);
      }
    case Iif(c, t, f) =>
      CoveredInRange(m, c);
      CoveredInRange(m, t);
      CoveredInRange(m, f);
      if Evaluable(n) {
        CoveredOperand(c);
        CoveredOperand(t);
        CoveredOperand(f);
      }
    case ValueExtract(a) => CoveredInRange(m, a);
    case MaskExtract(a) => CoveredInRange(m, a);
  }
}
