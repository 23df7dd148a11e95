/** The eval methods of src/lattice_expr.cpp: arrays built element by element, against the pointwise meaning. */
module LelEval {
  import opened Wrappers
  import opened LatticeShape
  import opened LatticeArray
  import opened LelNodes

  /** How an evaluation ends. A read past the end of an array is undefined in the source; here it is an outcome. */
  datatype Outcome = Threw | Overrun | Done(result: LelResult)

  /** The array and mask a tree stands for. */
  function Meaning(m: Interp, n: Node): (r: LelResult) {
    LelResult(Lattice(ValueShape(n), Points(m, n)),
              if HasMask(n) then Some(Lattice(MaskShape(n).value, MaskPoints(n))) else None)
  }

  function Expected(m: Interp, n: Node): Outcome {
    if !InRange(m, n) then Overrun else if Evaluable(n) then Done(Meaning(m, n)) else Threw
  }

  // ---- masks ----

  /** The masks of the array leaves that contribute element by element. */
  function LeafMasks(n: Node): seq<Lattice<bool>> {
    match n
    case Scalar(_) => []
    case ArrayRef(_, mask) => if mask.Some? then [mask.value] else []
    case Node1(_, a) => LeafMasks(a)
    case Node2(_, l, r) => LeafMasks(l) + LeafMasks(r)
    case Reduce(_, _) => []
    case Iif(c, t, f) => LeafMasks(c) + LeafMasks(t) + LeafMasks(f)
    case ValueExtract(_) => []
    case MaskExtract(_) => []
  }

  /** The result is masked out exactly where some leaf mask is; it has a mask exactly if some leaf has one. */
  lemma {:induction false} MaskIsConjunction(n: Node, i: nat)
    ensures HasMask(n) <==> LeafMasks(n) != []
    ensures Unmasked(n, i) <==> AllTrue(LeafMasks(n), i)
  {
    hide AllTrue;
    match n
    case ArrayRef(_, mask) => OneMask(mask, i);
    case Scalar(_) => OneMask(None, i);
    case Reduce(_, _) => OneMask(None, i);
    case ValueExtract(_) => OneMask(None, i);
    case MaskExtract(_) => OneMask(None, i);
    case Node1(_, a) => MaskIsConjunction(a, i);
    case Node2(_, l, r) =>
      MaskIsConjunction(l, i);
      MaskIsConjunction(r, i);
      ConjunctionOfTwo(LeafMasks(l), LeafMasks(r), i);
    case Iif(c, t, f) =>
      MaskIsConjunction(c, i);
      MaskIsConjunction(t, i);
      MaskIsConjunction(f, i);
      ConjunctionOfTwo(LeafMasks(c), LeafMasks(t), i);
      ConjunctionOfTwo(LeafMasks(c) + LeafMasks(t), LeafMasks(f), i);
  }

  lemma OneMask(mask: Mask, i: nat)
    ensures AllTrue(if mask.Some? then [mask.value] else [], i) <==> (mask.Some? && i < |mask.value.flat| ==> mask.value.flat[i])
  {
    if mask.Some? {
      assert [mask.value][0] == mask.value;
    }
  }

  predicate AllTrue(masks: seq<Lattice<bool>>, i: nat) {
    forall k :: 0 <= k < |masks| && i < |masks[k].flat| ==> masks[k].flat[i]
  }

  lemma ConjunctionOfTwo(a: seq<Lattice<bool>>, b: seq<Lattice<bool>>, i: nat)
    ensures AllTrue(a + b, i) <==> AllTrue(a, i) && AllTrue(b, i)
  {
    if AllTrue(a + b, i) {
      forall k | 0 <= k < |a| && i < |a[k].flat| ensures a[k].flat[i] {
        assert (a + b)[k] == a[k];
      }
      forall k | 0 <= k < |b| && i < |b[k].flat| ensures b[k].flat[i] {
        assert (a + b)[|a| + k] == b[k];
      }
    }
  }

  /** The elements the operand's masks leave in. */
  ghost function Open(n: Node): iset<nat> {
    iset i: nat | Unmasked(n, i)
  }

  /** The mask, as far as it goes, is true exactly on the set; without a mask the set is everything. */
  ghost predicate Shows(mask: Mask, open: iset<nat>) {
    if mask.Some? then forall i: nat :: i < |mask.value.flat| ==> (mask.value.flat[i] <==> i in open)
    else forall i: nat :: i in open
  }

  ghost function MaskLength(mask: Mask): nat {
    if mask.Some? then |mask.value.flat| else 0
  }

  ghost predicate ValidMask(mask: Mask) {
    mask.Some? ==> ValidLattice(mask.value)
  }

  /** combine_masks at element i. */
  ghost predicate Meet(a: Mask, openA: iset<nat>, b: Mask, i: nat) {
    MasksReach(a.Some?, MaskLength(a), i in openA, b.Some?, MaskLength(b), i)
  }

  function ShapeOfMask(mask: Mask): Option<IPosition> {
    if mask.Some? then Some(mask.value.shape) else None
  }

  /** combine_masks: false when a read would leave a mask. */
  method CombineMasks(a: Mask, b: Mask, shape: IPosition, ghost openA: iset<nat>, ghost openB: iset<nat>)
    returns (ok: bool, mask: Mask)
    requires NonNegative(shape) && ValidMask(a) && ValidMask(b) && Shows(a, openA) && Shows(b, openB)
    ensures ok <==> forall i: nat :: i < Elements(shape) ==> Meet(a, openA, b, i)
    ensures ok ==> ValidMask(mask) && Shows(mask, openA * openB)
    ensures ok ==> ShapeOfMask(mask) == CombinedShape(ShapeOfMask(a), ShapeOfMask(b), shape)
  {
    if a.None? || b.None? {
      return true, if a.Some? then a else b;
    }
    var out := new LatticeArray(shape, false);
    var i := 0;
    while i < out.storage.Length
      invariant i <= out.storage.Length
      invariant forall k: nat :: k < i ==> Meet(a, openA, b, k)
      invariant forall k: nat :: k < i ==> (out.storage[k] <==> k in openA * openB)
    {
      ghost var before := out.storage[..];
      if i >= |a.value.flat| || (a.value.flat[i] && i >= |b.value.flat|) {
        assert !Meet(a, openA, b, i);
        return false, None;
      }
      out.PutFlat(i, a.value.flat[i] && b.value.flat[i]);
      assert forall k :: 0 <= k < i ==> out.storage[k] == before[k];
      i := i + 1;
    }
    var c := out.Contents();
    return true, Some(c);
  }

  // ---- the element-wise loops ----

  /** broadcast */
  method Broadcast(scalar: Lattice<Value>, shape: IPosition) returns (a: Lattice<Value>)
    requires |scalar.flat| > 0 && NonNegative(shape)
    ensures a == Filled(shape, scalar.flat[0])
  {
    var out := new LatticeArray(shape, scalar.flat[0]);
    a := out.Contents();
  }

  method Map1(m: Interp, op: Op1, a: Lattice<Value>) returns (v: Lattice<Value>)
    requires ValidLattice(a)
    ensures v == Lattice(a.shape, seq(|a.flat|, i requires 0 <= i < |a.flat| => m.op1(op, a.flat[i])))
  {
    var out := new LatticeArray(a.shape, B(false));
    var i := 0;
    while i < out.storage.Length
      invariant i <= out.storage.Length
      invariant forall k :: 0 <= k < i ==> out.storage[k] == m.op1(op, a.flat[k])
    {
      ghost var before := out.storage[..];
      out.PutFlat(i, m.op1(op, a.flat[i]));
      assert forall k :: 0 <= k < i ==> out.storage[k] == before[k];
      i := i + 1;
    }
    v := out.Contents();
  }

  /** Nothing when a read would leave an array. */
  method Map2(m: Interp, op: Op2, a: Lattice<Value>, b: Lattice<Value>, shape: IPosition) returns (v: Option<Lattice<Value>>)
    requires NonNegative(shape)
    ensures v.Some? <==> Elements(shape) <= |a.flat| && Elements(shape) <= |b.flat|
    ensures v.Some? ==> v.value.shape == shape && |v.value.flat| == Elements(shape)
    ensures v.Some? ==> forall i :: 0 <= i < Elements(shape) ==> v.value.flat[i] == m.op2(op, a.flat[i], b.flat[i])
  {
    var out := new LatticeArray(shape, B(false));
    var i := 0;
    while i < out.storage.Length
      invariant i <= out.storage.Length && i <= |a.flat| && i <= |b.flat|
      invariant forall k :: 0 <= k < i ==> out.storage[k] == m.op2(op, a.flat[k], b.flat[k])
    {
      ghost var before := out.storage[..];
      if i >= |a.flat| || i >= |b.flat| {
        return None;
      }
      out.PutFlat(i, m.op2(op, a.flat[i], b.flat[i]));
      assert forall k :: 0 <= k < i ==> out.storage[k] == before[k];
      i := i + 1;
    }
    var c := out.Contents();
    return Some(c);
  }

  predicate ChoiceIn(c: Lattice<Value>, t: Lattice<Value>, f: Lattice<Value>, i: nat) {
    i < |c.flat| && i < if c.flat[i] == B(true) then |t.flat| else |f.flat|
  }

  function Choice(c: Lattice<Value>, t: Lattice<Value>, f: Lattice<Value>, i: nat): Value
    requires ChoiceIn(c, t, f, i)
  {
    if c.flat[i] == B(true) then t.flat[i] else f.flat[i]
  }

  /** Nothing when a read of the condition or of the branch it selects would leave its array. */
  method Choose(c: Lattice<Value>, t: Lattice<Value>, f: Lattice<Value>, shape: IPosition) returns (v: Option<Lattice<Value>>)
    requires NonNegative(shape)
    ensures v.Some? <==> forall i :: 0 <= i < Elements(shape) ==> ChoiceIn(c, t, f, i)
    ensures v.Some? ==> v.value.shape == shape && |v.value.flat| == Elements(shape)
    ensures v.Some? ==> forall i :: 0 <= i < Elements(shape) ==> v.value.flat[i] == Choice(c, t, f, i)
  {
    var out := new LatticeArray(shape, B(false));
    var i := 0;
    while i < out.storage.Length
      invariant i <= out.storage.Length
      invariant forall k :: 0 <= k < i ==> ChoiceIn(c, t, f, k) && out.storage[k] == Choice(c, t, f, k)
    {
      ghost var before := out.storage[..];
      if i >= |c.flat| {
        assert !ChoiceIn(c, t, f, i);
        return None;
      }
      if c.flat[i] == B(true) {
        if i >= |t.flat| {
          assert !ChoiceIn(c, t, f, i);
          return None;
        }
        out.PutFlat(i, t.flat[i]);
      } else {
        if i >= |f.flat| {
          assert !ChoiceIn(c, t, f, i);
          return None;
        }
        out.PutFlat(i, f.flat[i]);
      }
      assert forall k :: 0 <= k < i ==> out.storage[k] == before[k];
      i := i + 1;
    }
    var w := out.Contents();
    return Some(w);
  }

  predicate Decided(r: Reduction, values: seq<Value>, mask: seq<bool>, j: nat) {
    (r == Any || r == All) && j < |mask| && j < |values| && mask[j] && (values[j] == B(true) <==> r == Any)
  }

  /** Whether the loop of a reduction stays inside its mask; any and all return from it early. */
  method ReductionStays(r: Reduction, values: seq<Value>, mask: seq<bool>) returns (ok: bool)
    ensures ok <==> (|mask| < |values| ==> exists j: nat :: Decided(r, values, mask, j))
  {
    var i := 0;
    while i < |values|
      invariant i <= |values| && i <= |mask| && forall j: nat :: j < i ==> !Decided(r, values, mask, j)
    {
      if i >= |mask| {
        return false;
      }
      if mask[i] && ((r == Any && values[i] == B(true)) || (r == All && values[i] != B(true))) {
        assert Decided(r, values, mask, i);
        return true;
      }
      i := i + 1;
    }
    return true;
  }

  // ---- results and operands ----

  /** The mask is the one the tree stands for. */
  ghost predicate MaskOf(n: Node, mask: Mask) {
    && ValidMask(mask) && ShapeOfMask(mask) == MaskShape(n) && MaskLength(mask) == MaskCount(n)
    && Shows(mask, Open(n))
  }

  ghost predicate ValuesOf(m: Interp, n: Node, a: Lattice<Value>) {
    forall i :: 0 <= i < |a.flat| ==> a.flat[i] == Point(m, n, i)
  }

  lemma MeaningParts(m: Interp, n: Node)
    requires WellFormed(n)
    ensures var r := Meaning(m, n);
      ValidLattice(r.values) && |r.values.flat| == ValueCount(n) && ValuesOf(m, n, r.values) && MaskOf(n, r.mask)
  {
    hide Point, Unmasked, ValueShape, MaskShape, Product;
    ShapesNonNegative(n);
    if !HasMask(n) {
      NoMaskNothingMasked(n);
    }
  }

  lemma MeaningBy(m: Interp, n: Node, v: Lattice<Value>, mask: Mask)
    requires v.shape == ValueShape(n) && |v.flat| == ValueCount(n) && ValuesOf(m, n, v)
    requires ValidMask(mask) && ShapeOfMask(mask) == MaskShape(n) && Shows(mask, Open(n))
    ensures LelResult(v, mask) == Meaning(m, n)
  {
    hide Point, Unmasked, ValueShape, MaskShape, Product;
    assert v.flat == Points(m, n);
    if mask.Some? {
      assert mask.value.flat == MaskPoints(n);
    }
  }

  lemma ScalarMeaning(m: Interp, n: Node)
    requires ShapeOf(n).Shapeless?
    ensures Meaning(m, n) == LelResult(Lattice([1], [Point(m, n, 0)]), None)
  {
    ScalarHasNoMask(n);
  }

  /** The operand's values reach as far as they can be read. */
  ghost predicate Follows(m: Interp, n: Node, a: Lattice<Value>, mask: Mask, shape: IPosition) {
    && |a.flat| == (if ShapeOf(n).Shapeless? then Elements(shape) else ValueCount(n))
    && ValuesOf(m, n, a) && MaskOf(n, mask)
  }

  /** An operand, broadcast if it is a scalar, and the mask it contributes. */
  method Operand(m: Interp, n: Node, r: LelResult, shape: IPosition) returns (a: Lattice<Value>, mask: Mask)
    requires WellFormed(n) && r == Meaning(m, n) && NonNegative(shape)
    ensures Follows(m, n, a, mask, shape)
  {
    hide Point, Unmasked, WellFormed;
    MeaningParts(m, n);
    if ShapeOf(n).Shapeless? {
      ScalarMeaning(m, n);
      ScalarHasNoMask(n);
      a := Broadcast(r.values, shape);
      mask := None;
      forall i: nat | i < |a.flat| ensures a.flat[i] == Point(m, n, i) {
        ScalarPoint(m, n, i);
      }
    } else {
      a := r.values;
      mask := r.mask;
    }
  }

  lemma ReachesArray(m: Interp, n: Node, a: Lattice<Value>, mask: Mask, shape: IPosition, i: nat)
    requires Follows(m, n, a, mask, shape) && i < Elements(shape)
    ensures Reaches(n, i) <==> i < |a.flat|
  {
  }

  // ---- eval ----

  /**
   * eval(): leaves its arrays, throws for a shape mismatch, or gives the pointwise values of the expression with scalars
   * broadcast and the conjunction of the contributing masks; which of them is decided by InRange and Evaluable.
   */
  method Eval(m: Interp, n: Node) returns (r: Outcome)
    requires WellFormed(n)
    ensures r == Expected(m, n)
    decreases n
  {
    hide Point, Points, MaskPoints, Unmasked, Meaning;
    match n {
      case Scalar(v) =>
        ScalarMeaning(m, n);
        ScalarValue(m, v);
        return Done(LelResult(Lattice([1], [v]), None));
      case ArrayRef(data, mask) =>
        LeafMeaning(m, n);
        return Done(LelResult(data, mask));
      case Node1(op, a) =>
        r := EvalElementwise(m, n, op, a);
      case Node2(op, x, y) =>
        r := EvalBinary(m, n, op, x, y);
      case Reduce(f, a) =>
        r := EvalReduce(m, n, f, a);
      case Iif(c, t, f) =>
        r := EvalIif(m, n, c, t, f);
      case ValueExtract(a) =>
        var ra := Eval(m, a);
        if !ra.Done? {
          return ra;
        }
        ValueMeaning(m, n);
        return Done(LelResult(ra.result.values, None));
      case MaskExtract(a) =>
        r := EvalMask(m, n, a);
    }
  }

  method EvalElementwise(m: Interp, n: Node, op: Op1, a: Node) returns (r: Outcome)
    requires n == Node1(op, a) && WellFormed(n)
    ensures r == Expected(m, n)
    decreases n, 0
  {
    hide Point, Points, MaskPoints, Unmasked, Meaning;
    var ra := Eval(m, a);
    if !ra.Done? {
      return ra;
    }
    MeaningParts(m, a);
    var v := Map1(m, op, ra.result.values);
    ElementwiseMeaning(m, n, ra.result, v);
    return Done(LelResult(v, ra.result.mask));
  }

  lemma ElementwiseMeaning(m: Interp, n: Node, ra: LelResult, v: Lattice<Value>)
    requires n.Node1? && WellFormed(n) && ra == Meaning(m, n.arg)
    requires v == Lattice(ra.values.shape, seq(|ra.values.flat|, i requires 0 <= i < |ra.values.flat| => m.op1(n.op1, ra.values.flat[i])))
    ensures LelResult(v, ra.mask) == Meaning(m, n)
  {
    assert v.flat == Points(m, n);
    assert MaskPoints(n) == MaskPoints(n.arg);
  }

  method EvalBinary(m: Interp, n: Node, op: Op2, x: Node, y: Node) returns (r: Outcome)
    requires n == Node2(op, x, y) && WellFormed(n)
    ensures r == Expected(m, n)
    decreases n, 0
  {
    hide Point, Points, MaskPoints, Unmasked, Meaning, OperandsReach, Follows, Shows, Open, Meet;
    var rx := Eval(m, x);
    if !rx.Done? {
      return rx;
    }
    var ry := Eval(m, y);
    if !ry.Done? {
      return ry;
    }
    var sh := ShapeOf(n);
    if sh.Mismatch? {
      return Threw;
    }
    if sh.Shapeless? {
      ScalarMeaning(m, x);
      ScalarMeaning(m, y);
      ScalarMeaning(m, n);
      BinaryPoint(m, n, 0);
      return Done(LelResult(Lattice([1], [m.op2(op, rx.result.values.flat[0], ry.result.values.flat[0])]), None));
    }
    ShapesNonNegative(n);
    var a, am := Operand(m, x, rx.result, sh.shape);
    var b, bm := Operand(m, y, ry.result, sh.shape);
    FollowingMask(m, x, a, am, sh.shape);
    FollowingMask(m, y, b, bm, sh.shape);
    BinaryReaches(m, n, a, am, b, bm);
    var v := Map2(m, op, a, b, sh.shape);
    if v.None? {
      return Overrun;
    }
    var ok, mask := CombineMasks(am, bm, sh.shape, Open(x), Open(y));
    if !ok {
      return Overrun;
    }
    BinaryMeaning(m, n, a, am, b, bm, v.value, mask);
    return Done(LelResult(v.value, mask));
  }

  lemma FollowingMask(m: Interp, n: Node, a: Lattice<Value>, mask: Mask, shape: IPosition)
    requires Follows(m, n, a, mask, shape)
    ensures ValidMask(mask) && Shows(mask, Open(n))
  {
  }

  lemma BinaryPoint(m: Interp, n: Node, i: nat)
    requires n.Node2?
    ensures Point(m, n, i) == m.op2(n.op2, Point(m, n.left, i), Point(m, n.right, i))
  {
  }

  /** The conditions of the model are the ones the loops meet. */
  lemma BinaryReaches(m: Interp, n: Node, a: Lattice<Value>, am: Mask, b: Lattice<Value>, bm: Mask)
    requires n.Node2? && Evaluable(n) && ShapeOf(n).Shaped? && InRange(m, n.left) && InRange(m, n.right)
    requires Follows(m, n.left, a, am, ResultShape(n)) && Follows(m, n.right, b, bm, ResultShape(n))
    ensures var k := Elements(ResultShape(n));
      InRange(m, n) <==> k <= |a.flat| && k <= |b.flat| && forall i: nat :: i < k ==> Meet(am, Open(n.left), bm, i)
  {
    hide Point, Unmasked, ValueShape, MaskShape, Elements, ValuesOf;
    var k := Elements(ResultShape(n));
    forall i: nat | i < k
      ensures OperandsReach(n.left, n.right, i) <==> i < |a.flat| && i < |b.flat| && Meet(am, Open(n.left), bm, i)
    {
      ReachesArray(m, n.left, a, am, ResultShape(n), i);
      ReachesArray(m, n.right, b, bm, ResultShape(n), i);
    }
    if InRange(m, n) && k > 0 {
      assert OperandsReach(n.left, n.right, k - 1);
    }
  }

  lemma BinaryMeaning(m: Interp, n: Node, a: Lattice<Value>, am: Mask, b: Lattice<Value>, bm: Mask, v: Lattice<Value>, mask: Mask)
    requires n.Node2? && ShapeOf(n).Shaped? && v.shape == ResultShape(n) && |v.flat| == Elements(v.shape)
    requires Follows(m, n.left, a, am, ResultShape(n)) && Follows(m, n.right, b, bm, ResultShape(n))
    requires |v.flat| <= |a.flat| && |v.flat| <= |b.flat|
    requires forall i :: 0 <= i < |v.flat| ==> v.flat[i] == m.op2(n.op2, a.flat[i], b.flat[i])
    requires ValidMask(mask) && Shows(mask, Open(n.left) * Open(n.right))
    requires ShapeOfMask(mask) == CombinedShape(ShapeOfMask(am), ShapeOfMask(bm), ResultShape(n))
    ensures LelResult(v, mask) == Meaning(m, n)
  {
    hide Point, Meaning, Shows;
    forall i | 0 <= i < |v.flat| ensures v.flat[i] == Point(m, n, i) {
      BinaryPoint(m, n, i);
    }
    assert Open(n) == Open(n.left) * Open(n.right);
    MeaningBy(m, n, v, mask);
  }

  method EvalReduce(m: Interp, n: Node, f: Reduction, a: Node) returns (r: Outcome)
    requires n == Reduce(f, a) && WellFormed(n)
    ensures r == Expected(m, n)
    decreases n, 0
  {
    hide Point, Points, MaskPoints, Unmasked, Meaning, ReductionReaches;
    var ra := Eval(m, a);
    if !ra.Done? {
      return ra;
    }
    MeaningParts(m, a);
    var values, mask := ra.result.values.flat, ra.result.mask;
    if mask.Some? {
      ReductionStaysIff(m, n, ra.result);
      var ok := ReductionStays(f, values, mask.value.flat);
      if !ok {
        return Overrun;
      }
    }
    assert InRange(m, n) by {
      if mask.None? {
        UnmaskedReaches(m, n);
      }
    }
    ScalarMeaning(m, n);
    ReduceMeaning(m, n);
    return Done(LelResult(Lattice([1], [m.reduce(f, values, if mask.Some? then Some(mask.value.flat) else None)]), None));
  }

  lemma UnmaskedReaches(m: Interp, n: Node)
    requires n.Reduce? && InRange(m, n.arg) && !HasMask(n.arg)
    ensures InRange(m, n)
  {
  }

  lemma ReductionStaysIff(m: Interp, n: Node, ra: LelResult)
    requires n.Reduce? && WellFormed(n) && ra == Meaning(m, n.arg) && ra.mask.Some? && InRange(m, n.arg) && Evaluable(n.arg)
    ensures InRange(m, n) <==>
      (|ra.mask.value.flat| < |ra.values.flat| ==> exists j: nat :: Decided(n.r, ra.values.flat, ra.mask.value.flat, j))
  {
    hide Point, Unmasked, ValueShape, MaskShape, Meaning;
    var a, values, mask := n.arg, ra.values.flat, ra.mask.value.flat;
    MeaningParts(m, a);
    forall j: nat | j < |mask| && j < |values| ensures Decides(m, n.r, a, j) <==> Decided(n.r, values, mask, j) {
      assert j in Open(a) <==> Unmasked(a, j);
    }
    if |mask| < |values| && exists j: nat :: j < MaskCount(a) && Decides(m, n.r, a, j) {
      var j: nat :| j < MaskCount(a) && Decides(m, n.r, a, j);
      assert Decided(n.r, values, mask, j);
    }
    if |mask| < |values| && exists j: nat :: Decided(n.r, values, mask, j) {
      var j: nat :| Decided(n.r, values, mask, j);
      assert j < MaskCount(a) && Decides(m, n.r, a, j);
    }
  }

  method EvalIif(m: Interp, n: Node, c: Node, t: Node, f: Node) returns (r: Outcome)
    requires n == Iif(c, t, f) && WellFormed(n)
    ensures r == Expected(m, n)
    decreases n, 0
  {
    hide Point, Points, MaskPoints, Unmasked, Meaning, ChoiceReaches, OuterMasksReach, Follows, Shows, Open, Meet, ChoiceIn;
    var rc := Eval(m, c);
    if !rc.Done? {
      return rc;
    }
    var rt := Eval(m, t);
    if !rt.Done? {
      return rt;
    }
    var rf := Eval(m, f);
    if !rf.Done? {
      return rf;
    }
    var sh := ShapeOf(n);
    if sh.Shapeless? {
      ScalarMeaning(m, c);
      ScalarMeaning(m, t);
      ScalarMeaning(m, f);
      ScalarMeaning(m, n);
      IifPoint(m, n, 0);
      return Done(LelResult(Lattice([1],
        [if rc.result.values.flat[0] == B(true) then rt.result.values.flat[0] else rf.result.values.flat[0]]), None));
    }
    ShapesNonNegative(n);
    var ca, cm := Operand(m, c, rc.result, sh.shape);
    var ta, tm := Operand(m, t, rt.result, sh.shape);
    var fa, fm := Operand(m, f, rf.result, sh.shape);
    FollowingMask(m, c, ca, cm, sh.shape);
    FollowingMask(m, t, ta, tm, sh.shape);
    FollowingMask(m, f, fa, fm, sh.shape);
    IifReaches(m, n, ca, cm, ta, tm, fa, fm);
    var v := Choose(ca, ta, fa, sh.shape);
    if v.None? {
      return Overrun;
    }
    var okInner, inner := CombineMasks(tm, fm, sh.shape, Open(t), Open(f));
    if !okInner {
      return Overrun;
    }
    IifOuterReaches(m, n, ca, cm, ta, tm, fa, fm, inner);
    var ok, mask := CombineMasks(cm, inner, sh.shape, Open(c), Open(t) * Open(f));
    if !ok {
      return Overrun;
    }
    IifMeaning(m, n, ca, cm, ta, tm, fa, fm, inner, v.value, mask);
    return Done(LelResult(v.value, mask));
  }

  lemma IifPoint(m: Interp, n: Node, i: nat)
    requires n.Iif?
    ensures Point(m, n, i) == if Point(m, n.cond, i) == B(true) then Point(m, n.trueVal, i) else Point(m, n.falseVal, i)
  {
  }

  ghost predicate FollowAll(m: Interp, n: Node, c: Lattice<Value>, cm: Mask, t: Lattice<Value>, tm: Mask, f: Lattice<Value>, fm: Mask)
    requires n.Iif?
  {
    && Follows(m, n.cond, c, cm, ResultShape(n))
    && Follows(m, n.trueVal, t, tm, ResultShape(n))
    && Follows(m, n.falseVal, f, fm, ResultShape(n))
  }

  lemma ChoiceReachesIff(m: Interp, n: Node, c: Lattice<Value>, cm: Mask, t: Lattice<Value>, tm: Mask, f: Lattice<Value>, fm: Mask, i: nat)
    requires n.Iif? && FollowAll(m, n, c, cm, t, tm, f, fm) && i < Elements(ResultShape(n))
    ensures ChoiceReaches(m, n.cond, n.trueVal, n.falseVal, ResultShape(n), i) <==>
            && ChoiceIn(c, t, f, i) && Meet(tm, Open(n.trueVal), fm, i)
            && OuterMasksReach(n.cond, n.trueVal, n.falseVal, ResultShape(n), i)
  {
    hide Point, Unmasked, ValueShape, MaskShape, Elements, OuterMasksReach, Shows;
    ReachesArray(m, n.cond, c, cm, ResultShape(n), i);
    ReachesArray(m, n.trueVal, t, tm, ResultShape(n), i);
    ReachesArray(m, n.falseVal, f, fm, ResultShape(n), i);
  }

  lemma IifReaches(m: Interp, n: Node, c: Lattice<Value>, cm: Mask, t: Lattice<Value>, tm: Mask, f: Lattice<Value>, fm: Mask)
    requires n.Iif? && Evaluable(n) && ShapeOf(n).Shaped?
    requires InRange(m, n.cond) && InRange(m, n.trueVal) && InRange(m, n.falseVal)
    requires FollowAll(m, n, c, cm, t, tm, f, fm)
    ensures var shape := ResultShape(n);
      InRange(m, n) <==>
        && (forall i :: 0 <= i < Elements(shape) ==> ChoiceIn(c, t, f, i))
        && (forall i: nat :: i < Elements(shape) ==> Meet(tm, Open(n.trueVal), fm, i))
        && forall i: nat :: i < Elements(shape) ==> OuterMasksReach(n.cond, n.trueVal, n.falseVal, shape, i)
  {
    hide ChoiceReaches, ChoiceIn, Meet, OuterMasksReach, Follows, Elements, MaskShape, ValueShape, Point, Unmasked, FollowAll;
    var shape := ResultShape(n);
    forall i: nat | i < Elements(shape)
      ensures ChoiceReaches(m, n.cond, n.trueVal, n.falseVal, shape, i) <==>
              ChoiceIn(c, t, f, i) && Meet(tm, Open(n.trueVal), fm, i) && OuterMasksReach(n.cond, n.trueVal, n.falseVal, shape, i)
    {
      ChoiceReachesIff(m, n, c, cm, t, tm, f, fm, i);
    }
  }

  lemma IifOuterReaches(m: Interp, n: Node, c: Lattice<Value>, cm: Mask, t: Lattice<Value>, tm: Mask, f: Lattice<Value>, fm: Mask, inner: Mask)
    requires n.Iif? && NonNegative(ResultShape(n)) && FollowAll(m, n, c, cm, t, tm, f, fm)
    requires ValidMask(inner) && ShapeOfMask(inner) == CombinedShape(ShapeOfMask(tm), ShapeOfMask(fm), ResultShape(n))
    ensures forall i: nat :: OuterMasksReach(n.cond, n.trueVal, n.falseVal, ResultShape(n), i) <==> Meet(cm, Open(n.cond), inner, i)
  {
    hide Point, Unmasked, ValueShape, MaskShape, Shows, ValuesOf;
    assert inner.Some? ==> MaskLength(inner) == BranchMaskCount(n.trueVal, n.falseVal, ResultShape(n));
  }

  lemma IifMeaning(m: Interp, n: Node, c: Lattice<Value>, cm: Mask, t: Lattice<Value>, tm: Mask, f: Lattice<Value>, fm: Mask,
                   inner: Mask, v: Lattice<Value>, mask: Mask)
    requires n.Iif? && ShapeOf(n).Shaped? && v.shape == ResultShape(n) && |v.flat| == Elements(v.shape)
    requires FollowAll(m, n, c, cm, t, tm, f, fm)
    requires forall i :: 0 <= i < |v.flat| ==> ChoiceIn(c, t, f, i) && v.flat[i] == Choice(c, t, f, i)
    requires ShapeOfMask(inner) == CombinedShape(ShapeOfMask(tm), ShapeOfMask(fm), ResultShape(n))
    requires ValidMask(mask) && Shows(mask, Open(n.cond) * (Open(n.trueVal) * Open(n.falseVal)))
    requires ShapeOfMask(mask) == CombinedShape(ShapeOfMask(cm), ShapeOfMask(inner), ResultShape(n))
    ensures LelResult(v, mask) == Meaning(m, n)
  {
    hide Point, Meaning, Shows;
    forall i | 0 <= i < |v.flat| ensures v.flat[i] == Point(m, n, i) {
      IifPoint(m, n, i);
      assert ChoiceIn(c, t, f, i);
    }
    assert Open(n) == Open(n.cond) * (Open(n.trueVal) * Open(n.falseVal));
    MeaningBy(m, n, v, mask);
  }

  method EvalMask(m: Interp, n: Node, a: Node) returns (r: Outcome)
    requires n == MaskExtract(a) && WellFormed(n)
    ensures r == Expected(m, n)
    decreases n, 0
  {
    hide Point, Points, MaskPoints, Unmasked, Meaning;
    var ra := Eval(m, a);
    if !ra.Done? {
      return ra;
    }
    MeaningParts(m, a);
    var mask := ra.result.mask;
    var values: Lattice<Value>;
    if mask.Some? {
      values := Lattice(mask.value.shape, seq(|mask.value.flat|, i requires 0 <= i < |mask.value.flat| => B(mask.value.flat[i])));
    } else {
      values := Filled(ra.result.values.shape, B(true));
    }
    ExtractedMeaning(m, n, ra.result, values);
    return Done(LelResult(values, None));
  }

  lemma ExtractedMeaning(m: Interp, n: Node, ra: LelResult, v: Lattice<Value>)
    requires n.MaskExtract? && ra == Meaning(m, n.arg) && ValidLattice(ra.values) && |ra.values.flat| == ValueCount(n.arg)
    requires MaskOf(n.arg, ra.mask)
    requires v.shape == (if ra.mask.Some? then ra.mask.value.shape else ra.values.shape)
    requires |v.flat| == (if ra.mask.Some? then |ra.mask.value.flat| else |ra.values.flat|)
    requires forall i :: 0 <= i < |v.flat| ==> v.flat[i] == B(ra.mask.Some? ==> ra.mask.value.flat[i])
    ensures LelResult(v, None) == Meaning(m, n)
  {
    hide Unmasked;
    forall i | 0 <= i < |v.flat| ensures v.flat[i] == Point(m, n, i) {
      assert i in Open(n.arg) <==> Unmasked(n.arg, i);
    }
    assert v.flat == Points(m, n);
  }

  lemma ScalarValue(m: Interp, v: Value)
    ensures Point(m, Scalar(v), 0) == v
  {
  }

  lemma LeafMeaning(m: Interp, n: Node)
    requires n.ArrayRef? && WellFormed(n)
    ensures Meaning(m, n) == LelResult(n.data, n.mask)
  {
    assert Points(m, n) == n.data.flat;
    if n.mask.Some? {
      assert MaskPoints(n) == n.mask.value.flat;
    }
  }

  lemma ReduceMeaning(m: Interp, n: Node)
    requires n.Reduce?
    ensures var ra := Meaning(m, n.arg);
      Point(m, n, 0) == m.reduce(n.r, ra.values.flat, if ra.mask.Some? then Some(ra.mask.value.flat) else None)
  {
  }

  lemma ValueMeaning(m: Interp, n: Node)
    requires n.ValueExtract?
    ensures Meaning(m, n) == LelResult(Meaning(m, n.arg).values, None)
  {
    assert Points(m, n) == Points(m, n.arg);
  }

  // ---- conditionals over different shapes ----

  /** A conditional's mask has the shape of its values unless a single operand brings a mask of another shape. */
  lemma IifMaskShape(n: Node)
    requires n.Iif? && HasMask(n)
    ensures MaskShape(n) == Some(ResultShape(n)) <==>
      || (HasMask(n.cond) && (HasMask(n.trueVal) || HasMask(n.falseVal))) || (HasMask(n.trueVal) && HasMask(n.falseVal))
      || Some(ResultShape(n)) in {MaskShape(n.cond), MaskShape(n.trueVal), MaskShape(n.falseVal)}
  {
  }

  function OneElement(v: Value, mask: Mask): Node {
    ArrayRef(Lattice([1], [v]), mask)
  }

  function TwoElements(v: Value, w: Value): Node {
    ArrayRef(Lattice([2], [v, w]), None)
  }

  lemma SmallSizes()
    ensures Elements([1]) == 1 && Elements([2]) == 2 && [1] != [2]
  {
    assert Product([1]) == 1 * Product([]) && Product([2]) == 2 * Product([]);
    assert ([1])[0] != ([2])[0];
  }

  /** The conditional over three unmasked or masked leaves, one step unfolded. */
  lemma LeafConditional(m: Interp, n: Node)
    requires n.Iif? && n.cond.ArrayRef? && n.trueVal.ArrayRef? && n.falseVal.ArrayRef?
    ensures ShapeOf(n) == Shaped(n.cond.data.shape) && ValueShape(n) == ResultShape(n) == n.cond.data.shape && Evaluable(n)
    ensures InRange(m, n) <==>
      forall i: nat :: i < Elements(ResultShape(n)) ==> ChoiceReaches(m, n.cond, n.trueVal, n.falseVal, ResultShape(n), i)
  {
    hide ChoiceReaches, Elements;
  }

  /**
   * A conditional compares no shapes: with a condition of one element and branches of two it gives one element, where
   * every operator and two-argument function throws.
   */
  lemma NarrowConditional(m: Interp, b: bool, x: Node, y: Node)
    requires x == OneElement(B(b), None) && y == TwoElements(F(0.0), F(1.0))
    ensures Expected(m, Iif(x, y, y)) == Done(LelResult(Lattice([1], [F(0.0)]), None))
    ensures forall op :: Expected(m, Node2(op, x, y)) == Threw
  {
    SmallSizes();
    var n := Iif(x, y, y);
    LeafConditional(m, n);
    assert ShapeOf(x) == Shaped([1]) && ShapeOf(y) == Shaped([2]);
    assert Point(m, y, 0) == F(0.0);
    assert Points(m, n) == [Point(m, n, 0)];
  }

  /** The branch selected at the second element has only one: the read leaves its array. */
  lemma ShortBranch(m: Interp, b: bool, x: Node, y: Node)
    requires x == TwoElements(B(true), B(b)) && y == OneElement(F(0.0), None)
    ensures Expected(m, Iif(x, y, y)) == Overrun
  {
    SmallSizes();
    LeafConditional(m, Iif(x, y, y));
    assert !ChoiceReaches(m, x, y, y, [2], 1);
  }

  /** The sizes alone do not decide it: a short branch that is never selected does no harm. */
  lemma UnselectedBranch(m: Interp, x: Node, y: Node, z: Node)
    requires x == TwoElements(B(true), B(true)) && y == TwoElements(F(0.0), F(1.0)) && z == OneElement(F(0.0), None)
    ensures Expected(m, Iif(x, y, z)).Done? && !Covered(Iif(x, y, z))
    ensures Expected(m, Iif(x, z, y)) == Overrun
  {
    SmallSizes();
    LeafConditional(m, Iif(x, y, z));
    LeafConditional(m, Iif(x, z, y));
    assert forall i: nat :: i < 2 ==> Point(m, x, i) == B(true) && ChoiceReaches(m, x, y, z, [2], i);
    assert !ChoiceReaches(m, x, z, y, [2], 1);
  }

  /** A lone mask is passed on in its own shape, so it can be shorter than the values and a reduction leaves it. */
  lemma ShortMask(m: Interp, x: Node, y: Node, z: Node)
    requires x == TwoElements(B(true), B(true)) && y == TwoElements(F(0.0), F(1.0))
    requires z == OneElement(F(0.0), Some(Lattice([1], [true])))
    ensures var n := Iif(x, y, z);
      Expected(m, n).Done? && ValueShape(n) == [2] && MaskShape(n) == Some([1]) && Expected(m, Reduce(Sum, n)) == Overrun
  {
    SmallSizes();
    var n := Iif(x, y, z);
    LeafConditional(m, n);
    assert forall i: nat :: i < 2 ==> Point(m, x, i) == B(true) && ChoiceReaches(m, x, y, z, [2], i);
    assert MaskShape(z) == Some([1]) && MaskShape(n) == Some([1]);
  }
}
