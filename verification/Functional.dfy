/**
 * The functional IR (`kernel/functional.h`): bit-vector expressions and what
 * they evaluate to.  Sharing of nodes does not change values, so a node is
 * modelled by its expression tree.
 */
module FunctionalIR {
  import opened Bits
  import M = Multiples

  datatype UnaryFn = BitwiseNot | ReduceAnd | ReduceOr | ReduceXor | UnaryMinus

  datatype BinaryFn =
    FnAdd | FnSub | FnMul | UnsignedDiv | UnsignedMod |
    BitwiseAnd | BitwiseOr | BitwiseXor |
    Equal | NotEqual | SignedGreaterThan | SignedGreaterEqual | UnsignedGreaterThan | UnsignedGreaterEqual |
    LogicalShiftLeft | LogicalShiftRight | ArithmeticShiftRight
  {
    predicate Shifts() {
      LogicalShiftLeft? || LogicalShiftRight? || ArithmeticShiftRight?
    }

    predicate Compares() {
      Equal? || NotEqual? || SignedGreaterThan? || SignedGreaterEqual? || UnsignedGreaterThan? || UnsignedGreaterEqual?
    }
  }

  datatype Node =
    | Input(id: int, inWidth: nat)
    | Constant(value: Bv)
    | Slice(a: Node, offset: nat, outWidth: nat)
    | ZeroExtend(a: Node, outWidth: nat)
    | SignExtend(a: Node, outWidth: nat)
    | Unary(ufn: UnaryFn, a: Node)
    | Binary(bfn: BinaryFn, a: Node, b: Node)
    | Mux(a: Node, b: Node, s: Node)

  /** The width of a node's sort. */
  function Width(n: Node): nat {
    match n
    case Input(_, w) => w
    case Constant(v) => |v|
    case Slice(_, _, w) => w
    case ZeroExtend(_, w) => w
    case SignExtend(_, w) => w
    case Unary(f, a) => if f.BitwiseNot? || f.UnaryMinus? then Width(a) else 1
    case Binary(f, a, _) => if f.Compares() then 1 else Width(a)
    case Mux(a, _, _) => Width(a)
  }

  /** The conditions every node is created under. */
  predicate Wf(n: Node) {
    && Width(n) > 0
    && match n
       case Input(_, _) => true
       case Constant(_) => true
       case Slice(a, offset, w) => Wf(a) && offset + w <= Width(a)
       case ZeroExtend(a, w) => Wf(a) && w > Width(a)
       case SignExtend(a, w) => Wf(a) && w > Width(a)
       case Unary(_, a) => Wf(a)
       case Binary(f, a, b) => Wf(a) && Wf(b) && (if f.Shifts() then Width(b) == CeilLog2(Width(a)) else Width(b) == Width(a))
       case Mux(a, b, s) => Wf(a) && Wf(b) && Wf(s) && Width(b) == Width(a) && Width(s) == 1
  }

  // ----------------------------------------------- the functions of the IR

  function And(x: Bv, y: Bv): (r: Bv)
    requires |x| == |y|
    ensures |r| == |x|
  {
    seq(|x|, i requires 0 <= i < |x| => x[i] && y[i])
  }

  function Or(x: Bv, y: Bv): (r: Bv)
    requires |x| == |y|
    ensures |r| == |x|
  {
    seq(|x|, i requires 0 <= i < |x| => x[i] || y[i])
  }

  function Xor(x: Bv, y: Bv): (r: Bv)
    requires |x| == |y|
    ensures |r| == |x|
  {
    seq(|x|, i requires 0 <= i < |x| => x[i] != y[i])
  }

  /** Bit i of the result is bit i + offset of x. */
  function ShiftBits(x: Bv, offset: int, high: bool): (r: Bv)
    ensures |r| == |x|
  {
    seq(|x|, i requires 0 <= i < |x| => if i + offset < 0 then false else if i + offset >= |x| then high else x[i + offset])
  }

  function Sign(x: Bv): bool
    requires x != []
  {
    x[|x| - 1]
  }

  function Parity(x: Bv): bool {
    if x == [] then false else x[0] != Parity(x[1..])
  }

  function EvalUnary(f: UnaryFn, x: Bv): (r: Bv)
    ensures |r| == if f.BitwiseNot? || f.UnaryMinus? then |x| else 1
  {
    match f
    case BitwiseNot => Not(x)
    case UnaryMinus => FromInt(0 - ToNat(x), |x|)
    case ReduceAnd => [x == Fill(true, |x|)]
    case ReduceOr => [x != Fill(false, |x|)]
    case ReduceXor => [Parity(x)]
  }

  /** Division by zero gives some value: all ones, and the dividend as remainder. */
  function EvalBinary(f: BinaryFn, x: Bv, y: Bv): (r: Bv)
    requires x != [] && (f.Shifts() || |x| == |y|)
    ensures |r| == if f.Compares() then 1 else |x|
  {
    match f
    case FnAdd => FromInt(ToNat(x) + ToNat(y), |x|)
    case FnSub => FromInt(ToNat(x) - ToNat(y), |x|)
    case FnMul => FromInt(ToNat(x) * ToNat(y), |x|)
    case UnsignedDiv => if ToNat(y) == 0 then Fill(true, |x|) else FromInt(M.Quot(ToNat(x), ToNat(y)), |x|)
    case UnsignedMod => if ToNat(y) == 0 then x else FromInt(M.Rem(ToNat(x), ToNat(y)), |x|)
    case BitwiseAnd => And(x, y)
    case BitwiseOr => Or(x, y)
    case BitwiseXor => Xor(x, y)
    case Equal => [x == y]
    case NotEqual => [x != y]
    case SignedGreaterThan => [Value(x, true) > Value(y, true)]
    case SignedGreaterEqual => [Value(x, true) >= Value(y, true)]
    case UnsignedGreaterThan => [ToNat(x) > ToNat(y)]
    case UnsignedGreaterEqual => [ToNat(x) >= ToNat(y)]
    case LogicalShiftLeft => ShiftBits(x, 0 - ToNat(y), false)
    case LogicalShiftRight => ShiftBits(x, ToNat(y), false)
    case ArithmeticShiftRight => ShiftBits(x, ToNat(y), Sign(x))
  }

  function Choose(x: Bv, y: Bv, s: Bv): Bv
    requires |s| == 1
  {
    if s[0] then y else x
  }

  /** The value of a node under values for the inputs; inputs of another width read as zero. */
  ghost function Eval(n: Node, env: map<int, Bv>): (r: Bv)
    requires Wf(n)
    ensures |r| == Width(n)
  {
    match n
    case Input(id, w) => if id in env && |env[id]| == w then env[id] else Fill(false, w)
    case Constant(v) => v
    case Slice(a, offset, w) => Eval(a, env)[offset..offset + w]
    case ZeroExtend(a, w) => Extend(Eval(a, env), w, false)
    case SignExtend(a, w) => Extend(Eval(a, env), w, true)
    case Unary(f, a) => EvalUnary(f, Eval(a, env))
    case Binary(f, a, b) => EvalBinary(f, Eval(a, env), Eval(b, env))
    case Mux(a, b, s) => Choose(Eval(a, env), Eval(b, env), Eval(s, env))
  }

  // ----------------------------------------------------------- the factory

  method FSlice(a: Node, offset: nat, outWidth: nat) returns (r: Node)
    requires Wf(a) && offset + outWidth <= Width(a) && outWidth > 0
    ensures Wf(r) && Width(r) == outWidth
    ensures forall env :: Eval(r, env) == Eval(a, env)[offset..offset + outWidth]
  {
    if offset == 0 && outWidth == Width(a) {
      return a;
    }
    r := Slice(a, offset, outWidth);
  }

  /** Extends or truncates to the given width. */
  method FExtend(a: Node, outWidth: nat, isSigned: bool) returns (r: Node)
    requires Wf(a) && outWidth > 0
    ensures Wf(r) && Width(r) == outWidth
    ensures forall env :: Eval(r, env) == Extend(Eval(a, env), outWidth, isSigned)
  {
    if Width(a) == outWidth {
      return a;
    }
    if Width(a) > outWidth {
      r := FSlice(a, 0, outWidth);
    } else if isSigned {
      r := SignExtend(a, outWidth);
    } else {
      r := ZeroExtend(a, outWidth);
    }
  }

  lemma {:induction false} ReduceBit(f: UnaryFn, x: Bv)
    requires |x| == 1 && !f.BitwiseNot? && !f.UnaryMinus?
    ensures EvalUnary(f, x) == x
  {
    match f
    case ReduceAnd => ReduceAndBit(x);
    case ReduceOr => ReduceOrBit(x);
    case ReduceXor => ReduceXorBit(x);
  }

  lemma {:induction false} ReduceAndBit(x: Bv)
    requires |x| == 1
    ensures [x == Fill(true, |x|)] == x
  {
    var ones := Fill(true, |x|);
    assert ones[0];
    if x[0] {
      assert x == ones;
    }
    assert [x == ones] == [x[0]] == x;
  }

  lemma {:induction false} ReduceOrBit(x: Bv)
    requires |x| == 1
    ensures [x != Fill(false, |x|)] == x
  {
    var zeros := Fill(false, |x|);
    assert !zeros[0];
    if !x[0] {
      assert x == zeros;
    }
    assert [x != zeros] == [x[0]] == x;
  }

  lemma {:induction false} ReduceXorBit(x: Bv)
    requires |x| == 1
    ensures [Parity(x)] == x
  {
    assert x[1..] == [];
    assert Parity(x) == x[0];
    assert [x[0]] == x;
  }

  /** A reduction of a single bit is that bit. */
  method FUnary(f: UnaryFn, a: Node) returns (r: Node)
    requires Wf(a)
    ensures Wf(r) && Width(r) == if f.BitwiseNot? || f.UnaryMinus? then Width(a) else 1
    ensures forall env :: Eval(r, env) == EvalUnary(f, Eval(a, env))
  {
    if (f.ReduceAnd? || f.ReduceOr? || f.ReduceXor?) && Width(a) == 1 {
      forall env ensures EvalUnary(f, Eval(a, env)) == Eval(a, env) {
        ReduceBit(f, Eval(a, env));
      }
      return a;
    }
    r := Unary(f, a);
  }

  method FBinary(f: BinaryFn, a: Node, b: Node) returns (r: Node)
    requires Wf(a) && Wf(b) && (if f.Shifts() then Width(b) == CeilLog2(Width(a)) else Width(b) == Width(a))
    ensures Wf(r) && Width(r) == if f.Compares() then 1 else Width(a)
    ensures forall env :: Eval(r, env) == EvalBinary(f, Eval(a, env), Eval(b, env))
  {
    r := Binary(f, a, b);
  }

  method FMux(a: Node, b: Node, s: Node) returns (r: Node)
    requires Wf(a) && Wf(b) && Wf(s) && Width(a) == Width(b) && Width(s) == 1
    ensures Wf(r) && Width(r) == Width(a)
    ensures forall env :: Eval(r, env) == Choose(Eval(a, env), Eval(b, env), Eval(s, env))
  {
    r := Mux(a, b, s);
  }

  method FConst(n: int, w: nat) returns (r: Node)
    requires w > 0
    ensures Wf(r) && Width(r) == w
    ensures forall env :: Eval(r, env) == FromInt(n, w)
  {
    r := Constant(FromInt(n, w));
  }
}

/**
 * `CellSimplifier` (`kernel/functional.cc`): word-level cells in terms of the
 * IR, and the proof that the result is what `CellTypes::eval` computes.
 */
module CellSimplifier {
  import opened Rtlil
  import opened Wrappers
  import opened Bits
  import opened Calc
  import opened FunctionalIR
  import opened UndefinedPowers
  import M = Multiples

  method SignOf(a: Node) returns (r: Node)
    requires Wf(a)
    ensures Wf(r) && Width(r) == 1
    ensures forall env :: Eval(r, env) == [Sign(Eval(a, env))]
  {
    r := FSlice(a, Width(a) - 1, 1);
  }

  /** The value, or its negative, in as many bits. */
  function Signed(n: int, negative: bool): int {
    if negative then -n else n
  }

  method NegIf(a: Node, s: Node) returns (r: Node)
    requires Wf(a) && Wf(s) && Width(s) == 1
    ensures Wf(r) && Width(r) == Width(a)
    ensures forall env :: Eval(r, env) == FromInt(Signed(ToNat(Eval(a, env)), Eval(s, env)[0]), Width(a))
  {
    var minus := FUnary(UnaryMinus, a);
    r := FMux(a, minus, s);
    forall env ensures Eval(r, env) == FromInt(Signed(ToNat(Eval(a, env)), Eval(s, env)[0]), Width(a)) {
      FromToNat(Eval(a, env));
    }
  }

  /** The magnitude, which always fits when read as unsigned. */
  method AbsOf(a: Node) returns (r: Node)
    requires Wf(a)
    ensures Wf(r) && Width(r) == Width(a)
    ensures forall env :: ToNat(Eval(r, env)) == Calc.Abs(Value(Eval(a, env), true))
  {
    var s := SignOf(a);
    r := NegIf(a, s);
    forall env ensures ToNat(Eval(r, env)) == Calc.Abs(Value(Eval(a, env), true)) {
      AbsBits(Eval(a, env));
    }
  }

  lemma {:induction false} AbsBits(x: Bv)
    requires x != []
    ensures ToNat(FromInt(Signed(ToNat(x), Sign(x)), |x|)) == Calc.Abs(Value(x, true))
  {
    if Sign(x) {
      ValueRange(x);
      var n := Pow2(|x|) - ToNat(x);
      Same(n, 0 - ToNat(x), 1, |x|);
      Small(n, |x|);
    } else {
      FromToNat(x);
    }
  }

  // ---------------------------------------------------------------- shifts

  /** The shift of the IR, whose amount has just enough bits for the width. */
  method ShiftNode(a: Node, amount: Node, isRight: bool, isSigned: bool) returns (r: Node)
    requires Wf(a) && Wf(amount) && Width(amount) == CeilLog2(Width(a)) && (isSigned ==> isRight)
    ensures Wf(r) && Width(r) == Width(a)
    ensures forall env :: IsShift(Eval(r, env), Eval(a, env), ToNat(Eval(amount, env)), isRight, isSigned)
  {
    if !isRight {
      r := FBinary(LogicalShiftLeft, a, amount);
    } else if !isSigned {
      r := FBinary(LogicalShiftRight, a, amount);
    } else {
      r := FBinary(ArithmeticShiftRight, a, amount);
    }
  }

  /** y is x shifted by n. */
  ghost predicate IsShift(y: Bv, x: Bv, n: nat, isRight: bool, isSigned: bool) {
    x != [] && y == ShiftBits(x, Signed(n, !isRight), isSigned && Sign(x))
  }

  /** A shift by the full amount, however wide it is. */
  method HandleShift(a: Node, b: Node, isRight: bool, isSigned: bool) returns (r: Node)
    requires Wf(a) && Wf(b) && (isSigned ==> isRight)
    ensures Wf(r) && Width(r) == Width(a)
    ensures forall env :: IsShift(Eval(r, env), Eval(a, env), ToNat(Eval(b, env)), isRight, isSigned)
  {
    if Width(a) == 1 {
      r := ShiftOneBit(a, b, isRight, isSigned);
      return;
    }
    CeilLog2IsLeast(Width(a));
    var newWidth := CeilLog2(Width(a));
    var bTruncated := FExtend(b, newWidth, false);
    var y := ShiftNode(a, bTruncated, isRight, isSigned);
    forall env ensures |Eval(b, env)| <= newWidth || ToNat(Eval(b, env)) < Width(a) ==> ToNat(Eval(bTruncated, env)) == ToNat(Eval(b, env)) {
      AmountTruncated(Eval(b, env), newWidth, Width(a));
    }
    if Width(b) <= newWidth {
      return y;
    }
    var overflow := Overflow(a, b);
    var yIfOverflow := ValueIfOverflow(a, isSigned);
    r := FMux(y, yIfOverflow, overflow);
    forall env ensures IsShift(Eval(r, env), Eval(a, env), ToNat(Eval(b, env)), isRight, isSigned) {
      var x, n := Eval(a, env), ToNat(Eval(b, env));
      if n >= |x| {
        ShiftBeyond(x, n, isSigned && Sign(x));
      }
    }
  }

  method ShiftOneBit(a: Node, b: Node, isRight: bool, isSigned: bool) returns (r: Node)
    requires Wf(a) && Wf(b) && (isSigned ==> isRight) && Width(a) == 1
    ensures Wf(r) && Width(r) == 1
    ensures forall env :: IsShift(Eval(r, env), Eval(a, env), ToNat(Eval(b, env)), isRight, isSigned)
  {
    if !isSigned {
      var any := FUnary(ReduceOr, b);
      var none := FUnary(BitwiseNot, any);
      r := FBinary(BitwiseAnd, a, none);
    } else {
      r := a;
    }
    forall env ensures IsShift(Eval(r, env), Eval(a, env), ToNat(Eval(b, env)), isRight, isSigned) {
      OneBitShifted(Eval(a, env), Eval(b, env), isRight);
    }
  }

  method Overflow(a: Node, b: Node) returns (r: Node)
    requires Wf(a) && Wf(b) && Width(a) <= Pow2(CeilLog2(Width(a))) && CeilLog2(Width(a)) < Width(b)
    ensures Wf(r) && Width(r) == 1
    ensures forall env :: Eval(r, env) == [ToNat(Eval(b, env)) >= Width(a)]
  {
    Pow2Monotone(CeilLog2(Width(a)) + 1, Width(b));
    Small(Width(a), Width(b));
    var width := FConst(Width(a), Width(b));
    r := FBinary(UnsignedGreaterEqual, b, width);
  }

  method ValueIfOverflow(a: Node, isSigned: bool) returns (r: Node)
    requires Wf(a)
    ensures Wf(r) && Width(r) == Width(a)
    ensures forall env :: Eval(r, env) == Fill(isSigned && Sign(Eval(a, env)), Width(a))
  {
    FillIs(Width(a));
    if isSigned {
      var s := SignOf(a);
      r := FExtend(s, Width(a), true);
    } else {
      r := FConst(0, Width(a));
    }
  }

  lemma {:induction false} OneBitShifted(x: Bv, y: Bv, isRight: bool)
    requires |x| == 1
    ensures And(x, Not(EvalUnary(ReduceOr, y))) == ShiftBits(x, Signed(ToNat(y), !isRight), false)
    ensures x == ShiftBits(x, ToNat(y), Sign(x))
  {
    ToNatZero(y);
  }

  lemma {:induction false} ShiftBeyond(x: Bv, n: nat, high: bool)
    requires n >= |x|
    ensures ShiftBits(x, n, high) == Fill(high, |x|)
    ensures ShiftBits(x, 0 - n, false) == Fill(false, |x|)
  {
  }

  /** Truncating the amount loses nothing unless it is out of range. */
  lemma {:induction false} AmountTruncated(y: Bv, k: nat, w: nat)
    requires w <= Pow2(k) && y != []
    ensures |y| <= k || ToNat(y) < w ==> ToNat(Extend(y, k, false)) == ToNat(y)
  {
    if |y| <= k {
      ExtendKeepsValue(y, k, false);
    } else if ToNat(y) < w {
      FromToNat(y);
      FromIntTake(ToNat(y), |y|, k);
      Small(ToNat(y), k);
    }
  }

  // -------------------------------------------------------------- division

  lemma {:induction false} Negated(n: int, w: nat)
    ensures FromInt(0 - ToNat(FromInt(n, w)), w) == FromInt(-n, w)
  {
    ModDifference(0, n, w);
    Small(0, w);
  }

  lemma {:induction false} UnsignedDivision(x: Bv, y: Bv)
    requires x != [] && |x| == |y| && ToNat(y) != 0
    ensures ToNat(EvalBinary(UnsignedDiv, x, y)) == M.Quot(ToNat(x), ToNat(y))
    ensures ToNat(EvalBinary(UnsignedMod, x, y)) == M.Rem(ToNat(x), ToNat(y))
  {
    M.QuotRem(ToNat(x), ToNat(y));
    Small(M.Quot(ToNat(x), ToNat(y)), |x|);
    Small(M.Rem(ToNat(x), ToNat(y)), |x|);
  }

  /** Unsigned division, on integers. */
  method DivNode(a: Node, b: Node) returns (r: Node)
    requires Wf(a) && Wf(b) && Width(a) == Width(b)
    ensures Wf(r) && Width(r) == Width(a)
    ensures forall env | ToNat(Eval(b, env)) != 0 :: ToNat(Eval(r, env)) == M.Quot(ToNat(Eval(a, env)), ToNat(Eval(b, env)))
  {
    r := FBinary(UnsignedDiv, a, b);
    forall env | ToNat(Eval(b, env)) != 0
      ensures ToNat(Eval(r, env)) == M.Quot(ToNat(Eval(a, env)), ToNat(Eval(b, env)))
    {
      UnsignedDivision(Eval(a, env), Eval(b, env));
    }
  }

  method ModNode(a: Node, b: Node) returns (r: Node)
    requires Wf(a) && Wf(b) && Width(a) == Width(b)
    ensures Wf(r) && Width(r) == Width(a)
    ensures forall env | ToNat(Eval(b, env)) != 0 :: ToNat(Eval(r, env)) == M.Rem(ToNat(Eval(a, env)), ToNat(Eval(b, env)))
  {
    r := FBinary(UnsignedMod, a, b);
    forall env | ToNat(Eval(b, env)) != 0
      ensures ToNat(Eval(r, env)) == M.Rem(ToNat(Eval(a, env)), ToNat(Eval(b, env)))
    {
      UnsignedDivision(Eval(a, env), Eval(b, env));
    }
  }

  /** An unsigned number brought to the output width, and negated there if `s`. */
  method SignedOutput(m: Node, s: Node, yWidth: nat) returns (r: Node)
    requires Wf(m) && Wf(s) && Width(s) == 1 && yWidth > 0
    ensures Wf(r) && Width(r) == yWidth
    ensures forall env :: Eval(r, env) == FromInt(Signed(ToNat(Eval(m, env)), Eval(s, env)[0]), yWidth)
  {
    var y := FExtend(m, yWidth, false);
    r := NegIf(y, s);
    forall env ensures Eval(r, env) == FromInt(Signed(ToNat(Eval(m, env)), Eval(s, env)[0]), yWidth) {
      ExtendIs(Eval(m, env), yWidth, false);
      Negated(ToNat(Eval(m, env)), yWidth);
      FromToNat(Eval(y, env));
    }
  }

  /** Whether the signs differ. */
  method SignsDiffer(a: Node, b: Node) returns (r: Node)
    requires Wf(a) && Wf(b)
    ensures Wf(r) && Width(r) == 1
    ensures forall env :: Eval(r, env) == [(Value(Eval(a, env), true) < 0) != (Value(Eval(b, env), true) < 0)]
  {
    var sa := SignOf(a);
    var sb := SignOf(b);
    r := FBinary(NotEqual, sa, sb);
    forall env ensures Eval(r, env) == [(Value(Eval(a, env), true) < 0) != (Value(Eval(b, env), true) < 0)] {
      BitDiffers(Sign(Eval(a, env)), Sign(Eval(b, env)));
      ValueRange(Eval(a, env));
      ValueRange(Eval(b, env));
    }
  }

  lemma {:induction false} BitDiffers(s: bool, t: bool)
    ensures ([s] != [t]) <==> s != t
  {
    assert [s][0] == s && [t][0] == t;
  }

  ghost function SignedOf(a: Node, env: map<int, Bv>): int
    requires Wf(a)
  {
    Value(Eval(a, env), true)
  }

  /** Divide the magnitudes, and flip the sign if the operand signs differ. */
  method SignedDiv(a: Node, b: Node, yWidth: nat) returns (r: Node)
    requires Wf(a) && Wf(b) && Width(a) == Width(b) && yWidth > 0
    ensures Wf(r) && Width(r) == yWidth
    ensures forall env | SignedOf(b, env) != 0 :: Eval(r, env) == FromInt(TruncQuot(SignedOf(a, env), SignedOf(b, env)), yWidth)
  {
    var absA := AbsOf(a);
    var absB := AbsOf(b);
    var absY := DivNode(absA, absB);
    var outSign := SignsDiffer(a, b);
    r := SignedOutput(absY, outSign, yWidth);
  }

  method SignedMod(a: Node, b: Node, yWidth: nat) returns (r: Node)
    requires Wf(a) && Wf(b) && Width(a) == Width(b) && yWidth > 0
    ensures Wf(r) && Width(r) == yWidth
    ensures forall env | SignedOf(b, env) != 0 :: Eval(r, env) == FromInt(TruncRem(SignedOf(a, env), SignedOf(b, env)), yWidth)
  {
    var absA := AbsOf(a);
    var absB := AbsOf(b);
    var absY := ModNode(absA, absB);
    var aSign := SignOf(a);
    r := SignedOutput(absY, aSign, yWidth);
    forall env | SignedOf(b, env) != 0
      ensures Eval(r, env) == FromInt(TruncRem(SignedOf(a, env), SignedOf(b, env)), yWidth)
    {
      ValueRange(Eval(a, env));
    }
  }

  predicate QuotientNegative(v: int, u: int) {
    (v < 0) != (u < 0) && v != 0
  }

  /** With the signs flipped so that b is positive, a negative quotient is ~(~a / b). */
  method SignedDivFloor(a: Node, b: Node, yWidth: nat) returns (r: Node)
    requires Wf(a) && Wf(b) && Width(a) == Width(b) && yWidth > 0
    ensures Wf(r) && Width(r) == yWidth
    ensures forall env | SignedOf(b, env) != 0 :: Eval(r, env) == FromInt(FloorQuot(SignedOf(a, env), SignedOf(b, env)), yWidth)
  {
    var bSign := SignOf(b);
    var b1 := AbsOf(b);
    var a1Sign := QuotientSign(a, b);
    var a2 := FloorDividend(a, b, bSign, a1Sign);
    var y1 := DivNode(a2, b1);
    r := FloorOutput(y1, a1Sign, yWidth);
    forall env | SignedOf(b, env) != 0
      ensures Eval(r, env) == FromInt(FloorQuot(SignedOf(a, env), SignedOf(b, env)), yWidth)
    {
      FloorByMagnitude(SignedOf(a, env), SignedOf(b, env));
    }
  }

  method QuotientSign(a: Node, b: Node) returns (r: Node)
    requires Wf(a) && Wf(b)
    ensures Wf(r) && Width(r) == 1
    ensures forall env :: Eval(r, env) == [QuotientNegative(SignedOf(a, env), SignedOf(b, env))]
  {
    var differ := SignsDiffer(a, b);
    var anyA := FUnary(ReduceOr, a);
    r := FBinary(BitwiseAnd, differ, anyA);
    forall env ensures Eval(r, env) == [QuotientNegative(SignedOf(a, env), SignedOf(b, env))] {
      ZeroValue(Eval(a, env));
    }
  }

  lemma {:induction false} ZeroValue(x: Bv)
    requires x != []
    ensures EvalUnary(ReduceOr, x) == [Value(x, true) != 0]
  {
    ValueRange(x);
    ToNatZero(x);
  }

  lemma {:induction false} FloorByMagnitude(v: int, u: int)
    requires u != 0
    ensures FloorQuot(v, u) == if QuotientNegative(v, u) then 0 - M.Quot(Calc.Abs(v) - 1, Calc.Abs(u)) - 1
                               else M.Quot(Calc.Abs(v), Calc.Abs(u))
  {
  }

  /** The dividend: |a|, or |a| - 1 if the quotient is negative. */
  method FloorDividend(a: Node, b: Node, bSign: Node, a1Sign: Node) returns (a2: Node)
    requires Wf(a) && Wf(b) && Wf(bSign) && Wf(a1Sign) && Width(bSign) == Width(a1Sign) == 1
    requires forall env :: Eval(bSign, env) == [Sign(Eval(b, env))]
    requires forall env :: Eval(a1Sign, env) == [QuotientNegative(SignedOf(a, env), SignedOf(b, env))]
    ensures Wf(a2) && Width(a2) == Width(a)
    ensures forall env :: ToNat(Eval(a2, env)) == Calc.Abs(SignedOf(a, env)) - Num(QuotientNegative(SignedOf(a, env), SignedOf(b, env)))
  {
    var a1 := NegIf(a, bSign);
    var notA1 := FUnary(BitwiseNot, a1);
    a2 := FMux(a1, notA1, a1Sign);
    forall env
      ensures ToNat(Eval(a2, env)) == Calc.Abs(SignedOf(a, env)) - Num(QuotientNegative(SignedOf(a, env), SignedOf(b, env)))
    {
      ValueRange(Eval(b, env));
      DividendBits(Eval(a, env), Sign(Eval(b, env)), QuotientNegative(SignedOf(a, env), SignedOf(b, env)));
    }
  }

  lemma {:induction false} DividendBits(x: Bv, flip: bool, neg: bool)
    requires x != []
    requires var v := Value(x, true); neg <==> v != 0 && (v < 0) != flip
    ensures var x1 := FromInt(Signed(ToNat(x), flip), |x|);
            ToNat(if neg then Not(x1) else x1) == Calc.Abs(Value(x, true)) - Num(neg)
  {
    var v := Value(x, true);
    ValueRange(x);
    ExtendIs(x, |x|, true);
    assert x[..|x|] == x;
    var n := Signed(v, flip);
    FromToNat(x);
    Negated(v, |x|);
    assert FromInt(Signed(ToNat(x), flip), |x|) == FromInt(n, |x|);
    NotIs(n, |x|);
    Small(if neg then -n - 1 else n, |x|);
  }

  /** The quotient at the output width, complemented if it is negative. */
  method FloorOutput(y1: Node, neg: Node, yWidth: nat) returns (r: Node)
    requires Wf(y1) && Wf(neg) && Width(neg) == 1 && yWidth > 0
    ensures Wf(r) && Width(r) == yWidth
    ensures forall env :: Eval(r, env) ==
              FromInt(if Eval(neg, env)[0] then 0 - ToNat(Eval(y1, env)) - 1 else ToNat(Eval(y1, env)), yWidth)
  {
    var y2 := FExtend(y1, yWidth, false);
    var notY2 := FUnary(BitwiseNot, y2);
    r := FMux(y2, notY2, neg);
    forall env
      ensures Eval(r, env) == FromInt(if Eval(neg, env)[0] then 0 - ToNat(Eval(y1, env)) - 1 else ToNat(Eval(y1, env)), yWidth)
    {
      ExtendIs(Eval(y1, env), yWidth, false);
      NotIs(ToNat(Eval(y1, env)), yWidth);
    }
  }

  /** |a| % |b|, subtracted from |b| when the signs differ, with the sign of b. */
  method SignedModFloor(a: Node, b: Node, yWidth: nat) returns (r: Node)
    requires Wf(a) && Wf(b) && Width(a) == Width(b) && yWidth > 0
    ensures Wf(r) && Width(r) == yWidth
    ensures forall env | SignedOf(b, env) != 0 :: Eval(r, env) == FromInt(FloorRem(SignedOf(a, env), SignedOf(b, env)), yWidth)
  {
    var absA := AbsOf(a);
    var absB := AbsOf(b);
    var absY := ModNode(absA, absB);
    var yFlipped := FlippedRemainder(a, b, absB, absY);
    var bSign := SignOf(b);
    var y := NegIf(yFlipped, bSign);
    r := FExtend(y, yWidth, true);
    forall env | SignedOf(b, env) != 0
      ensures Eval(r, env) == FromInt(FloorRem(SignedOf(a, env), SignedOf(b, env)), yWidth)
    {
      FloorRemainderBits(Eval(a, env), Eval(b, env), ToNat(Eval(absY, env)), Eval(yFlipped, env), yWidth);
    }
  }

  /** |b| - |a| % |b| if the signs differ and the remainder is not zero. */
  method FlippedRemainder(a: Node, b: Node, absB: Node, absY: Node) returns (r: Node)
    requires Wf(a) && Wf(b) && Wf(absB) && Wf(absY) && Width(absB) == Width(absY)
    ensures Wf(r) && Width(r) == Width(absY)
    ensures forall env :: Eval(r, env) == Complement(Eval(absB, env), Eval(absY, env), Sign(Eval(a, env)) != Sign(Eval(b, env)))
  {
    var flipY := FlipCondition(a, b, absY);
    var difference := FBinary(FnSub, absB, absY);
    r := FMux(absY, difference, flipY);
    forall env
      ensures Eval(r, env) == Complement(Eval(absB, env), Eval(absY, env), Sign(Eval(a, env)) != Sign(Eval(b, env)))
    {
      ComplementBits(Eval(absB, env), Eval(absY, env), Sign(Eval(a, env)) != Sign(Eval(b, env)));
    }
  }

  /** A nonzero remainder z is taken from the divisor d if the signs differ. */
  function Complement(d: Bv, z: Bv, differ: bool): (r: Bv)
    ensures |r| == |z|
  {
    FromInt(if differ && ToNat(z) != 0 then ToNat(d) - ToNat(z) else ToNat(z), |z|)
  }

  lemma {:induction false} ComplementBits(d: Bv, z: Bv, differ: bool)
    requires |d| == |z| > 0
    ensures Choose(z, EvalBinary(FnSub, d, z), [differ && ToNat(z) != 0]) == Complement(d, z, differ)
  {
    FromToNat(z);
  }

  method FlipCondition(a: Node, b: Node, absY: Node) returns (r: Node)
    requires Wf(a) && Wf(b) && Wf(absY)
    ensures Wf(r) && Width(r) == 1
    ensures forall env :: Eval(r, env) == [Sign(Eval(a, env)) != Sign(Eval(b, env)) && ToNat(Eval(absY, env)) != 0]
  {
    var sa := SignOf(a);
    var sb := SignOf(b);
    var differ := FBinary(BitwiseXor, sa, sb);
    var nonZero := FUnary(ReduceOr, absY);
    r := FBinary(BitwiseAnd, differ, nonZero);
    forall env ensures Eval(r, env) == [Sign(Eval(a, env)) != Sign(Eval(b, env)) && ToNat(Eval(absY, env)) != 0] {
      FlipBits(Sign(Eval(a, env)), Sign(Eval(b, env)), Eval(absY, env));
    }
  }

  lemma {:induction false} FlipBits(s: bool, t: bool, z: Bv)
    ensures EvalBinary(BitwiseAnd, EvalBinary(BitwiseXor, [s], [t]), EvalUnary(ReduceOr, z)) == [s != t && ToNat(z) != 0]
  {
    ToNatZero(z);
    var p, q := EvalBinary(BitwiseXor, [s], [t]), EvalUnary(ReduceOr, z);
    assert p[0] == (s != t) && q[0] == (ToNat(z) != 0);
    assert EvalBinary(BitwiseAnd, p, q)[0] == (p[0] && q[0]);
  }

  lemma {:induction false} FloorRemainderBits(x: Bv, y: Bv, m: nat, z: Bv, yWidth: nat)
    requires x != [] && |x| == |y| && Value(y, true) != 0
    requires m == M.Rem(Calc.Abs(Value(x, true)), Calc.Abs(Value(y, true)))
    requires z == FromInt(if Sign(x) != Sign(y) && m != 0 then Calc.Abs(Value(y, true)) - m else m, |x|)
    ensures Extend(FromInt(Signed(ToNat(z), Sign(y)), |x|), yWidth, true) == FromInt(FloorRem(Value(x, true), Value(y, true)), yWidth)
  {
    var w, v, u := |x|, Value(x, true), Value(y, true);
    ValueRange(x);
    ValueRange(y);
    var n := if Sign(x) != Sign(y) && m != 0 then Calc.Abs(u) - m else m;
    var f := Signed(n, Sign(y));
    assert FloorRem(v, u) == f;
    Negated(n, w);
    FromToNat(z);
    assert FromInt(Signed(ToNat(z), Sign(y)), w) == FromInt(f, w);
    SmallSigned(f, w);
    ExtendIs(FromInt(f, w), yWidth, true);
  }

  // ------------------------------------------------------------ arithmetic

  /** What the expression computes on integers: the cell's result, and 0 for the powers of 0 that have none. */
  function LoweredResult(op: CellOp, x: int, y: int): Option<int>
    requires op.Arithmetic()
    ensures IntResult(op, x, y).Some? ==> LoweredResult(op, x, y) == IntResult(op, x, y)
  {
    if op.Pow? then Some(IntPower(x, y)) else IntResult(op, x, y)
  }

  /** The expression computes the cell on integers, wherever the cell is defined. */
  ghost predicate Computes(r: Node, op: CellOp, a: Node, b: Node, signed: bool, yWidth: nat)
    requires op.Arithmetic() && Wf(a) && Wf(b)
  {
    && Wf(r) && Width(r) == yWidth
    && forall env ::
         var want := LoweredResult(op, Value(Eval(a, env), signed), Value(Eval(b, env), signed));
         want.Some? ==> Eval(r, env) == FromInt(want.value, yWidth)
  }

  method HandleAddSubMul(op: CellOp, a: Node, b: Node, isSigned: bool, yWidth: nat) returns (r: Node)
    requires (op.Add? || op.Sub? || op.Mul?) && Wf(a) && Wf(b) && yWidth > 0
    ensures Computes(r, op, a, b, isSigned, yWidth)
  {
    var x := FExtend(a, yWidth, isSigned);
    var y := FExtend(b, yWidth, isSigned);
    r := FBinary(if op.Add? then FnAdd else if op.Sub? then FnSub else FnMul, x, y);
    forall env ensures Eval(r, env) ==
                       FromInt(IntResult(op, Value(Eval(a, env), isSigned), Value(Eval(b, env), isSigned)).value, yWidth)
    {
      ArithmeticBits(op, Eval(a, env), Eval(b, env), isSigned, yWidth);
    }
  }

  lemma {:induction false} ArithmeticBits(op: CellOp, x: Bv, y: Bv, isSigned: bool, w: nat)
    requires (op.Add? || op.Sub? || op.Mul?) && w > 0
    ensures EvalBinary(if op.Add? then FnAdd else if op.Sub? then FnSub else FnMul, Extend(x, w, isSigned), Extend(y, w, isSigned))
            == FromInt(IntResult(op, Value(x, isSigned), Value(y, isSigned)).value, w)
  {
    ExtendIs(x, w, isSigned);
    ExtendIs(y, w, isSigned);
    match op
    case Add => ModSum(Value(x, isSigned), Value(y, isSigned), w);
    case Sub => ModDifference(Value(x, isSigned), Value(y, isSigned), w);
    case _ => ModProduct(Value(x, isSigned), Value(y, isSigned), w);
  }

  method HandleDivision(op: CellOp, a0: Node, b0: Node, isSigned: bool, yWidth: nat) returns (r: Node)
    requires (op.Div? || op.Mod? || op.DivFloor? || op.ModFloor?) && Wf(a0) && Wf(b0) && yWidth > 0
    ensures Computes(r, op, a0, b0, isSigned, yWidth)
  {
    var width := Max(Width(a0), Width(b0));
    var a := FExtend(a0, width, isSigned);
    var b := FExtend(b0, width, isSigned);
    forall env ensures Value(Eval(a, env), isSigned) == Value(Eval(a0, env), isSigned) {
      ExtendKeepsValue(Eval(a0, env), width, isSigned);
    }
    forall env ensures Value(Eval(b, env), isSigned) == Value(Eval(b0, env), isSigned) {
      ExtendKeepsValue(Eval(b0, env), width, isSigned);
    }
    if isSigned {
      r := SignedCell(op, a, b, yWidth);
    } else {
      r := UnsignedCell(op, a, b, yWidth);
    }
  }

  method SignedCell(op: CellOp, a: Node, b: Node, yWidth: nat) returns (r: Node)
    requires (op.Div? || op.Mod? || op.DivFloor? || op.ModFloor?) && Wf(a) && Wf(b) && Width(a) == Width(b) && yWidth > 0
    ensures Computes(r, op, a, b, true, yWidth)
  {
    if op.Div? {
      r := SignedDiv(a, b, yWidth);
    } else if op.Mod? {
      r := SignedMod(a, b, yWidth);
    } else if op.DivFloor? {
      r := SignedDivFloor(a, b, yWidth);
    } else {
      r := SignedModFloor(a, b, yWidth);
    }
    forall env | SignedOf(b, env) != 0
      ensures Eval(r, env) == FromInt(IntResult(op, SignedOf(a, env), SignedOf(b, env)).value, yWidth)
    {
    }
  }

  method UnsignedCell(op: CellOp, a: Node, b: Node, yWidth: nat) returns (r: Node)
    requires (op.Div? || op.Mod? || op.DivFloor? || op.ModFloor?) && Wf(a) && Wf(b) && Width(a) == Width(b) && yWidth > 0
    ensures Computes(r, op, a, b, false, yWidth)
  {
    var y;
    if op.Mod? || op.ModFloor? {
      y := ModNode(a, b);
    } else {
      y := DivNode(a, b);
    }
    r := FExtend(y, yWidth, false);
    forall env | ToNat(Eval(b, env)) != 0
      ensures Eval(r, env) == FromInt(IntResult(op, Value(Eval(a, env), false), Value(Eval(b, env), false)).value, yWidth)
    {
      ExtendIs(Eval(y, env), yWidth, false);
    }
  }

  // ----------------------------------------------------------------- power

  method HandlePow(a0: Node, b: Node, yWidth: nat, isSigned: bool) returns (r: Node)
    requires Wf(a0) && Wf(b) && yWidth > 0
    ensures Computes(r, Pow, a0, b, isSigned, yWidth)
  {
    r := SquareAndMultiply(a0, b, yWidth, isSigned);
    if isSigned {
      r := ZeroIfVanishes(r, a0, b);
    }
    forall env ensures IsPower(Eval(r, env), Value(Eval(a0, env), isSigned), Value(Eval(b, env), isSigned)) {
      ReadUnsigned(Value(Eval(a0, env), isSigned), Eval(b, env), isSigned, Eval(r, env));
    }
    PowComputes(r, a0, b, yWidth, isSigned);
  }

  lemma {:induction false} PowComputes(r: Node, a0: Node, b: Node, yWidth: nat, isSigned: bool)
    requires Wf(a0) && Wf(b) && Wf(r) && Width(r) == yWidth
    requires forall env :: IsPower(Eval(r, env), Value(Eval(a0, env), isSigned), Value(Eval(b, env), isSigned))
    ensures Computes(r, Pow, a0, b, isSigned, yWidth)
  {
    forall env
      ensures LoweredResult(Pow, Value(Eval(a0, env), isSigned), Value(Eval(b, env), isSigned)) ==
              Some(IntPower(Value(Eval(a0, env), isSigned), Value(Eval(b, env), isSigned)))
      ensures IsPower(Eval(r, env), Value(Eval(a0, env), isSigned), Value(Eval(b, env), isSigned))
    {
    }
  }

  ghost predicate IsPower(z: Bv, base: int, exponent: int) {
    z == FromInt(IntPower(base, exponent), |z|)
  }

  /** What square-and-multiply gives, or zero where a negative exponent makes the power vanish. */
  ghost predicate IsUnsignedPower(z: Bv, base: int, e: Bv, isSigned: bool)
    requires e != []
  {
    z == FromInt(if isSigned && Calc.Abs(base) > 1 && Value(e, true) < 0 then 0 else Power(base, ToNat(e)), |z|)
  }

  method ZeroIfVanishes(power: Node, a0: Node, b: Node) returns (r: Node)
    requires Wf(power) && Wf(a0) && Wf(b)
    requires forall env :: IsUnsignedPower(Eval(power, env), SignedOf(a0, env), Eval(b, env), false)
    ensures Wf(r) && Width(r) == Width(power)
    ensures forall env :: IsUnsignedPower(Eval(r, env), SignedOf(a0, env), Eval(b, env), true)
  {
    var zeroResult := PowerVanishes(a0, b);
    var zero := FConst(0, Width(power));
    r := FMux(power, zero, zeroResult);
    forall env ensures IsUnsignedPower(Eval(r, env), SignedOf(a0, env), Eval(b, env), true) {
      assert IsUnsignedPower(Eval(power, env), SignedOf(a0, env), Eval(b, env), false);
    }
  }

  /** The loop of `handle_pow`: the power to the unsigned reading of b. */
  method SquareAndMultiply(a0: Node, b: Node, yWidth: nat, isSigned: bool) returns (r: Node)
    requires Wf(a0) && Wf(b) && yWidth > 0
    ensures Wf(r) && Width(r) == yWidth
    ensures forall env :: IsUnsignedPower(Eval(r, env), Value(Eval(a0, env), isSigned), Eval(b, env), false)
  {
    var a := FExtend(a0, yWidth, isSigned);
    r := FConst(1, yWidth);
    forall env ensures PowerSoFar(Eval(r, env), Eval(a, env), Value(Eval(a0, env), isSigned), Eval(b, env), 0, yWidth) {
      ExtendIs(Eval(a0, env), yWidth, isSigned);
      PowerStart(Value(Eval(a0, env), isSigned), Eval(b, env));
    }
    for i := 0 to Width(b)
      invariant PowersSoFar(r, a, a0, b, i, isSigned)
      invariant Width(r) == yWidth
    {
      r, a := PowerRound(r, a, a0, b, i, isSigned);
    }
    forall env ensures IsUnsignedPower(Eval(r, env), Value(Eval(a0, env), isSigned), Eval(b, env), false) {
      PowerEnd(Eval(r, env), Eval(a, env), Value(Eval(a0, env), isSigned), Eval(b, env));
    }
  }

  ghost predicate PowersSoFar(r: Node, a: Node, a0: Node, b: Node, i: nat, isSigned: bool)
    requires Wf(a0) && Wf(b)
  {
    && Wf(r) && Wf(a) && Width(r) == Width(a)
    && forall env :: PowerSoFar(Eval(r, env), Eval(a, env), Value(Eval(a0, env), isSigned), Eval(b, env), i, Width(r))
  }

  method PowerRound(r: Node, a: Node, a0: Node, b: Node, i: nat, isSigned: bool) returns (r': Node, a': Node)
    requires Wf(a0) && Wf(b) && i < Width(b) && PowersSoFar(r, a, a0, b, i, isSigned)
    ensures PowersSoFar(r', a', a0, b, i + 1, isSigned) && Width(r') == Width(r)
  {
    var bBit := FSlice(b, i, 1);
    var product := FBinary(FnMul, r, a);
    r' := FMux(r, product, bBit);
    a' := FBinary(FnMul, a, a);
    forall env
      ensures PowerSoFar(Eval(r', env), Eval(a', env), Value(Eval(a0, env), isSigned), Eval(b, env), i + 1, Width(r))
    {
      PowerBit(Eval(r, env), Eval(a, env), Value(Eval(a0, env), isSigned), Eval(b, env), i, Width(r));
    }
  }

  /** r is base to the power of the low i bits of e, and a is base to the power 2^i. */
  ghost predicate PowerSoFar(r: Bv, a: Bv, base: int, e: Bv, i: nat, w: nat) {
    && i <= |e|
    && r == FromInt(Power(base, ToNat(e[..i])), w)
    && a == FromInt(Power(base, Pow2(i)), w)
  }

  lemma {:induction false} PowerStart(base: int, e: Bv)
    ensures Power(base, ToNat(e[..0])) == 1 && Power(base, Pow2(0)) == base
  {
    assert Power(base, 1) == base * Power(base, 0);
  }

  lemma {:induction false} PowerEnd(r: Bv, a: Bv, base: int, e: Bv)
    requires e != [] && PowerSoFar(r, a, base, e, |e|, |r|)
    ensures IsUnsignedPower(r, base, e, false)
  {
    assert e[..|e|] == e;
  }

  lemma {:induction false} PowerBit(r: Bv, a: Bv, base: int, e: Bv, i: nat, w: nat)
    requires w > 0 && i < |e| && PowerSoFar(r, a, base, e, i, w)
    ensures PowerSoFar(Choose(r, EvalBinary(FnMul, r, a), e[i..i + 1]), EvalBinary(FnMul, a, a), base, e, i + 1, w)
  {
    var n := ToNat(e[..i]);
    assert e[..i + 1] == e[..i] + [e[i]];
    ToNatSnoc(e[..i], e[i]);
    ModProduct(Power(base, n), Power(base, Pow2(i)), w);
    PowerSum(base, n, Pow2(i));
    ModProduct(Power(base, Pow2(i)), Power(base, Pow2(i)), w);
    PowerSum(base, Pow2(i), Pow2(i));
  }

  /** Negative exponents give zero unless the base is a unit. */
  method PowerVanishes(a0: Node, b: Node) returns (r: Node)
    requires Wf(a0) && Wf(b)
    ensures Wf(r) && Width(r) == 1
    ensures forall env :: Eval(r, env) == [Calc.Abs(SignedOf(a0, env)) > 1 && SignedOf(b, env) < 0]
  {
    var absA := AbsOf(a0);
    var one := FConst(1, Width(a0));
    var above := FBinary(UnsignedGreaterThan, absA, one);
    var bSign := SignOf(b);
    r := FBinary(BitwiseAnd, above, bSign);
    Small(1, Width(a0));
    forall env ensures Eval(r, env) == [Calc.Abs(SignedOf(a0, env)) > 1 && SignedOf(b, env) < 0] {
      ValueRange(Eval(b, env));
    }
  }

  /** What the power to the unsigned reading of the exponent is worth. */
  lemma {:induction false} ReadUnsigned(base: int, e: Bv, isSigned: bool, z: Bv)
    requires e != [] && IsUnsignedPower(z, base, e, isSigned)
    ensures IsPower(z, base, Value(e, isSigned))
  {
    var v, n := Value(e, isSigned), ToNat(e);
    if v < 0 {
      if Calc.Abs(base) == 1 {
        UnitPower(base, n, v, Pow2(|e| - 1));
      } else if base == 0 {
        ValueRange(e);
        assert n > 0 && Power(base, n) == 0;
      }
    }
  }

  /** The powers of a unit depend on the parity of the exponent alone. */
  lemma {:induction false} UnitPower(base: int, n: nat, v: int, half: int)
    requires (base == 1 || base == -1) && v < 0 && n == v + 2 * half
    ensures Power(base, n) == IntPower(base, v)
  {
    PowerOfOne(n);
    if base == -1 {
      PowerNegated(1, n);
      assert n % 2 == v % 2;
    }
  }

  // ----------------------------------------------------------- comparisons

  /** What a comparison cell says about two vectors. */
  predicate Compared(op: CellOp, x: Bv, y: Bv, isSigned: bool)
    requires op.Ordering() || op.Eq? || op.Ne?
  {
    if op.Ordering() then IntOrder(op, Value(x, isSigned), Value(y, isSigned))
    else
      var w := Max(|x|, |y|);
      (Extend(x, w, isSigned) == Extend(y, w, isSigned)) == op.Eq?
  }

  method HandleCompare(op: CellOp, a0: Node, b0: Node, isSigned: bool, yWidth: nat) returns (r: Node)
    requires (op.Ordering() || op.Eq? || op.Ne?) && Wf(a0) && Wf(b0) && yWidth > 0
    ensures Wf(r) && Width(r) == yWidth
    ensures forall env :: Eval(r, env) == Lone(Compared(op, Eval(a0, env), Eval(b0, env), isSigned), yWidth)
  {
    var width := Max(Width(a0), Width(b0));
    var a := FExtend(a0, width, isSigned);
    var b := FExtend(b0, width, isSigned);
    var y := CompareNode(op, a, b, isSigned);
    r := FExtend(y, yWidth, false);
    forall env ensures Eval(r, env) == Lone(Compared(op, Eval(a0, env), Eval(b0, env), isSigned), yWidth) {
      ExtendKeepsValue(Eval(a0, env), width, isSigned);
      ExtendKeepsValue(Eval(b0, env), width, isSigned);
      LoneIs(Eval(y, env), yWidth);
    }
  }

  method CompareNode(op: CellOp, a: Node, b: Node, isSigned: bool) returns (y: Node)
    requires (op.Ordering() || op.Eq? || op.Ne?) && Wf(a) && Wf(b) && Width(a) == Width(b)
    ensures Wf(y) && Width(y) == 1
    ensures forall env :: Eval(y, env)[0] == Compared(op, Eval(a, env), Eval(b, env), isSigned)
  {
    if op.Ordering() {
      y := OrderNode(op, a, b, isSigned);
    } else {
      y := FBinary(if op.Eq? then Equal else NotEqual, a, b);
    }
  }

  method OrderNode(op: CellOp, a: Node, b: Node, isSigned: bool) returns (y: Node)
    requires op.Ordering() && Wf(a) && Wf(b) && Width(a) == Width(b)
    ensures Wf(y) && Width(y) == 1
    ensures forall env :: Eval(y, env)[0] == IntOrder(op, Value(Eval(a, env), isSigned), Value(Eval(b, env), isSigned))
  {
    if op.Lt? || op.Gt? {
      y := Above(if op.Lt? then b else a, if op.Lt? then a else b, isSigned, true);
    } else {
      y := Above(if op.Le? then b else a, if op.Le? then a else b, isSigned, false);
    }
  }

  /** The first operand is greater, or at least as great. */
  method Above(a: Node, b: Node, isSigned: bool, strict: bool) returns (y: Node)
    requires Wf(a) && Wf(b) && Width(a) == Width(b)
    ensures Wf(y) && Width(y) == 1
    ensures forall env ::
              var v, u := Value(Eval(a, env), isSigned), Value(Eval(b, env), isSigned);
              Eval(y, env)[0] == (v > u || (!strict && v == u))
  {
    if isSigned {
      y := FBinary(if strict then SignedGreaterThan else SignedGreaterEqual, a, b);
    } else {
      y := FBinary(if strict then UnsignedGreaterThan else UnsignedGreaterEqual, a, b);
    }
  }

  lemma {:induction false} LoneIs(y: Bv, w: nat)
    requires |y| == 1 && w > 0
    ensures Extend(y, w, false) == Lone(y[0], w)
  {
  }

  // ----------------------------------------------------------- shift cells

  /** The width and extension of A in a shift cell. */
  function ShiftOperand(op: CellOp, x: Bv, signed1: bool, yWidth: nat): Bv
    requires op.Shifting()
  {
    Extend(x, if op.Shl? || op.Sshl? then yWidth else Max(|x|, yWidth), signed1 && !op.Shiftx?)
  }

  /** How far up a shift cell reads, for the amount y. */
  function ShiftOffset(op: CellOp, y: Bv, signed2: bool): int
    requires op.Shifting()
  {
    match op
    case Shl => 0 - ToNat(y)
    case Sshl => 0 - ToNat(y)
    case Shr => ToNat(y)
    case Sshr => ToNat(y)
    case _ => Value(y, signed2)
  }

  function ShiftValue(op: CellOp, x: Bv, y: Bv, signed1: bool, signed2: bool, yWidth: nat): (r: Bv)
    requires op.Shifting() && x != [] && yWidth > 0
    ensures |r| == yWidth
  {
    var a := ShiftOperand(op, x, signed1, yWidth);
    ShiftBits(a, ShiftOffset(op, y, signed2), op.Sshr? && signed1 && Sign(a))[..yWidth]
  }

  method HandleShiftCell(op: CellOp, a0: Node, b: Node, aSigned: bool, bSigned: bool, yWidth: nat) returns (r: Node)
    requires op.Shifting() && Wf(a0) && Wf(b) && yWidth > 0
    ensures Wf(r) && Width(r) == yWidth
    ensures forall env :: Eval(r, env) == ShiftValue(op, Eval(a0, env), Eval(b, env), aSigned, bSigned, yWidth)
  {
    if op.Shl? || op.Sshl? {
      var a := FExtend(a0, yWidth, aSigned);
      r := HandleShift(a, b, false, false);
    } else if op.Shr? || op.Sshr? {
      r := HandleRightShift(op, a0, b, aSigned, bSigned, yWidth);
    } else {
      var a := FExtend(a0, Max(Width(a0), yWidth), op.Shift? && aSigned);
      var y := HandleBidirectional(a, b, bSigned);
      r := FExtend(y, yWidth, false);
    }
  }

  method HandleRightShift(op: CellOp, a0: Node, b: Node, aSigned: bool, bSigned: bool, yWidth: nat) returns (r: Node)
    requires (op.Shr? || op.Sshr?) && Wf(a0) && Wf(b) && yWidth > 0
    ensures Wf(r) && Width(r) == yWidth
    ensures forall env :: Eval(r, env) == ShiftValue(op, Eval(a0, env), Eval(b, env), aSigned, bSigned, yWidth)
  {
    var a := FExtend(a0, Max(Width(a0), yWidth), aSigned);
    var y := HandleShift(a, b, true, aSigned && op.Sshr?);
    r := FExtend(y, yWidth, aSigned);
  }

  /** $shift and $shiftx: a negative amount shifts left by its magnitude. */
  method HandleBidirectional(a: Node, b: Node, bSigned: bool) returns (r: Node)
    requires Wf(a) && Wf(b)
    ensures Wf(r) && Width(r) == Width(a)
    ensures forall env :: Eval(r, env) == ShiftBits(Eval(a, env), Value(Eval(b, env), bSigned), false)
  {
    r := HandleShift(a, b, true, false);
    if bSigned {
      var minusB := FUnary(UnaryMinus, b);
      var shl := HandleShift(a, minusB, false, false);
      r := LeftIfNegative(a, b, r, minusB, shl);
    }
  }

  method LeftIfNegative(a: Node, b: Node, shr: Node, minusB: Node, shl: Node) returns (r: Node)
    requires Wf(a) && Wf(b) && Wf(shr) && Wf(minusB) && Wf(shl) && Width(shr) == Width(shl)
    requires forall env :: Eval(minusB, env) == EvalUnary(UnaryMinus, Eval(b, env))
    requires forall env :: IsShift(Eval(shr, env), Eval(a, env), ToNat(Eval(b, env)), true, false)
    requires forall env :: IsShift(Eval(shl, env), Eval(a, env), ToNat(Eval(minusB, env)), false, false)
    ensures Wf(r) && Width(r) == Width(shr)
    ensures forall env :: Eval(r, env) == ShiftBits(Eval(a, env), Value(Eval(b, env), true), false)
  {
    var bSign := SignOf(b);
    r := FMux(shr, shl, bSign);
    forall env ensures Eval(r, env) == ShiftBits(Eval(a, env), Value(Eval(b, env), true), false) {
      assert IsShift(Eval(shl, env), Eval(a, env), ToNat(Eval(minusB, env)), false, false);
      ShiftedEitherWay(Eval(a, env), Eval(b, env), Eval(shr, env), Eval(shl, env));
    }
  }

  lemma {:induction false} ShiftedEitherWay(x: Bv, y: Bv, right: Bv, left: Bv)
    requires y != [] && IsShift(right, x, ToNat(y), true, false) && IsShift(left, x, ToNat(EvalUnary(UnaryMinus, y)), false, false)
    ensures Choose(right, left, [Sign(y)]) == ShiftBits(x, Value(y, true), false)
  {
    AbsBits(y);
    ValueRange(y);
  }

  // -------------------------------------------------- against the evaluator

  lemma {:induction false} ArithmeticCompletes(op: CellOp, x: Bv, y: Bv, c: Const, d: Const, signed: bool, r: Bv)
    requires op.Arithmetic() && Completes(x, c) && Completes(y, d)
    requires op.Pow? ==> PowConservative(c, d, signed, |r|)
    requires var want := LoweredResult(op, Value(x, signed), Value(y, signed)); want.Some? ==> r == FromInt(want.value, |r|)
    ensures Completes(r, Arithmetic(op, c, d, signed, signed, |r|))
  {
    if r == [] {
    } else if op.Pow? {
      PowExact(c, d, signed, |r|);
      assert PowAgrees(x, y, c, d, signed, |r|);
    } else if FullyDefined(c) && FullyDefined(d) {
      OnlyCompletion(x, c);
      OnlyCompletion(y, d);
      BigIsValue(x, signed);
      BigIsValue(y, signed);
    }
  }

  lemma {:induction false} OrderCompletes(op: CellOp, x: Bv, y: Bv, c: Const, d: Const, signed: bool, w: nat)
    requires op.Ordering() && Completes(x, c) && Completes(y, d) && w > 0
    ensures Completes(Lone(IntOrder(op, Value(x, signed), Value(y, signed)), w), Ordered(op, c, d, signed, signed, w))
  {
    if FullyDefined(c) && FullyDefined(d) {
      OnlyCompletion(x, c);
      OnlyCompletion(y, d);
      BigIsValue(x, signed);
      BigIsValue(y, signed);
    }
  }

  lemma {:induction false} EqualCompletes(x: Bv, y: Bv, c: Const, d: Const, w: nat)
    requires Completes(x, c) && Completes(y, d) && |x| == |y| && w > 0
    ensures Completes(Lone(x == y, w), Flag(Matched(c, d), w))
    ensures Completes(Lone(x != y, w), Flag(Flipped(Matched(c, d)), w))
  {
    if i :| 0 <= i < |c| && c[i].Defined() && d[i].Defined() && c[i] != d[i] {
      assert x[i] != y[i];
    } else if FullyDefined(c) && FullyDefined(d) {
      forall i | 0 <= i < |x| ensures x[i] == y[i] {
        assert c[i].Defined() && d[i].Defined();
      }
    }
  }

  lemma {:induction false} ShiftCompletes(op: CellOp, x: Bv, y: Bv, c: Const, d: Const, signed1: bool, signed2: bool, w: nat)
    requires op.Shifting() && Completes(x, c) && Completes(y, d) && x != [] && w > 0
    requires (op.Sshl? || op.Sshr?) ==> signed1
    ensures Completes(ShiftValue(op, x, y, signed1, signed2, w), ShiftResult(op, c, d, signed1, signed2, w))
  {
    if FullyDefined(d) {
      OnlyCompletion(y, d);
      BigIsValue(y, false);
      BigIsValue(y, signed2);
      if op.Shl? || op.Sshl? {
        LeftCompletes(op, x, y, c, d, signed1, signed2, w);
      } else if op.Shr? || op.Sshr? {
        RightCompletes(op, x, y, c, d, signed1, signed2, w);
      } else {
        EitherWayCompletes(op, x, y, c, d, signed1, signed2, w);
      }
    }
  }

  /** What a vector and a constant give at a position, which may be past either end. */
  function BitAt(a: Bv, pos: int, high: bool): bool {
    if pos < 0 then false else if pos >= |a| then high else a[pos]
  }

  function StateAt(c: Const, pos: int, low: State, high: State): State {
    if pos < 0 then low else if pos >= |c| then high else c[pos]
  }

  predicate Agrees(s: State, b: bool) {
    s.Defined() ==> s == OfBool(b)
  }

  /** The constant, which may be shorter, has the vector's bits, up to position w from where it is read. */
  ghost predicate Represents(a: Bv, high: bool, c: Const, low: State, high': State, w: nat) {
    && Agrees(low, false) && Agrees(high', high)
    && forall j {:trigger StateAt(c, j, low, high')} | 0 <= j < |a| && j < w :: Agrees(StateAt(c, j, low, high'), a[j])
  }

  lemma {:induction false} ShiftedCompletes(a: Bv, high: bool, c: Const, low: State, high': State, n: int, w: nat)
    requires w <= |a| && if n <= 0 then Represents(a, high, c, low, high', w)
                         else Represents(a, high, c, low, high', |a|) && |c| <= |a|
    ensures Completes(ShiftBits(a, n, high)[..w], Shifted(c, n, low, high', w))
  {
    var value, result := ShiftBits(a, n, high)[..w], Shifted(c, n, low, high', w);
    forall i | 0 <= i < w ensures Agrees(result[i], value[i]) {
      var pos := i + n;
      assert value[i] == BitAt(a, pos, high);
      assert result[i] == StateAt(c, pos, low, high');
    }
  }

  lemma {:induction false} RepresentsExtended(x: Bv, c: Const, m: nat, signed: bool, w: nat)
    requires Completes(x, c)
    ensures Represents(Extend(x, m, signed), false, ExtendU0(c, m, signed), S0, S0, w)
  {
    CompletesExtended(x, c, m, signed);
  }

  /** Extended by the sign bit, or by undefined bits, the constant itself will do. */
  lemma {:induction false} RepresentsItself(x: Bv, c: Const, m: nat, signed: bool, high: bool, low: State, high': State, w: nat)
    requires Completes(x, c) && x != [] && w <= m && Agrees(low, false) && Agrees(high', high)
    requires Agrees(high', signed && Sign(x))
    ensures Represents(Extend(x, m, signed), high, c, low, high', w)
  {
    var a := Extend(x, m, signed);
    forall j {:trigger StateAt(c, j, low, high')} | 0 <= j < |a| && j < w ensures Agrees(StateAt(c, j, low, high'), a[j]) {
      if j < |x| {
        assert a[j] == x[j];
      } else {
        assert a[j] == (signed && Sign(x));
      }
    }
  }

  lemma {:induction false} LeftCompletes(op: CellOp, x: Bv, y: Bv, c: Const, d: Const, signed1: bool, signed2: bool, w: nat)
    requires (op.Shl? || op.Sshl?) && Completes(x, c) && x != [] && w > 0 && (op.Sshl? ==> signed1)
    requires FullyDefined(d) && Big(d, false) == ToNat(y)
    ensures Completes(ShiftValue(op, x, y, signed1, signed2, w), ShiftResult(op, c, d, signed1, signed2, w))
  {
    var n, a := -Big(d, false), Extend(x, w, signed1);
    if op.Shl? {
      var c' := ExtendU0(c, w, signed1);
      RepresentsExtended(x, c, w, signed1, w);
      ShiftedCompletes(a, false, c', S0, S0, n, w);
      assert ShiftResult(op, c, d, signed1, signed2, w) == Shifted(c', n, S0, S0, w);
    } else {
      var high := c[|c| - 1];
      RepresentsItself(x, c, w, signed1, Sign(x), S0, high, w);
      ShiftedCompletes(a, Sign(x), c, S0, high, n, w);
      assert ShiftBits(a, n, Sign(x)) == ShiftBits(a, n, false);
      assert ShiftResult(op, c, d, signed1, signed2, w) == Shifted(c, n, S0, high, w);
    }
  }

  lemma {:induction false} RightCompletes(op: CellOp, x: Bv, y: Bv, c: Const, d: Const, signed1: bool, signed2: bool, w: nat)
    requires (op.Shr? || op.Sshr?) && Completes(x, c) && x != [] && w > 0 && (op.Sshr? ==> signed1)
    requires FullyDefined(d) && Big(d, false) == ToNat(y)
    ensures Completes(ShiftValue(op, x, y, signed1, signed2, w), ShiftResult(op, c, d, signed1, signed2, w))
  {
    var n, m := Big(d, false), Max(|x|, w);
    var a := Extend(x, m, signed1);
    if op.Shr? {
      var c' := ExtendU0(c, m, signed1);
      RepresentsExtended(x, c, m, signed1, if n <= 0 then w else m);
      ShiftedCompletes(a, false, c', S0, S0, n, w);
      assert ShiftResult(op, c, d, signed1, signed2, w) == Shifted(c', n, S0, S0, w);
    } else {
      var high := c[|c| - 1];
      assert Sign(a) == Sign(x);
      RepresentsItself(x, c, m, signed1, Sign(x), S0, high, if n <= 0 then w else m);
      ShiftedCompletes(a, Sign(x), c, S0, high, n, w);
      assert ShiftResult(op, c, d, signed1, signed2, w) == Shifted(c, n, S0, high, w);
    }
  }

  lemma {:induction false} EitherWayCompletes(op: CellOp, x: Bv, y: Bv, c: Const, d: Const, signed1: bool, signed2: bool, w: nat)
    requires (op.Shift? || op.Shiftx?) && Completes(x, c) && x != [] && w > 0
    requires FullyDefined(d) && Big(d, signed2) == Value(y, signed2)
    ensures Completes(ShiftValue(op, x, y, signed1, signed2, w), ShiftResult(op, c, d, signed1, signed2, w))
  {
    var n, m := Big(d, signed2), Max(|x|, w);
    if op.Shift? {
      var a, c' := Extend(x, m, signed1), ExtendU0(c, m, signed1);
      RepresentsExtended(x, c, m, signed1, if n <= 0 then w else m);
      ShiftedCompletes(a, false, c', S0, S0, n, w);
      assert ShiftResult(op, c, d, signed1, signed2, w) == Shifted(c', n, S0, S0, w);
    } else {
      var a := Extend(x, m, false);
      RepresentsItself(x, c, m, false, false, Sx, Sx, if n <= 0 then w else m);
      ShiftedCompletes(a, false, c, Sx, Sx, n, w);
      assert ShiftResult(op, c, d, signed1, signed2, w) == Shifted(c, n, Sx, Sx, w);
    }
  }

  /**
   * The expression agrees with the evaluator's constant on every bit that is
   * defined there; for powers, wherever the evaluator is conservative.
   */
  ghost predicate Implements(r: Node, op: CellOp, a: Node, b: Node, aSigned: bool, bSigned: bool, yWidth: nat)
    requires Wf(a) && Wf(b) && yWidth > 0
  {
    && Wf(r) && Width(r) == yWidth
    && forall env, c, d ::
         Completes(Eval(a, env), c) && Completes(Eval(b, env), d) && (op.Pow? ==> PowConservative(c, d, aSigned && bSigned, yWidth))
         ==> Completes(Eval(r, env), CellResult(op, c, d, aSigned, bSigned, yWidth))
  }

  /** `CellSimplifier::handle` for two-operand cells. */
  method Handle(op: CellOp, a: Node, b: Node, aSigned: bool, bSigned: bool, yWidth: nat) returns (r: Node)
    requires Wf(a) && Wf(b) && yWidth > 0
    ensures Implements(r, op, a, b, aSigned, bSigned, yWidth)
  {
    if op.Arithmetic() {
      r := HandleArithmetic(op, a, b, aSigned && bSigned, yWidth);
      ArithmeticImplements(r, op, a, b, aSigned, bSigned, yWidth);
    } else if op.Shifting() {
      r := HandleShiftCell(op, a, b, aSigned, bSigned, yWidth);
      ShiftImplements(r, op, a, b, aSigned, bSigned, yWidth);
    } else {
      r := HandleCompare(op, a, b, aSigned && bSigned, yWidth);
      CompareImplements(r, op, a, b, aSigned, bSigned, yWidth);
    }
  }

  method HandleArithmetic(op: CellOp, a: Node, b: Node, isSigned: bool, yWidth: nat) returns (r: Node)
    requires op.Arithmetic() && Wf(a) && Wf(b) && yWidth > 0
    ensures Computes(r, op, a, b, isSigned, yWidth)
  {
    if op.Add? || op.Sub? || op.Mul? {
      r := HandleAddSubMul(op, a, b, isSigned, yWidth);
    } else if op.Pow? {
      r := HandlePow(a, b, yWidth, isSigned);
    } else {
      r := HandleDivision(op, a, b, isSigned, yWidth);
    }
  }

  lemma {:induction false} ArithmeticAgrees(op: CellOp, x: Bv, y: Bv, c: Const, d: Const, aSigned: bool, bSigned: bool, r: Bv, w: nat)
    requires op.Arithmetic() && Completes(x, c) && Completes(y, d) && |r| == w > 0
    requires op.Pow? ==> PowConservative(c, d, aSigned && bSigned, w)
    requires var want := LoweredResult(op, Value(x, aSigned && bSigned), Value(y, aSigned && bSigned));
             want.Some? ==> r == FromInt(want.value, w)
    ensures Completes(r, CellResult(op, c, d, aSigned, bSigned, w))
  {
    ArithmeticCompletes(op, x, y, c, d, aSigned && bSigned, r);
  }

  lemma {:induction false} ArithmeticImplements(r: Node, op: CellOp, a: Node, b: Node, aSigned: bool, bSigned: bool, yWidth: nat)
    requires op.Arithmetic() && Wf(a) && Wf(b) && yWidth > 0
    requires Computes(r, op, a, b, aSigned && bSigned, yWidth)
    ensures Implements(r, op, a, b, aSigned, bSigned, yWidth)
  {
    forall env, c, d | Completes(Eval(a, env), c) && Completes(Eval(b, env), d) && (op.Pow? ==> PowConservative(c, d, aSigned && bSigned, yWidth))
      ensures Completes(Eval(r, env), CellResult(op, c, d, aSigned, bSigned, yWidth))
    {
      ArithmeticAgrees(op, Eval(a, env), Eval(b, env), c, d, aSigned, bSigned, Eval(r, env), yWidth);
    }
  }

  lemma {:induction false} ShiftImplements(r: Node, op: CellOp, a: Node, b: Node, aSigned: bool, bSigned: bool, yWidth: nat)
    requires op.Shifting() && Wf(a) && Wf(b) && yWidth > 0
    requires Wf(r) && Width(r) == yWidth
    requires forall env :: Eval(r, env) == ShiftValue(op, Eval(a, env), Eval(b, env), aSigned, bSigned, yWidth)
    ensures Implements(r, op, a, b, aSigned, bSigned, yWidth)
  {
    forall env, c, d | Completes(Eval(a, env), c) && Completes(Eval(b, env), d)
      ensures Completes(Eval(r, env), CellResult(op, c, d, aSigned, bSigned, yWidth))
    {
      ShiftAgrees(op, Eval(a, env), Eval(b, env), c, d, aSigned, bSigned, yWidth);
    }
  }

  lemma {:induction false} ShiftAgrees(op: CellOp, x: Bv, y: Bv, c: Const, d: Const, aSigned: bool, bSigned: bool, w: nat)
    requires op.Shifting() && Completes(x, c) && Completes(y, d) && x != [] && w > 0
    ensures Completes(ShiftValue(op, x, y, aSigned, bSigned, w), CellResult(op, c, d, aSigned, bSigned, w))
  {
    ShiftValueEffective(op, x, y, aSigned, bSigned, w);
    ShiftCompletes(EffectiveOp(op, aSigned), x, y, c, d, aSigned, bSigned, w);
  }

  lemma {:induction false} CompareImplements(r: Node, op: CellOp, a: Node, b: Node, aSigned: bool, bSigned: bool, yWidth: nat)
    requires (op.Ordering() || op.Eq? || op.Ne?) && Wf(a) && Wf(b) && yWidth > 0
    requires Wf(r) && Width(r) == yWidth
    requires forall env :: Eval(r, env) == Lone(Compared(op, Eval(a, env), Eval(b, env), aSigned && bSigned), yWidth)
    ensures Implements(r, op, a, b, aSigned, bSigned, yWidth)
  {
    forall env, c, d | Completes(Eval(a, env), c) && Completes(Eval(b, env), d)
      ensures Completes(Eval(r, env), CellResult(op, c, d, aSigned, bSigned, yWidth))
    {
      CompareCompletes(op, Eval(a, env), Eval(b, env), c, d, aSigned, bSigned, yWidth);
    }
  }

  /** An unsigned arithmetic shift is the logical one. */
  lemma {:induction false} ShiftValueEffective(op: CellOp, x: Bv, y: Bv, signed1: bool, signed2: bool, w: nat)
    requires op.Shifting() && x != [] && w > 0
    ensures ShiftValue(EffectiveOp(op, signed1), x, y, signed1, signed2, w) == ShiftValue(op, x, y, signed1, signed2, w)
  {
  }

  lemma {:induction false} EqualityCompletes(op: CellOp, x: Bv, y: Bv, c: Const, d: Const, aSigned: bool, bSigned: bool, w: nat)
    requires (op.Eq? || op.Ne?) && Completes(x, c) && Completes(y, d) && w > 0
    ensures Completes(Lone(Compared(op, x, y, aSigned && bSigned), w), CellResult(op, c, d, aSigned, bSigned, w))
  {
    var s, m := aSigned && bSigned, Max(|x|, |y|);
    CompletesExtended(x, c, m, s);
    CompletesExtended(y, d, m, s);
    var x', y', c', d' := Extend(x, m, s), Extend(y, m, s), ExtendU0(c, m, s), ExtendU0(d, m, s);
    EqualCompletes(x', y', c', d', w);
    if op.Eq? {
      assert CellResult(op, c, d, aSigned, bSigned, w) == Flag(Matched(c', d'), w);
      assert Compared(op, x, y, s) == (x' == y');
    } else {
      assert CellResult(op, c, d, aSigned, bSigned, w) == Flag(Flipped(Matched(c', d')), w);
      assert Compared(op, x, y, s) == (x' != y');
    }
  }

  lemma {:induction false} OrderAgrees(op: CellOp, x: Bv, y: Bv, c: Const, d: Const, aSigned: bool, bSigned: bool, w: nat)
    requires op.Ordering() && Completes(x, c) && Completes(y, d) && w > 0
    ensures Completes(Lone(Compared(op, x, y, aSigned && bSigned), w), CellResult(op, c, d, aSigned, bSigned, w))
  {
    var s := aSigned && bSigned;
    assert CellResult(op, c, d, aSigned, bSigned, w) == Ordered(op, c, d, s, s, w);
    OrderCompletes(op, x, y, c, d, s, w);
  }

  lemma {:induction false} CompareCompletes(op: CellOp, x: Bv, y: Bv, c: Const, d: Const, aSigned: bool, bSigned: bool, w: nat)
    requires (op.Ordering() || op.Eq? || op.Ne?) && Completes(x, c) && Completes(y, d) && w > 0
    ensures Completes(Lone(Compared(op, x, y, aSigned && bSigned), w), CellResult(op, c, d, aSigned, bSigned, w))
  {
    if op.Ordering() {
      OrderAgrees(op, x, y, c, d, aSigned, bSigned, w);
    } else {
      EqualityCompletes(op, x, y, c, d, aSigned, bSigned, w);
    }
  }
}
