/**
 * Evaluation of cells on constants (`kernel/calc.cc`).
 *
 * A constant is a sequence of four-valued bits; `BigInteger` is modelled by
 * the unbounded integers.
 */
module Calc {
  import opened Rtlil
  import opened Wrappers
  import opened Bits
  import M = Multiples

  type Const = seq<State>

  function AllOf(s: State, n: nat): (r: Const)
    ensures |r| == n
  {
    seq(n, _ => s)
  }

  function ToConst(a: Bv): (r: Const)
    ensures |r| == |a|
  {
    seq(|a|, i requires 0 <= i < |a| => OfBool(a[i]))
  }

  /** Which bits of a constant are s. */
  function Marks(val: Const, s: State): (r: Bv)
    ensures |r| == |val|
  {
    seq(|val|, i requires 0 <= i < |val| => val[i] == s)
  }

  /** The vector agrees with every defined bit of the constant. */
  predicate Completes(a: Bv, c: Const) {
    && |a| == |c|
    && forall i :: 0 <= i < |a| && c[i].Defined() ==> c[i] == OfBool(a[i])
  }

  lemma {:induction false} OnlyCompletion(a: Bv, c: Const)
    requires Completes(a, c) && FullyDefined(c)
    ensures c == ToConst(a) && Marks(c, S1) == a
  {
  }

  // ------------------------------------------------- integers and constants

  /** The integer read from a constant; undefined bits count as the bit that adds nothing. */
  function Big(val: Const, signed: bool): int {
    if signed && val != [] && val[|val| - 1] == S1 then 0 - ToNat(Marks(val[..|val| - 1], S0)) - 1
    else ToNat(Marks(val, S1))
  }

  lemma {:induction false} BigIsValue(a: Bv, signed: bool)
    ensures Big(ToConst(a), signed) == Value(a, signed)
  {
    var c := ToConst(a);
    assert Marks(c, S1) == a;
    if signed && a != [] && a[|a| - 1] {
      var low := a[..|a| - 1];
      assert Marks(c[..|a| - 1], S0) == Not(low);
      NotComplements(low);
      ToNatSnoc(low, true);
      assert a == low + [true];
    }
  }

  lemma {:induction false} NotComplements(a: Bv)
    ensures ToNat(Not(a)) + ToNat(a) == Pow2(|a|) - 1
  {
    if a != [] {
      NotComplements(a[1..]);
      assert Not(a)[1..] == Not(a[1..]);
    }
  }

  lemma {:induction false} PrefixStep(val: Const, s: State, i: nat)
    requires i < |val|
    ensures ToNat(Marks(val[..i + 1], s)) == ToNat(Marks(val[..i], s)) + (if val[i] == s then Pow2(i) else 0)
    ensures FullyDefined(val[..i + 1]) <==> FullyDefined(val[..i]) && val[i].Defined()
  {
    assert val[..i + 1] == val[..i] + [val[i]];
    assert Marks(val[..i + 1], s) == Marks(val[..i], s) + [val[i] == s];
    ToNatSnoc(Marks(val[..i], s), val[i] == s);
  }

  method Const2Big(val: Const, asSigned: bool, undefBitPos: int) returns (n: int, undefBitPos': int)
    ensures n == Big(val, asSigned)
    ensures undefBitPos' < 0 <==> undefBitPos < 0 && FullyDefined(val)
  {
    undefBitPos' := undefBitPos;
    var mag := 0;
    var negative := false;
    var invSignBit := S1;
    var numBits := |val|;
    if asSigned && numBits > 0 && val[numBits - 1] == S1 {
      invSignBit := S0;
      negative := true;
      numBits := numBits - 1;
    }
    for i := 0 to numBits
      invariant mag == ToNat(Marks(val[..i], invSignBit))
      invariant undefBitPos' < 0 <==> undefBitPos < 0 && FullyDefined(val[..i])
    {
      PrefixStep(val, invSignBit, i);
      if val[i].Defined() {
        if val[i] == invSignBit {
          mag := mag + Pow2(i);
        }
      } else if undefBitPos' < 0 {
        undefBitPos' := i;
      }
    }
    assert val[..|val|] == val;
    if negative {
      mag := mag + 1;
      PrefixStep(val, S1, numBits);
    }
    n := if negative then -mag else mag;
  }

  method Big2Const(val: int, resultLen: nat, undefBitPos: int) returns (r: Const)
    ensures r == if undefBitPos >= 0 then AllOf(Sx, resultLen) else ToConst(FromInt(val, resultLen))
  {
    if undefBitPos >= 0 {
      return AllOf(Sx, resultLen);
    }
    r := AllOf(S0, resultLen);
    FillIs(resultLen);
    if val == 0 {
      return;
    }
    var mag := if val < 0 then -val - 1 else val;
    NotIs(mag, resultLen);
    for i := 0 to resultLen
      invariant |r| == resultLen
      invariant forall k | 0 <= k < i :: r[k] == OfBool(FromInt(val, resultLen)[k])
    {
      FromIntAt(mag, resultLen, i);
      r := r[i := OfBool(Bit(mag, i) != (val < 0))];
    }
  }

  // -------------------------------------------------------------- meanings

  function Abs(n: int): nat {
    if n < 0 then -n else n
  }

  /** Division rounding toward zero. */
  ghost predicate IsTruncDivision(a: int, b: int, q: int, r: int) {
    a == q * b + r && Abs(r) < Abs(b) && (r == 0 || (r < 0 <==> a < 0))
  }

  /** Division rounding down: the remainder has the sign of the divisor. */
  ghost predicate IsFloorDivision(a: int, b: int, q: int, r: int) {
    a == q * b + r && Abs(r) < Abs(b) && (r == 0 || (r < 0 <==> b < 0))
  }

  function TruncQuot(a: int, b: int): int
    requires b != 0
  {
    if (a < 0) != (b < 0) then 0 - M.Quot(Abs(a), Abs(b)) else M.Quot(Abs(a), Abs(b))
  }

  function TruncRem(a: int, b: int): int
    requires b != 0
  {
    if a < 0 then 0 - M.Rem(Abs(a), Abs(b)) else M.Rem(Abs(a), Abs(b))
  }

  function FloorQuot(a: int, b: int): int
    requires b != 0
  {
    if (a < 0) == (b < 0) || a == 0 then M.Quot(Abs(a), Abs(b)) else 0 - M.Quot(Abs(a) + Abs(b) - 1, Abs(b))
  }

  function FloorRem(a: int, b: int): int
    requires b != 0
  {
    var t := TruncRem(a, b);
    if t == 0 || (a < 0) == (b < 0) then t else t + b
  }

  lemma {:induction false} TruncIsDivision(a: int, b: int)
    requires b != 0
    ensures IsTruncDivision(a, b, TruncQuot(a, b), TruncRem(a, b))
  {
    M.QuotRem(Abs(a), Abs(b));
    SignedProduct(M.Quot(Abs(a), Abs(b)), b);
  }

  lemma {:induction false} SignedProduct(q: int, b: int)
    ensures q * b == (if b < 0 then -(q * Abs(b)) else q * Abs(b))
    ensures (-q) * b == (if b < 0 then q * Abs(b) else -(q * Abs(b)))
  {
  }

  lemma {:induction false} Signs(q: int, y: int)
    ensures (-q) * y == -(q * y) && q * (-y) == -(q * y) && (-q) * (-y) == q * y
  {
  }

  lemma {:induction false} CeilQuotient(x: nat, y: nat)
    requires y > 0
    ensures M.Quot(x + y - 1, y) == if M.Rem(x, y) == 0 then M.Quot(x, y) else M.Quot(x, y) + 1
    decreases x
  {
    if x >= y {
      CeilQuotient(x - y, y);
    }
  }

  lemma {:induction false} FloorIsDivision(a: int, b: int)
    requires b != 0
    ensures IsFloorDivision(a, b, FloorQuot(a, b), FloorRem(a, b))
  {
    TruncIsDivision(a, b);
    var x, y := Abs(a), Abs(b);
    CeilQuotient(x, y);
    var q, r := TruncQuot(a, b), TruncRem(a, b);
    if (a < 0) == (b < 0) || a == 0 || M.Rem(x, y) == 0 {
      assert FloorQuot(a, b) == q && FloorRem(a, b) == r;
    } else {
      assert FloorQuot(a, b) == q - 1 && FloorRem(a, b) == r + b;
      Distribute(q - 1, 1, b);
    }
  }

  /** Both divisions are determined. */
  lemma {:induction false} DivisionUnique(a: int, b: int, q: int, r: int, q': int, r': int)
    requires b != 0
    requires (IsTruncDivision(a, b, q, r) && IsTruncDivision(a, b, q', r')) || (IsFloorDivision(a, b, q, r) && IsFloorDivision(a, b, q', r'))
    ensures q == q' && r == r'
  {
    assert (q - q') * b == r' - r;
    if q > q' {
      assert Abs((q - q') * b) >= Abs(b) by { AbsProduct(q - q', b); }
    } else if q < q' {
      assert Abs((q - q') * b) >= Abs(b) by { AbsProduct(q - q', b); }
    }
  }

  lemma {:induction false} AbsProduct(k: int, b: int)
    requires k != 0
    ensures Abs(k * b) >= Abs(b)
  {
    if k > 0 && b >= 0 {
      assert k * b >= b;
    } else if k > 0 {
      assert k * b <= b;
    } else if b >= 0 {
      assert k * b <= -b;
    } else {
      assert k * b >= -b;
    }
  }

  function Power(a: int, n: nat): int {
    if n == 0 then 1 else a * Power(a, n - 1)
  }

  lemma {:induction false} PowerSum(a: int, m: nat, n: nat)
    ensures Power(a, m + n) == Power(a, m) * Power(a, n)
  {
    if m > 0 {
      PowerSum(a, m - 1, n);
      Associate(a, Power(a, m - 1), Power(a, n));
    }
  }

  lemma {:induction false} Associate(a: int, b: int, c: int)
    ensures a * (b * c) == (a * b) * c
  {
  }

  lemma {:induction false} PowerSquare(a: int, n: nat)
    ensures Power(a * a, n) == Power(a, 2 * n)
  {
    if n > 0 {
      PowerSquare(a, n - 1);
      assert 2 * n == 1 + (1 + 2 * (n - 1));
      Associate(a, a, Power(a, 2 * (n - 1)));
    }
  }

  lemma {:induction false} PowerNegated(a: int, n: nat)
    ensures Power(-a, n) == if n % 2 == 0 then Power(a, n) else -Power(a, n)
  {
    if n > 0 {
      PowerNegated(a, n - 1);
      Signs(a, Power(a, n - 1));
    }
  }

  /** a to the power b; for negative b the fraction is rounded toward zero. */
  function IntPower(a: int, b: int): int {
    if b >= 0 then Power(a, b)
    else if a == 1 then 1
    else if a == -1 then if b % 2 == 0 then 1 else -1
    else 0
  }

  lemma {:induction false} NegativePower(a: int, b: int)
    requires b < 0 && a != 0
    ensures Power(a, -b) != 0 && IntPower(a, b) == TruncQuot(1, Power(a, -b))
  {
    PowerAtLeast(a, -b);
    if Abs(a) == 1 {
      PowerOfOne(-b);
      PowerNegated(1, -b);
    } else {
    }
  }

  lemma {:induction false} PowerOfOne(n: nat)
    ensures Power(1, n) == 1
  {
    if n > 0 {
      PowerOfOne(n - 1);
    }
  }

  lemma {:induction false} PowerAtLeast(a: int, n: nat)
    requires a != 0
    ensures Abs(Power(a, n)) >= 1
    ensures n > 0 ==> Abs(Power(a, n)) >= Abs(a)
  {
    if n > 0 {
      PowerAtLeast(a, n - 1);
      AbsProduct(Power(a, n - 1), a);
    }
  }

  // ---------------------------------------------------------- arithmetic

  datatype CellOp =
    Add | Sub | Mul | Div | Mod | DivFloor | ModFloor | Pow |
    Lt | Le | Ge | Gt | Eq | Ne |
    Shl | Shr | Sshl | Sshr | Shift | Shiftx
  {
    predicate Arithmetic() {
      Add? || Sub? || Mul? || Div? || Mod? || DivFloor? || ModFloor? || Pow?
    }

    predicate Ordering() {
      Lt? || Le? || Ge? || Gt?
    }

    predicate Shifting() {
      Shl? || Shr? || Sshl? || Sshr? || Shift? || Shiftx?
    }
  }

  /** What an arithmetic cell means on integers. */
  function IntResult(op: CellOp, a: int, b: int): Option<int>
    requires op.Arithmetic()
  {
    match op
    case Add => Some(a + b)
    case Sub => Some(a - b)
    case Mul => Some(a * b)
    case Pow => if a == 0 && b < 0 then None else Some(IntPower(a, b))
    case Div => if b == 0 then None else Some(TruncQuot(a, b))
    case Mod => if b == 0 then None else Some(TruncRem(a, b))
    case DivFloor => if b == 0 then None else Some(FloorQuot(a, b))
    case _ => if b == 0 then None else Some(FloorRem(a, b))
  }

  function Rounded(result: Option<int>, defined: bool, len: nat): (r: Const)
    ensures |r| == len
  {
    if defined && result.Some? then ToConst(FromInt(result.value, len)) else AllOf(Sx, len)
  }

  ghost function Arithmetic(op: CellOp, a: Const, b: Const, signed1: bool, signed2: bool, len: nat): (r: Const)
    requires op.Arithmetic()
    ensures |r| == len
  {
    var x, y := Big(a, signed1), Big(b, signed2);
    if op.Pow? && x == 0 && y > 0 then AllOf(S0, len)
    else Rounded(IntResult(op, x, y), FullyDefined(a) && FullyDefined(b), len)
  }

  method ConstAdd(arg1: Const, arg2: Const, signed1: bool, signed2: bool, resultLen: nat) returns (r: Const)
    ensures r == Arithmetic(Add, arg1, arg2, signed1, signed2, resultLen)
    ensures var x, y := Big(arg1, signed1), Big(arg2, signed2);
            r == if FullyDefined(arg1) && FullyDefined(arg2) then ToConst(FromInt(x + y, resultLen)) else AllOf(Sx, resultLen)
  {
    var a, undef := Const2Big(arg1, signed1, -1);
    var b, undef' := Const2Big(arg2, signed2, undef);
    r := Big2Const(a + b, resultLen, undef');
  }

  method ConstSub(arg1: Const, arg2: Const, signed1: bool, signed2: bool, resultLen: nat) returns (r: Const)
    ensures r == Arithmetic(Sub, arg1, arg2, signed1, signed2, resultLen)
    ensures var x, y := Big(arg1, signed1), Big(arg2, signed2);
            r == if FullyDefined(arg1) && FullyDefined(arg2) then ToConst(FromInt(x - y, resultLen)) else AllOf(Sx, resultLen)
  {
    var a, undef := Const2Big(arg1, signed1, -1);
    var b, undef' := Const2Big(arg2, signed2, undef);
    r := Big2Const(a - b, resultLen, undef');
  }

  method ConstMul(arg1: Const, arg2: Const, signed1: bool, signed2: bool, resultLen: nat) returns (r: Const)
    ensures r == Arithmetic(Mul, arg1, arg2, signed1, signed2, resultLen)
    ensures var x, y := Big(arg1, signed1), Big(arg2, signed2);
            r == if FullyDefined(arg1) && FullyDefined(arg2) then ToConst(FromInt(x * y, resultLen)) else AllOf(Sx, resultLen)
  {
    var a, undef := Const2Big(arg1, signed1, -1);
    var b, undef' := Const2Big(arg2, signed2, undef);
    r := Big2Const(a * b, resultLen, if undef' < 0 then undef' else 0);
  }

  /** The answer is the quotient or the remainder of the division that rounds as the cell does. */
  lemma {:induction false} DivisionAnswer(op: CellOp, a: Const, b: Const, signed1: bool, signed2: bool, len: nat)
    requires op.Div? || op.Mod? || op.DivFloor? || op.ModFloor?
    ensures var x, y, r := Big(a, signed1), Big(b, signed2), Arithmetic(op, a, b, signed1, signed2, len);
            if FullyDefined(a) && FullyDefined(b) && y != 0
            then exists q, m :: (if op.Div? || op.Mod? then IsTruncDivision(x, y, q, m) else IsFloorDivision(x, y, q, m))
                                && r == ToConst(FromInt(if op.Div? || op.DivFloor? then q else m, len))
            else r == AllOf(Sx, len)
  {
    var x, y := Big(a, signed1), Big(b, signed2);
    if y != 0 {
      TruncIsDivision(x, y);
      FloorIsDivision(x, y);
    }
  }

  lemma {:induction false} DivideMagnitudes(x: int, y: int)
    requires y != 0
    ensures TruncQuot(x, y) == if (x < 0) != (y < 0) then -(Abs(x) / Abs(y)) else Abs(x) / Abs(y)
    ensures TruncRem(x, y) == if x < 0 then -(Abs(x) % Abs(y)) else Abs(x) % Abs(y)
  {
    M.QuotRem(Abs(x), Abs(y));
  }

  lemma {:induction false} FloorMagnitudes(x: int, y: int)
    requires y != 0
    ensures FloorQuot(x, y) == if (x < 0) == (y < 0) || x == 0 then Abs(x) / Abs(y) else -((Abs(x) + Abs(y) - 1) / Abs(y))
    ensures var truncated := if x < 0 then -(Abs(x) % Abs(y)) else Abs(x) % Abs(y);
            FloorRem(x, y) == if truncated == 0 || (x < 0) == (y < 0) then truncated else truncated + y
  {
    M.QuotRem(Abs(x), Abs(y));
    M.QuotRem(Abs(x) + Abs(y) - 1, Abs(y));
  }

  method ConstDiv(arg1: Const, arg2: Const, signed1: bool, signed2: bool, resultLen: nat) returns (r: Const)
    ensures r == Arithmetic(Div, arg1, arg2, signed1, signed2, resultLen)
    ensures var x, y := Big(arg1, signed1), Big(arg2, signed2);
            if FullyDefined(arg1) && FullyDefined(arg2) && y != 0
            then exists q, m :: IsTruncDivision(x, y, q, m) && r == ToConst(FromInt(q, resultLen))
            else r == AllOf(Sx, resultLen)
  {
    DivisionAnswer(Div, arg1, arg2, signed1, signed2, resultLen);
    var a, undef := Const2Big(arg1, signed1, -1);
    var b, undef' := Const2Big(arg2, signed2, undef);
    if b == 0 {
      return AllOf(Sx, resultLen);
    }
    ghost var x, y := a, b;
    var resultNeg := (a < 0) != (b < 0);
    DivideMagnitudes(a, b);
    a := if a < 0 then -a else a;
    b := if b < 0 then -b else b;
    var result := if resultNeg then -(a / b) else a / b;
    assert result == TruncQuot(x, y);
    r := Big2Const(result, resultLen, if undef' < 0 then undef' else 0);
  }

  method ConstMod(arg1: Const, arg2: Const, signed1: bool, signed2: bool, resultLen: nat) returns (r: Const)
    ensures r == Arithmetic(Mod, arg1, arg2, signed1, signed2, resultLen)
    ensures var x, y := Big(arg1, signed1), Big(arg2, signed2);
            if FullyDefined(arg1) && FullyDefined(arg2) && y != 0
            then exists q, m :: IsTruncDivision(x, y, q, m) && r == ToConst(FromInt(m, resultLen))
            else r == AllOf(Sx, resultLen)
  {
    DivisionAnswer(Mod, arg1, arg2, signed1, signed2, resultLen);
    var a, undef := Const2Big(arg1, signed1, -1);
    var b, undef' := Const2Big(arg2, signed2, undef);
    if b == 0 {
      return AllOf(Sx, resultLen);
    }
    ghost var x, y := a, b;
    var resultNeg := a < 0;
    DivideMagnitudes(a, b);
    a := if a < 0 then -a else a;
    b := if b < 0 then -b else b;
    var result := if resultNeg then -(a % b) else a % b;
    assert result == TruncRem(x, y);
    r := Big2Const(result, resultLen, if undef' < 0 then undef' else 0);
  }

  method ConstDivfloor(arg1: Const, arg2: Const, signed1: bool, signed2: bool, resultLen: nat) returns (r: Const)
    ensures r == Arithmetic(DivFloor, arg1, arg2, signed1, signed2, resultLen)
    ensures var x, y := Big(arg1, signed1), Big(arg2, signed2);
            if FullyDefined(arg1) && FullyDefined(arg2) && y != 0
            then exists q, m :: IsFloorDivision(x, y, q, m) && r == ToConst(FromInt(q, resultLen))
            else r == AllOf(Sx, resultLen)
  {
    DivisionAnswer(DivFloor, arg1, arg2, signed1, signed2, resultLen);
    var a, undef := Const2Big(arg1, signed1, -1);
    var b, undef' := Const2Big(arg2, signed2, undef);
    if b == 0 {
      return AllOf(Sx, resultLen);
    }
    ghost var x, y := a, b;
    var resultPos := (a < 0) == (b < 0);
    FloorMagnitudes(a, b);
    a := if a < 0 then -a else a;
    b := if b < 0 then -b else b;
    var result;
    if resultPos || a == 0 {
      result := a / b;
    } else {
      result := -((a + b - 1) / b);
    }
    assert result == FloorQuot(x, y);
    r := Big2Const(result, resultLen, if undef' < 0 then undef' else 0);
  }

  method ConstModfloor(arg1: Const, arg2: Const, signed1: bool, signed2: bool, resultLen: nat) returns (r: Const)
    ensures r == Arithmetic(ModFloor, arg1, arg2, signed1, signed2, resultLen)
    ensures var x, y := Big(arg1, signed1), Big(arg2, signed2);
            if FullyDefined(arg1) && FullyDefined(arg2) && y != 0
            then exists q, m :: IsFloorDivision(x, y, q, m) && r == ToConst(FromInt(m, resultLen))
            else r == AllOf(Sx, resultLen)
  {
    DivisionAnswer(ModFloor, arg1, arg2, signed1, signed2, resultLen);
    var a, undef := Const2Big(arg1, signed1, -1);
    var b, undef' := Const2Big(arg2, signed2, undef);
    if b == 0 {
      return AllOf(Sx, resultLen);
    }
    ghost var x, y := a, b;
    var aNeg, bNeg := a < 0, b < 0;
    FloorMagnitudes(a, b);
    a := if aNeg then -a else a;
    b := if bNeg then -b else b;
    var truncated := if aNeg then -(a % b) else a % b;
    var modulo;
    if truncated == 0 || aNeg == bNeg {
      modulo := truncated;
    } else {
      modulo := if bNeg then truncated - b else truncated + b;
    }
    assert modulo == FloorRem(x, y);
    r := Big2Const(modulo, resultLen, if undef' < 0 then undef' else 0);
  }

  lemma {:induction false} PowerStep(y: int, a: int, b: nat, y': int, a': int, p: int, len: nat)
    requires b > 0 && p == Pow2(len)
    requires y' == if b % 2 == 1 then (y * a) % p else y
    requires a' == (a * a) % p
    ensures FromInt(y' * Power(a', b / 2), len) == FromInt(y * Power(a, b), len)
  {
    PowerSquare(a, b / 2);
    PowerModulo(a * a, a', b / 2, len, y');
    var z := Power(a, 2 * (b / 2));
    if b % 2 == 1 {
      assert b == 1 + 2 * (b / 2);
      Associate(y, a, z);
      ModuloFactor(y * a, y', z, len);
    }
  }

  /** A factor may be replaced by its remainder. */
  lemma {:induction false} ModuloFactor(x: int, x': int, z: int, len: nat)
    requires x' == x % Pow2(len)
    ensures FromInt(x' * z, len) == FromInt(x * z, len)
  {
    var p, k := Pow2(len), x / Pow2(len);
    Quotient(x, p);
    calc {
      x * z;
      (k * p + x') * z;
      { Distribute(k * p, x', z); }
      k * p * z + x' * z;
      { Rotate(k, p, z); }
      k * z * p + x' * z;
    }
    Same(x * z, x' * z, k * z, len);
  }

  lemma {:induction false} Quotient(x: int, p: int)
    requires p > 0
    ensures x == x / p * p + x % p
  {
  }

  lemma {:induction false} Rotate(k: int, p: int, z: int)
    ensures k * p * z == k * z * p
  {
  }

  lemma {:induction false} PowerModulo(a: int, a': int, n: nat, len: nat, y: int)
    requires a' == a % Pow2(len)
    ensures FromInt(y * Power(a', n), len) == FromInt(y * Power(a, n), len)
    decreases n
  {
    if n > 0 {
      Associate(y, a', Power(a', n - 1));
      PowerModulo(a, a', n - 1, len, y * a');
      Associate(y, a, Power(a, n - 1));
      Reorder(y, a', Power(a, n - 1));
      Reorder(y, a, Power(a, n - 1));
      ModuloFactor(a, a', y * Power(a, n - 1), len);
    }
  }

  lemma {:induction false} Reorder(y: int, a: int, z: int)
    ensures y * a * z == a * (y * z)
  {
  }

  method ConstPow(arg1: Const, arg2: Const, signed1: bool, signed2: bool, resultLen: nat) returns (r: Const)
    ensures r == Arithmetic(Pow, arg1, arg2, signed1, signed2, resultLen)
    ensures var x, y := Big(arg1, signed1), Big(arg2, signed2);
            if x == 0 && y > 0 then r == AllOf(S0, resultLen)
            else if !FullyDefined(arg1) || !FullyDefined(arg2) || (x == 0 && y < 0) then r == AllOf(Sx, resultLen)
            else if y >= 0 then r == ToConst(FromInt(Power(x, y), resultLen))
            else r == ToConst(FromInt(if x == 1 then 1 else if x == -1 then if y % 2 == 0 then 1 else -1 else 0, resultLen))
  {
    var a, undef := Const2Big(arg1, signed1, -1);
    var b, undef' := Const2Big(arg2, signed2, undef);
    var y := 1;
    if a == 0 && b < 0 {
      return AllOf(Sx, resultLen);
    }
    if a == 0 && b > 0 {
      return AllOf(S0, resultLen);
    }
    if b < 0 {
      if a < -1 || a > 1 {
        y := 0;
      }
      if a == -1 {
        y := if -b % 2 == 0 then 1 else -1;
      }
    }
    if b > 0 {
      y := PowerModTwo(a, b, resultLen);
    }
    r := Big2Const(y, resultLen, if undef' < 0 then undef' else 0);
  }

  /** Square and multiply modulo a power of two, on the absolute value. */
  method PowerModTwo(base: int, exponent: int, modulusBits: nat) returns (y: int)
    requires exponent > 0
    ensures FromInt(y, modulusBits) == FromInt(Power(base, exponent), modulusBits)
  {
    var a, b := base, exponent;
    y := 1;
    var modulus := 1;
    for i := 0 to modulusBits
      invariant modulus == Pow2(i)
    {
      modulus := modulus * 2;
    }
    var flipResultSign := false;
    if a < 0 {
      a := a * -1;
      if b % 2 == 1 {
        flipResultSign := true;
      }
    }
    PowerNegated(a, b);
    ghost var total := Power(a, b);
    while b > 0
      invariant b >= 0
      invariant FromInt(y * Power(a, b), modulusBits) == FromInt(total, modulusBits)
    {
      ghost var y0, a0 := y, a;
      if b % 2 == 1 {
        y := (y * a) % modulus;
      }
      a := (a * a) % modulus;
      PowerStep(y0, a0, b, y, a, modulus, modulusBits);
      b := b / 2;
    }
    if flipResultSign {
      Negate(y, total, modulusBits);
      y := y * -1;
    }
  }

  lemma {:induction false} Negate(x: int, y: int, w: nat)
    requires FromInt(x, w) == FromInt(y, w)
    ensures FromInt(x * -1, w) == FromInt(-y, w)
  {
    ModDifference(0, x, w);
    ModDifference(0, y, w);
  }

  method ConstNeg(arg1: Const, signed1: bool, resultLen: nat) returns (r: Const)
    ensures r == if FullyDefined(arg1) then ToConst(FromInt(-Big(arg1, signed1), resultLen)) else AllOf(Sx, resultLen)
  {
    assert Marks([S0], S1) == [false];
    assert ToNat([false]) == 0;
    r := ConstSub([S0], arg1, true, signed1, resultLen);
  }

  // --------------------------------------------------------- comparisons

  function Flag(s: State, len: nat): (r: Const)
    requires len > 0
    ensures |r| == len
  {
    [s] + AllOf(S0, len - 1)
  }

  predicate IntOrder(op: CellOp, a: int, b: int)
    requires op.Ordering()
  {
    match op
    case Lt => a < b
    case Le => a <= b
    case Ge => a >= b
    case _ => a > b
  }

  ghost function Ordered(op: CellOp, a: Const, b: Const, signed1: bool, signed2: bool, len: nat): (r: Const)
    requires op.Ordering() && len > 0
    ensures |r| == len
  {
    Flag(if FullyDefined(a) && FullyDefined(b) then OfBool(IntOrder(op, Big(a, signed1), Big(b, signed2))) else Sx, len)
  }

  /** `const_lt`, `const_le`, `const_ge` and `const_gt`, which differ in one operator. */
  method ConstOrder(op: CellOp, arg1: Const, arg2: Const, signed1: bool, signed2: bool, resultLen: nat) returns (r: Const)
    requires op.Ordering() && resultLen > 0
    ensures r == Ordered(op, arg1, arg2, signed1, signed2, resultLen)
    ensures var x, y := Big(arg1, signed1), Big(arg2, signed2);
            r[0] == if FullyDefined(arg1) && FullyDefined(arg2)
                    then if (match op case Lt => x < y case Le => x <= y case Ge => x >= y case _ => x > y) then S1 else S0
                    else Sx
    ensures |r| == resultLen && forall i | 0 < i < resultLen :: r[i] == S0
  {
    var a, undef := Const2Big(arg1, signed1, -1);
    var b, undef' := Const2Big(arg2, signed2, undef);
    var y := IntOrder(op, a, b);
    r := [if undef' >= 0 then Sx else if y then S1 else S0];
    if |r| < resultLen {
      r := r + AllOf(S0, resultLen - |r|);
    }
    assert r == Flag(r[0], resultLen);
  }

  function ExtendU0(a: Const, w: nat, signed: bool): (r: Const)
    ensures |r| == w
  {
    if w <= |a| then a[..w] else a + AllOf(if signed && a != [] then a[|a| - 1] else S0, w - |a|)
  }

  lemma {:induction false} CompletesExtended(x: Bv, c: Const, w: nat, signed: bool)
    requires Completes(x, c)
    ensures Completes(Extend(x, w, signed), ExtendU0(c, w, signed))
    ensures FullyDefined(c) ==> Marks(ExtendU0(c, w, signed), S1) == Extend(x, w, signed)
  {
  }

  /** What is known about the equality of two constants. */
  ghost function Matched(a: Const, b: Const): State
    requires |a| == |b|
  {
    if exists i :: 0 <= i < |a| && a[i].Defined() && b[i].Defined() && a[i] != b[i] then S0
    else if FullyDefined(a) && FullyDefined(b) then S1
    else Sx
  }

  /** No completions of the two constants are equal. */
  ghost predicate NeverEqual(a: Const, b: Const) {
    forall x: Bv, y: Bv | Completes(x, a) && Completes(y, b) :: x != y
  }

  ghost predicate AlwaysEqual(a: Const, b: Const) {
    forall x: Bv, y: Bv | Completes(x, a) && Completes(y, b) :: x == y
  }

  /** The first completion of a and the one of b that follows it where it may. */
  lemma {:induction false} EqualCompletions(a: Const, b: Const) returns (x: Bv, y: Bv)
    requires |a| == |b| && forall i | 0 <= i < |a| && a[i].Defined() && b[i].Defined() :: a[i] == b[i]
    ensures Completes(x, a) && Completes(y, b) && x == y
  {
    x := seq(|a|, i requires 0 <= i < |a| => if a[i].Defined() then a[i] == S1 else b[i] == S1);
    y := x;
  }

  lemma {:induction false} UnequalCompletions(a: Const, b: Const, i: nat) returns (x: Bv, y: Bv)
    requires |a| == |b| && i < |a| && !(a[i].Defined() && b[i].Defined())
    ensures Completes(x, a) && Completes(y, b) && x != y
  {
    x, y := Marks(a, S1), Marks(b, S1);
    if !a[i].Defined() {
      x := x[i := !y[i]];
    } else {
      y := y[i := !x[i]];
    }
    assert x[i] != y[i];
  }

  /** What is known is exactly what holds of every completion. */
  lemma {:induction false} MatchedExact(a: Const, b: Const)
    requires |a| == |b|
    ensures Matched(a, b) == S0 <==> NeverEqual(a, b)
    ensures Matched(a, b) == S1 <==> AlwaysEqual(a, b)
    ensures Matched(a, b) in {S0, S1, Sx}
  {
    if i :| 0 <= i < |a| && a[i].Defined() && b[i].Defined() && a[i] != b[i] {
      forall x: Bv, y: Bv | Completes(x, a) && Completes(y, b) ensures x != y {
        assert x[i] != y[i];
      }
      assert Completes(Marks(a, S1), a) && Completes(Marks(b, S1), b);
    } else {
      var x, y := EqualCompletions(a, b);
      if FullyDefined(a) && FullyDefined(b) {
        assert a == b;
        forall x: Bv, y: Bv | Completes(x, a) && Completes(y, b) ensures x == y {
          OnlyCompletion(x, a);
          OnlyCompletion(y, b);
        }
      } else {
        var i :| 0 <= i < |a| && !(a[i].Defined() && b[i].Defined());
        var x', y' := UnequalCompletions(a, b, i);
      }
    }
  }

  method ConstEq(arg1: Const, arg2: Const, signed1: bool, signed2: bool, resultLen: nat) returns (r: Const)
    requires resultLen > 0
    ensures var w := if |arg1| > |arg2| then |arg1| else |arg2|;
            r == Flag(Matched(ExtendU0(arg1, w, signed1 && signed2), ExtendU0(arg2, w, signed1 && signed2)), resultLen)
    ensures var w, s := Max(|arg1|, |arg2|), signed1 && signed2;
            && (r[0] == S0 <==> NeverEqual(ExtendU0(arg1, w, s), ExtendU0(arg2, w, s)))
            && (r[0] == S1 <==> AlwaysEqual(ExtendU0(arg1, w, s), ExtendU0(arg2, w, s)))
            && (r[0] in {S0, S1, Sx})
    ensures |r| == resultLen && forall i | 0 < i < resultLen :: r[i] == S0
  {
    var width := if |arg1| > |arg2| then |arg1| else |arg2|;
    var a, b := ExtendU0(arg1, width, signed1 && signed2), ExtendU0(arg2, width, signed1 && signed2);
    r := AllOf(S0, resultLen);
    var matchedStatus := S1;
    for i := 0 to |a|
      invariant forall k | 0 <= k < i && a[k].Defined() && b[k].Defined() :: a[k] == b[k]
      invariant matchedStatus == if FullyDefined(a[..i]) && FullyDefined(b[..i]) then S1 else Sx
    {
      if (a[i] == S0 && b[i] == S1) || (a[i] == S1 && b[i] == S0) {
        assert r == Flag(S0, resultLen);
        MatchedExact(a, b);
        return;
      }
      assert a[..i + 1] == a[..i] + [a[i]] && b[..i + 1] == b[..i] + [b[i]];
      if !a[i].Defined() || !b[i].Defined() {
        matchedStatus := Sx;
      }
    }
    assert a[..|a|] == a && b[..|b|] == b;
    MatchedExact(a, b);
    r := r[0 := matchedStatus];
    assert r == Flag(matchedStatus, resultLen);
  }

  function Flipped(s: State): State {
    if s == S0 then S1 else if s == S1 then S0 else s
  }

  method ConstNe(arg1: Const, arg2: Const, signed1: bool, signed2: bool, resultLen: nat) returns (r: Const)
    requires resultLen > 0
    ensures var w := if |arg1| > |arg2| then |arg1| else |arg2|;
            r == Flag(Flipped(Matched(ExtendU0(arg1, w, signed1 && signed2), ExtendU0(arg2, w, signed1 && signed2))), resultLen)
    ensures var w, s := Max(|arg1|, |arg2|), signed1 && signed2;
            && (r[0] == S1 <==> NeverEqual(ExtendU0(arg1, w, s), ExtendU0(arg2, w, s)))
            && (r[0] == S0 <==> AlwaysEqual(ExtendU0(arg1, w, s), ExtendU0(arg2, w, s)))
            && (r[0] in {S0, S1, Sx})
    ensures |r| == resultLen && forall i | 0 < i < resultLen :: r[i] == S0
  {
    r := ConstEq(arg1, arg2, signed1, signed2, resultLen);
    if r[0] == S0 {
      r := r[0 := S1];
    } else if r[0] == S1 {
      r := r[0 := S0];
    }
  }

  // --------------------------------------------------------------- shifts

  /** Bit i of the result is bit i + offset of a, or a given value past either end. */
  function Shifted(a: Const, offset: int, low: State, high: State, len: nat): (r: Const)
    ensures |r| == len
  {
    seq(len, i requires 0 <= i < len => if i + offset < 0 then low else if i + offset >= |a| then high else a[i + offset])
  }

  method ConstShiftWorker(arg1: Const, arg2: Const, signExt: bool, signed2: bool, direction: int, resultLen: nat, vacantBits: State)
    returns (r: Const)
    requires signExt ==> arg1 != []
    ensures r == if FullyDefined(arg2)
                 then Shifted(arg1, Big(arg2, signed2) * direction, vacantBits, if signExt then arg1[|arg1| - 1] else vacantBits, resultLen)
                 else AllOf(Sx, resultLen)
  {
    var offset, undef := Const2Big(arg2, signed2, -1);
    offset := offset * direction;
    r := AllOf(Sx, resultLen);
    if undef >= 0 {
      return;
    }
    ghost var want := Shifted(arg1, offset, vacantBits, if signExt then arg1[|arg1| - 1] else vacantBits, resultLen);
    for i := 0 to resultLen
      invariant |r| == resultLen
      invariant forall k | 0 <= k < i :: r[k] == want[k]
    {
      var pos := i + offset;
      if pos < 0 {
        r := r[i := vacantBits];
      } else if pos >= |arg1| {
        r := r[i := if signExt then arg1[|arg1| - 1] else vacantBits];
      } else {
        r := r[i := arg1[pos]];
      }
    }
  }

  function Max(a: nat, b: nat): nat {
    if a > b then a else b
  }

  /** The signed $sshl and $sshr read the last bit of A. */
  predicate ReadsLast(op: CellOp, a: Const, signed1: bool) {
    (op.Sshl? || op.Sshr?) && signed1 ==> a != []
  }

  /** The six shift cells: how A is extended, which way, and what comes in past the ends. */
  ghost function ShiftResult(op: CellOp, a: Const, b: Const, signed1: bool, signed2: bool, len: nat): (r: Const)
    requires op.Shifting() && ReadsLast(op, a, signed1)
    ensures |r| == len
  {
    if !FullyDefined(b) then AllOf(Sx, len)
    else
      match op
      case Shl => Shifted(ExtendU0(a, len, signed1), -Big(b, false), S0, S0, len)
      case Shr => Shifted(ExtendU0(a, Max(len, |a|), signed1), Big(b, false), S0, S0, len)
      case Sshl => Shifted(a, -Big(b, false), S0, if signed1 then a[|a| - 1] else S0, len)
      case Sshr => Shifted(a, Big(b, false), S0, if signed1 then a[|a| - 1] else S0, len)
      case Shift => Shifted(ExtendU0(a, Max(len, |a|), signed1), Big(b, signed2), S0, S0, len)
      case _ => Shifted(a, Big(b, signed2), Sx, Sx, len)
  }

  method ConstShl(arg1: Const, arg2: Const, signed1: bool, signed2: bool, resultLen: nat) returns (r: Const)
    ensures r == ShiftResult(Shl, arg1, arg2, signed1, signed2, resultLen)
  {
    var arg1Ext := ExtendU0(arg1, resultLen, signed1);
    r := ConstShiftWorker(arg1Ext, arg2, false, false, -1, resultLen, S0);
  }

  method ConstShr(arg1: Const, arg2: Const, signed1: bool, signed2: bool, resultLen: nat) returns (r: Const)
    ensures r == ShiftResult(Shr, arg1, arg2, signed1, signed2, resultLen)
  {
    var arg1Ext := ExtendU0(arg1, Max(resultLen, |arg1|), signed1);
    r := ConstShiftWorker(arg1Ext, arg2, false, false, 1, resultLen, S0);
  }

  method ConstSshl(arg1: Const, arg2: Const, signed1: bool, signed2: bool, resultLen: nat) returns (r: Const)
    requires ReadsLast(Sshl, arg1, signed1)
    ensures r == ShiftResult(Sshl, arg1, arg2, signed1, signed2, resultLen)
  {
    r := ConstShiftWorker(arg1, arg2, signed1, false, -1, resultLen, S0);
  }

  method ConstSshr(arg1: Const, arg2: Const, signed1: bool, signed2: bool, resultLen: nat) returns (r: Const)
    requires ReadsLast(Sshr, arg1, signed1)
    ensures r == ShiftResult(Sshr, arg1, arg2, signed1, signed2, resultLen)
  {
    r := ConstShiftWorker(arg1, arg2, signed1, false, 1, resultLen, S0);
  }

  method ConstShiftEitherWay(arg1: Const, arg2: Const, signed1: bool, signed2: bool, resultLen: nat) returns (r: Const)
    ensures r == ShiftResult(Shift, arg1, arg2, signed1, signed2, resultLen)
  {
    var arg1Ext := ExtendU0(arg1, Max(resultLen, |arg1|), signed1);
    r := ConstShiftWorker(arg1Ext, arg2, false, signed2, 1, resultLen, S0);
  }

  method ConstShiftx(arg1: Const, arg2: Const, signed1: bool, signed2: bool, resultLen: nat) returns (r: Const)
    ensures r == ShiftResult(Shiftx, arg1, arg2, signed1, signed2, resultLen)
  {
    r := ConstShiftWorker(arg1, arg2, false, signed2, 1, resultLen, Sx);
  }

  method ConstShift(op: CellOp, arg1: Const, arg2: Const, signed1: bool, signed2: bool, resultLen: nat) returns (r: Const)
    requires op.Shifting() && ReadsLast(op, arg1, signed1)
    ensures r == ShiftResult(op, arg1, arg2, signed1, signed2, resultLen)
  {
    match op
    case Shl => r := ConstShl(arg1, arg2, signed1, signed2, resultLen);
    case Shr => r := ConstShr(arg1, arg2, signed1, signed2, resultLen);
    case Sshl => r := ConstSshl(arg1, arg2, signed1, signed2, resultLen);
    case Sshr => r := ConstSshr(arg1, arg2, signed1, signed2, resultLen);
    case Shift => r := ConstShiftEitherWay(arg1, arg2, signed1, signed2, resultLen);
    case Shiftx => r := ConstShiftx(arg1, arg2, signed1, signed2, resultLen);
  }

  // ------------------------------------------------------- the dispatcher

  function EffectiveOp(op: CellOp, signed1: bool): CellOp {
    if op.Sshr? && !signed1 then Shr else if op.Sshl? && !signed1 then Shl else op
  }

  /** Both operands are signed or none is, except for shifts. */
  function EffectiveSign(op: CellOp, signed: bool, signed1: bool, signed2: bool): bool {
    if op.Shifting() then signed else signed1 && signed2
  }

  /** The meaning of a two-operand cell on constants. */
  ghost function CellResult(op: CellOp, a: Const, b: Const, signed1: bool, signed2: bool, len: nat): (r: Const)
    requires len > 0 && ReadsLast(op, a, signed1)
    ensures |r| == len
  {
    var op := EffectiveOp(op, signed1);
    var s1, s2 := EffectiveSign(op, signed1, signed1, signed2), EffectiveSign(op, signed2, signed1, signed2);
    if op.Arithmetic() then Arithmetic(op, a, b, s1, s2, len)
    else if op.Ordering() then Ordered(op, a, b, s1, s2, len)
    else if op.Shifting() then ShiftResult(op, a, b, s1, s2, len)
    else
      var m := Matched(ExtendU0(a, Max(|a|, |b|), s1), ExtendU0(b, Max(|a|, |b|), s1));
      Flag(if op.Eq? then m else Flipped(m), len)
  }

  /** `CellTypes::eval` for two-operand cells. */
  method CellEval(op: CellOp, arg1: Const, arg2: Const, signed1: bool, signed2: bool, resultLen: nat) returns (r: Const)
    requires resultLen > 0 && ReadsLast(op, arg1, signed1)
    ensures r == CellResult(op, arg1, arg2, signed1, signed2, resultLen)
  {
    var op' := op;
    if op'.Sshr? && !signed1 {
      op' := Shr;
    }
    if op'.Sshl? && !signed1 {
      op' := Shl;
    }
    var s1, s2 := signed1, signed2;
    if !op'.Shifting() && (!s1 || !s2) {
      s1, s2 := false, false;
    }
    match op'
    case Add => r := ConstAdd(arg1, arg2, s1, s2, resultLen);
    case Sub => r := ConstSub(arg1, arg2, s1, s2, resultLen);
    case Mul => r := ConstMul(arg1, arg2, s1, s2, resultLen);
    case Div => r := ConstDiv(arg1, arg2, s1, s2, resultLen);
    case Mod => r := ConstMod(arg1, arg2, s1, s2, resultLen);
    case DivFloor => r := ConstDivfloor(arg1, arg2, s1, s2, resultLen);
    case ModFloor => r := ConstModfloor(arg1, arg2, s1, s2, resultLen);
    case Pow => r := ConstPow(arg1, arg2, s1, s2, resultLen);
    case Eq => r := ConstEq(arg1, arg2, s1, s2, resultLen);
    case Ne => r := ConstNe(arg1, arg2, s1, s2, resultLen);
    case _ =>
      if op'.Ordering() {
        r := ConstOrder(op', arg1, arg2, s1, s2, resultLen);
      } else {
        r := ConstShift(op', arg1, arg2, s1, s2, resultLen);
      }
  }
}
