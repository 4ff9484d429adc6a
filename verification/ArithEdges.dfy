/**
 * Which input bits of `$add`, `$sub`, `$neg` and of the bitwise cells can affect
 * which output bits (`arith_binary_op`, `arith_neg_op`, `bitwise_binary_op` in
 * `kernel/celledges.cc`).
 */
module ArithEdges {
  import opened Rtlil
  import opened Bits
  import opened Calc
  import E = CellEdges

  // ------------------------------------------------------- bits of integers

  /** All ones below i, but for bit k. */
  lemma {:induction false} HoleBit(i: nat, k: nat)
    requires k < i
    ensures !Bit(Pow2(i) - Pow2(k) - 1, k)
  {
    if k > 0 {
      HoleBit(i - 1, k - 1);
      assert (Pow2(i) - Pow2(k) - 1) / 2 == Pow2(i - 1) - Pow2(k - 1) - 1;
    }
  }

  /** All ones, but for bit k. */
  lemma {:induction false} MinusHoleBit(k: nat)
    ensures !Bit(-1 - Pow2(k), k)
  {
    if k > 0 {
      MinusHoleBit(k - 1);
      assert (-1 - Pow2(k)) / 2 == -1 - Pow2(k - 1);
    }
  }

  // ------------------------------------------------------ values and toggles

  predicate InRange(v: int, w: nat, signed: bool) {
    if signed then w > 0 && -Pow2(w - 1) <= v < Pow2(w - 1) else 0 <= v < Pow2(w)
  }

  lemma {:induction false} VectorOf(v: int, w: nat, signed: bool) returns (b: Bv)
    requires InRange(v, w, signed)
    ensures |b| == w && Value(b, signed) == v && forall k: nat | k < w :: b[k] == Bit(v, k)
  {
    b := FromInt(v, w);
    if signed {
      SmallSigned(v, w);
    } else {
      Small(v, w);
    }
    forall k: nat | k < w ensures b[k] == Bit(v, k) { FromIntAt(v, w, k); }
  }

  /** What setting bit k adds. */
  function Step(w: nat, signed: bool, k: nat): int {
    if signed && k + 1 == w then -Pow2(k) else Pow2(k)
  }

  lemma {:induction false} SetValue(b: Bv, signed: bool, k: nat)
    requires k < |b| && !b[k]
    ensures Value(b[k := true], signed) == Value(b, signed) + Step(|b|, signed, k)
  {
    SetBit(b, k);
    assert Pow2(|b|) == 2 * Pow2(|b| - 1);
  }

  /** Flipping bit k changes nothing below it. */
  lemma {:induction false} FlipKeepsLow(b: Bv, signed: bool, k: nat, w: nat)
    requires k < |b| && w <= k
    ensures FromInt(Value(b[k := !b[k]], signed), w) == FromInt(Value(b, signed), w)
  {
    Pow2Sum(k - w, w);
    if b[k] {
      var c := b[k := false];
      assert c[k := true] == b;
      SetValue(c, signed, k);
      SameLow(Value(b, signed), Value(c, signed), Pow2(k - w), w);
    } else {
      SetValue(b, signed, k);
      SameLow(Value(b[k := true], signed), Value(b, signed), Pow2(k - w), w);
    }
  }

  lemma {:induction false} SameLow(m: int, n: int, k: int, w: nat)
    requires m - n == k * Pow2(w) || n - m == k * Pow2(w)
    ensures FromInt(m, w) == FromInt(n, w)
  {
    if m - n == k * Pow2(w) {
      Same(m, n, k, w);
    } else {
      Same(n, m, k, w);
    }
  }

  lemma {:induction false} SameBit(m: int, n: int, i: nat)
    requires FromInt(m, i + 1) == FromInt(n, i + 1)
    ensures Bit(m, i) == Bit(n, i)
  {
    FromIntAt(m, i + 1, i);
    FromIntAt(n, i + 1, i);
  }

  // ------------------------------------------------------------ $add and $sub

  datatype ArithCell = ArithCell(op: CellOp, aSigned: bool, bSigned: bool, aWidth: nat, bWidth: nat, yWidth: nat)
  {
    predicate Checked() {
      op.Add? || op.Sub?
    }

    /** The evaluator reads signed operands only if both are. */
    predicate Signed() {
      aSigned && bSigned
    }

    /** The output bits that the source goes through: an unsigned sum has one more bit than its operands. */
    function Reach(): nat {
      if !aSigned && !op.Sub? then Min(yWidth, Max(aWidth, bWidth) + 1) else yWidth
    }

    function Sum(x: int, y: int): int {
      if op.Sub? then x - y else x + y
    }
  }

  function Min(a: nat, b: nat): nat {
    if a < b then a else b
  }

  /** Bit i of Y, as the evaluator computes it. */
  ghost function YBit(c: ArithCell, a: Bv, b: Bv, i: nat): State
    requires c.Checked() && |a| == c.aWidth && |b| == c.bWidth && i < c.yWidth
  {
    CellResult(c.op, ToConst(a), ToConst(b), c.aSigned, c.bSigned, c.yWidth)[i]
  }

  ghost predicate InfluencesA(c: ArithCell, k: nat, i: nat)
    requires c.Checked() && k < c.aWidth && i < c.yWidth
  {
    exists a: Bv, b: Bv :: |a| == c.aWidth && |b| == c.bWidth && YBit(c, a, b, i) != YBit(c, a[k := !a[k]], b, i)
  }

  ghost predicate InfluencesB(c: ArithCell, k: nat, i: nat)
    requires c.Checked() && k < c.bWidth && i < c.yWidth
  {
    exists a: Bv, b: Bv :: |a| == c.aWidth && |b| == c.bWidth && YBit(c, a, b, i) != YBit(c, a, b[k := !b[k]], i)
  }

  lemma {:induction false} YBitIs(c: ArithCell, a: Bv, b: Bv, i: nat)
    requires c.Checked() && |a| == c.aWidth && |b| == c.bWidth && i < c.yWidth
    ensures YBit(c, a, b, i) == OfBool(Bit(c.Sum(Value(a, c.Signed()), Value(b, c.Signed())), i))
  {
    var s := c.Signed();
    var x, y := Value(a, s), Value(b, s);
    BigIsValue(a, s);
    BigIsValue(b, s);
    assert CellResult(c.op, ToConst(a), ToConst(b), c.aSigned, c.bSigned, c.yWidth) == ToConst(FromInt(c.Sum(x, y), c.yWidth));
    FromIntAt(c.Sum(x, y), c.yWidth, i);
  }

  lemma {:induction false} SumLow(c: ArithCell, x: int, x': int, y: int, y': int, w: nat)
    requires FromInt(x, w) == FromInt(x', w) && FromInt(y, w) == FromInt(y', w)
    ensures FromInt(c.Sum(x, y), w) == FromInt(c.Sum(x', y'), w)
  {
    if c.op.Sub? {
      ModDifference(x, y, w);
      ModDifference(x', y', w);
    } else {
      ModSum(x, y, w);
      ModSum(x', y', w);
    }
  }

  lemma {:induction false} OnlyLowerBits(c: ArithCell, a: Bv, b: Bv, a': Bv, b': Bv, i: nat)
    requires c.Checked() && |a| == |a'| == c.aWidth && |b| == |b'| == c.bWidth && i < c.yWidth
    requires FromInt(Value(a, c.Signed()), i + 1) == FromInt(Value(a', c.Signed()), i + 1)
    requires FromInt(Value(b, c.Signed()), i + 1) == FromInt(Value(b', c.Signed()), i + 1)
    ensures YBit(c, a, b, i) == YBit(c, a', b', i)
  {
    var s := c.Signed();
    YBitIs(c, a, b, i);
    YBitIs(c, a', b', i);
    SumLow(c, Value(a, s), Value(a', s), Value(b, s), Value(b', s), i + 1);
    SameBit(c.Sum(Value(a, s), Value(b, s)), c.Sum(Value(a', s), Value(b', s)), i);
  }

  /** Beyond the reach of an unsigned sum, Y is zero. */
  lemma {:induction false} BeyondReach(c: ArithCell, a: Bv, b: Bv, i: nat)
    requires c.Checked() && |a| == c.aWidth && |b| == c.bWidth && c.Reach() <= i < c.yWidth
    ensures YBit(c, a, b, i) == S0
  {
    YBitIs(c, a, b, i);
    Pow2Monotone(c.aWidth, Max(c.aWidth, c.bWidth));
    Pow2Monotone(c.bWidth, Max(c.aWidth, c.bWidth));
    Pow2Monotone(Max(c.aWidth, c.bWidth) + 1, i);
    SmallBit(ToNat(a) + ToNat(b), i);
  }

  lemma {:induction false} SilentA(c: ArithCell, a: Bv, b: Bv, k: nat, i: nat)
    requires c.Checked() && |a| == c.aWidth && |b| == c.bWidth && k < c.aWidth && i < c.yWidth && (i < k || c.Reach() <= i)
    ensures YBit(c, a, b, i) == YBit(c, a[k := !a[k]], b, i)
  {
    if i < k {
      FlipKeepsLow(a, c.Signed(), k, i + 1);
      OnlyLowerBits(c, a, b, a[k := !a[k]], b, i);
    } else {
      BeyondReach(c, a, b, i);
      BeyondReach(c, a[k := !a[k]], b, i);
    }
  }

  lemma {:induction false} SilentB(c: ArithCell, a: Bv, b: Bv, k: nat, i: nat)
    requires c.Checked() && |a| == c.aWidth && |b| == c.bWidth && k < c.bWidth && i < c.yWidth && (i < k || c.Reach() <= i)
    ensures YBit(c, a, b, i) == YBit(c, a, b[k := !b[k]], i)
  {
    if i < k {
      FlipKeepsLow(b, c.Signed(), k, i + 1);
      OnlyLowerBits(c, a, b, a, b[k := !b[k]], i);
    } else {
      BeyondReach(c, a, b, i);
      BeyondReach(c, a, b[k := !b[k]], i);
    }
  }

  /** No edge is missing: an influence is from a bit that is not above, on a bit within reach. */
  lemma {:induction false} InfluenceNeedsEdgeA(c: ArithCell, k: nat, i: nat)
    requires c.Checked() && k < c.aWidth && i < c.yWidth && InfluencesA(c, k, i)
    ensures k <= i < c.Reach()
  {
    if i < k || c.Reach() <= i {
      forall a: Bv, b: Bv | |a| == c.aWidth && |b| == c.bWidth ensures YBit(c, a, b, i) == YBit(c, a[k := !a[k]], b, i) {
        SilentA(c, a, b, k, i);
      }
    }
  }

  lemma {:induction false} InfluenceNeedsEdgeB(c: ArithCell, k: nat, i: nat)
    requires c.Checked() && k < c.bWidth && i < c.yWidth && InfluencesB(c, k, i)
    ensures k <= i < c.Reach()
  {
    if i < k || c.Reach() <= i {
      forall a: Bv, b: Bv | |a| == c.aWidth && |b| == c.bWidth ensures YBit(c, a, b, i) == YBit(c, a, b[k := !b[k]], i) {
        SilentB(c, a, b, k, i);
      }
    }
  }

  /** Operands with bit k of the first clear, whose result changes in bit i when it is set. */
  ghost predicate Shows(c: ArithCell, k: nat, i: nat, x: int, y: int) {
    && InRange(x, c.aWidth, c.Signed()) && InRange(y, c.bWidth, c.Signed()) && !Bit(x, k)
    && Bit(c.Sum(x, y), i) != Bit(c.Sum(x + Step(c.aWidth, c.Signed(), k), y), i)
  }

  ghost predicate ShowsB(c: ArithCell, k: nat, i: nat, x: int, y: int) {
    && InRange(x, c.aWidth, c.Signed()) && InRange(y, c.bWidth, c.Signed()) && !Bit(y, k)
    && Bit(c.Sum(x, y), i) != Bit(c.Sum(x, y + Step(c.bWidth, c.Signed(), k)), i)
  }

  lemma {:induction false} ShownInfluencesA(c: ArithCell, k: nat, i: nat, x: int, y: int)
    requires c.Checked() && k < c.aWidth && i < c.yWidth && Shows(c, k, i, x, y)
    ensures InfluencesA(c, k, i)
  {
    var a := VectorOf(x, c.aWidth, c.Signed());
    var b := VectorOf(y, c.bWidth, c.Signed());
    SetValue(a, c.Signed(), k);
    YBitIs(c, a, b, i);
    YBitIs(c, a[k := true], b, i);
    assert YBit(c, a, b, i) != YBit(c, a[k := !a[k]], b, i);
  }

  lemma {:induction false} ShownInfluencesB(c: ArithCell, k: nat, i: nat, x: int, y: int)
    requires c.Checked() && k < c.bWidth && i < c.yWidth && ShowsB(c, k, i, x, y)
    ensures InfluencesB(c, k, i)
  {
    var a := VectorOf(x, c.aWidth, c.Signed());
    var b := VectorOf(y, c.bWidth, c.Signed());
    SetValue(b, c.Signed(), k);
    YBitIs(c, a, b, i);
    YBitIs(c, a, b[k := true], i);
    assert YBit(c, a, b, i) != YBit(c, a, b[k := !b[k]], i);
  }

  /** Widths of an operand are not zero, and the operands agree on their sign. */
  predicate Regular(c: ArithCell) {
    c.Checked() && c.aWidth > 0 && c.bWidth > 0 && c.aSigned == c.bSigned
  }

  /** From -1 to 2^k - 1, or from 0 to -2^k: every bit from k on changes. */
  lemma {:induction false} JumpBits(k: nat, i: nat)
    requires k <= i
    ensures Bit(-1, i) && !Bit(Pow2(k) - 1, i) && !Bit(0, i) && Bit(-Pow2(k), i) && !Bit(0, k)
  {
    MinusPow2Bit(0, i);
    MinusPow2Bit(k, i);
    Pow2Monotone(k, i);
    SmallBit(Pow2(k) - 1, i);
    SmallBit(0, i);
    SmallBit(0, k);
  }

  lemma {:induction false} OneInRange(w: nat)
    requires w > 0
    ensures InRange(1, w, false) && InRange(0, w, true) && InRange(-1, w, true)
  {
    Pow2Monotone(1, w);
  }

  /** An unsigned sum: x has a hole at k below i, and y the carry into it. */
  lemma {:induction false} UnsignedSum(v: nat, w: nat, k: nat, i: nat) returns (x: int, y: int)
    requires k < v && w > 0 && k <= i <= Max(v, w)
    ensures InRange(x, v, false) && InRange(y, w, false) && !Bit(x, k) && !Bit(x + y, i) && Bit(x + y + Pow2(k), i)
  {
    Pow2Monotone(k, i);
    Pow2Bit(i);
    SmallBit(Pow2(i) - Pow2(k), i);
    SmallBit(0, k);
    if i <= w {
      Pow2Monotone(i, w);
      x, y := 0, Pow2(i) - Pow2(k);
    } else if i == k {
      x, y := 0, 0;
    } else {
      Pow2Monotone(i, v);
      Pow2Monotone(k + 1, i);
      HoleBit(i, k);
      OneInRange(w);
      x, y := Pow2(i) - Pow2(k) - 1, 1;
    }
  }

  lemma {:induction false} EdgeShowsA(c: ArithCell, k: nat, i: nat)
    requires Regular(c) && k < c.aWidth && k <= i < c.Reach()
    ensures InfluencesA(c, k, i)
  {
    JumpBits(k, i);
    OneInRange(c.aWidth);
    OneInRange(c.bWidth);
    Pow2Monotone(k, c.aWidth - 1);
    if !c.aSigned {
      if c.op.Sub? {
        ShownInfluencesA(c, k, i, 0, 1);
      } else {
        var x, y := UnsignedSum(c.aWidth, c.bWidth, k, i);
        ShownInfluencesA(c, k, i, x, y);
      }
    } else if k + 1 == c.aWidth {
      ShownInfluencesA(c, k, i, 0, 0);
    } else if c.op.Add? {
      ShownInfluencesA(c, k, i, 0, -1);
    } else {
      MinusHoleBit(k);
      Pow2Monotone(k + 1, c.aWidth - 1);
      ShownInfluencesA(c, k, i, -1 - Pow2(k), -1);
    }
  }

  lemma {:induction false} EdgeShowsB(c: ArithCell, k: nat, i: nat)
    requires Regular(c) && k < c.bWidth && k <= i < c.Reach()
    ensures InfluencesB(c, k, i)
  {
    JumpBits(k, i);
    OneInRange(c.aWidth);
    OneInRange(c.bWidth);
    Pow2Monotone(k, c.bWidth - 1);
    if c.op.Sub? {
      if c.aSigned && k + 1 == c.bWidth {
        ShownInfluencesB(c, k, i, -1, 0);
      } else {
        ShownInfluencesB(c, k, i, 0, 0);
      }
    } else if !c.aSigned {
      var y, x := UnsignedSum(c.bWidth, c.aWidth, k, i);
      ShownInfluencesB(c, k, i, x, y);
    } else if k + 1 == c.bWidth {
      ShownInfluencesB(c, k, i, 0, 0);
    } else {
      ShownInfluencesB(c, k, i, -1, 0);
    }
  }

  /** An influence of the cell. */
  ghost predicate Influences(c: ArithCell, e: E.Edge)
    requires c.Checked()
  {
    && 0 <= e.i < c.yWidth
    && match e
       case EdgeOfA(k, i) => 0 <= k < c.aWidth && InfluencesA(c, k, i)
       case EdgeOfB(k, i) => 0 <= k < c.bWidth && InfluencesB(c, k, i)
  }

  /** `arith_binary_op`: no influence is missing, and for operands of one sign the edges are exactly the influences. */
  method ArithBinaryOp(c: ArithCell) returns (db: set<E.Edge>)
    requires c.Checked()
    ensures forall e: E.Edge :: Influences(c, e) ==> e in db
    ensures Regular(c) ==> forall e: E.Edge :: e in db ==> Influences(c, e)
  {
    db := {};
    var yWidth := c.yWidth;
    if !c.aSigned && !c.op.Sub? {
      yWidth := Min(yWidth, Max(c.aWidth, c.bWidth) + 1);
    }
    for i := 0 to yWidth
      invariant forall e: E.Edge :: e in db <==> 0 <= e.i < i && 0 <= e.k <= e.i && e.k < (if e.EdgeOfA? then c.aWidth else c.bWidth)
    {
      for k := 0 to i + 1
        invariant forall e: E.Edge :: e in db <==>
          ((0 <= e.i < i && 0 <= e.k <= e.i) || (e.i == i && 0 <= e.k < k)) && e.k < (if e.EdgeOfA? then c.aWidth else c.bWidth)
      {
        if k < c.aWidth {
          db := db + {E.EdgeOfA(k, i)};
        }
        if k < c.bWidth {
          db := db + {E.EdgeOfB(k, i)};
        }
      }
    }
    forall e: E.Edge ensures Influences(c, e) ==> e in db {
      if Influences(c, e) {
        if e.EdgeOfA? {
          InfluenceNeedsEdgeA(c, e.k, e.i);
        } else {
          InfluenceNeedsEdgeB(c, e.k, e.i);
        }
      }
    }
    if Regular(c) {
      forall e: E.Edge ensures e in db ==> Influences(c, e) {
        if e in db {
          if e.EdgeOfA? {
            EdgeShowsA(c, e.k, e.i);
          } else {
            EdgeShowsB(c, e.k, e.i);
          }
        }
      }
    }
  }

  // ------------------------------------------------------------------ $neg

  datatype NegCell = NegCell(aSigned: bool, aWidth: nat, yWidth: nat)
  {
    /** The negative of one signed bit is 0 or 1. */
    function Reach(): nat {
      if aSigned && aWidth == 1 then Min(yWidth, 1) else yWidth
    }
  }

  /** Bit i of Y, as `const_neg` computes it from defined bits. */
  predicate NegBit(c: NegCell, a: Bv, i: nat)
    requires |a| == c.aWidth && i < c.yWidth
  {
    FromInt(-Value(a, c.aSigned), c.yWidth)[i]
  }

  ghost predicate NegInfluences(c: NegCell, k: nat, i: nat) {
    k < c.aWidth && i < c.yWidth && exists a: Bv :: |a| == c.aWidth && NegBit(c, a, i) != NegBit(c, a[k := !a[k]], i)
  }

  lemma {:induction false} NegSilent(c: NegCell, a: Bv, k: nat, i: nat)
    requires |a| == c.aWidth && k < c.aWidth && i < c.yWidth && (i < k || c.Reach() <= i)
    ensures NegBit(c, a, i) == NegBit(c, a[k := !a[k]], i)
  {
    var b := a[k := !a[k]];
    var x, y := Value(a, c.aSigned), Value(b, c.aSigned);
    FromIntAt(-x, c.yWidth, i);
    FromIntAt(-y, c.yWidth, i);
    if i < k {
      FlipKeepsLow(a, c.aSigned, k, i + 1);
      NegLowBit(x, y, i);
    } else {
      assert c.aSigned && |a| == |b| == 1 && i >= 1;
      OneSignedBit(a, i);
      OneSignedBit(b, i);
    }
  }

  lemma {:induction false} NegLowBit(x: int, y: int, i: nat)
    requires FromInt(x, i + 1) == FromInt(y, i + 1)
    ensures Bit(-x, i) == Bit(-y, i)
  {
    NegLow(x, y, i + 1);
    SameBit(-x, -y, i);
  }

  lemma {:induction false} NegNeedsEdge(c: NegCell, k: nat, i: nat)
    requires NegInfluences(c, k, i)
    ensures k <= i < c.Reach()
  {
    if i < k || c.Reach() <= i {
      forall a: Bv | |a| == c.aWidth ensures NegBit(c, a, i) == NegBit(c, a[k := !a[k]], i) {
        NegSilent(c, a, k, i);
      }
    }
  }

  lemma {:induction false} NegLow(x: int, y: int, w: nat)
    requires FromInt(x, w) == FromInt(y, w)
    ensures FromInt(-x, w) == FromInt(-y, w)
  {
    ModDifference(0, x, w);
    ModDifference(0, y, w);
    assert -x == 0 - x && -y == 0 - y;
  }

  lemma {:induction false} OneSignedBit(a: Bv, i: nat)
    requires |a| == 1 && i >= 1
    ensures !Bit(-Value(a, true), i)
  {
    Pow2Monotone(1, i);
    assert a == [a[0]] && ToNat(a) == Num(a[0]);
    SmallBit(-Value(a, true), i);
  }

  lemma {:induction false} NegShows(c: NegCell, k: nat, i: nat, x: int)
    requires k < c.aWidth && i < c.yWidth && InRange(x, c.aWidth, c.aSigned) && !Bit(x, k)
    requires Bit(-x, i) != Bit(-(x + Step(c.aWidth, c.aSigned, k)), i)
    ensures NegInfluences(c, k, i)
  {
    var a := VectorOf(x, c.aWidth, c.aSigned);
    SetValue(a, c.aSigned, k);
    FromIntAt(-x, c.yWidth, i);
    FromIntAt(-(x + Step(c.aWidth, c.aSigned, k)), c.yWidth, i);
    assert NegBit(c, a, i) != NegBit(c, a[k := !a[k]], i);
  }

  lemma {:induction false} NegEdgeShows(c: NegCell, k: nat, i: nat)
    requires k < c.aWidth && k <= i < c.Reach()
    ensures NegInfluences(c, k, i)
  {
    JumpBits(k, i);
    OneInRange(c.aWidth);
    if c.aSigned && k + 1 == c.aWidth {
      if k == 0 {
        Pow2Bit(0);
        NegShows(c, k, i, 0);
      } else {
        Pow2Monotone(1, k);
        SmallBit(1, k);
        NegShows(c, k, i, 1);
      }
    } else {
      NegShows(c, k, i, 0);
    }
  }

  /** `arith_neg_op`: the edges are exactly the influences. */
  method ArithNegOp(c: NegCell) returns (db: set<E.Edge>)
    ensures forall e: E.Edge :: e in db <==> e.EdgeOfA? && e.k >= 0 && e.i >= 0 && NegInfluences(c, e.k, e.i)
  {
    db := {};
    var yWidth := c.yWidth;
    if c.aSigned && c.aWidth == 1 {
      yWidth := Min(yWidth, 1);
    }
    for i := 0 to yWidth
      invariant forall e: E.Edge :: e in db <==> e.EdgeOfA? && 0 <= e.i < i && 0 <= e.k <= e.i && e.k < c.aWidth
    {
      var k := 0;
      while k <= i && k < c.aWidth
        invariant k <= i + 1 && k <= c.aWidth
        invariant forall e: E.Edge :: e in db <==>
          e.EdgeOfA? && ((0 <= e.i < i && 0 <= e.k <= e.i && e.k < c.aWidth) || (e.i == i && 0 <= e.k < k))
      {
        db := db + {E.EdgeOfA(k, i)};
        k := k + 1;
      }
    }
    forall e: E.Edge ensures e in db <==> e.EdgeOfA? && e.k >= 0 && e.i >= 0 && NegInfluences(c, e.k, e.i) {
      if e in db {
        NegEdgeShows(c, e.k, e.i);
      } else if e.EdgeOfA? && e.k >= 0 && e.i >= 0 && NegInfluences(c, e.k, e.i) {
        NegNeedsEdge(c, e.k, e.i);
      }
    }
  }

  // ------------------------------------------------------- bitwise cells

  datatype LogicOp = And | Or | Xor | Xnor
  {
    predicate On(x: bool, y: bool) {
      match this case And => x && y case Or => x || y case Xor => x != y case Xnor => x == y
    }
  }

  datatype LogicCell = LogicCell(op: LogicOp, signed: bool, aWidth: nat, bWidth: nat, yWidth: nat)

  /** Bit i of Y: the operands are extended and combined bit by bit. */
  predicate LogicBit(c: LogicCell, a: Bv, b: Bv, i: nat)
    requires |a| == c.aWidth && |b| == c.bWidth && i < c.yWidth
  {
    c.op.On(Extend(a, c.yWidth, c.signed)[i], Extend(b, c.yWidth, c.signed)[i])
  }

  ghost predicate LogicInfluencesA(c: LogicCell, k: nat, i: nat) {
    && k < c.aWidth && i < c.yWidth
    && exists a: Bv, b: Bv :: |a| == c.aWidth && |b| == c.bWidth && LogicBit(c, a, b, i) != LogicBit(c, a[k := !a[k]], b, i)
  }

  ghost predicate LogicInfluencesB(c: LogicCell, k: nat, i: nat) {
    && k < c.bWidth && i < c.yWidth
    && exists a: Bv, b: Bv :: |a| == c.aWidth && |b| == c.bWidth && LogicBit(c, a, b, i) != LogicBit(c, a, b[k := !b[k]], i)
  }

  /** The bit of an operand that bit i of its extension is, if any. */
  function Origin(width: nat, signed: bool, i: nat): int {
    if i < width then i else if signed then width - 1 else -1
  }

  predicate ExtendedBit(a: Bv, signed: bool, i: nat) {
    var k := Origin(|a|, signed, i); k >= 0 && a[k]
  }

  lemma {:induction false} ExtendedBitIs(a: Bv, signed: bool, w: nat, i: nat)
    requires i < w
    ensures Extend(a, w, signed)[i] == ExtendedBit(a, signed, i)
  {
  }

  /** An operand is read at bit i if the other one can let it through. */
  predicate LetsThrough(op: LogicOp, otherWidth: nat, signed: bool, i: nat) {
    op.And? ==> Origin(otherWidth, signed, i) >= 0
  }

  lemma {:induction false} LogicExactA(c: LogicCell, k: nat, i: nat)
    requires k < c.aWidth && i < c.yWidth
    ensures LogicInfluencesA(c, k, i) <==> k == Origin(c.aWidth, c.signed, i) && LetsThrough(c.op, c.bWidth, c.signed, i)
  {
    forall a: Bv, b: Bv | |a| == c.aWidth && |b| == c.bWidth
      ensures LogicBit(c, a, b, i) == c.op.On(ExtendedBit(a, c.signed, i), ExtendedBit(b, c.signed, i))
    {
      ExtendedBitIs(a, c.signed, c.yWidth, i);
      ExtendedBitIs(b, c.signed, c.yWidth, i);
    }
    if k == Origin(c.aWidth, c.signed, i) && LetsThrough(c.op, c.bWidth, c.signed, i) {
      var a, b := Fill(false, c.aWidth), Fill(c.op.And?, c.bWidth);
      assert LogicBit(c, a, b, i) != LogicBit(c, a[k := !a[k]], b, i);
    }
  }

  lemma {:induction false} LogicExactB(c: LogicCell, k: nat, i: nat)
    requires k < c.bWidth && i < c.yWidth
    ensures LogicInfluencesB(c, k, i) <==> k == Origin(c.bWidth, c.signed, i) && LetsThrough(c.op, c.aWidth, c.signed, i)
  {
    forall a: Bv, b: Bv | |a| == c.aWidth && |b| == c.bWidth
      ensures LogicBit(c, a, b, i) == c.op.On(ExtendedBit(a, c.signed, i), ExtendedBit(b, c.signed, i))
    {
      ExtendedBitIs(a, c.signed, c.yWidth, i);
      ExtendedBitIs(b, c.signed, c.yWidth, i);
    }
    if k == Origin(c.bWidth, c.signed, i) && LetsThrough(c.op, c.aWidth, c.signed, i) {
      var a, b := Fill(c.op.And?, c.aWidth), Fill(false, c.bWidth);
      assert LogicBit(c, a, b, i) != LogicBit(c, a, b[k := !b[k]], i);
    }
  }

  ghost predicate LogicInfluences(c: LogicCell, e: E.Edge) {
    && e.k >= 0 && e.i >= 0
    && match e
       case EdgeOfA(k, i) => LogicInfluencesA(c, k, i)
       case EdgeOfB(k, i) => LogicInfluencesB(c, k, i)
  }

  /** The edges of one bit of Y from an operand. */
  predicate LogicEdge(c: LogicCell, e: E.Edge) {
    && e.k >= 0 && 0 <= e.i < c.yWidth
    && match e
       case EdgeOfA(k, i) => k == Origin(c.aWidth, c.signed, i) && LetsThrough(c.op, c.bWidth, c.signed, i)
       case EdgeOfB(k, i) => k == Origin(c.bWidth, c.signed, i) && LetsThrough(c.op, c.aWidth, c.signed, i)
  }

  /** `bitwise_binary_op`, on operands of one sign: the edges are exactly the influences. */
  method BitwiseBinaryOp(c: LogicCell) returns (db: set<E.Edge>)
    requires c.aWidth > 0 && c.bWidth > 0
    ensures forall e: E.Edge :: e in db <==> LogicInfluences(c, e)
  {
    db := {};
    var aWidth, bWidth := c.aWidth, c.bWidth;
    if c.op.And? && !c.signed {
      if aWidth > bWidth {
        aWidth := bWidth;
      } else {
        bWidth := aWidth;
      }
    }
    for i := 0 to c.yWidth
      invariant forall e: E.Edge :: e in db <==> e.i < i && LogicEdge(c, e)
    {
      if i < aWidth {
        db := db + {E.EdgeOfA(i, i)};
      } else if c.signed && aWidth > 0 {
        db := db + {E.EdgeOfA(aWidth - 1, i)};
      }
      if i < bWidth {
        db := db + {E.EdgeOfB(i, i)};
      } else if c.signed && bWidth > 0 {
        db := db + {E.EdgeOfB(bWidth - 1, i)};
      }
    }
    forall e: E.Edge ensures LogicEdge(c, e) <==> LogicInfluences(c, e) {
      if 0 <= e.i < c.yWidth && e.k >= 0 {
        if e.EdgeOfA? && e.k < c.aWidth {
          LogicExactA(c, e.k, e.i);
        } else if e.EdgeOfB? && e.k < c.bWidth {
          LogicExactB(c, e.k, e.i);
        }
      }
    }
  }
}
