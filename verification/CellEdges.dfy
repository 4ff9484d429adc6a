/**
 * Which input bits of a shift cell can affect which output bits
 * (`shift_op` in `kernel/celledges.cc`).
 */
module CellEdges {
  import opened Rtlil
  import opened Bits
  import opened Calc
  import M = Multiples

  datatype ShiftCell = ShiftCell(op: CellOp, aSigned: bool, bSigned: bool, aWidth: nat, bWidth: nat, yWidth: nat)
  {
    /** What the cell checker allows, and a shift amount below the cap. */
    predicate Checked() {
      && op.Shifting() && aWidth >= 1 && 1 <= bWidth <= 30
      && (bSigned ==> op.Shift? || op.Shiftx?)
      && (op.Shiftx? ==> !aSigned)
    }

    predicate Left() {
      op.Shl? || op.Sshl?
    }

    function Lowest(): int
      requires bWidth > 0
    {
      if bSigned then 0 - Pow2(bWidth - 1) else 0
    }

    function Highest(): int
      requires bWidth > 0
    {
      if bSigned then Pow2(bWidth - 1) - 1 else Pow2(bWidth) - 1
    }
  }

  // ---------------------------------------------------------- the semantics

  /** Bit i of Y, as the evaluator computes it. */
  ghost function YBit(c: ShiftCell, a: Bv, b: Bv, i: nat): State
    requires c.Checked() && |a| == c.aWidth && |b| == c.bWidth && i < c.yWidth
  {
    CellResult(c.op, ToConst(a), ToConst(b), c.aSigned, c.bSigned, c.yWidth)[i]
  }

  ghost predicate InfluencesA(c: ShiftCell, k: nat, i: nat)
    requires c.Checked() && k < c.aWidth && i < c.yWidth
  {
    exists a: Bv, b: Bv :: |a| == c.aWidth && |b| == c.bWidth && YBit(c, a, b, i) != YBit(c, a[k := !a[k]], b, i)
  }

  ghost predicate InfluencesB(c: ShiftCell, k: nat, i: nat)
    requires c.Checked() && k < c.bWidth && i < c.yWidth
  {
    exists a: Bv, b: Bv :: |a| == c.aWidth && |b| == c.bWidth && YBit(c, a, b, i) != YBit(c, a, b[k := !b[k]], i)
  }

  /** Where a bit of Y comes from: a bit of A, or what is shifted in. */
  datatype Source = Vacant | FromA(k: int)

  function SourceOf(c: ShiftCell, i: int, v: int): Source {
    var p := if c.Left() then i - v else i + v;
    if p < 0 then Vacant
    else if p < c.aWidth then FromA(p)
    else if !c.aSigned then Vacant
    else if c.Left() || c.op.Sshr? || p < c.yWidth then FromA(c.aWidth - 1)
    else Vacant
  }

  function Carried(c: ShiftCell, s: Source, a: Bv): State
    requires s.FromA? ==> 0 <= s.k < |a|
  {
    match s
    case Vacant => if c.op.Shiftx? then Sx else S0
    case FromA(k) => OfBool(a[k])
  }

  lemma {:induction false} YBitIs(c: ShiftCell, a: Bv, b: Bv, i: nat)
    requires c.Checked() && |a| == c.aWidth && |b| == c.bWidth && i < c.yWidth
    ensures YBit(c, a, b, i) == Carried(c, SourceOf(c, i, Value(b, c.bSigned)), a)
  {
    BigIsValue(b, c.bSigned);
    BigIsValue(b, false);
    var v := Value(b, c.bSigned);
    if c.Left() {
      LeftYBit(c, a, b, i, v);
    } else if c.op.Shr? || c.op.Sshr? {
      RightYBit(c, a, b, i, v);
    } else {
      EitherYBit(c, a, b, i, v);
    }
  }

  /** Bit p of A extended, or what is shifted in. */
  lemma {:induction false} ExtendedAt(a: Bv, m: nat, signed: bool, p: int)
    requires a != [] && 0 <= p < m
    ensures ExtendU0(ToConst(a), m, signed)[p] == if p < |a| then OfBool(a[p]) else if signed then OfBool(a[|a| - 1]) else S0
  {
  }

  lemma {:induction false} ShiftedAt(x: Const, n: int, low: State, high: State, w: nat, i: nat, p: int)
    requires i < w && p == i + n
    ensures Shifted(x, n, low, high, w)[i] == if p < 0 then low else if p >= |x| then high else x[p]
  {
  }

  lemma {:induction false} LeftYBit(c: ShiftCell, a: Bv, b: Bv, i: nat, v: int)
    requires c.Checked() && c.Left() && |a| == c.aWidth && |b| == c.bWidth && i < c.yWidth && Big(ToConst(b), false) == v
    ensures YBit(c, a, b, i) == Carried(c, SourceOf(c, i, v), a)
  {
    var op, p := EffectiveOp(c.op, c.aSigned), i - v;
    if op.Shl? {
      var x := ExtendU0(ToConst(a), c.yWidth, c.aSigned);
      ShiftedAt(x, -v, S0, S0, c.yWidth, i, p);
      if 0 <= p < c.yWidth {
        ExtendedAt(a, c.yWidth, c.aSigned, p);
      }
    } else {
      ShiftedAt(ToConst(a), -v, S0, ToConst(a)[c.aWidth - 1], c.yWidth, i, p);
    }
  }

  lemma {:induction false} RightYBit(c: ShiftCell, a: Bv, b: Bv, i: nat, v: int)
    requires c.Checked() && (c.op.Shr? || c.op.Sshr?) && |a| == c.aWidth && |b| == c.bWidth && i < c.yWidth
    requires Big(ToConst(b), false) == v
    ensures YBit(c, a, b, i) == Carried(c, SourceOf(c, i, v), a)
  {
    var op, p, m := EffectiveOp(c.op, c.aSigned), i + v, Max(c.yWidth, c.aWidth);
    if op.Shr? {
      var x := ExtendU0(ToConst(a), m, c.aSigned);
      ShiftedAt(x, v, S0, S0, c.yWidth, i, p);
      if 0 <= p < m {
        ExtendedAt(a, m, c.aSigned, p);
      }
    } else {
      ShiftedAt(ToConst(a), v, S0, ToConst(a)[c.aWidth - 1], c.yWidth, i, p);
    }
  }

  lemma {:induction false} EitherYBit(c: ShiftCell, a: Bv, b: Bv, i: nat, v: int)
    requires c.Checked() && (c.op.Shift? || c.op.Shiftx?) && |a| == c.aWidth && |b| == c.bWidth && i < c.yWidth
    requires Big(ToConst(b), c.bSigned) == v
    ensures YBit(c, a, b, i) == Carried(c, SourceOf(c, i, v), a)
  {
    var p, m := i + v, Max(c.yWidth, c.aWidth);
    if c.op.Shift? {
      var x := ExtendU0(ToConst(a), m, c.aSigned);
      ShiftedAt(x, v, S0, S0, c.yWidth, i, p);
      if 0 <= p < m {
        ExtendedAt(a, m, c.aSigned, p);
      }
    } else {
      ShiftedAt(ToConst(a), v, Sx, Sx, c.yWidth, i, p);
    }
  }

  // ---------------------------------------------------- amounts and toggles

  predicate InRange(c: ShiftCell, v: int)
    requires c.bWidth > 0
  {
    c.Lowest() <= v <= c.Highest()
  }

  /** What setting bit k of B adds to the amount. */
  function Step(c: ShiftCell, k: nat): int {
    if c.bSigned && k == c.bWidth - 1 then 0 - Pow2(k) else Pow2(k)
  }

  lemma {:induction false} ValueInRange(c: ShiftCell, b: Bv)
    requires c.bWidth > 0 && |b| == c.bWidth
    ensures InRange(c, Value(b, c.bSigned))
  {
    ValueRange(b);
  }

  lemma {:induction false} AmountExists(c: ShiftCell, v: int) returns (b: Bv)
    requires c.bWidth > 0 && InRange(c, v)
    ensures |b| == c.bWidth && Value(b, c.bSigned) == v
    ensures forall k: nat | k < c.bWidth :: b[k] == Bit(v, k)
  {
    b := FromInt(v, c.bWidth);
    if c.bSigned {
      SmallSigned(v, c.bWidth);
    } else {
      Small(v, c.bWidth);
    }
    forall k: nat | k < c.bWidth ensures b[k] == Bit(v, k) { FromIntAt(v, c.bWidth, k); }
  }

  lemma {:induction false} SetAmount(c: ShiftCell, b: Bv, k: nat)
    requires c.bWidth > 0 && |b| == c.bWidth && k < |b| && !b[k]
    ensures Value(b[k := true], c.bSigned) == Value(b, c.bSigned) + Step(c, k)
  {
    SetBit(b, k);
    assert Pow2(|b|) == 2 * Pow2(|b| - 1);
  }

  /** Bit k of the amount v is clear, so v and v + Step are the two amounts that differ in it. */
  predicate Clear(c: ShiftCell, v: int, k: nat)
    requires c.bWidth > 0
  {
    InRange(c, v) && !Bit(v, k)
  }

  /** Setting a clear bit stays in range, and below the sign bit does not change the sign. */
  lemma {:induction false} StepInRange(c: ShiftCell, v: int, k: nat)
    requires c.bWidth > 0 && k < c.bWidth && Clear(c, v, k)
    ensures InRange(c, v + Step(c, k))
    ensures c.bSigned && k < c.bWidth - 1 ==> (v < 0 <==> v + Step(c, k) < 0)
    ensures c.bSigned && k == c.bWidth - 1 ==> v >= 0
  {
    var b := AmountExists(c, v);
    SetAmount(c, b, k);
    ValueInRange(c, b[k := true]);
    ValueRange(b);
    ValueRange(b[k := true]);
  }

  lemma {:induction false} TopBitClear(c: ShiftCell, v: int)
    requires c.bWidth > 0 && c.bSigned && InRange(c, v) && v >= 0
    ensures Clear(c, v, c.bWidth - 1)
  {
    var b := AmountExists(c, v);
    ValueRange(b);
  }

  ghost predicate Reaches(c: ShiftCell, k: nat, i: nat)
    requires c.bWidth > 0
  {
    exists v :: InRange(c, v) && SourceOf(c, i, v) == FromA(k)
  }

  ghost predicate Toggles(c: ShiftCell, k: nat, i: nat)
    requires c.bWidth > 0
  {
    exists v :: Clear(c, v, k) && SourceOf(c, i, v) != SourceOf(c, i, v + Step(c, k))
  }

  lemma {:induction false} InfluencesAIsReaches(c: ShiftCell, k: nat, i: nat)
    requires c.Checked() && k < c.aWidth && i < c.yWidth
    ensures InfluencesA(c, k, i) <==> Reaches(c, k, i)
  {
    if InfluencesA(c, k, i) {
      var a: Bv, b: Bv :| |a| == c.aWidth && |b| == c.bWidth && YBit(c, a, b, i) != YBit(c, a[k := !a[k]], b, i);
      YBitIs(c, a, b, i);
      YBitIs(c, a[k := !a[k]], b, i);
      ValueInRange(c, b);
      assert SourceOf(c, i, Value(b, c.bSigned)) == FromA(k);
    }
    if v :| InRange(c, v) && SourceOf(c, i, v) == FromA(k) {
      var b := AmountExists(c, v);
      var a := Fill(false, c.aWidth);
      YBitIs(c, a, b, i);
      YBitIs(c, a[k := !a[k]], b, i);
    }
  }

  lemma {:induction false} InfluencesBIsToggles(c: ShiftCell, k: nat, i: nat)
    requires c.Checked() && k < c.bWidth && i < c.yWidth
    ensures InfluencesB(c, k, i) <==> Toggles(c, k, i)
  {
    if InfluencesB(c, k, i) {
      var a: Bv, b: Bv :| |a| == c.aWidth && |b| == c.bWidth && YBit(c, a, b, i) != YBit(c, a, b[k := !b[k]], i);
      InfluenceToggles(c, a, b, k, i);
    }
    if v :| Clear(c, v, k) && SourceOf(c, i, v) != SourceOf(c, i, v + Step(c, k)) {
      ToggleInfluences(c, v, k, i);
    }
  }

  lemma {:induction false} InfluenceToggles(c: ShiftCell, a: Bv, b: Bv, k: nat, i: nat)
    requires c.Checked() && k < c.bWidth && i < c.yWidth && |a| == c.aWidth && |b| == c.bWidth
    requires YBit(c, a, b, i) != YBit(c, a, b[k := !b[k]], i)
    ensures Toggles(c, k, i)
  {
    YBitIs(c, a, b, i);
    YBitIs(c, a, b[k := !b[k]], i);
    ToggledFrom(c, b[k := false], k, i);
    assert b == if b[k] then b[k := false][k := true] else b[k := false];
    assert b[k := !b[k]] == if b[k] then b[k := false] else b[k := false][k := true];
  }

  lemma {:induction false} ToggleInfluences(c: ShiftCell, v: int, k: nat, i: nat)
    requires c.Checked() && k < c.bWidth && i < c.yWidth
    requires Clear(c, v, k) && SourceOf(c, i, v) != SourceOf(c, i, v + Step(c, k))
    ensures InfluencesB(c, k, i)
  {
    var b := AmountExists(c, v);
    var s, t := SourceOf(c, i, v), SourceOf(c, i, v + Step(c, k));
    var a := TellApart(c, s, t);
    var b' := b[k := true];
    SetAmount(c, b, k);
    assert YBit(c, a, b, i) == Carried(c, s, a) by { YBitIs(c, a, b, i); }
    assert YBit(c, a, b', i) == Carried(c, t, a) by { YBitIs(c, a, b', i); }
    assert b' == b[k := !b[k]];
  }

  lemma {:induction false} ToggledFrom(c: ShiftCell, b: Bv, k: nat, i: nat)
    requires c.Checked() && |b| == c.bWidth && k < |b| && !b[k]
    ensures SourceOf(c, i, Value(b, c.bSigned)) != SourceOf(c, i, Value(b[k := true], c.bSigned)) ==> Toggles(c, k, i)
  {
    var v := Value(b, c.bSigned);
    SetAmount(c, b, k);
    ValueInRange(c, b);
    ExtendIs(b, |b|, c.bSigned);
    assert b[..|b|] == b;
    FromIntAt(v, |b|, k);
    assert Clear(c, v, k);
  }

  /** Some A carries different values from two different sources. */
  lemma {:induction false} TellApart(c: ShiftCell, s: Source, t: Source) returns (a: Bv)
    requires s != t && (s.FromA? ==> 0 <= s.k < c.aWidth) && (t.FromA? ==> 0 <= t.k < c.aWidth)
    ensures |a| == c.aWidth && Carried(c, s, a) != Carried(c, t, a)
  {
    a := Fill(false, c.aWidth);
    if s.FromA? {
      a := a[s.k := true];
    } else {
      a := a[t.k := true];
    }
  }

  // -------------------------------------------------- the claimed A edges

  function Least(a: int, b: int): int {
    if a < b then a else b
  }

  function Greatest(a: int, b: int): int {
    if a > b then a else b
  }

  /** The highest position of Y that can change with the value of B. */
  function BRangeUpper(c: ShiftCell): int
    requires c.Checked()
  {
    if c.Left() then c.aWidth + c.Highest() - (if c.aSigned then 1 else 0)
    else if !c.bSigned then c.aWidth
    else c.aWidth - c.Lowest()
  }

  /** The lowest position of A that can be moved to bit i of Y. */
  function ARangeLower(c: ShiftCell, i: nat): int
    requires c.Checked()
  {
    if c.Left() then Greatest(0, i - c.Highest())
    else if !c.bSigned then Least(i, c.aWidth - 1)
    else
      var lower := Greatest(0, i + c.Lowest());
      if c.aSigned then Least(lower, c.aWidth - 1) else lower
  }

  /** One past the highest. */
  function ARangeUpper(c: ShiftCell, i: nat): int
    requires c.Checked()
  {
    if c.Left() then Least(i + 1, c.aWidth) else Least(i + 1 + c.Highest(), c.aWidth)
  }

  predicate EdgeA(c: ShiftCell, k: int, i: nat)
    requires c.Checked()
  {
    if i < BRangeUpper(c) then ARangeLower(c, i) <= k < ARangeUpper(c, i) else c.aSigned && k == c.aWidth - 1
  }

  /** The claimed edges from A are exactly the bits of A that some amount brings to bit i. */
  lemma {:induction false} EdgeAExact(c: ShiftCell, k: nat, i: nat)
    requires c.Checked() && k < c.aWidth && i < c.yWidth
    ensures EdgeA(c, k, i) <==> Reaches(c, k, i)
  {
    var n := if c.Left() then i - k else k - i;
    if EdgeA(c, k, i) {
      var v := if InRange(c, n) then n else if c.Left() || !c.bSigned then 0 else c.Lowest();
      assert InRange(c, v) && SourceOf(c, i, v) == FromA(k);
    }
    if v :| InRange(c, v) && SourceOf(c, i, v) == FromA(k) {
      assert EdgeA(c, k, i);
    }
  }

  // -------------------------------------------------- the claimed B edges

  /** x & ((1 << n) - 1) */
  function Masked(x: int, n: nat): nat {
    ToNat(FromInt(x, n))
  }

  /** x & ~(1 << k) */
  function Without(x: int, k: nat): int {
    if Bit(x, k) then x - Pow2(k) else x
  }

  predicate EdgeB(c: ShiftCell, k: nat, i: nat)
    requires c.Checked()
  {
    var aw, yw, limit := c.aWidth, c.yWidth, Pow2(c.bWidth);
    if c.Left() then
      if aw == 1 && c.aSigned then Masked(i, k + 1) != Pow2(k + 1) - 1 && i - aw + 2 < limit
      else if c.aSigned then i - aw + 2 < limit
      else i - aw + 1 < limit
    else if !c.bSigned then
      if c.aSigned then
        i < aw - 1 || ((c.op.Shr? || c.op.Shift? || c.op.Shiftx?) && Masked(yw - i, k + 1) != 0 && Without(yw - i, k) < limit)
      else i < aw
    else if c.aSigned then
      if k != c.bWidth - 1 then
        || i < aw - 1
        || (Masked(yw - i, k + 1) != 0 && Without(yw - i, k) <= c.Highest())
        || (aw - 2 - i >= c.Lowest() && (aw == 1 ==> Masked(0 - (i - aw) - 1, k + 1) != 0))
      else yw - i <= c.Highest() || aw - 2 - i >= c.Lowest()
    else aw - 1 - i >= c.Lowest()
  }

  /** An amount with bit k clear that lies below d, while setting the bit takes it to d or above. */
  predicate Straddles(v: int, d: int, k: nat) {
    !Bit(v, k) && v < d <= v + Pow2(k)
  }

  lemma {:induction false} MaskedSplit(x: int, k: nat)
    ensures x == Masked(x, k + 1) + High(x, k + 1) * Pow2(k + 1) && Masked(x, k + 1) < Pow2(k + 1)
    ensures Masked(x, k + 1) == Masked(x, k) + (if Bit(x, k) then Pow2(k) else 0) && Masked(x, k) < Pow2(k)
  {
    Split(x, k + 1);
    FromIntTake(x, k + 1, k);
    FromIntAt(x, k + 1, k);
    assert FromInt(x, k + 1) == FromInt(x, k) + [Bit(x, k)];
    ToNatSnoc(FromInt(x, k), Bit(x, k));
  }

  lemma {:induction false} BlockOrder(g: int, h: int, m: int)
    requires m > 0
    ensures g < h ==> g * m + m <= h * m
    ensures g * m < h * m + m ==> g <= h
  {
    if g < h {
      M.MulMonotone(g + 1, h, m);
      Distribute(g, 1, m);
    } else if g > h {
      M.MulMonotone(h + 1, g, m);
      Distribute(h, 1, m);
    }
  }

  /** Such an amount exists exactly if d is not a multiple of 2^(k+1). */
  lemma {:induction false} StraddleNeedsBit(v: int, d: int, k: nat)
    requires Straddles(v, d, k)
    ensures Masked(d, k + 1) != 0
  {
    MaskedSplit(v, k);
    MaskedSplit(d, k);
    BlockOrder(High(v, k + 1), High(d, k + 1), Pow2(k + 1));
    BlockOrder(High(d, k + 1), High(v, k + 1), Pow2(k + 1));
  }

  lemma {:induction false} LowOf(g: int, r: int, k: nat)
    requires 0 <= r < Pow2(k)
    ensures Masked(r + g * Pow2(k + 1), k + 1) == r && !Bit(r + g * Pow2(k + 1), k)
  {
    var x := r + g * Pow2(k + 1);
    Same(x, r, g, k + 1);
    Small(r, k + 1);
    MaskedSplit(x, k);
  }

  lemma {:induction false} StraddleExists(d: int, k: nat, h: int) returns (v: int)
    requires Masked(d, k + 1) != 0 && h * Pow2(k + 1) < d
    ensures Straddles(v, d, k) && h * Pow2(k + 1) <= v <= Without(d, k)
  {
    MaskedSplit(d, k);
    var g, s := High(d, k + 1), Masked(d, k + 1);
    var r := if s <= Pow2(k) then 0 else s - Pow2(k);
    v := r + g * Pow2(k + 1);
    LowOf(g, r, k);
    BlockOrder(h, g, Pow2(k + 1));
    if h < g {
    } else {
      BlockOrder(g, h, Pow2(k + 1));
    }
  }

  /** The same within the amounts a cell has, on the side of zero where d lies. */
  lemma {:induction false} StraddleInRange(c: ShiftCell, d: int, k: nat) returns (v: int)
    requires c.bWidth > 0 && k < c.bWidth && Masked(d, k + 1) != 0
    requires c.bSigned ==> k < c.bWidth - 1
    requires if d > 0 then Without(d, k) <= c.Highest() else c.Lowest() < d
    ensures Straddles(v, d, k) && Clear(c, v, k) && (d > 0 ==> v >= 0) && v < d
    ensures v + Step(c, k) == v + Pow2(k) && InRange(c, v + Pow2(k))
  {
    if d > 0 {
      assert 0 * Pow2(k + 1) == 0;
      v := StraddleExists(d, k, 0);
    } else {
      var rest := c.bWidth - 1 - (k + 1);
      Pow2Sum(rest, k + 1);
      var h := 0 - Pow2(rest);
      assert h * Pow2(k + 1) == 0 - Pow2(c.bWidth - 1) by { Distribute(Pow2(rest), h, Pow2(k + 1)); }
      v := StraddleExists(d, k, h);
    }
    StepInRange(c, v, k);
  }

  // ---------------------------------------------------- the B edges, exactly

  lemma {:induction false} Toggled(c: ShiftCell, v: int, k: nat, i: nat)
    requires c.bWidth > 0 && Clear(c, v, k) && SourceOf(c, i, v) != SourceOf(c, i, v + Step(c, k))
    ensures Toggles(c, k, i)
  {
  }

  /** The amount with bit k cleared. */
  function Cleared(v: int, k: nat, c: ShiftCell): int {
    if Bit(v, k) then v - Step(c, k) else v
  }

  lemma {:induction false} ClearedInRange(c: ShiftCell, v: int, k: nat)
    requires c.bWidth > 0 && k < c.bWidth && InRange(c, v)
    ensures Clear(c, Cleared(v, k, c), k)
  {
    var b := AmountExists(c, v);
    if b[k] {
      var b' := b[k := false];
      SetAmount(c, b', k);
      assert b'[k := true] == b;
      ValueInRange(c, b');
      var u := Value(b', c.bSigned);
      ExtendIs(b', |b'|, c.bSigned);
      assert b'[..|b'|] == b';
      FromIntAt(u, |b'|, k);
    }
  }

  /** An amount whose source no other amount shares makes the bit depend on every bit of B. */
  lemma {:induction false} UniqueSource(c: ShiftCell, v: int, k: nat, i: nat)
    requires c.bWidth > 0 && k < c.bWidth && InRange(c, v)
    requires forall u :: u != v ==> SourceOf(c, i, u) != SourceOf(c, i, v)
    ensures Toggles(c, k, i)
  {
    ClearedInRange(c, v, k);
    Toggled(c, Cleared(v, k, c), k, i);
  }

  lemma {:induction false} LeftExact(c: ShiftCell, k: nat, i: nat)
    requires c.Checked() && c.Left() && k < c.bWidth && i < c.yWidth
    ensures EdgeB(c, k, i) <==> Toggles(c, k, i)
  {
    var aw := c.aWidth;
    if aw == 1 && c.aSigned {
      LeftOneBit(c, k, i);
    } else if EdgeB(c, k, i) {
      UniqueSource(c, Greatest(0, i - aw + (if c.aSigned then 2 else 1)), k, i);
    } else {
      forall v | Clear(c, v, k) ensures SourceOf(c, i, v) == SourceOf(c, i, v + Step(c, k)) {
        StepInRange(c, v, k);
      }
    }
  }

  lemma {:induction false} LeftOneBit(c: ShiftCell, k: nat, i: nat)
    requires c.Checked() && c.Left() && k < c.bWidth && i < c.yWidth && c.aWidth == 1 && c.aSigned
    ensures EdgeB(c, k, i) <==> Toggles(c, k, i)
  {
    MaskedNext(i, k);
    if EdgeB(c, k, i) {
      var v := StraddleInRange(c, i + 1, k);
      Toggled(c, v, k, i);
    } else {
      forall v | Clear(c, v, k) ensures SourceOf(c, i, v) == SourceOf(c, i, v + Step(c, k)) {
        StepInRange(c, v, k);
        if v < i + 1 <= v + Pow2(k) { StraddleNeedsBit(v, i + 1, k); }
      }
    }
  }

  /** i % 2^(k+1) is the largest remainder exactly if i + 1 is a multiple. */
  lemma {:induction false} MaskedNext(i: int, k: nat)
    ensures Masked(i, k + 1) != Pow2(k + 1) - 1 <==> Masked(i + 1, k + 1) != 0
  {
    MaskedSplit(i, k);
    MaskedSplit(i + 1, k);
    var g, h, m := High(i, k + 1), High(i + 1, k + 1), Pow2(k + 1);
    BlockOrder(g, h, m);
    BlockOrder(h, g, m);
    BlockOrder(g + 1, h, m);
    BlockOrder(h, g + 1, m);
    Distribute(g, 1, m);
  }

  lemma {:induction false} WithoutBounds(x: int, k: nat)
    ensures Without(x, k) <= x
  {
  }

  lemma {:induction false} RightExact(c: ShiftCell, k: nat, i: nat)
    requires c.Checked() && !c.Left() && !c.bSigned && k < c.bWidth && i < c.yWidth
    ensures EdgeB(c, k, i) <==> Toggles(c, k, i)
  {
    if i < (if c.aSigned then c.aWidth - 1 else c.aWidth) {
      UniqueSource(c, 0, k, i);
    } else if c.aSigned && !c.op.Sshr? {
      PaddingJump(c, k, i);
    } else {
      forall v | Clear(c, v, k) ensures SourceOf(c, i, v) == SourceOf(c, i, v + Step(c, k)) {
        StepInRange(c, v, k);
      }
    }
  }

  lemma {:induction false} JumpToggles(c: ShiftCell, k: nat, i: nat, d: int)
    requires c.Checked() && (c.op.Shr? || c.op.Shift?) && c.aSigned && k < c.bWidth && (c.bSigned ==> k < c.bWidth - 1)
    requires c.aWidth - 1 <= i < c.yWidth && d == c.yWidth - i && Masked(d, k + 1) != 0 && Without(d, k) <= c.Highest()
    ensures Toggles(c, k, i)
  {
    var v := StraddleInRange(c, d, k);
    assert SourceOf(c, i, v) == FromA(c.aWidth - 1) && SourceOf(c, i, v + Pow2(k)) == Vacant;
    Toggled(c, v, k, i);
  }

  lemma {:induction false} LoneBitToggles(c: ShiftCell, k: nat, i: nat, d: int)
    requires c.Checked() && c.op.Shift? && c.bSigned && c.aSigned && c.aWidth == 1 && k < c.bWidth - 1 && i < c.yWidth
    requires d == 0 - i && c.Lowest() < d && Masked(d, k + 1) != 0
    ensures Toggles(c, k, i)
  {
    var v := StraddleInRange(c, d, k);
    StepInRange(c, v, k);
    assert SourceOf(c, i, v) == Vacant && SourceOf(c, i, v + Pow2(k)) == FromA(0);
    Toggled(c, v, k, i);
  }

  /** A signed A padded with zeros: the bit changes only by jumping past Y's width. */
  lemma {:induction false} PaddingJump(c: ShiftCell, k: nat, i: nat)
    requires c.Checked() && (c.op.Shr? || c.op.Shift?) && !c.bSigned && c.aSigned && k < c.bWidth && c.aWidth - 1 <= i < c.yWidth
    ensures Toggles(c, k, i) <==> Masked(c.yWidth - i, k + 1) != 0 && Without(c.yWidth - i, k) < Pow2(c.bWidth)
  {
    var d := c.yWidth - i;
    if Masked(d, k + 1) != 0 && Without(d, k) < Pow2(c.bWidth) {
      JumpToggles(c, k, i, d);
    }
    if v :| Clear(c, v, k) && SourceOf(c, i, v) != SourceOf(c, i, v + Step(c, k)) {
      JumpNeeded(c, v, k, i, d);
    }
  }

  lemma {:induction false} JumpNeeded(c: ShiftCell, v: int, k: nat, i: nat, d: int)
    requires c.Checked() && (c.op.Shr? || c.op.Shift?) && !c.bSigned && c.aSigned && k < c.bWidth
    requires c.aWidth - 1 <= i < c.yWidth && d == c.yWidth - i
    requires Clear(c, v, k) && SourceOf(c, i, v) != SourceOf(c, i, v + Step(c, k))
    ensures Masked(d, k + 1) != 0 && Without(d, k) < Pow2(c.bWidth)
  {
    StepInRange(c, v, k);
    assert v < d <= v + Pow2(k);
    StraddleNeedsBit(v, d, k);
    WithoutBounds(d, k);
  }

  lemma {:induction false} BothExact(c: ShiftCell, k: nat, i: nat)
    requires c.Checked() && !c.Left() && c.bSigned && k < c.bWidth && i < c.yWidth
    ensures EdgeB(c, k, i) <==> Toggles(c, k, i)
  {
    if !c.aSigned {
      BothUnsigned(c, k, i);
    } else if k == c.bWidth - 1 {
      BothTop(c, i);
    } else {
      BothLow(c, k, i);
    }
  }

  lemma {:induction false} BothUnsigned(c: ShiftCell, k: nat, i: nat)
    requires c.Checked() && !c.Left() && c.bSigned && !c.aSigned && k < c.bWidth && i < c.yWidth
    ensures Toggles(c, k, i) <==> c.aWidth - 1 - i >= c.Lowest()
  {
    if c.aWidth - 1 - i >= c.Lowest() {
      UniqueSource(c, Greatest(0 - i, c.Lowest()), k, i);
    } else {
      forall v | Clear(c, v, k) ensures SourceOf(c, i, v) == SourceOf(c, i, v + Step(c, k)) {
        StepInRange(c, v, k);
      }
    }
  }

  lemma {:induction false} BothTop(c: ShiftCell, i: nat)
    requires c.Checked() && !c.Left() && c.bSigned && c.aSigned && i < c.yWidth
    ensures Toggles(c, c.bWidth - 1, i) <==> c.yWidth - i <= c.Highest() || c.aWidth - 2 - i >= c.Lowest()
  {
    var k := c.bWidth - 1;
    if c.yWidth - i <= c.Highest() || c.aWidth - 2 - i >= c.Lowest() {
      var v := if c.aWidth - 2 - i >= c.Lowest() && c.aWidth > 1 && i >= c.aWidth - 1 then Greatest(0, 0 - (i + c.Lowest()))
               else if c.aWidth - 2 - i >= c.Lowest() || i == 0 then 0
               else c.Highest();
      TopBitClear(c, v);
      Toggled(c, v, k, i);
    } else {
      forall v | Clear(c, v, k) ensures SourceOf(c, i, v) == SourceOf(c, i, v + Step(c, k)) {
        StepInRange(c, v, k);
      }
    }
  }

  lemma {:induction false} BothLow(c: ShiftCell, k: nat, i: nat)
    requires c.Checked() && !c.Left() && c.bSigned && c.aSigned && k < c.bWidth - 1 && i < c.yWidth
    ensures EdgeB(c, k, i) <==> Toggles(c, k, i)
  {
    if EdgeB(c, k, i) {
      BothLowClaimed(c, k, i);
    }
    if v :| Clear(c, v, k) && SourceOf(c, i, v) != SourceOf(c, i, v + Step(c, k)) {
      BothLowNeeded(c, v, k, i);
    }
  }

  lemma {:induction false} BothLowClaimed(c: ShiftCell, k: nat, i: nat)
    requires c.Checked() && !c.Left() && c.bSigned && c.aSigned && k < c.bWidth - 1 && i < c.yWidth && EdgeB(c, k, i)
    ensures Toggles(c, k, i)
  {
    var aw, d := c.aWidth, c.yWidth - i;
    if i < aw - 1 {
      UniqueSource(c, 0, k, i);
    } else if Masked(d, k + 1) != 0 && Without(d, k) <= c.Highest() {
      JumpToggles(c, k, i, d);
    } else if aw > 1 {
      UniqueSource(c, Greatest(0 - i, c.Lowest()), k, i);
    } else {
      LoneBitToggles(c, k, i, 0 - i);
    }
  }

  lemma {:induction false} BothLowNeeded(c: ShiftCell, v: int, k: nat, i: nat)
    requires c.Checked() && !c.Left() && c.bSigned && c.aSigned && k < c.bWidth - 1 && i < c.yWidth
    requires Clear(c, v, k) && SourceOf(c, i, v) != SourceOf(c, i, v + Step(c, k))
    ensures EdgeB(c, k, i)
  {
    StepInRange(c, v, k);
    if i >= c.aWidth - 1 {
      var d := c.yWidth - i;
      if v >= 0 {
        StraddleNeedsBit(v, d, k);
        WithoutBounds(d, k);
      } else if c.aWidth == 1 {
        StraddleNeedsBit(v, 0 - i, k);
      }
    }
  }

  /** The claimed edges from B are exactly the bits of the amount that can matter. */
  lemma {:induction false} EdgeBExact(c: ShiftCell, k: nat, i: nat)
    requires c.Checked() && k < c.bWidth && i < c.yWidth
    ensures EdgeB(c, k, i) <==> Toggles(c, k, i)
  {
    if c.Left() {
      LeftExact(c, k, i);
    } else if c.bSigned {
      BothExact(c, k, i);
    } else {
      RightExact(c, k, i);
    }
  }

  // ------------------------------------------------------------- the loops

  /** An edge of the database, from bit k of A or of B to bit i of Y. */
  datatype Edge = EdgeOfA(k: int, i: int) | EdgeOfB(k: int, i: int)

  /** Everything the database holds is a true influence on a bit below n, and nothing is missing there. */
  ghost predicate ExactBelow(c: ShiftCell, db: set<Edge>, n: nat)
    requires c.Checked() && n <= c.yWidth
  {
    forall e: Edge :: e in db <==>
      && 0 <= e.i < n
      && match e
         case EdgeOfA(k, i) => 0 <= k < c.aWidth && InfluencesA(c, k, i)
         case EdgeOfB(k, i) => 0 <= k < c.bWidth && InfluencesB(c, k, i)
  }

  /** `shift_op`: the edges are exactly the influences. */
  method ShiftOp(c: ShiftCell) returns (db: set<Edge>)
    requires c.Checked()
    ensures ExactBelow(c, db, c.yWidth)
  {
    db := {};
    for i := 0 to c.yWidth
      invariant ExactBelow(c, db, i)
    {
      var fromA := AddEdgesOfA(c, i);
      var fromB := AddEdgesOfB(c, i);
      db := db + fromA + fromB;
    }
  }

  lemma {:induction false} EdgeAInfluences(c: ShiftCell, k: nat, i: nat)
    requires c.Checked() && k < c.aWidth && i < c.yWidth
    ensures EdgeA(c, k, i) <==> InfluencesA(c, k, i)
  {
    EdgeAExact(c, k, i);
    InfluencesAIsReaches(c, k, i);
  }

  lemma {:induction false} EdgesAInfluence(c: ShiftCell, i: nat)
    requires c.Checked() && i < c.yWidth
    ensures forall k :: EdgeA(c, k, i) <==> 0 <= k < c.aWidth && InfluencesA(c, k, i)
  {
    forall k ensures EdgeA(c, k, i) <==> 0 <= k < c.aWidth && InfluencesA(c, k, i) {
      if 0 <= k < c.aWidth {
        EdgeAInfluences(c, k, i);
      }
    }
  }

  lemma {:induction false} EdgeBInfluences(c: ShiftCell, k: nat, i: nat)
    requires c.Checked() && k < c.bWidth && i < c.yWidth
    ensures EdgeB(c, k, i) <==> InfluencesB(c, k, i)
  {
    EdgeBExact(c, k, i);
    InfluencesBIsToggles(c, k, i);
  }

  method AddEdgesOfA(c: ShiftCell, i: nat) returns (edges: set<Edge>)
    requires c.Checked() && i < c.yWidth
    ensures forall e: Edge :: e in edges <==> e.EdgeOfA? && e.i == i && 0 <= e.k < c.aWidth && InfluencesA(c, e.k, i)
  {
    edges := {};
    if i < BRangeUpper(c) {
      var lower, upper := ARangeLower(c, i), ARangeUpper(c, i);
      for k := lower to Greatest(lower, upper)
        invariant forall e: Edge :: e in edges <==> e.EdgeOfA? && e.i == i && lower <= e.k < k
      {
        edges := edges + {EdgeOfA(k, i)};
      }
    } else if c.aSigned {
      edges := edges + {EdgeOfA(c.aWidth - 1, i)};
    }
    EdgesAInfluence(c, i);
  }

  method AddEdgesOfB(c: ShiftCell, i: nat) returns (edges: set<Edge>)
    requires c.Checked() && i < c.yWidth
    ensures forall e: Edge :: e in edges <==> e.EdgeOfB? && e.i == i && 0 <= e.k < c.bWidth && InfluencesB(c, e.k, i)
  {
    edges := AddClaimedOfB(c, i);
    forall k: nat | k < c.bWidth ensures EdgeB(c, k, i) <==> InfluencesB(c, k, i) {
      EdgeBInfluences(c, k, i);
    }
  }

  /** The loop over the bits of B. */
  method AddClaimedOfB(c: ShiftCell, i: nat) returns (edges: set<Edge>)
    requires c.Checked() && i < c.yWidth
    ensures forall e: Edge :: e in edges <==> e.EdgeOfB? && e.i == i && 0 <= e.k < c.bWidth && EdgeB(c, e.k, i)
  {
    edges := {};
    for k := 0 to c.bWidth
      invariant forall e: Edge :: e in edges <==> e.EdgeOfB? && e.i == i && 0 <= e.k < k && EdgeB(c, e.k, i)
    {
      if EdgeB(c, k, i) {
        edges := edges + {EdgeOfB(k, i)};
      }
    }
  }
}
