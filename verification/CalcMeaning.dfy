/**
 * What the constant evaluator answers for each two-operand cell, in integers
 * and bits: every answer on defined operands, and which bits are undefined.
 */
module CalcMeaning {
  import opened Rtlil
  import opened Bits
  import opened Calc

  /** The cell on defined operands. */
  ghost function OnBits(op: CellOp, x: Bv, y: Bv, signed1: bool, signed2: bool, w: nat): Const
    requires w > 0 && ReadsLast(op, ToConst(x), signed1)
  {
    CellResult(op, ToConst(x), ToConst(y), signed1, signed2, w)
  }

  lemma {:induction false} Defined(x: Bv)
    ensures FullyDefined(ToConst(x))
  {
  }

  lemma {:induction false} Dispatched(op: CellOp, c: Const, d: Const, signed1: bool, signed2: bool, w: nat)
    requires w > 0 && (op.Arithmetic() || op.Ordering())
    ensures op.Arithmetic() ==>
              CellResult(op, c, d, signed1, signed2, w) == Arithmetic(op, c, d, signed1 && signed2, signed1 && signed2, w)
    ensures op.Ordering() ==>
              CellResult(op, c, d, signed1, signed2, w) == Ordered(op, c, d, signed1 && signed2, signed1 && signed2, w)
  {
  }

  /** Sum, difference and product, signed if both operands are. */
  lemma {:induction false} SumMeaning(op: CellOp, x: Bv, y: Bv, signed1: bool, signed2: bool, w: nat)
    requires (op.Add? || op.Sub? || op.Mul?) && w > 0
    ensures var v, u := Value(x, signed1 && signed2), Value(y, signed1 && signed2);
            OnBits(op, x, y, signed1, signed2, w)
            == ToConst(FromInt(match op case Add => v + u case Sub => v - u case _ => v * u, w))
  {
    var s := signed1 && signed2;
    var v, u := Value(x, s), Value(y, s);
    Dispatched(op, ToConst(x), ToConst(y), signed1, signed2, w);
    SumOf(op, x, y, s, w, v, u);
  }

  lemma {:induction false} SumOf(op: CellOp, x: Bv, y: Bv, s: bool, w: nat, v: int, u: int)
    requires (op.Add? || op.Sub? || op.Mul?) && v == Value(x, s) && u == Value(y, s)
    ensures Arithmetic(op, ToConst(x), ToConst(y), s, s, w)
            == ToConst(FromInt(match op case Add => v + u case Sub => v - u case _ => v * u, w))
  {
    BigIsValue(x, s);
    BigIsValue(y, s);
    Defined(x);
    Defined(y);
  }

  /** Any quotient and remainder that round toward zero are those of $div and $mod. */
  lemma {:induction false} TruncMeaning(x: Bv, y: Bv, signed1: bool, signed2: bool, w: nat, q: int, r: int)
    requires w > 0 && Value(y, signed1 && signed2) != 0
    requires IsTruncDivision(Value(x, signed1 && signed2), Value(y, signed1 && signed2), q, r)
    ensures OnBits(Div, x, y, signed1, signed2, w) == ToConst(FromInt(q, w))
    ensures OnBits(Mod, x, y, signed1, signed2, w) == ToConst(FromInt(r, w))
  {
    var s := signed1 && signed2;
    Dispatched(Div, ToConst(x), ToConst(y), signed1, signed2, w);
    Dispatched(Mod, ToConst(x), ToConst(y), signed1, signed2, w);
    BigIsValue(x, s);
    BigIsValue(y, s);
    Defined(x);
    Defined(y);
    var v, u := Value(x, s), Value(y, s);
    TruncIsDivision(v, u);
    DivisionUnique(v, u, q, r, TruncQuot(v, u), TruncRem(v, u));
  }

  /** Any that round down are those of $divfloor and $modfloor. */
  lemma {:induction false} FloorMeaning(x: Bv, y: Bv, signed1: bool, signed2: bool, w: nat, q: int, r: int)
    requires w > 0 && Value(y, signed1 && signed2) != 0
    requires IsFloorDivision(Value(x, signed1 && signed2), Value(y, signed1 && signed2), q, r)
    ensures OnBits(DivFloor, x, y, signed1, signed2, w) == ToConst(FromInt(q, w))
    ensures OnBits(ModFloor, x, y, signed1, signed2, w) == ToConst(FromInt(r, w))
  {
    var s := signed1 && signed2;
    Dispatched(DivFloor, ToConst(x), ToConst(y), signed1, signed2, w);
    Dispatched(ModFloor, ToConst(x), ToConst(y), signed1, signed2, w);
    BigIsValue(x, s);
    BigIsValue(y, s);
    Defined(x);
    Defined(y);
    var v, u := Value(x, s), Value(y, s);
    FloorIsDivision(v, u);
    DivisionUnique(v, u, q, r, FloorQuot(v, u), FloorRem(v, u));
  }

  /** A power, and for a negative exponent the fraction rounded toward zero. */
  lemma {:induction false} PowMeaning(x: Bv, y: Bv, signed1: bool, signed2: bool, w: nat, q: int, r: int)
    requires w > 0 && (Value(x, signed1 && signed2) != 0 || Value(y, signed1 && signed2) >= 0)
    requires var v, u := Value(x, signed1 && signed2), Value(y, signed1 && signed2);
             if u >= 0 then q == Power(v, u) else Power(v, -u) != 0 && IsTruncDivision(1, Power(v, -u), q, r)
    ensures OnBits(Pow, x, y, signed1, signed2, w) == ToConst(FromInt(q, w))
  {
    var s := signed1 && signed2;
    var v, u := Value(x, s), Value(y, s);
    Dispatched(Pow, ToConst(x), ToConst(y), signed1, signed2, w);
    BigIsValue(x, s);
    BigIsValue(y, s);
    Defined(x);
    Defined(y);
    FillIs(w);
    if u < 0 {
      NegativePower(v, u);
      TruncIsDivision(1, Power(v, -u));
      DivisionUnique(1, Power(v, -u), q, r, TruncQuot(1, Power(v, -u)), TruncRem(1, Power(v, -u)));
    } else if v == 0 && u > 0 {
      assert q == 0;
      assert ToConst(FromInt(0, w)) == AllOf(S0, w);
    }
  }

  lemma {:induction false} FlagIsLone(b: bool, w: nat)
    requires w > 0
    ensures Flag(OfBool(b), w) == ToConst(Lone(b, w))
  {
  }

  /** The four orders, on integers; the bits above the lowest are 0. */
  lemma {:induction false} OrderMeaning(op: CellOp, x: Bv, y: Bv, signed1: bool, signed2: bool, w: nat)
    requires op.Ordering() && w > 0
    ensures var v, u := Value(x, signed1 && signed2), Value(y, signed1 && signed2);
            OnBits(op, x, y, signed1, signed2, w)
            == ToConst(Lone(match op case Lt => v < u case Le => v <= u case Ge => v >= u case _ => v > u, w))
  {
    var v, u := Value(x, signed1 && signed2), Value(y, signed1 && signed2);
    Dispatched(op, ToConst(x), ToConst(y), signed1, signed2, w);
    BigIsValue(x, signed1 && signed2);
    BigIsValue(y, signed1 && signed2);
    Defined(x);
    Defined(y);
    FlagIsLone(match op case Lt => v < u case Le => v <= u case Ge => v >= u case _ => v > u, w);
  }

  /** Equality of defined operands is that of their values at the wider operand's width. */
  lemma {:induction false} EqualMeaning(x: Bv, y: Bv, signed1: bool, signed2: bool, w: nat)
    requires w > 0
    ensures var v, u := Value(x, signed1 && signed2), Value(y, signed1 && signed2);
            && OnBits(Eq, x, y, signed1, signed2, w) == ToConst(Lone(v == u, w))
            && OnBits(Ne, x, y, signed1, signed2, w) == ToConst(Lone(v != u, w))
  {
    var s, m := signed1 && signed2, Max(|x|, |y|);
    var equal := Value(x, s) == Value(y, s);
    MatchedValues(x, y, s, m);
    var matched := Matched(ExtendU0(ToConst(x), m, s), ExtendU0(ToConst(y), m, s));
    assert OnBits(Eq, x, y, signed1, signed2, w) == Flag(matched, w);
    assert OnBits(Ne, x, y, signed1, signed2, w) == Flag(Flipped(matched), w);
    FlagIsLone(equal, w);
    FlagIsLone(!equal, w);
  }

  lemma {:induction false} WiderValue(x: Bv, m: nat, s: bool)
    requires |x| <= m
    ensures Value(Extend(x, m, s), s) == Value(x, s)
  {
    if x == [] {
      assert Extend(x, m, s) == Fill(false, m);
      ToNatZero(Fill(false, m));
    } else {
      ExtendKeepsValue(x, m, s);
    }
  }

  lemma {:induction false} MatchedValues(x: Bv, y: Bv, s: bool, m: nat)
    requires m == Max(|x|, |y|)
    ensures Matched(ExtendU0(ToConst(x), m, s), ExtendU0(ToConst(y), m, s)) == OfBool(Value(x, s) == Value(y, s))
  {
    var x', y' := Extend(x, m, s), Extend(y, m, s);
    var a, b := ExtendU0(ToConst(x), m, s), ExtendU0(ToConst(y), m, s);
    CompletesExtended(x, ToConst(x), m, s);
    CompletesExtended(y, ToConst(y), m, s);
    WiderValue(x, m, s);
    WiderValue(y, m, s);
    if Value(x', s) == Value(y', s) {
      SameValueSameBits(x', y', s);
    }
    MatchedExact(a, b);
    assert FullyDefined(a) && FullyDefined(b);
    forall x1: Bv, y1: Bv | Completes(x1, a) && Completes(y1, b) ensures x1 == x' && y1 == y' {
      OnlyCompletion(x1, a);
      OnlyCompletion(y1, b);
      OnlyCompletion(x', a);
      OnlyCompletion(y', b);
    }
  }

  lemma {:induction false} SameValueSameBits(x: Bv, y: Bv, signed: bool)
    requires |x| == |y| && Value(x, signed) == Value(y, signed)
    ensures x == y
  {
    ExtendIs(x, |x|, signed);
    ExtendIs(y, |y|, signed);
    assert x[..|x|] == x && y[..|y|] == y;
  }

  /** With undefined bits $eq and $ne know exactly what holds of every completion of the extended operands. */
  lemma {:induction false} EqualUndefined(c: Const, d: Const, signed1: bool, signed2: bool, w: nat)
    requires w > 0
    ensures var m, s := Max(|c|, |d|), signed1 && signed2;
            var a, b := ExtendU0(c, m, s), ExtendU0(d, m, s);
            var eq, ne := CellResult(Eq, c, d, signed1, signed2, w), CellResult(Ne, c, d, signed1, signed2, w);
            && (eq[0] == S0 <==> NeverEqual(a, b)) && (eq[0] == S1 <==> AlwaysEqual(a, b)) && eq[0] in {S0, S1, Sx}
            && (ne[0] == S1 <==> NeverEqual(a, b)) && (ne[0] == S0 <==> AlwaysEqual(a, b)) && ne[0] in {S0, S1, Sx}
            && forall i | 0 < i < w :: eq[i] == S0 && ne[i] == S0
  {
    var m, s := Max(|c|, |d|), signed1 && signed2;
    MatchedExact(ExtendU0(c, m, s), ExtendU0(d, m, s));
  }

  /** A division by zero, and any undefined bit of an arithmetic cell but $pow, make everything undefined. */
  lemma {:induction false} ArithmeticUndefined(op: CellOp, c: Const, d: Const, signed1: bool, signed2: bool, w: nat)
    requires op.Arithmetic() && w > 0
    ensures !op.Pow? && !(FullyDefined(c) && FullyDefined(d)) ==> CellResult(op, c, d, signed1, signed2, w) == AllOf(Sx, w)
    ensures (op.Div? || op.Mod? || op.DivFloor? || op.ModFloor?) && Big(d, signed1 && signed2) == 0 ==>
              CellResult(op, c, d, signed1, signed2, w) == AllOf(Sx, w)
  {
  }

  /** An order of undefined operands is undefined, its higher bits are 0. */
  lemma {:induction false} OrderUndefined(op: CellOp, c: Const, d: Const, signed1: bool, signed2: bool, w: nat)
    requires op.Ordering() && w > 0 && !(FullyDefined(c) && FullyDefined(d))
    ensures CellResult(op, c, d, signed1, signed2, w) == [Sx] + AllOf(S0, w - 1)
  {
  }

  /** Bit p of A, its extension up to position m, and what is shifted in past that. */
  function Picked(c: Const, p: int, signed: bool, m: int, vacant: State): State
    requires c != []
  {
    if p < 0 then vacant
    else if p < |c| then c[p]
    else if p < m then if signed then c[|c| - 1] else S0
    else vacant
  }

  lemma {:induction false} ShiftedAt(a: Const, n: int, low: State, high: State, w: nat, i: nat, p: int)
    requires i < w && p == i + n
    ensures Shifted(a, n, low, high, w)[i] == if p < 0 then low else if p >= |a| then high else a[p]
  {
  }

  lemma {:induction false} ExtendedAt(c: Const, m: nat, signed: bool, p: int)
    requires c != [] && 0 <= p < m
    ensures ExtendU0(c, m, signed)[p] == Picked(c, p, signed, m, S0)
  {
  }

  /** Each bit of a left shift by a defined amount. */
  lemma {:induction false} LeftShiftMeaning(op: CellOp, c: Const, y: Bv, signed1: bool, signed2: bool, w: nat, i: nat)
    requires (op.Shl? || op.Sshl?) && c != [] && i < w
    ensures CellResult(op, c, ToConst(y), signed1, signed2, w)[i] == Picked(c, i - ToNat(y), signed1, w, S0)
  {
    var p, d := i - ToNat(y), ToConst(y);
    Defined(y);
    BigIsValue(y, false);
    if EffectiveOp(op, signed1).Shl? {
      ShiftedAt(ExtendU0(c, w, signed1), -Big(d, false), S0, S0, w, i, p);
      if p >= 0 { ExtendedAt(c, w, signed1, p); }
    } else {
      ShiftedAt(c, -Big(d, false), S0, c[|c| - 1], w, i, p);
    }
  }

  /** Each bit of a right shift; the signed arithmetic one repeats the last bit without end. */
  lemma {:induction false} RightShiftMeaning(op: CellOp, c: Const, y: Bv, signed1: bool, signed2: bool, w: nat, i: nat)
    requires (op.Shr? || op.Sshr?) && c != [] && i < w
    ensures var p := i + ToNat(y);
            CellResult(op, c, ToConst(y), signed1, signed2, w)[i] ==
            Picked(c, p, signed1, if op.Sshr? && signed1 then p + 1 else Max(w, |c|), S0)
  {
    var p, d, m := i + ToNat(y), ToConst(y), Max(w, |c|);
    Defined(y);
    BigIsValue(y, false);
    var n := Big(d, false);
    if EffectiveOp(op, signed1).Shr? {
      var a := ExtendU0(c, m, signed1);
      ShiftedAt(a, n, S0, S0, w, i, p);
      assert CellResult(op, c, d, signed1, signed2, w) == Shifted(a, n, S0, S0, w);
      if p < m { ExtendedAt(c, m, signed1, p); }
    } else {
      var high := c[|c| - 1];
      ShiftedAt(c, n, S0, high, w, i, p);
      assert CellResult(op, c, d, signed1, signed2, w) == Shifted(c, n, S0, high, w);
    }
  }

  /** Each bit of $shift and $shiftx, whose amount may be signed. */
  lemma {:induction false} EitherShiftMeaning(op: CellOp, c: Const, y: Bv, signed1: bool, signed2: bool, w: nat, i: nat)
    requires (op.Shift? || op.Shiftx?) && c != [] && i < w
    ensures var p := i + Value(y, signed2);
            CellResult(op, c, ToConst(y), signed1, signed2, w)[i] ==
            if op.Shift? then Picked(c, p, signed1, Max(w, |c|), S0) else Picked(c, p, false, |c|, Sx)
  {
    var p, d, m := i + Value(y, signed2), ToConst(y), Max(w, |c|);
    Defined(y);
    BigIsValue(y, signed2);
    if op.Shift? {
      ShiftedAt(ExtendU0(c, m, signed1), Big(d, signed2), S0, S0, w, i, p);
      if 0 <= p < m { ExtendedAt(c, m, signed1, p); }
    } else {
      ShiftedAt(c, Big(d, signed2), Sx, Sx, w, i, p);
    }
  }

  /** An undefined amount makes everything undefined. */
  lemma {:induction false} ShiftUndefined(op: CellOp, c: Const, d: Const, signed1: bool, signed2: bool, w: nat)
    requires op.Shifting() && c != [] && w > 0 && !FullyDefined(d)
    ensures CellResult(op, c, d, signed1, signed2, w) == AllOf(Sx, w)
  {
  }
}
