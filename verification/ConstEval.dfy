/** Binary addition as a chain of carries. */
module Carry {
  import opened Bits

  function Majority(a: bool, b: bool, c: bool): bool {
    (a && b) || (a && c) || (b && c)
  }

  /** The carry into bit i of a + b + c. */
  function CarryInto(a: Bv, b: Bv, c: bool, i: nat): bool
    requires i <= |a| && |a| == |b|
  {
    if i == 0 then c else Majority(a[i - 1], b[i - 1], CarryInto(a, b, c, i - 1))
  }

  function SumBits(a: Bv, b: Bv, c: bool): (r: Bv)
    requires |a| == |b|
    ensures |r| == |a|
  {
    seq(|a|, i requires 0 <= i < |a| => (a[i] != b[i]) != CarryInto(a, b, c, i))
  }

  /** What leaves each bit. */
  function CarriesOut(a: Bv, b: Bv, c: bool): (r: Bv)
    requires |a| == |b|
    ensures |r| == |a|
  {
    seq(|a|, i requires 0 <= i < |a| => CarryInto(a, b, c, i + 1))
  }

  /** What a bit at position i is worth. */
  function Weight(b: bool, i: nat): int {
    if b then Pow2(i) else 0
  }

  lemma {:induction false} RipplePrefix(a: Bv, b: Bv, c: bool, i: nat)
    requires |a| == |b| && i <= |a|
    ensures ToNat(a[..i]) + ToNat(b[..i]) + Num(c) == ToNat(SumBits(a, b, c)[..i]) + Weight(CarryInto(a, b, c, i), i)
  {
    var s := SumBits(a, b, c);
    if i > 0 {
      RipplePrefix(a, b, c, i - 1);
      RippleBit(a, b, c, i, s, CarryInto(a, b, c, i - 1), s[i - 1]);
    } else {
      assert a[..0] == b[..0] == s[..0] == [];
    }
  }

  lemma {:induction false} RippleBit(a: Bv, b: Bv, c: bool, i: nat, s: Bv, carry: bool, bit: bool)
    requires 0 < i <= |a| == |b| == |s| && s[i - 1] == bit && bit == ((a[i - 1] != b[i - 1]) != carry)
    requires ToNat(a[..i - 1]) + ToNat(b[..i - 1]) + Num(c) == ToNat(s[..i - 1]) + Weight(carry, i - 1)
    ensures ToNat(a[..i]) + ToNat(b[..i]) + Num(c) == ToNat(s[..i]) + Weight(Majority(a[i - 1], b[i - 1], carry), i)
  {
    Snoc(a, i);
    Snoc(b, i);
    Snoc(s, i);
    OneBit(a[i - 1], b[i - 1], carry, i);
  }

  /** A full adder. */
  lemma {:induction false} OneBit(a: bool, b: bool, c: bool, i: nat)
    requires i > 0
    ensures Weight(a, i - 1) + Weight(b, i - 1) + Weight(c, i - 1) == Weight((a != b) != c, i - 1) + Weight(Majority(a, b, c), i)
  {
  }

  lemma {:induction false} Snoc(a: Bv, i: nat)
    requires 0 < i <= |a|
    ensures ToNat(a[..i]) == ToNat(a[..i - 1]) + Weight(a[i - 1], i - 1)
  {
    assert a[..i] == a[..i - 1] + [a[i - 1]];
    ToNatSnoc(a[..i - 1], a[i - 1]);
  }

  /** The ripple chain computes the sum, and its last carry is the bit beyond. */
  lemma {:induction false} RippleIsSum(a: Bv, b: Bv, c: bool)
    requires |a| == |b|
    ensures ToNat(a) + ToNat(b) + Num(c) == ToNat(SumBits(a, b, c)) + Weight(CarryInto(a, b, c, |a|), |a|)
    ensures FromInt(ToNat(a) + ToNat(b) + Num(c), |a|) == SumBits(a, b, c)
    ensures FromInt(ToNat(a) + ToNat(b) + Num(c), |a| + 1) == SumBits(a, b, c) + [CarryInto(a, b, c, |a|)]
  {
    var s, carry := SumBits(a, b, c), CarryInto(a, b, c, |a|);
    RipplePrefix(a, b, c, |a|);
    assert a[..|a|] == a && b[..|a|] == b && s[..|a|] == s;
    WithTop(s, carry, ToNat(a) + ToNat(b) + Num(c));
  }

  /** The carry says whether the sum of the bits below overflows. */
  lemma {:induction false} CarryIsOverflow(a: Bv, b: Bv, c: bool, i: nat)
    requires |a| == |b| && i <= |a|
    ensures CarryInto(a, b, c, i) <==> ToNat(a[..i]) + ToNat(b[..i]) + Num(c) >= Pow2(i)
  {
    RipplePrefix(a, b, c, i);
    assert 0 <= ToNat(SumBits(a, b, c)[..i]) < Pow2(i);
  }

  lemma {:induction false} WithTop(s: Bv, carry: bool, n: int)
    requires n == ToNat(s) + Weight(carry, |s|)
    ensures FromInt(n, |s|) == s && FromInt(n, |s| + 1) == s + [carry]
  {
    Same(n, ToNat(s), Num(carry), |s|);
    FromToNat(s);
    ToNatSnoc(s, carry);
    FromToNat(s + [carry]);
  }

  /** The carry out of bit i of a generate/propagate chain. */
  function LookAhead(p: Bv, g: Bv, c: bool, i: nat): bool
    requires i < |p| && |p| == |g|
  {
    g[i] || (p[i] && if i == 0 then c else LookAhead(p, g, c, i - 1))
  }

  /** The lookahead carry unit, as a vector. */
  function LookAheads(p: Bv, g: Bv, c: bool): (r: Bv)
    requires |p| == |g|
    ensures |r| == |p|
  {
    seq(|p|, i requires 0 <= i < |p| => LookAhead(p, g, c, i))
  }

  /** Adding g and p | g has exactly those carries. */
  lemma {:induction false} LookAheadIsCarry(p: Bv, g: Bv, pg: Bv, c: bool, i: nat)
    requires |p| == |g| == |pg| && i < |p| && forall k :: 0 <= k < |p| ==> pg[k] == (p[k] || g[k])
    ensures LookAhead(p, g, c, i) == CarryInto(g, pg, c, i + 1)
  {
    if i > 0 {
      LookAheadIsCarry(p, g, pg, c, i - 1);
    }
  }
}

/** The reference evaluation of $alu and $lcu (`kernel/consteval.h`). */
module ConstEval {
  import opened Rtlil
  import opened Bits
  import opened Calc
  import opened Carry

  /** B, inverted if BI says so. */
  function Inverted(b: Bv, binv: bool): (r: Bv)
    ensures |r| == |b|
  {
    seq(|b|, i requires 0 <= i < |b| => b[i] != binv)
  }

  /** The three outputs of $alu for operands already at the output width. */
  datatype AluOutput<T> = AluOutput(x: T, y: T, co: T)

  function AluBits(a: Bv, b: Bv, ci: bool, bi: bool): AluOutput<Bv>
    requires |a| == |b|
  {
    var b' := Inverted(b, bi);
    AluOutput(seq(|a|, i requires 0 <= i < |a| => a[i] != b'[i]), SumBits(a, b', ci), CarriesOut(a, b', ci))
  }

  ghost predicate AluCompletes(bits: AluOutput<Bv>, consts: AluOutput<Const>) {
    Completes(bits.x, consts.x) && Completes(bits.y, consts.y) && Completes(bits.co, consts.co)
  }

  function XBit(a: State, b: State, bi: State): State {
    if a.Defined() && b.Defined() && bi.Defined() then OfBool((a == S1) != ((b == S1) != (bi == S1))) else Sx
  }

  function XBits(a: Const, b: Const, bi: State): (r: Const)
    requires |a| == |b|
    ensures |r| == |a|
  {
    seq(|a|, i requires 0 <= i < |a| => XBit(a[i], b[i], bi))
  }

  /** The reference outputs, for extended operands: undefined inputs make Y and CO undefined. */
  function AluConst(a: Const, b: Const, ci: State, bi: State, undef: bool): AluOutput<Const>
    requires |a| == |b|
  {
    var x, y := Marks(a, S1), Inverted(Marks(b, S1), bi == S1);
    AluOutput(XBits(a, b, bi),
              if undef then AllOf(Sx, |a|) else ToConst(SumBits(x, y, ci == S1)),
              if undef then AllOf(Sx, |a|) else ToConst(CarriesOut(x, y, ci == S1)))
  }

  predicate AnyUndefined(sigA: Const, sigB: Const, ci: State, bi: State) {
    !(FullyDefined(sigA) && FullyDefined(sigB) && ci.Defined() && bi.Defined())
  }

  /** One round of the loop over the bits of $alu. */
  method EvalAluBit(a: State, b: State, bi: State, anyInputUndef: bool, carry: bool) returns (x: State, y: State, co: State, carry': bool)
    ensures x == if a.Defined() && b.Defined() && bi.Defined() then if ((a == S1) != (b == S1)) != (bi == S1) then S1 else S0 else Sx
    ensures var bitA, bitB := a == S1, (b == S1) != (bi == S1);
            if anyInputUndef then y == Sx && co == Sx
            else y == OfBool((bitA != bitB) != carry) && carry' == Majority(bitA, bitB, carry) && co == OfBool(carry')
  {
    var bInv := bi == S1;
    carry' := carry;
    if !a.Defined() || !b.Defined() || !bi.Defined() {
      x := Sx;
    } else {
      var bitA := a == S1;
      var bitB := (b == S1) != bInv;
      var bitX := bitA != bitB;
      x := if bitX then S1 else S0;
    }
    if anyInputUndef {
      y, co := Sx, Sx;
    } else {
      var bitA := a == S1;
      var bitB := (b == S1) != bInv;
      var bitY := (bitA != bitB) != carry;
      carry' := (bitA && bitB) || (bitA && carry) || (bitB && carry);
      y, co := if bitY then S1 else S0, if carry' then S1 else S0;
    }
  }

  /** The carry into bit i of the reference. */
  ghost function AluCarry(a: Const, b: Const, ci: State, bi: State, i: nat): bool
    requires |a| == |b| && i <= |a|
  {
    CarryInto(Marks(a, S1), Inverted(Marks(b, S1), bi == S1), ci == S1, i)
  }

  lemma {:induction false} AluConstAt(a: Const, b: Const, ci: State, bi: State, undef: bool, i: nat)
    requires |a| == |b| && i < |a|
    ensures var want, bitA, bitB, carry := AluConst(a, b, ci, bi, undef), a[i] == S1, (b[i] == S1) != (bi == S1), AluCarry(a, b, ci, bi, i);
            && want.x[i] == XBit(a[i], b[i], bi)
            && want.y[i] == (if undef then Sx else OfBool((bitA != bitB) != carry))
            && want.co[i] == (if undef then Sx else OfBool(Majority(bitA, bitB, carry)))
            && AluCarry(a, b, ci, bi, i + 1) == Majority(bitA, bitB, carry)
  {
  }

  /** The sum a + b + c at the operands' width, and for each bit whether the sum up to it overflows. */
  ghost predicate IsSum(y: Const, co: Const, a: Bv, b: Bv, c: bool)
    requires |a| == |b|
  {
    && y == ToConst(FromInt(ToNat(a) + ToNat(b) + Num(c), |a|)) && |co| == |a|
    && forall i | 0 <= i < |co| :: co[i] == OfBool(ToNat(a[..i + 1]) + ToNat(b[..i + 1]) + Num(c) >= Pow2(i + 1))
  }

  lemma {:induction false} SumOfBits(a: Bv, b: Bv, c: bool)
    requires |a| == |b|
    ensures IsSum(ToConst(SumBits(a, b, c)), ToConst(CarriesOut(a, b, c)), a, b, c)
  {
    RippleIsSum(a, b, c);
    forall i | 0 <= i < |a| ensures CarriesOut(a, b, c)[i] == (ToNat(a[..i + 1]) + ToNat(b[..i + 1]) + Num(c) >= Pow2(i + 1)) {
      CarryIsOverflow(a, b, c, i + 1);
    }
  }

  lemma {:induction false} InvertedIsNot(b: Bv, binv: bool)
    ensures Inverted(b, binv) == if binv then Not(b) else b
  {
  }

  /** On defined inputs the three outputs are those of the extended operands' bits. */
  lemma {:induction false} AluOnBits(a: Bv, b: Bv, c: bool, i: bool, signedA: bool, signedB: bool, w: nat)
    ensures AnyUndefined(ToConst(a), ToConst(b), OfBool(c), OfBool(i)) == false
    ensures var bits := AluBits(Extend(a, w, signedA), Extend(b, w, signedB), c, i);
            AluConst(ExtendU0(ToConst(a), w, signedA), ExtendU0(ToConst(b), w, signedB), OfBool(c), OfBool(i), false)
            == AluOutput(ToConst(bits.x), ToConst(bits.y), ToConst(bits.co))
  {
    CompletesExtended(a, ToConst(a), w, signedA);
    CompletesExtended(b, ToConst(b), w, signedB);
    var x, y := ExtendU0(ToConst(a), w, signedA), ExtendU0(ToConst(b), w, signedB);
    assert FullyDefined(x) && FullyDefined(y);
    OnlyCompletion(Extend(a, w, signedA), x);
    OnlyCompletion(Extend(b, w, signedB), y);
    var bits := AluBits(Extend(a, w, signedA), Extend(b, w, signedB), c, i);
    assert XBits(x, y, OfBool(i)) == ToConst(bits.x);
  }

  predicate Upto(s: Const, want: Const, i: nat) {
    |s| == |want| && i <= |s| && forall k :: 0 <= k < i ==> s[k] == want[k]
  }

  /** `ConstEval::eval` for $alu: a ripple of carries. */
  method EvalAlu(sigA: Const, sigB: Const, ci: State, bi: State, signedA: bool, signedB: bool, yWidth: nat)
    returns (out: AluOutput<Const>)
    ensures out == AluConst(ExtendU0(sigA, yWidth, signedA), ExtendU0(sigB, yWidth, signedB), ci, bi, AnyUndefined(sigA, sigB, ci, bi))
    ensures var a, b := ExtendU0(sigA, yWidth, signedA), ExtendU0(sigB, yWidth, signedB);
            |out.x| == yWidth && forall i | 0 <= i < yWidth ::
              out.x[i] == if a[i].Defined() && b[i].Defined() && bi.Defined()
                          then OfBool(((a[i] == S1) != (b[i] == S1)) != (bi == S1)) else Sx
    ensures if FullyDefined(sigA) && FullyDefined(sigB) && ci.Defined() && bi.Defined()
            then var a, b := Marks(ExtendU0(sigA, yWidth, signedA), S1), Marks(ExtendU0(sigB, yWidth, signedB), S1);
                 IsSum(out.y, out.co, a, if bi == S1 then Not(b) else b, ci == S1)
            else out.y == AllOf(Sx, yWidth) && out.co == AllOf(Sx, yWidth)
  {
    var anyInputUndef := AnyUndefined(sigA, sigB, ci, bi);
    var a, b := ExtendU0(sigA, yWidth, signedA), ExtendU0(sigB, yWidth, signedB);
    var x, y, co := AllOf(Sx, yWidth), AllOf(Sx, yWidth), AllOf(Sx, yWidth);
    var carry := ci == S1;
    ghost var want := AluConst(a, b, ci, bi, anyInputUndef);
    ghost var wx, wy, wco := want.x, want.y, want.co;
    for i := 0 to yWidth
      invariant Upto(x, wx, i) && Upto(y, wy, i) && Upto(co, wco, i)
      invariant !anyInputUndef ==> carry == AluCarry(a, b, ci, bi, i)
    {
      AluConstAt(a, b, ci, bi, anyInputUndef, i);
      var xi, yi, coi;
      xi, yi, coi, carry := EvalAluBit(a[i], b[i], bi, anyInputUndef, carry);
      x, y, co := x[i := xi], y[i := yi], co[i := coi];
    }
    assert x == wx && y == wy && co == wco;
    out := AluOutput(x, y, co);
    if !anyInputUndef {
      InvertedIsNot(Marks(b, S1), bi == S1);
      SumOfBits(Marks(a, S1), Inverted(Marks(b, S1), bi == S1), ci == S1);
    }
  }

  /** Any completion of the inputs gives outputs that agree with the reference. */
  lemma {:induction false} AluConstIsSound(sigA: Const, sigB: Const, ci: State, bi: State, signedA: bool, signedB: bool, w: nat,
                                           a: Bv, b: Bv, c: bool, i: bool)
    requires Completes(a, sigA) && Completes(b, sigB) && (ci.Defined() ==> ci == OfBool(c)) && (bi.Defined() ==> bi == OfBool(i))
    ensures AluCompletes(AluBits(Extend(a, w, signedA), Extend(b, w, signedB), c, i),
                         AluConst(ExtendU0(sigA, w, signedA), ExtendU0(sigB, w, signedB), ci, bi, AnyUndefined(sigA, sigB, ci, bi)))
  {
    CompletesExtended(a, sigA, w, signedA);
    CompletesExtended(b, sigB, w, signedB);
  }

  /** `ConstEval::eval` for $lcu. */
  method EvalLcu(sigP: Const, sigG: Const, sigCi: State) returns (co: Const)
    requires |sigP| == |sigG|
    ensures FullyDefined(sigP) && FullyDefined(sigG) && sigCi.Defined() ==>
              co == ToConst(LookAheads(Marks(sigP, S1), Marks(sigG, S1), sigCi == S1))
    ensures !(FullyDefined(sigP) && FullyDefined(sigG) && sigCi.Defined()) ==> co == AllOf(Sx, |sigP|)
  {
    co := AllOf(Sx, |sigP|);
    if FullyDefined(sigP) && FullyDefined(sigG) && sigCi.Defined() {
      var carry := sigCi == S1;
      ghost var p, g := Marks(sigP, S1), Marks(sigG, S1);
      for i := 0 to |co|
        invariant |co| == |sigP|
        invariant carry == if i == 0 then sigCi == S1 else LookAhead(p, g, sigCi == S1, i - 1)
        invariant forall k | 0 <= k < i :: co[k] == OfBool(LookAhead(p, g, sigCi == S1, k))
      {
        carry := sigG[i] == S1 || (sigP[i] == S1 && carry);
        co := co[i := OfBool(carry)];
      }
    }
  }
}
