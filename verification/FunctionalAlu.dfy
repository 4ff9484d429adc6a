/** $alu and $lcu in the functional IR (`CellSimplifier::handle_alu`, `handle_lcu`). */
module AluSimplifier {
  import opened Rtlil
  import opened Bits
  import opened Calc
  import opened Carry
  import opened ConstEval
  import opened FunctionalIR

  ghost function EvalBit(n: Node, env: map<int, Bv>): bool
    requires Wf(n) && Width(n) == 1
  {
    Eval(n, env)[0]
  }

  ghost function EvalAluNodes(out: AluOutput<Node>, env: map<int, Bv>): AluOutput<Bv>
    requires Wf(out.x) && Wf(out.y) && Wf(out.co)
  {
    AluOutput(Eval(out.x, env), Eval(out.y, env), Eval(out.co, env))
  }

  predicate WfOutput(out: AluOutput<Node>, w: nat) {
    Wf(out.x) && Wf(out.y) && Wf(out.co) && Width(out.x) == Width(out.y) == Width(out.co) == w
  }

  /** One addition, whose carries are recovered as (a + b + c) ^ a ^ b. */
  method HandleAlu(aIn: Node, bIn: Node, yWidth: nat, isSigned: bool, ci: Node, bi: Node) returns (out: AluOutput<Node>)
    requires Wf(aIn) && Wf(bIn) && Wf(ci) && Wf(bi) && Width(ci) == Width(bi) == 1 && yWidth > 0
    ensures WfOutput(out, yWidth)
    ensures forall env :: EvalAluNodes(out, env) ==
              AluBits(Extend(Eval(aIn, env), yWidth, isSigned), Extend(Eval(bIn, env), yWidth, isSigned), EvalBit(ci, env), EvalBit(bi, env))
  {
    var a := FExtend(aIn, yWidth, isSigned);
    var bUninverted := FExtend(bIn, yWidth, isSigned);
    var b := InvertIf(bUninverted, bi);
    var x := FBinary(BitwiseXor, a, b);
    var y, co := AddWithCarries(a, b, ci);
    out := AluOutput(x, y, co);
    forall env
      ensures EvalAluNodes(out, env) ==
              AluBits(Extend(Eval(aIn, env), yWidth, isSigned), Extend(Eval(bIn, env), yWidth, isSigned), EvalBit(ci, env), EvalBit(bi, env))
    {
      assert Eval(x, env) == Xor(Eval(a, env), Eval(b, env));
    }
  }

  method InvertIf(b: Node, bi: Node) returns (r: Node)
    requires Wf(b) && Wf(bi) && Width(bi) == 1
    ensures Wf(r) && Width(r) == Width(b)
    ensures forall env :: Eval(r, env) == Inverted(Eval(b, env), EvalBit(bi, env))
  {
    var notB := FUnary(BitwiseNot, b);
    r := FMux(b, notB, bi);
  }

  /** The sum one bit wider than its operands, split into the sum and the carries. */
  method AddWithCarries(a: Node, b: Node, ci: Node) returns (y: Node, co: Node)
    requires Wf(a) && Wf(b) && Wf(ci) && Width(a) == Width(b) && Width(ci) == 1
    ensures Wf(y) && Wf(co) && Width(y) == Width(co) == Width(a)
    ensures forall env :: Eval(y, env) == SumBits(Eval(a, env), Eval(b, env), EvalBit(ci, env))
    ensures forall env :: Eval(co, env) == CarriesOut(Eval(a, env), Eval(b, env), EvalBit(ci, env))
  {
    var w := Width(a);
    var aExtra := FExtend(a, w + 1, false);
    var bExtra := FExtend(b, w + 1, false);
    var yExtra := WideSum(a, b, aExtra, bExtra, ci);
    y := FSlice(yExtra, 0, w);
    co := CarriesAbove(yExtra, aExtra, bExtra, w);
    forall env
      ensures Eval(y, env) == SumBits(Eval(a, env), Eval(b, env), EvalBit(ci, env))
      ensures Eval(co, env) == CarriesOut(Eval(a, env), Eval(b, env), EvalBit(ci, env))
    {
      SplitSum(Eval(yExtra, env), Eval(a, env), Eval(b, env), EvalBit(ci, env));
    }
  }

  method CarriesAbove(yExtra: Node, aExtra: Node, bExtra: Node, w: nat) returns (co: Node)
    requires Wf(yExtra) && Wf(aExtra) && Wf(bExtra) && Width(yExtra) == Width(aExtra) == Width(bExtra) == w + 1 && w > 0
    ensures Wf(co) && Width(co) == w
    ensures forall env :: Eval(co, env) == Xor(Eval(yExtra, env), Xor(Eval(aExtra, env), Eval(bExtra, env)))[1..1 + w]
  {
    var ab := FBinary(BitwiseXor, aExtra, bExtra);
    var carries := FBinary(BitwiseXor, yExtra, ab);
    co := FSlice(carries, 1, w);
  }

  /** The sum with its last carry on top. */
  ghost predicate IsWideSum(z: Bv, a: Bv, b: Bv, c: bool) {
    |a| == |b| && z == SumBits(a, b, c) + [CarryInto(a, b, c, |a|)]
  }

  lemma {:induction false} SplitSum(z: Bv, a: Bv, b: Bv, c: bool)
    requires IsWideSum(z, a, b, c) && a != []
    ensures z[0..|a|] == SumBits(a, b, c)
    ensures Xor(z, Xor(Extend(a, |a| + 1, false), Extend(b, |a| + 1, false)))[1..1 + |a|] == CarriesOut(a, b, c)
  {
    CarriesRecovered(a, b, c);
  }

  method WideSum(a: Node, b: Node, aExtra: Node, bExtra: Node, ci: Node) returns (yExtra: Node)
    requires Wf(a) && Wf(b) && Wf(aExtra) && Wf(bExtra) && Wf(ci)
    requires Width(a) == Width(b) && Width(ci) == 1 && Width(aExtra) == Width(bExtra) == Width(a) + 1
    requires forall env :: Eval(aExtra, env) == Extend(Eval(a, env), Width(a) + 1, false)
    requires forall env :: Eval(bExtra, env) == Extend(Eval(b, env), Width(a) + 1, false)
    ensures Wf(yExtra) && Width(yExtra) == Width(a) + 1
    ensures forall env :: IsWideSum(Eval(yExtra, env), Eval(a, env), Eval(b, env), EvalBit(ci, env))
  {
    var sum := FBinary(FnAdd, aExtra, bExtra);
    var ciExtra := FExtend(ci, Width(a) + 1, false);
    yExtra := FBinary(FnAdd, sum, ciExtra);
    forall env ensures IsWideSum(Eval(yExtra, env), Eval(a, env), Eval(b, env), EvalBit(ci, env)) {
      SumOfExtended(Eval(a, env), Eval(b, env), Eval(ci, env));
    }
  }

  lemma {:induction false} SumOfExtended(a: Bv, b: Bv, c: Bv)
    requires |a| == |b| && |c| == 1 && a != []
    ensures var w := |a| + 1;
            EvalBinary(FnAdd, EvalBinary(FnAdd, Extend(a, w, false), Extend(b, w, false)), Extend(c, w, false))
            == SumBits(a, b, c[0]) + [CarryInto(a, b, c[0], |a|)]
  {
    var w := |a| + 1;
    ExtendIs(a, w, false);
    ExtendIs(b, w, false);
    ExtendIs(c, w, false);
    ThreeAdded(Extend(a, w, false), Extend(b, w, false), Extend(c, w, false), ToNat(a), ToNat(b), ToNat(c), w);
    BitValue(c);
    RippleIsSum(a, b, c[0]);
  }

  lemma {:induction false} ThreeAdded(x: Bv, y: Bv, z: Bv, n: int, m: int, k: int, w: nat)
    requires w > 0 && x == FromInt(n, w) && y == FromInt(m, w) && z == FromInt(k, w)
    ensures EvalBinary(FnAdd, EvalBinary(FnAdd, x, y), z) == FromInt(n + m + k, w)
  {
    TwoAdded(x, y, n, m, w);
    TwoAdded(EvalBinary(FnAdd, x, y), z, n + m, k, w);
  }

  lemma {:induction false} TwoAdded(x: Bv, y: Bv, n: int, m: int, w: nat)
    requires w > 0 && x == FromInt(n, w) && y == FromInt(m, w)
    ensures EvalBinary(FnAdd, x, y) == FromInt(n + m, w)
  {
    ModSum(n, m, w);
  }

  lemma {:induction false} BitValue(c: Bv)
    requires |c| == 1
    ensures ToNat(c) == Num(c[0])
  {
    assert c[1..] == [];
  }

  /** (a + b + c) ^ a ^ b, without its lowest bit, is what leaves each bit. */
  lemma {:induction false} CarriesRecovered(a: Bv, b: Bv, c: bool)
    requires |a| == |b| && a != []
    ensures var w := |a| + 1;
            Xor(SumBits(a, b, c) + [CarryInto(a, b, c, |a|)], Xor(Extend(a, w, false), Extend(b, w, false)))[1..w] == CarriesOut(a, b, c)
  {
    var w := |a| + 1;
    var sum, ab := SumBits(a, b, c) + [CarryInto(a, b, c, |a|)], Xor(Extend(a, w, false), Extend(b, w, false));
    forall i | 0 <= i < |a| ensures Xor(sum, ab)[1..w][i] == CarryInto(a, b, c, i + 1) {
      assert Xor(sum, ab)[i + 1] == (sum[i + 1] != ab[i + 1]);
    }
  }

  method HandleLcu(p: Node, g: Node, ci: Node) returns (co: Node)
    requires Wf(p) && Wf(g) && Wf(ci) && Width(p) == Width(g) && Width(ci) == 1
    ensures Wf(co) && Width(co) == Width(g)
    ensures forall env :: Eval(co, env) == LookAheads(Eval(p, env), Eval(g, env), EvalBit(ci, env))
  {
    var pg := FBinary(BitwiseOr, p, g);
    var zero := FConst(0, 1);
    var out := HandleAlu(g, pg, Width(g), false, ci, zero);
    co := out.co;
    forall env ensures Eval(co, env) == LookAheads(Eval(p, env), Eval(g, env), EvalBit(ci, env)) {
      assert EvalAluNodes(out, env).co == Eval(co, env);
      assert !EvalBit(zero, env);
      AluIsLookAhead(Eval(p, env), Eval(g, env), EvalBit(ci, env));
    }
  }

  lemma {:induction false} AluIsLookAhead(p: Bv, g: Bv, c: bool)
    requires |p| == |g|
    ensures AluBits(Extend(g, |g|, false), Extend(Or(p, g), |g|, false), c, false).co == LookAheads(p, g, c)
  {
    var pg := Or(p, g);
    assert Extend(g, |g|, false) == g && Extend(pg, |g|, false) == pg;
    assert Inverted(pg, false) == pg;
    forall i | 0 <= i < |p| ensures CarriesOut(g, pg, c)[i] == LookAhead(p, g, c, i) {
      LookAheadIsCarry(p, g, pg, c, i);
    }
  }

  /** Where reading the two sign parameters jointly or one by one makes no difference. */
  predicate SignsAgree(aWidth: nat, bWidth: nat, aSigned: bool, bSigned: bool, yWidth: nat) {
    (aSigned && !bSigned ==> aWidth >= yWidth) && (bSigned && !aSigned ==> bWidth >= yWidth)
  }

  /** The lowering agrees with the reference evaluation of $alu. */
  method AluAgrees(a: Node, b: Node, ci: Node, bi: Node, aSigned: bool, bSigned: bool, yWidth: nat,
                   ghost env: map<int, Bv>, ca: Const, cb: Const, cci: State, cbi: State)
    returns (nodes: AluOutput<Node>, consts: AluOutput<Const>)
    requires Wf(a) && Wf(b) && Wf(ci) && Wf(bi) && Width(ci) == Width(bi) == 1 && yWidth > 0
    requires Completes(Eval(a, env), ca) && Completes(Eval(b, env), cb)
    requires (cci.Defined() ==> cci == OfBool(EvalBit(ci, env))) && (cbi.Defined() ==> cbi == OfBool(EvalBit(bi, env)))
    requires SignsAgree(Width(a), Width(b), aSigned, bSigned, yWidth)
    ensures WfOutput(nodes, yWidth) && AluCompletes(EvalAluNodes(nodes, env), consts)
  {
    nodes := HandleAlu(a, b, yWidth, aSigned && bSigned, ci, bi);
    consts := EvalAlu(ca, cb, cci, cbi, aSigned, bSigned, yWidth);
    AluConstIsSound(ca, cb, cci, cbi, aSigned, bSigned, yWidth, Eval(a, env), Eval(b, env), EvalBit(ci, env), EvalBit(bi, env));
    assert Extend(Eval(a, env), yWidth, aSigned && bSigned) == Extend(Eval(a, env), yWidth, aSigned);
    assert Extend(Eval(b, env), yWidth, aSigned && bSigned) == Extend(Eval(b, env), yWidth, bSigned);
  }

  /** And only there: otherwise all-ones operands give two different X outputs. */
  lemma {:induction false} AluSignsMatter(aWidth: nat, bWidth: nat, aSigned: bool, bSigned: bool, yWidth: nat)
    requires aWidth > 0 && bWidth > 0 && !SignsAgree(aWidth, bWidth, aSigned, bSigned, yWidth)
    ensures exists a: Bv, b: Bv :: |a| == aWidth && |b| == bWidth
              && AluBits(Extend(a, yWidth, aSigned && bSigned), Extend(b, yWidth, aSigned && bSigned), false, false).x
                 != AluBits(Extend(a, yWidth, aSigned), Extend(b, yWidth, bSigned), false, false).x
  {
    var a, b := Fill(true, aWidth), Fill(true, bWidth);
    var k := if aSigned then aWidth else bWidth;
    var x := AluBits(Extend(a, yWidth, aSigned && bSigned), Extend(b, yWidth, aSigned && bSigned), false, false).x;
    var x' := AluBits(Extend(a, yWidth, aSigned), Extend(b, yWidth, bSigned), false, false).x;
    assert x[k] != x'[k];
  }
}
