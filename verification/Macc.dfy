/**
 * Multiply-accumulate cells (`Macc` in `kernel/macc.h`): a sum of signed terms,
 * its evaluation, its simplification and its cell form.
 */
module Maccs {
  import opened Rtlil
  import opened Wrappers
  import opened Bits
  import opened Calc

  datatype SigBit = Known(state: State) | Wire(id: nat)
  type Sig = seq<SigBit>

  /** Values of the wires, and what undefined constant bits are taken for. */
  datatype Env = Env(wires: map<nat, bool>, undefined: bool)

  const SOME := Env(map[], false)

  predicate BitValue(b: SigBit, env: Env) {
    match b
    case Known(s) => if s.Defined() then s == S1 else env.undefined
    case Wire(id) => id in env.wires && env.wires[id]
  }

  function BitsOf(sig: Sig, env: Env): (r: Bv)
    ensures |r| == |sig|
  {
    seq(|sig|, i requires 0 <= i < |sig| => BitValue(sig[i], env))
  }

  function SigValue(sig: Sig, signed: bool, env: Env): int {
    Value(BitsOf(sig, env), signed)
  }

  predicate FullyConst(sig: Sig) {
    forall i | 0 <= i < |sig| :: sig[i].Known?
  }

  /** No constant bit is undefined. */
  predicate ConstantsDefined(sig: Sig) {
    forall i | 0 <= i < |sig| :: sig[i].Known? ==> sig[i].state.Defined()
  }

  function AsConst(sig: Sig): (r: Const)
    requires FullyConst(sig)
    ensures |r| == |sig|
  {
    seq(|sig|, i requires 0 <= i < |sig| => sig[i].state)
  }

  datatype Term = Term(inA: Sig, inB: Sig, isSigned: bool, doSubtract: bool)
  {
    predicate Constant() {
      FullyConst(inA) && FullyConst(inB)
    }

    predicate Defined() {
      ConstantsDefined(inA) && ConstantsDefined(inB)
    }

    /** A product, or just the first port if there is no second. */
    function Summand(env: Env): int {
      if inB == [] then SigValue(inA, isSigned, env)
      else SigValue(inA, isSigned, env) * SigValue(inB, isSigned, env)
    }

    function Contribution(env: Env): int {
      Signed(doSubtract, Summand(env))
    }
  }

  function Signed(subtract: bool, n: int): int {
    if subtract then -n else n
  }

  /** What the cell computes, before it is cut to the output's width. */
  function Total(ts: seq<Term>, env: Env): int {
    if ts == [] then 0 else Total(ts[..|ts| - 1], env) + ts[|ts| - 1].Contribution(env)
  }

  predicate AllDefined(ts: seq<Term>) {
    forall k | 0 <= k < |ts| :: ts[k].Defined()
  }

  predicate AllConstant(ts: seq<Term>) {
    forall k | 0 <= k < |ts| :: ts[k].Constant()
  }

  /** The term whose second port is dropped on its empty first port. */
  predicate Misplaced(t: Term) {
    t.inA == [] && t.inB != []
  }

  /** What such a term adds: the product with an empty port is zero, but the second port alone need not be. */
  function Surplus(t: Term, env: Env): int {
    if Misplaced(t) then Signed(t.doSubtract, SigValue(t.inB, t.isSigned, env)) else 0
  }

  function Excess(ts: seq<Term>, env: Env): int {
    if ts == [] then 0 else Excess(ts[..|ts| - 1], env) + Surplus(ts[|ts| - 1], env)
  }

  lemma {:induction false} TotalSnoc(ts: seq<Term>, t: Term, env: Env)
    ensures Total(ts + [t], env) == Total(ts, env) + t.Contribution(env)
  {
    assert (ts + [t])[..|ts|] == ts;
  }

  // -------------------------------------------------- constants modulo 2^w

  /** A constant's bits do not depend on the wires. */
  lemma {:induction false} ConstantValue(sig: Sig, signed: bool, env: Env)
    requires FullyConst(sig) && ConstantsDefined(sig)
    ensures FullyDefined(AsConst(sig)) && AsConst(sig) == ToConst(BitsOf(sig, env))
    ensures Big(AsConst(sig), signed) == SigValue(sig, signed, env)
  {
    BigIsValue(BitsOf(sig, env), signed);
    assert AsConst(sig) == ToConst(BitsOf(sig, env));
  }

  lemma {:induction false} BigModulo(n: int, signed: bool, w: nat)
    ensures FullyDefined(ToConst(FromInt(n, w))) && FromInt(Big(ToConst(FromInt(n, w)), signed), w) == FromInt(n, w)
  {
    var x := FromInt(n, w);
    BigIsValue(x, signed);
    ExtendIs(x, w, signed);
  }

  lemma {:induction false} SumModulo(a: int, a': int, b: int, b': int, subtract: bool, w: nat)
    requires FromInt(a, w) == FromInt(a', w) && FromInt(b, w) == FromInt(b', w)
    ensures FromInt(a + Signed(subtract, b), w) == FromInt(a' + Signed(subtract, b'), w)
  {
    if subtract {
      ModDifference(a, b, w);
      ModDifference(a', b', w);
    } else {
      ModSum(a, b, w);
      ModSum(a', b', w);
    }
  }

  /** One step of an accumulator. */
  lemma {:induction false} Accumulates(acc: Const, sum: int, v: Const, c: int, subtract: bool, signed: bool, w: nat)
    requires acc == ToConst(FromInt(sum, w)) && FullyDefined(v) && FromInt(Big(v, signed), w) == FromInt(c, w)
    ensures Arithmetic(if subtract then Sub else Add, acc, v, signed, signed, w) == ToConst(FromInt(sum + Signed(subtract, c), w))
  {
    BigModulo(sum, signed, w);
    SumModulo(Big(acc, signed), sum, Big(v, signed), c, subtract, w);
  }

  lemma {:induction false} ProductOfConstants(a: Sig, b: Sig, signed: bool, w: nat, env: Env)
    requires FullyConst(a) && FullyConst(b) && ConstantsDefined(a) && ConstantsDefined(b)
    ensures var v := Arithmetic(Mul, AsConst(a), AsConst(b), signed, signed, w);
            FullyDefined(v) && FromInt(Big(v, signed), w) == FromInt(SigValue(a, signed, env) * SigValue(b, signed, env), w)
  {
    ConstantValue(a, signed, env);
    ConstantValue(b, signed, env);
    BigModulo(SigValue(a, signed, env) * SigValue(b, signed, env), signed, w);
  }

  /** No bit of an addend that reaches the output is undefined. */
  predicate DefinedBelow(sig: Sig, w: nat)
    requires FullyConst(sig)
  {
    forall i | 0 <= i < |sig| && i < w :: sig[i].state.Defined()
  }

  lemma {:induction false} ExtendedConstant(a: Sig, signed: bool, w: nat, env: Env)
    requires FullyConst(a) && DefinedBelow(a, w)
    ensures var v := ExtendU0(AsConst(a), w, signed);
            FullyDefined(v) && FromInt(Big(v, signed), w) == FromInt(SigValue(a, signed, env), w)
  {
    var x := BitsOf(a, env);
    ExtendIs(x, w, signed);
    assert ExtendU0(AsConst(a), w, signed) == ToConst(Extend(x, w, signed));
    BigModulo(SigValue(a, signed, env), signed, w);
  }

  // -------------------------------------------------- dropping top bits

  /** A top bit that adds nothing. */
  predicate Redundant(sig: Sig, signed: bool) {
    |sig| > 1 && (if signed then sig[|sig| - 1] == sig[|sig| - 2] else sig[|sig| - 1] == Known(S0))
  }

  lemma {:induction false} DropRedundant(sig: Sig, signed: bool, env: Env)
    requires Redundant(sig, signed)
    ensures SigValue(sig[..|sig| - 1], signed, env) == SigValue(sig, signed, env)
  {
    var a, b := BitsOf(sig, env), BitsOf(sig[..|sig| - 1], env);
    assert b == a[..|a| - 1];
    assert a == Extend(b, |a|, signed);
    ExtendKeepsValue(b, |a|, signed);
  }

  /** The same value with fewer bits, for all inputs. */
  ghost predicate SameValue(a: Sig, b: Sig, signed: bool) {
    forall env :: SigValue(a, signed, env) == SigValue(b, signed, env)
  }

  /** The value of a term can be rewritten port by port, and the ports exchanged. */
  lemma {:induction false} SameSummand(t: Term, a: Sig, b: Sig, env: Env)
    requires SigValue(a, t.isSigned, env) == SigValue(t.inA, t.isSigned, env)
    requires SigValue(b, t.isSigned, env) == SigValue(t.inB, t.isSigned, env) && (b == [] <==> t.inB == [])
    ensures t.(inA := a, inB := b).Contribution(env) == t.Contribution(env)
  {
  }

  function Exchanged(t: Term): Term {
    if |t.inA| < |t.inB| then t.(inA := t.inB, inB := t.inA) else t
  }

  /** Exchanging the ports keeps a product; with an empty first port it makes an addend of the second. */
  lemma {:induction false} ExchangedValue(t: Term, env: Env)
    ensures Exchanged(t).Contribution(env) == t.Contribution(env) + Surplus(t, env)
  {
    var x, y := SigValue(t.inA, t.isSigned, env), SigValue(t.inB, t.isSigned, env);
    if t.inA == [] {
      assert BitsOf(t.inA, env) == [];
      ZeroTimes(y);
    } else if |t.inA| < |t.inB| {
      Commute(x, y);
    }
  }

  lemma {:induction false} Commute(x: int, y: int)
    ensures x * y == y * x
  {
  }

  lemma {:induction false} ZeroTimes(y: int)
    ensures 0 * y == 0
  {
  }

  /** All of a sequence, split off its last element. */
  lemma {:induction false} Last(ts: seq<Term>, i: nat, env: Env)
    requires i < |ts|
    ensures Total(ts[..i + 1], env) == Total(ts[..i], env) + ts[i].Contribution(env)
    ensures Excess(ts[..i + 1], env) == Excess(ts[..i], env) + Surplus(ts[i], env)
  {
    var front := ts[..i + 1];
    assert front[..|front| - 1] == ts[..i] && front[|front| - 1] == ts[i];
  }

  /** The loop's invariant: what is kept and the constant make up what was read. */
  ghost predicate Conserved(kept: seq<Term>, sum: int, ts: seq<Term>) {
    forall env :: Total(kept, env) + sum == Total(ts, env) + Excess(ts, env)
  }

  lemma {:induction false} SkipTerm(kept: seq<Term>, sum: int, ts: seq<Term>, i: nat)
    requires i < |ts| && Conserved(kept, sum, ts[..i]) && ts[i].inA == [] && ts[i].inB == []
    ensures Conserved(kept, sum, ts[..i + 1])
  {
    forall env ensures Total(kept, env) + sum == Total(ts[..i + 1], env) + Excess(ts[..i + 1], env) {
      Last(ts, i, env);
      assert BitsOf(ts[i].inA, env) == [];
      assert Total(kept, env) + sum == Total(ts[..i], env) + Excess(ts[..i], env);
    }
  }

  /** The same contribution on every input. */
  ghost predicate Always(t: Term, c: int) {
    forall env :: t.Contribution(env) == c
  }

  lemma {:induction false} FoldTerm(kept: seq<Term>, sum: int, ts: seq<Term>, i: nat, port: Term, c: int)
    requires i < |ts| && Conserved(kept, sum, ts[..i]) && port == Exchanged(ts[i]) && Always(port, c)
    ensures Conserved(kept, sum + c, ts[..i + 1])
  {
    forall env ensures Total(kept, env) + (sum + c) == Total(ts[..i + 1], env) + Excess(ts[..i + 1], env) {
      Last(ts, i, env);
      ExchangedValue(ts[i], env);
      assert port.Contribution(env) == c;
      assert Total(kept, env) + sum == Total(ts[..i], env) + Excess(ts[..i], env);
    }
  }

  lemma {:induction false} KeepTerm(kept: seq<Term>, sum: int, ts: seq<Term>, i: nat, t: Term)
    requires i < |ts| && Conserved(kept, sum, ts[..i])
    requires forall env :: t.Contribution(env) == Exchanged(ts[i]).Contribution(env)
    ensures Conserved(kept + [t], sum, ts[..i + 1])
  {
    forall env ensures Total(kept + [t], env) + sum == Total(ts[..i + 1], env) + Excess(ts[..i + 1], env) {
      Last(ts, i, env);
      ExchangedValue(ts[i], env);
      TotalSnoc(kept, t, env);
      assert t.Contribution(env) == Exchanged(ts[i]).Contribution(env);
      assert Total(kept, env) + sum == Total(ts[..i], env) + Excess(ts[..i], env);
    }
  }

  /** What `optimize` promises of the terms it leaves. */
  predicate Simplified(t: Term) {
    && t.inA != [] && !t.Constant()
    && !Redundant(t.inA, t.isSigned) && !Redundant(t.inB, t.isSigned)
  }

  predicate AllSimplified(ts: seq<Term>) {
    forall k | 0 <= k < |ts| :: Simplified(ts[k])
  }

  /** At most the constants' sum is left over, as the last term. */
  predicate Simple(ts: seq<Term>) {
    && (forall k | 0 <= k < |ts| - 1 :: Simplified(ts[k]))
    && (ts != [] ==> Simplified(ts[|ts| - 1]) || (FullyConst(ts[|ts| - 1].inA) && ts[|ts| - 1].inB == []))
  }

  /** The result at the output's width. */
  function Result(ts: seq<Term>, env: Env, width: nat): (r: Bv)
    ensures |r| == width
  {
    FromInt(Total(ts, env), width)
  }

  /** The same result on every input, but for the surplus of misplaced terms. */
  ghost predicate Keeps(ts: seq<Term>, ts': seq<Term>, width: nat) {
    forall env :: Result(ts', env, width) == FromInt(Total(ts, env) + Excess(ts, env), width)
  }

  function Offset(off: Const): (t: Term) {
    Term(seq(|off|, i requires 0 <= i < |off| => Known(off[i])), [], false, false)
  }

  lemma {:induction false} OffsetContribution(sum: int, width: nat, env: Env)
    ensures FromInt(Offset(ToConst(FromInt(sum, width))).Contribution(env), width) == FromInt(sum, width)
  {
    var x := FromInt(sum, width);
    assert BitsOf(Offset(ToConst(x)).inA, env) == x;
    FromToNat(x);
  }

  lemma {:induction false} ZeroOffset(sum: int, width: nat)
    requires S1 !in ToConst(FromInt(sum, width))
    ensures FromInt(sum, width) == FromInt(0, width)
  {
    var x := FromInt(sum, width);
    forall i | 0 <= i < width ensures !x[i] {
      assert ToConst(x)[i] == OfBool(x[i]);
    }
    assert x == Fill(false, width);
    FillIs(width);
  }

  lemma {:induction false} OffsetAdded(kept: seq<Term>, sum: int, width: nat, env: Env)
    ensures Result(kept + [Offset(ToConst(FromInt(sum, width)))], env, width) == FromInt(Total(kept, env) + sum, width)
  {
    var t := Offset(ToConst(FromInt(sum, width)));
    TotalSnoc(kept, t, env);
    OffsetContribution(sum, width, env);
    SumModulo(Total(kept, env), Total(kept, env), t.Contribution(env), sum, false, width);
  }

  lemma {:induction false} OffsetDropped(kept: seq<Term>, sum: int, width: nat, env: Env)
    requires S1 !in ToConst(FromInt(sum, width))
    ensures Result(kept, env, width) == FromInt(Total(kept, env) + sum, width)
  {
    ZeroOffset(sum, width);
    SumModulo(Total(kept, env), Total(kept, env), 0, sum, false, width);
  }

  /** The collected constants become one more term, unless they cancel. */
  lemma {:induction false} AddConstant(kept: seq<Term>, sum: int, ts: seq<Term>, width: nat, ts': seq<Term>)
    requires Conserved(kept, sum, ts)
    requires var off := ToConst(FromInt(sum, width)); ts' == if S1 in off then kept + [Offset(off)] else kept
    ensures Keeps(ts, ts', width)
  {
    forall env ensures Result(ts', env, width) == FromInt(Total(ts, env) + Excess(ts, env), width) {
      assert Total(kept, env) + sum == Total(ts, env) + Excess(ts, env);
      if S1 in ToConst(FromInt(sum, width)) {
        OffsetAdded(kept, sum, width, env);
      } else {
        OffsetDropped(kept, sum, width, env);
      }
    }
  }

  lemma {:induction false} NoExcess(ts: seq<Term>, env: Env)
    requires forall k | 0 <= k < |ts| :: !Misplaced(ts[k])
    ensures Excess(ts, env) == 0
  {
    if ts != [] {
      NoExcess(ts[..|ts| - 1], env);
    }
  }

  /** Simplifying is right on an input if and only if what the misplaced terms add vanishes at the output's width. */
  lemma {:induction false} KeepsExactly(ts: seq<Term>, ts': seq<Term>, width: nat, env: Env)
    requires Keeps(ts, ts', width)
    ensures Result(ts', env, width) == Result(ts, env, width) <==> FromInt(Excess(ts, env), width) == FromInt(0, width)
    ensures (forall k | 0 <= k < |ts| :: !Misplaced(ts[k])) ==> Result(ts', env, width) == Result(ts, env, width)
  {
    var t, e := Total(ts, env), Excess(ts, env);
    assert Result(ts', env, width) == FromInt(t + e, width);
    if FromInt(t + e, width) == FromInt(t, width) {
      SumModulo(t + e, t, t, t, true, width);
    }
    if FromInt(e, width) == FromInt(0, width) {
      SumModulo(t, t, e, 0, false, width);
    }
    if forall k | 0 <= k < |ts| :: !Misplaced(ts[k]) {
      NoExcess(ts, env);
    }
  }

  /** A product with an empty first port is 0, but becomes its second port. */
  lemma {:induction false} MisplacedChanges(ts': seq<Term>, env: Env)
    requires Keeps([Term([], [Known(S1)], false, false)], ts', 1)
    ensures Result([Term([], [Known(S1)], false, false)], env, 1) == [false] && Result(ts', env, 1) == [true]
  {
    var t := Term([], [Known(S1)], false, false);
    var ts := [t];
    assert ts[..|ts| - 1] == [] && Total([], env) == 0 && Excess([], env) == 0;
    assert BitsOf(t.inA, env) == [] && BitsOf(t.inB, env) == [true];
    ZeroTimes(SigValue(t.inB, false, env));
    assert ToNat([true]) == 1 && t.Contribution(env) == 0;
    assert Total(ts, env) == 0 && Excess(ts, env) == 1;
    assert FromInt(0, 1) == [false] && FromInt(1, 1) == [true];
  }

  /** One constant term added to an accumulator by `optimize`. */
  ghost function Folded(off: Const, port: Term, width: nat): (r: Const)
    requires port.Constant()
    ensures |r| == width
  {
    Arithmetic(if port.doSubtract then Sub else Add, off, Product(port, width), port.isSigned, port.isSigned, width)
  }

  ghost function Product(port: Term, width: nat): Const
    requires port.Constant()
  {
    if port.inB == [] then AsConst(port.inA)
    else Arithmetic(Mul, AsConst(port.inA), AsConst(port.inB), port.isSigned, port.isSigned, width)
  }

  lemma {:induction false} UndefinedFold(off: Const, port: Term, width: nat)
    requires port.Constant() && |off| == width && (!port.Defined() || off == AllOf(Sx, width))
    ensures Folded(off, port, width) == AllOf(Sx, width)
  {
    if width == 0 {
      assert AllOf(Sx, width) == [];
    } else if off == AllOf(Sx, width) {
      assert !off[0].Defined();
    } else if port.inB == [] {
      var i :| 0 <= i < |port.inA| && !port.inA[i].state.Defined();
      assert !AsConst(port.inA)[i].Defined();
    } else {
      UndefinedProduct(port, width);
      assert !AllOf(Sx, width)[0].Defined();
    }
  }

  lemma {:induction false} UndefinedProduct(t: Term, width: nat)
    requires t.Constant() && !t.Defined()
    ensures Arithmetic(Mul, AsConst(t.inA), AsConst(t.inB), t.isSigned, t.isSigned, width) == AllOf(Sx, width)
  {
    if i :| 0 <= i < |t.inA| && !t.inA[i].state.Defined() {
      assert !AsConst(t.inA)[i].Defined();
    } else {
      var i :| 0 <= i < |t.inB| && !t.inB[i].state.Defined();
      assert !AsConst(t.inB)[i].Defined();
    }
  }

  lemma {:induction false} DefinedFold(off: Const, sum: int, port: Term, width: nat, off': Const, sum': int)
    requires port.Constant() && port.Defined() && off == ToConst(FromInt(sum, width))
    requires off' == Folded(off, port, width) && sum' == sum + port.Contribution(SOME)
    ensures off' == ToConst(FromInt(sum', width))
  {
    var c := port.Summand(SOME);
    var v := Product(port, width);
    var op := if port.doSubtract then Sub else Add;
    assert off' == Arithmetic(op, off, v, port.isSigned, port.isSigned, width);
    DefinedValue(port, width, v, c);
    Accumulates(off, sum, v, c, port.doSubtract, port.isSigned, width);
  }

  lemma {:induction false} DefinedValue(port: Term, width: nat, v: Const, c: int)
    requires port.Constant() && port.Defined() && v == Product(port, width) && c == port.Summand(SOME)
    ensures FullyDefined(v) && FromInt(Big(v, port.isSigned), width) == FromInt(c, width)
  {
    if port.inB == [] {
      ConstantValue(port.inA, port.isSigned, SOME);
    } else {
      ProductOfConstants(port.inA, port.inB, port.isSigned, width, SOME);
    }
  }

  /** A constant term with an undefined bit. */
  predicate Undefined(t: Term) {
    t.Constant() && !t.Defined()
  }

  predicate NoneUndefined(ts: seq<Term>) {
    forall k | 0 <= k < |ts| :: !Undefined(ts[k])
  }

  /** The terms with a wire. */
  function Live(ts: seq<Term>): (r: seq<Term>)
    ensures AllConstant(ts) ==> r == []
  {
    if ts == [] then [] else Live(ts[..|ts| - 1]) + if ts[|ts| - 1].Constant() then [] else [ts[|ts| - 1]]
  }

  lemma {:induction false} LiveNext(ts: seq<Term>, i: nat)
    requires i < |ts|
    ensures Live(ts[..i + 1]) == if ts[i].Constant() then Live(ts[..i]) else Live(ts[..i]) + [ts[i]]
  {
    var front := ts[..i + 1];
    assert front[..|front| - 1] == ts[..i] && front[|front| - 1] == ts[i];
  }

  lemma {:induction false} KeepLive(kept: seq<Term>, ts: seq<Term>, i: nat, t: Term)
    requires i < |ts| && !ts[i].Constant() && Conserved(kept, 0, Live(ts[..i]))
    requires forall env :: t.Contribution(env) == Exchanged(ts[i]).Contribution(env)
    ensures Conserved(kept + [t], 0, Live(ts[..i + 1]))
  {
    LiveNext(ts, i);
    var live := Live(ts[..i + 1]);
    var n := |live| - 1;
    assert live[..n] == Live(ts[..i]) && live[n] == ts[i] && live[..n + 1] == live;
    KeepTerm(kept, 0, live, n, t);
  }

  lemma {:induction false} ConstantContribution(t: Term, e: Env, f: Env)
    requires t.Constant() && t.Defined()
    ensures t.Contribution(e) == t.Contribution(f)
  {
    ConstantValue(t.inA, t.isSigned, e);
    ConstantValue(t.inB, t.isSigned, e);
    ConstantValue(t.inA, t.isSigned, f);
    ConstantValue(t.inB, t.isSigned, f);
  }

  lemma {:induction false} ConstantAlways(t: Term)
    requires t.Constant() && t.Defined()
    ensures Always(t, t.Contribution(SOME))
  {
    forall env ensures t.Contribution(env) == t.Contribution(SOME) {
      ConstantContribution(t, env, SOME);
    }
  }

  // -------------------------------------------------- evaluating constants

  /** An undefined bit that evaluation meets: any bit of a product, but of an addend only one that reaches the output. */
  predicate Meets(t: Term, width: nat)
    requires t.Constant()
  {
    if t.inB == [] then !DefinedBelow(t.inA, width) else !t.Defined()
  }

  predicate AnyMet(ts: seq<Term>, width: nat)
    requires AllConstant(ts)
  {
    exists k :: 0 <= k < |ts| && Meets(ts[k], width)
  }

  /** One round of `eval`. */
  ghost function Summed(acc: Const, t: Term, width: nat): (r: Const)
    requires t.Constant()
    ensures |r| == width
  {
    Arithmetic(if t.doSubtract then Sub else Add, acc, Extended(t, width), t.isSigned, t.isSigned, width)
  }

  ghost function Extended(t: Term, width: nat): Const
    requires t.Constant()
  {
    if t.inB == [] then ExtendU0(AsConst(t.inA), width, t.isSigned) else Product(t, width)
  }

  lemma {:induction false} UnmetValue(t: Term, width: nat, v: Const, env: Env, c: int)
    requires t.Constant() && !Meets(t, width) && v == Extended(t, width) && c == t.Summand(env)
    ensures FullyDefined(v) && FromInt(Big(v, t.isSigned), width) == FromInt(c, width)
  {
    if t.inB == [] {
      ExtendedConstant(t.inA, t.isSigned, width, env);
    } else {
      ProductOfConstants(t.inA, t.inB, t.isSigned, width, env);
    }
  }

  lemma {:induction false} SummedValue(acc: Const, sum: int, t: Term, width: nat, env: Env, sum': int)
    requires t.Constant() && !Meets(t, width) && acc == ToConst(FromInt(sum, width)) && sum' == sum + t.Contribution(env)
    ensures Summed(acc, t, width) == ToConst(FromInt(sum', width))
  {
    var c := t.Summand(env);
    var v := Extended(t, width);
    var op := if t.doSubtract then Sub else Add;
    assert Summed(acc, t, width) == Arithmetic(op, acc, v, t.isSigned, t.isSigned, width);
    UnmetValue(t, width, v, env, c);
    Accumulates(acc, sum, v, c, t.doSubtract, t.isSigned, width);
  }

  lemma {:induction false} SummedUndefined(acc: Const, t: Term, width: nat)
    requires t.Constant() && |acc| == width && (Meets(t, width) || acc == AllOf(Sx, width))
    ensures Summed(acc, t, width) == AllOf(Sx, width)
  {
    if width == 0 {
      assert AllOf(Sx, width) == [];
    } else if acc == AllOf(Sx, width) {
      assert !acc[0].Defined();
    } else if t.inB == [] {
      var i :| 0 <= i < |t.inA| && i < width && !t.inA[i].state.Defined();
      assert ExtendU0(AsConst(t.inA), width, t.isSigned)[i] == t.inA[i].state;
    } else {
      UndefinedProduct(t, width);
      assert !AllOf(Sx, width)[0].Defined();
    }
  }

  /** What `eval` gives for constant terms: all undefined if it meets an undefined bit, otherwise the sum. */
  function Evaluated(ts: seq<Term>, width: nat): (r: Const)
    requires AllConstant(ts)
    ensures |r| == width
  {
    if AnyMet(ts, width) then AllOf(Sx, width) else ToConst(Result(ts, SOME, width))
  }

  lemma {:induction false} AnyMetNext(ts: seq<Term>, i: nat, width: nat)
    requires i < |ts| && AllConstant(ts[..i]) && ts[i].Constant()
    ensures AllConstant(ts[..i + 1])
    ensures AnyMet(ts[..i + 1], width) <==> AnyMet(ts[..i], width) || Meets(ts[i], width)
  {
    var front, next := ts[..i], ts[..i + 1];
    assert forall k | 0 <= k < i :: next[k] == front[k];
    assert next[i] == ts[i];
    if k :| 0 <= k < |front| && Meets(front[k], width) {
      assert Meets(next[k], width);
    }
  }

  lemma {:induction false} EvaluatedNext(ts: seq<Term>, i: nat, width: nat)
    requires i < |ts| && AllConstant(ts[..i]) && ts[i].Constant()
    ensures AllConstant(ts[..i + 1])
    ensures Evaluated(ts[..i + 1], width) == Summed(Evaluated(ts[..i], width), ts[i], width)
  {
    AnyMetNext(ts, i, width);
    var acc := Evaluated(ts[..i], width);
    if AnyMet(ts[..i], width) || Meets(ts[i], width) {
      SummedUndefined(acc, ts[i], width);
    } else {
      SummedResult(ts, i, acc, width, SOME);
    }
  }

  lemma {:induction false} SummedResult(ts: seq<Term>, i: nat, acc: Const, width: nat, env: Env)
    requires i < |ts| && ts[i].Constant() && !Meets(ts[i], width) && acc == ToConst(Result(ts[..i], env, width))
    ensures Summed(acc, ts[i], width) == ToConst(Result(ts[..i + 1], env, width))
  {
    var total, next := Total(ts[..i], env), Total(ts[..i + 1], env);
    assert next == total + ts[i].Contribution(env) by {
      Last(ts, i, env);
    }
    SummedValue(acc, total, ts[i], width, env, next);
  }

  /** How undefined bits that are not met are read makes no difference. */
  lemma {:induction false} UnmetAnyway(ts: seq<Term>, i: nat, width: nat, env: Env)
    requires i <= |ts| && AllConstant(ts[..i]) && !AnyMet(ts[..i], width)
    ensures Result(ts[..i], env, width) == Result(ts[..i], SOME, width)
    decreases i
  {
    if i > 0 {
      var n, t := i - 1, ts[i - 1];
      assert ts[..i][n] == t && ts[..i][..n] == ts[..n];
      assert AllConstant(ts[..n]) by {
        assert forall k | 0 <= k < n :: ts[..n][k] == ts[..i][k];
      }
      AnyMetNext(ts, n, width);
      UnmetAnyway(ts, n, width, env);
      UnmetNext(ts, n, width, env);
    }
  }

  lemma {:induction false} UnmetNext(ts: seq<Term>, i: nat, width: nat, env: Env)
    requires i < |ts| && ts[i].Constant() && !Meets(ts[i], width) && Result(ts[..i], env, width) == Result(ts[..i], SOME, width)
    ensures Result(ts[..i + 1], env, width) == Result(ts[..i + 1], SOME, width)
  {
    var acc := ToConst(Result(ts[..i], SOME, width));
    SummedResult(ts, i, acc, width, SOME);
    SummedResult(ts, i, acc, width, env);
    SameBits(Result(ts[..i + 1], env, width), Result(ts[..i + 1], SOME, width));
  }

  lemma {:induction false} SameBits(a: Bv, b: Bv)
    requires ToConst(a) == ToConst(b)
    ensures a == b
  {
    forall i | 0 <= i < |a| ensures a[i] == b[i] {
      assert ToConst(a)[i] == ToConst(b)[i];
    }
  }

  // ------------------------------------ when simplifying keeps a constant

  /**
   * Simplifying keeps what constant terms evaluate to: with every bit defined,
   * if what misplaced terms add vanishes; otherwise the constants are lost, so
   * only if the result was 0, or has no bits.
   */
  predicate KeepsConstants(ts: seq<Term>, width: nat)
    requires AllConstant(ts)
  {
    if NoneUndefined(ts) then FromInt(Excess(ts, SOME), width) == FromInt(0, width)
    else if AnyMet(ts, width) then width == 0
    else FromInt(Total(ts, SOME), width) == FromInt(0, width)
  }

  lemma {:induction false} DefinedNotMet(ts: seq<Term>, width: nat)
    requires AllConstant(ts) && NoneUndefined(ts)
    ensures !AnyMet(ts, width)
  {
    forall k | 0 <= k < |ts| ensures !Meets(ts[k], width) {
      assert !Undefined(ts[k]);
    }
  }

  /** Simplified terms have wires. */
  lemma {:induction false} SimplifiedConstants(ts: seq<Term>)
    requires AllSimplified(ts) && AllConstant(ts)
    ensures ts == []
  {
    assert forall k | 0 <= k < |ts| :: Simplified(ts[k]);
    assert |ts| > 0 ==> Simplified(ts[0]);
  }

  /**
   * Optimizing a list of constants keeps what it evaluates to exactly if it keeps the value
   * of the misplaced terms and, where a constant is undefined, loses nothing by dropping it.
   */
  lemma {:induction false} KeepsConstantsExactly(ts: seq<Term>, ts': seq<Term>, width: nat)
    requires AllConstant(ts) && AllConstant(ts') && AllDefined(ts')
    requires NoneUndefined(ts) ==> Keeps(ts, ts', width)
    requires !NoneUndefined(ts) ==> ts' == []
    ensures Evaluated(ts', width) == Evaluated(ts, width) <==> KeepsConstants(ts, width)
  {
    DefinedNotMet(ts', width);
    var before, after := Evaluated(ts, width), Evaluated(ts', width);
    assert after == ToConst(Result(ts', SOME, width));
    if NoneUndefined(ts) {
      DefinedNotMet(ts, width);
      KeepsExactly(ts, ts', width, SOME);
      if before == after { SameBits(Result(ts', SOME, width), Result(ts, SOME, width)); }
    } else if AnyMet(ts, width) {
      if width > 0 { assert before[0] == Sx && after[0].Defined(); }
    } else if before == after {
      SameBits(FromInt(Total(ts, SOME), width), FromInt(0, width));
    }
  }

  // ------------------------------------------------ one round of simplifying

  /** A term with an undefined bit leaves the accumulated constant undefined. */
  predicate Absorbs(ts: seq<Term>, i: nat, off: Const, width: nat)
    requires i <= |ts|
  {
    |off| == width && forall k | 0 <= k < i && Undefined(ts[k]) :: off == AllOf(Sx, width)
  }

  /** The kept terms and the accumulated constant amount to the first i terms. */
  ghost predicate Sums(ts: seq<Term>, i: nat, kept: seq<Term>, off: Const, sum: int, width: nat)
    requires i <= |ts|
  {
    Conserved(kept, sum, ts[..i]) && off == ToConst(FromInt(sum, width))
  }

  /** After i terms: the terms with wires are kept, the constants are in off. */
  ghost predicate Progress(ts: seq<Term>, i: nat, kept: seq<Term>, off: Const, sum: int, width: nat)
    requires i <= |ts|
  {
    && AllSimplified(kept)
    && Conserved(kept, 0, Live(ts[..i])) && (AllConstant(ts) ==> kept == [])
    && Absorbs(ts, i, off, width)
    && (NoneUndefined(ts) ==> Sums(ts, i, kept, off, sum, width))
  }

  lemma {:induction false} ProgressStart(ts: seq<Term>, width: nat)
    ensures Progress(ts, 0, [], AllOf(S0, width), 0, width)
  {
    FillIs(width);
    assert AllOf(S0, width) == ToConst(FromInt(0, width));
    assert ts[..0] == [];
  }

  lemma {:induction false} ProgressSkip(ts: seq<Term>, i: nat, kept: seq<Term>, off: Const, sum: int, width: nat, port: Term)
    requires i < |ts| && Progress(ts, i, kept, off, sum, width) && port == Exchanged(ts[i]) && port.inA == [] && port.inB == []
    ensures Progress(ts, i + 1, kept, off, sum, width)
  {
    LiveNext(ts, i);
    if NoneUndefined(ts) {
      SkipTerm(kept, sum, ts, i);
    }
  }

  lemma {:induction false} ProgressFold(ts: seq<Term>, i: nat, kept: seq<Term>, off: Const, sum: int, width: nat, port: Term,
                                        off': Const, sum': int)
    requires i < |ts| && Progress(ts, i, kept, off, sum, width) && port == Exchanged(ts[i]) && port.Constant()
    requires off' == Folded(off, port, width) && sum' == sum + port.Contribution(SOME)
    ensures Progress(ts, i + 1, kept, off', sum', width)
  {
    LiveNext(ts, i);
    FoldAbsorbs(ts, i, off, width, port, off');
    if NoneUndefined(ts) {
      assert !Undefined(ts[i]) && port.Defined();
      FoldSums(ts, i, kept, off, sum, width, port, off', sum');
    }
  }

  lemma {:induction false} FoldAbsorbs(ts: seq<Term>, i: nat, off: Const, width: nat, port: Term, off': Const)
    requires i < |ts| && Absorbs(ts, i, off, width) && port == Exchanged(ts[i]) && port.Constant()
    requires off' == Folded(off, port, width)
    ensures Absorbs(ts, i + 1, off', width)
  {
    if Undefined(ts[i]) || off == AllOf(Sx, width) {
      UndefinedFold(off, port, width);
    }
  }

  lemma {:induction false} ConservedFold(ts: seq<Term>, i: nat, kept: seq<Term>, sum: int, port: Term, sum': int)
    requires i < |ts| && Conserved(kept, sum, ts[..i]) && port == Exchanged(ts[i]) && port.Constant() && port.Defined()
    requires sum' == sum + port.Contribution(SOME)
    ensures Conserved(kept, sum', ts[..i + 1])
  {
    var c := port.Contribution(SOME);
    ConstantAlways(port);
    FoldTerm(kept, sum, ts, i, port, c);
  }

  lemma {:induction false} FoldSums(ts: seq<Term>, i: nat, kept: seq<Term>, off: Const, sum: int, width: nat, port: Term,
                                    off': Const, sum': int)
    requires i < |ts| && Sums(ts, i, kept, off, sum, width) && port == Exchanged(ts[i]) && port.Constant() && port.Defined()
    requires off' == Folded(off, port, width) && sum' == sum + port.Contribution(SOME)
    ensures Sums(ts, i + 1, kept, off', sum', width)
  {
    DefinedFold(off, sum, port, width, off', sum');
    ConservedFold(ts, i, kept, sum, port, sum');
  }

  /** The same value on every input. */
  ghost predicate SameContribution(t: Term, u: Term) {
    forall env :: t.Contribution(env) == u.Contribution(env)
  }

  lemma {:induction false} ProgressKeep(ts: seq<Term>, i: nat, kept: seq<Term>, off: Const, sum: int, width: nat, port: Term, t: Term)
    requires i < |ts| && Progress(ts, i, kept, off, sum, width) && port == Exchanged(ts[i]) && !port.Constant()
    requires Simplified(t) && SameContribution(t, port)
    ensures Progress(ts, i + 1, kept + [t], off, sum, width)
  {
    KeepLive(kept, ts, i, t);
    if NoneUndefined(ts) {
      KeepTerm(kept, sum, ts, i, t);
    }
  }

  /** What the loop leaves, with the constants added back. */
  lemma {:induction false} ProgressDone(ts: seq<Term>, kept: seq<Term>, off: Const, sum: int, width: nat, ts': seq<Term>)
    requires Progress(ts, |ts|, kept, off, sum, width) && ts' == if S1 in off then kept + [Offset(off)] else kept
    ensures NoneUndefined(ts) ==> Keeps(ts, ts', width)
    ensures !NoneUndefined(ts) ==> AllSimplified(ts') && Conserved(ts', 0, Live(ts))
    ensures Simple(ts') && (AllConstant(ts) ==> AllConstant(ts') && AllDefined(ts'))
  {
    assert ts[..|ts|] == ts;
    if NoneUndefined(ts) {
      AddConstant(kept, sum, ts, width, ts');
    } else {
      var k :| 0 <= k < |ts| && Undefined(ts[k]);
      assert off == AllOf(Sx, width);
    }
  }

  class Macc {
    var terms: seq<Term>

    constructor (terms: seq<Term>)
      ensures this.terms == terms
    {
      this.terms := terms;
    }

    /** Drops top bits that add nothing. */
    static method Trim(sig: Sig, signed: bool) returns (r: Sig)
      ensures SameValue(r, sig, signed) && !Redundant(r, signed) && r <= sig
      ensures |r| > 1 ==> if signed then r[|r| - 1] != r[|r| - 2] else r[|r| - 1] != Known(S0)
      ensures (r == [] <==> sig == []) && (FullyConst(r) <==> FullyConst(sig))
    {
      r := sig;
      while Redundant(r, signed)
        invariant SameValue(r, sig, signed) && r <= sig && (r == [] <==> sig == []) && (FullyConst(r) <==> FullyConst(sig))
        decreases |r|
      {
        forall env ensures SigValue(r[..|r| - 1], signed, env) == SigValue(sig, signed, env) {
          DropRedundant(r, signed, env);
          assert SigValue(r, signed, env) == SigValue(sig, signed, env);
        }
        r := r[..|r| - 1];
      }
    }

    /** Adds a constant term to an accumulator. */
    static method Fold(off: Const, port: Term, width: nat) returns (r: Const)
      requires port.Constant()
      ensures r == Folded(off, port, width)
    {
      var v := AsConst(port.inA);
      if port.inB != [] {
        v := ConstMul(v, AsConst(port.inB), port.isSigned, port.isSigned, width);
      }
      if port.doSubtract {
        r := ConstSub(off, v, port.isSigned, port.isSigned, width);
      } else {
        r := ConstAdd(off, v, port.isSigned, port.isSigned, width);
      }
    }

    /**
     * With every constant term defined, the result is kept on every input but
     * for the surplus of misplaced terms; an undefined one takes all constants
     * with it, and the terms with wires are kept.
     */
    method Optimize(width: nat)
      modifies this
      ensures NoneUndefined(old(terms)) ==> Keeps(old(terms), terms, width)
      ensures !NoneUndefined(old(terms)) ==> AllSimplified(terms) && Conserved(terms, 0, Live(old(terms)))
      ensures Simple(terms)
      ensures AllConstant(old(terms)) ==> AllConstant(terms) && AllDefined(terms)
    {
      var ts, newTerms, off := terms, [], AllOf(S0, width);
      ghost var sum := 0;
      ProgressStart(ts, width);
      for i := 0 to |ts|
        invariant Progress(ts, i, newTerms, off, sum, width)
      {
        newTerms, off, sum := Round(ts, i, newTerms, off, sum, width);
      }
      ghost var kept := newTerms;
      if S1 in off {
        newTerms := newTerms + [Offset(off)];
      }
      ProgressDone(ts, kept, off, sum, width, newTerms);
      terms := newTerms;
    }

    /** One term: dropped if empty, added to the constants, or kept with its ports trimmed. */
    static method Round(ts: seq<Term>, i: nat, newTerms: seq<Term>, off: Const, ghost sum: int, width: nat)
      returns (newTerms': seq<Term>, off': Const, ghost sum': int)
      requires i < |ts| && Progress(ts, i, newTerms, off, sum, width)
      ensures Progress(ts, i + 1, newTerms', off', sum', width)
    {
      var port := Exchange(ts[i]);
      if port.inA == [] && port.inB == [] {
        ProgressSkip(ts, i, newTerms, off, sum, width, port);
        return newTerms, off, sum;
      }
      if FullyConst(port.inA) && FullyConst(port.inB) {
        off', sum' := FoldNext(ts, i, newTerms, off, sum, width, port);
        return newTerms, off', sum';
      }
      var t := TrimPorts(port);
      ProgressKeep(ts, i, newTerms, off, sum, width, port, t);
      return newTerms + [t], off, sum;
    }

    static method FoldNext(ts: seq<Term>, i: nat, ghost newTerms: seq<Term>, off: Const, ghost sum: int, width: nat, port: Term)
      returns (off': Const, ghost sum': int)
      requires i < |ts| && Progress(ts, i, newTerms, off, sum, width) && port == Exchanged(ts[i]) && port.Constant()
      ensures Progress(ts, i + 1, newTerms, off', sum', width)
    {
      sum' := sum + port.Contribution(SOME);
      off' := Fold(off, port, width);
      ProgressFold(ts, i, newTerms, off, sum, width, port, off', sum');
    }

    static method Exchange(t: Term) returns (port: Term)
      ensures port == Exchanged(t) && (port.inA == [] ==> port.inB == [])
    {
      port := t;
      if |port.inA| < |port.inB| {
        port := port.(inA := port.inB, inB := port.inA);
      }
    }

    /** The trimming of both ports of a term with a wire. */
    static method TrimPorts(port: Term) returns (t: Term)
      requires !port.Constant() && port.inA != []
      ensures Simplified(t) && SameContribution(t, port)
    {
      var a := Trim(port.inA, port.isSigned);
      var b := Trim(port.inB, port.isSigned);
      t := port.(inA := a, inB := b);
      forall env ensures t.Contribution(env) == port.Contribution(env) {
        assert SigValue(a, port.isSigned, env) == SigValue(port.inA, port.isSigned, env);
        assert SigValue(b, port.isSigned, env) == SigValue(port.inB, port.isSigned, env);
        SameSummand(port, a, b, env);
      }
    }

    /** False if a port has a wire. */
    method Eval(width: nat) returns (known: bool, result: Const)
      ensures known <==> AllConstant(terms)
      ensures known ==> result == Evaluated(terms, width)
      ensures known && !AnyMet(terms, width) ==> forall env :: result == ToConst(Result(terms, env, width))
      ensures known && AnyMet(terms, width) ==> result == AllOf(Sx, width)
    {
      result := AllOf(S0, width);
      FillIs(width);
      assert result == Evaluated([], width);
      for i := 0 to |terms|
        invariant AllConstant(terms[..i]) && result == Evaluated(terms[..i], width)
      {
        var port := terms[i];
        if !FullyConst(port.inA) || !FullyConst(port.inB) {
          return false, result;
        }
        EvaluatedNext(terms, i, width);
        result := AddSummand(result, port, width);
      }
      assert terms[..|terms|] == terms;
      if !AnyMet(terms, width) {
        forall env ensures Result(terms, env, width) == Result(terms, SOME, width) {
          UnmetAnyway(terms, |terms|, width, env);
        }
      }
      known := true;
    }

    static method AddSummand(acc: Const, port: Term, width: nat) returns (r: Const)
      requires port.Constant() && |acc| == width
      ensures r == Summed(acc, port, width)
    {
      var summand;
      if port.inB == [] {
        summand := ExtendU0(AsConst(port.inA), width, port.isSigned);
      } else {
        summand := ConstMul(AsConst(port.inA), AsConst(port.inB), port.isSigned, port.isSigned, width);
      }
      if port.doSubtract {
        r := ConstSub(acc, summand, port.isSigned, port.isSigned, width);
      } else {
        r := ConstAdd(acc, summand, port.isSigned, port.isSigned, width);
      }
    }

    /** A list of constants evaluates to the same before and after if and only if the condition holds. */
    method OptimizeConstants(width: nat) returns (before: Const, after: Const)
      requires AllConstant(terms)
      modifies this
      ensures before == Evaluated(old(terms), width)
      ensures after == before <==> KeepsConstants(old(terms), width)
    {
      ghost var ts := terms;
      var known;
      known, before := Eval(width);
      Optimize(width);
      if !NoneUndefined(ts) {
        SimplifiedConstants(terms);
      }
      known, after := Eval(width);
      KeepsConstantsExactly(ts, terms, width);
    }
  }
}
