/**
 * Powers of constants with undefined bits (`const_pow` in `kernel/calc.cc`).
 * The evaluator reads undefined bits as the ones that add nothing, and
 * answers 0 for a base that reads as 0 under a positive exponent, before it
 * looks whether the inputs were defined.
 */
module UndefinedPowers {
  import opened Rtlil
  import opened Bits
  import opened Calc

  /** The number of the lowest undefined bit. */
  function LowestUndefined(c: Const): (k: nat)
    requires !FullyDefined(c)
    ensures k < |c| && !c[k].Defined() && forall i | 0 <= i < k :: c[i].Defined()
    decreases |c|
  {
    if !c[0].Defined() then 0
    else
      assert c == [c[0]] + c[1..];
      1 + LowestUndefined(c[1..])
  }

  /**
   * The evaluator's answer can be relied on: it is not given early, or the
   * base is really 0, or its lowest bit that may be set is so high that the
   * power falls off the result.
   */
  predicate PowConservative(c: Const, d: Const, signed: bool, w: nat) {
    || Big(c, signed) != 0
    || Big(d, signed) <= 0
    || FullyDefined(c)
    || LowestUndefined(c) * Big(d, signed) >= w
  }

  /** The answer agrees with the power of this completion of the inputs; 0 to a negative power, which has no value, counts as 0. */
  ghost predicate PowAgrees(x: Bv, y: Bv, c: Const, d: Const, signed: bool, w: nat) {
    Completes(FromInt(IntPower(Value(x, signed), Value(y, signed)), w), Arithmetic(Pow, c, d, signed, signed, w))
  }

  ghost predicate PowSound(c: Const, d: Const, signed: bool, w: nat) {
    forall x: Bv, y: Bv | Completes(x, c) && Completes(y, d) :: PowAgrees(x, y, c, d, signed, w)
  }

  // ------------------------------------------------ powers of two and zero

  /** A multiple of 2^k to the power n is a multiple of 2^(k * n). */
  lemma {:induction false} PowerOfMultiple(t: int, k: nat, n: nat) returns (q: int)
    ensures Power(t * Pow2(k), n) == q * Pow2(k * n)
  {
    if n == 0 {
      assert k * n == 0;
      q := 1;
    } else {
      var p := PowerOfMultiple(t, k, n - 1);
      assert k + k * (n - 1) == k * n;
      Pow2Sum(k, k * (n - 1));
      q := t * p;
      Products(t, Pow2(k), p, Pow2(k * (n - 1)));
    }
  }

  lemma {:induction false} Products(t: int, a: int, p: int, b: int)
    ensures (t * a) * (p * b) == (t * p) * (a * b)
  {
    Associate(t * a, p, b);
    Associate(t, a, p);
    Associate(t, p, a);
    Associate(t * p, a, b);
  }

  /** So it vanishes at a width that k * n reaches. */
  lemma {:induction false} PowerVanishes(x: int, t: int, k: nat, n: nat, w: nat)
    requires x == t * Pow2(k) && k * n >= w
    ensures FromInt(Power(x, n), w) == Fill(false, w)
  {
    var q := PowerOfMultiple(t, k, n);
    Pow2Sum(k * n - w, w);
    Associate(q, Pow2(k * n - w), Pow2(w));
    Same(Power(x, n), 0, q * Pow2(k * n - w), w);
    FillIs(w);
  }

  /** The powers of 2^k and of -2^k have bit k * n set. */
  lemma {:induction false} PowerOfPow2(k: nat, n: nat)
    ensures Power(Pow2(k), n) == Pow2(k * n)
  {
    if n == 0 {
      assert k * n == 0;
    } else {
      PowerOfPow2(k, n - 1);
      assert k + k * (n - 1) == k * n;
      Pow2Sum(k, k * (n - 1));
    }
  }

  lemma {:induction false} PowerShows(x: int, k: nat, n: nat, w: nat)
    requires (x == Pow2(k) || x == -Pow2(k)) && k * n < w
    ensures FromInt(Power(x, n), w)[k * n]
  {
    PowerOfPow2(k, n);
    PowerNegated(Pow2(k), n);
    Pow2Bit(k * n);
    MinusPow2Bit(k * n, k * n);
    FromIntAt(Power(x, n), w, k * n);
  }

  // -------------------------------------------------- values of completions

  lemma {:induction false} ToNatMonotone(a: Bv, b: Bv)
    requires |a| == |b| && forall i | 0 <= i < |a| :: a[i] ==> b[i]
    ensures ToNat(a) <= ToNat(b)
  {
    if a != [] {
      ToNatMonotone(a[1..], b[1..]);
    }
  }

  /** A constant that reads as 0 has no bit that is 1. */
  lemma {:induction false} ReadsZero(c: Const, signed: bool)
    requires Big(c, signed) == 0
    ensures forall i | 0 <= i < |c| :: c[i] != S1
  {
    ToNatZero(Marks(c, S1));
    forall i | 0 <= i < |c| ensures c[i] != S1 {
      assert Marks(c, S1)[i] == Fill(false, |c|)[i];
    }
  }

  /** Its completions are multiples of the weight of its lowest undefined bit. */
  lemma {:induction false} CompletionMultiple(x: Bv, c: Const, signed: bool, k: nat) returns (t: int)
    requires Completes(x, c) && Big(c, signed) == 0 && k <= |c| && forall i | 0 <= i < k :: c[i].Defined()
    ensures Value(x, signed) == t * Pow2(k)
  {
    ReadsZero(c, signed);
    ToNatSplit(x, k);
    assert x[..k] == Fill(false, k);
    ToNatZero(x[..k]);
    Pow2Sum(|x| - k, k);
    t := ToNat(x[k..]);
    if signed && x != [] && x[|x| - 1] {
      Distribute(t - Pow2(|x| - k), Pow2(|x| - k), Pow2(k));
      t := t - Pow2(|x| - k);
    }
  }

  /** Completions of a constant that reads as a positive number are at least that, or negative. */
  lemma {:induction false} CompletionAtLeast(y: Bv, d: Const, signed: bool)
    requires Completes(y, d) && Big(d, signed) > 0
    ensures Value(y, signed) >= Big(d, signed) || Value(y, signed) < 0
  {
    ToNatMonotone(Marks(d, S1), y);
    if signed && y != [] {
      ValueRange(y);
    }
  }

  /** Only bit k. */
  function Single(k: nat, n: nat): (x: Bv)
    ensures |x| == n
  {
    seq(n, i => i == k)
  }

  lemma {:induction false} SingleValue(k: nat, n: nat, signed: bool)
    requires k < n
    ensures Value(Single(k, n), signed) == Pow2(k) || Value(Single(k, n), signed) == -Pow2(k)
  {
    var zeros := Fill(false, n);
    assert Single(k, n) == zeros[k := true];
    SetBit(zeros, k);
    ToNatZero(zeros);
    assert Pow2(n) == 2 * Pow2(n - 1);
  }

  // ------------------------------------------------------ the exact condition

  lemma {:induction false} NotEarly(x: Bv, y: Bv, c: Const, d: Const, signed: bool, w: nat)
    requires Completes(x, c) && Completes(y, d) && (Big(c, signed) != 0 || Big(d, signed) <= 0)
    ensures PowAgrees(x, y, c, d, signed, w)
  {
    if FullyDefined(c) && FullyDefined(d) {
      OnlyCompletion(x, c);
      OnlyCompletion(y, d);
      BigIsValue(x, signed);
      BigIsValue(y, signed);
    }
  }

  lemma {:induction false} EarlyButRight(x: Bv, y: Bv, c: Const, d: Const, signed: bool, w: nat)
    requires Completes(x, c) && Completes(y, d) && Big(c, signed) == 0 && Big(d, signed) > 0 && w > 0
    requires FullyDefined(c) || LowestUndefined(c) * Big(d, signed) >= w
    ensures PowAgrees(x, y, c, d, signed, w)
  {
    var k := if FullyDefined(c) then |c| else LowestUndefined(c);
    var t := CompletionMultiple(x, c, signed, k);
    CompletionAtLeast(y, d, signed);
    var v, n := Value(x, signed), Value(y, signed);
    if FullyDefined(c) {
      OnlyCompletion(x, c);
      BigIsValue(x, signed);
      ZeroPower(n);
      FillIs(w);
    } else if n > 0 {
      MulAtLeast(k, Big(d, signed), n);
      PowerVanishes(v, t, k, n, w);
    } else {
      assert k > 0;
      EvenMultiple(t, k);
      FillIs(w);
    }
    assert FromInt(IntPower(v, n), w) == Fill(false, w);
  }

  lemma {:induction false} ZeroPower(n: int)
    requires n != 0
    ensures IntPower(0, n) == 0
  {
  }

  lemma {:induction false} MulAtLeast(k: nat, m: int, n: int)
    requires m <= n
    ensures k * m <= k * n
  {
  }

  lemma {:induction false} EvenMultiple(t: int, k: nat)
    requires k > 0
    ensures t * Pow2(k) != 1 && t * Pow2(k) != -1
  {
    MulTwo(t, Pow2(k - 1));
  }

  /** Otherwise the base that has just its lowest undefined bit set, to the exponent as read, is a counterexample. */
  lemma {:induction false} EarlyAndWrong(c: Const, d: Const, signed: bool, w: nat)
    requires Big(c, signed) == 0 && Big(d, signed) > 0 && !FullyDefined(c) && LowestUndefined(c) * Big(d, signed) < w
    ensures !PowSound(c, d, signed, w)
  {
    var k, n := LowestUndefined(c), Big(d, signed);
    var x, y := Single(k, |c|), Marks(d, S1);
    ReadsZero(c, signed);
    assert Completes(x, c) && Completes(y, d);
    SingleValue(k, |c|, signed);
    assert Value(y, signed) == n;
    PowerShows(Value(x, signed), k, n, w);
    var p := FromInt(IntPower(Value(x, signed), n), w);
    assert p[k * n] && Arithmetic(Pow, c, d, signed, signed, w)[k * n] == S0;
    assert !PowAgrees(x, y, c, d, signed, w);
  }

  /** The evaluator's power agrees with every completion of its inputs if and only if the condition holds. */
  lemma {:induction false} PowExact(c: Const, d: Const, signed: bool, w: nat)
    requires w > 0
    ensures PowConservative(c, d, signed, w) <==> PowSound(c, d, signed, w)
  {
    if PowConservative(c, d, signed, w) {
      forall x: Bv, y: Bv | Completes(x, c) && Completes(y, d) ensures PowAgrees(x, y, c, d, signed, w) {
        if Big(c, signed) != 0 || Big(d, signed) <= 0 {
          NotEarly(x, y, c, d, signed, w);
        } else {
          EarlyButRight(x, y, c, d, signed, w);
        }
      }
    } else {
      EarlyAndWrong(c, d, signed, w);
    }
  }

  /** An undefined base reads as 0, whose power 1 is then 0; its completion 1 has 1. */
  lemma {:induction false} UndefinedBase()
    ensures Arithmetic(Pow, [Sx], [S1], false, false, 1) == [S0]
    ensures Completes([true], [Sx]) && Arithmetic(Pow, [S1], [S1], false, false, 1) == [S1]
  {
    assert Marks([Sx], S1) == [false] && Marks([S1], S1) == [true];
    assert ToNat([false]) == 0 && ToNat([true]) == 1;
    assert AllOf(S0, 1) == [S0];
    assert Power(1, 0) == 1 && IntPower(1, 1) == 1;
    assert FromInt(1, 1) == [true];
    assert ToConst([true]) == [S1];
  }
}
