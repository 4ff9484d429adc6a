/**
 * Bit vectors of any width, least significant bit first, and the integers
 * they stand for.
 */
module Bits {
  type Bv = seq<bool>

  function Pow2(n: nat): (p: int)
    ensures p > 0
  {
    if n == 0 then 1 else 2 * Pow2(n - 1)
  }

  lemma {:induction false} Pow2Monotone(m: nat, n: nat)
    requires m <= n
    ensures Pow2(m) <= Pow2(n)
  {
    if m < n {
      Pow2Monotone(m, n - 1);
    }
  }

  lemma {:induction false} Pow2Grows(n: nat)
    ensures n < Pow2(n)
  {
    if n > 0 {
      Pow2Grows(n - 1);
    }
  }

  lemma {:induction false} Pow2Sum(m: nat, n: nat)
    ensures Pow2(m + n) == Pow2(m) * Pow2(n)
  {
    if m > 0 {
      Pow2Sum(m - 1, n);
      MulTwo(Pow2(n), Pow2(m - 1));
    }
  }

  lemma {:induction false} MulTwo(h: int, p: int)
    ensures 2 * (h * p) == h * (2 * p)
  {
  }

  /** The number of binary digits of n. */
  function BitLength(n: nat): nat {
    if n == 0 then 0 else 1 + BitLength(n / 2)
  }

  /** `ceil_log2`: 32 minus the leading zeros of x - 1. */
  function CeilLog2(x: int): nat {
    if x > 1 then BitLength(x - 1) else 0
  }

  lemma {:induction false} BitLengthBounds(n: nat)
    ensures n < Pow2(BitLength(n))
    ensures n > 0 ==> Pow2(BitLength(n) - 1) <= n
  {
    if n > 0 {
      BitLengthBounds(n / 2);
    }
  }

  /** ... which is the least exponent whose power of two reaches x. */
  lemma {:induction false} CeilLog2IsLeast(x: int)
    requires x > 0
    ensures x <= Pow2(CeilLog2(x))
    ensures forall k: nat | x <= Pow2(k) :: CeilLog2(x) <= k
  {
    if x > 1 {
      BitLengthBounds(x - 1);
      forall k: nat | x <= Pow2(k) ensures CeilLog2(x) <= k {
        if k < CeilLog2(x) {
          Pow2Monotone(k, CeilLog2(x) - 1);
        }
      }
    }
  }

  function Num(b: bool): nat {
    if b then 1 else 0
  }

  /** The unsigned value. */
  function ToNat(a: Bv): (n: nat)
    ensures n < Pow2(|a|)
  {
    if a == [] then 0 else Num(a[0]) + 2 * ToNat(a[1..])
  }

  /** The value, in two's complement if `signed`. */
  function Value(a: Bv, signed: bool): int {
    if signed && a != [] && a[|a| - 1] then ToNat(a) - Pow2(|a|) else ToNat(a)
  }

  /** The w low bits of an integer in two's complement. */
  function FromInt(n: int, w: nat): (r: Bv)
    ensures |r| == w
    decreases w
  {
    if w == 0 then [] else [n % 2 == 1] + FromInt(n / 2, w - 1)
  }

  /** What is left of an integer without its w low bits. */
  function High(n: int, w: nat): int
    decreases w
  {
    if w == 0 then n else High(n / 2, w - 1)
  }

  predicate Bit(n: int, i: nat) {
    High(n, i) % 2 == 1
  }

  lemma {:induction false} FromIntAt(n: int, w: nat, i: nat)
    requires i < w
    ensures FromInt(n, w)[i] == Bit(n, i)
    decreases w
  {
    if i > 0 {
      FromIntAt(n / 2, w - 1, i - 1);
    }
  }

  lemma {:induction false} FromToNat(a: Bv)
    ensures FromInt(ToNat(a), |a|) == a
  {
    if a != [] {
      FromToNat(a[1..]);
    }
  }

  lemma {:induction false} Split(n: int, w: nat)
    ensures n == ToNat(FromInt(n, w)) + High(n, w) * Pow2(w)
    decreases w
  {
    if w > 0 {
      Split(n / 2, w - 1);
      MulTwo(High(n, w), Pow2(w - 1));
      assert FromInt(n, w)[1..] == FromInt(n / 2, w - 1);
    }
  }

  /** Only the remainder by a power of two matters. */
  lemma {:induction false} Same(m: int, n: int, k: int, w: nat)
    requires m == n + k * Pow2(w)
    ensures FromInt(m, w) == FromInt(n, w)
    decreases w
  {
    if w > 0 {
      MulTwo(k, Pow2(w - 1));
      Same(m / 2, n / 2, k, w - 1);
    }
  }

  lemma {:induction false} Small(n: int, w: nat)
    requires 0 <= n < Pow2(w)
    ensures ToNat(FromInt(n, w)) == n
    decreases w
  {
    if w > 0 {
      Small(n / 2, w - 1);
      assert FromInt(n, w)[1..] == FromInt(n / 2, w - 1);
    }
  }

  lemma {:induction false} SmallSigned(n: int, w: nat)
    requires w > 0 && -Pow2(w - 1) <= n < Pow2(w - 1)
    ensures Value(FromInt(n, w), true) == n
    decreases w
  {
    assert FromInt(n, w)[1..] == FromInt(n / 2, w - 1);
    if w > 1 {
      SmallSigned(n / 2, w - 1);
    }
  }

  lemma {:induction false} ValueRange(a: Bv)
    requires a != []
    ensures -Pow2(|a| - 1) <= Value(a, true) < Pow2(|a| - 1)
    ensures a[|a| - 1] <==> Value(a, true) < 0
  {
    if |a| > 1 {
      ValueRange(a[1..]);
    }
  }

  lemma {:induction false} ModSum(m: int, n: int, w: nat)
    ensures FromInt(ToNat(FromInt(m, w)) + ToNat(FromInt(n, w)), w) == FromInt(m + n, w)
  {
    Split(m, w);
    Split(n, w);
    Distribute(High(m, w), High(n, w), Pow2(w));
    Same(m + n, ToNat(FromInt(m, w)) + ToNat(FromInt(n, w)), High(m, w) + High(n, w), w);
  }

  lemma {:induction false} ModDifference(m: int, n: int, w: nat)
    ensures FromInt(ToNat(FromInt(m, w)) - ToNat(FromInt(n, w)), w) == FromInt(m - n, w)
  {
    Split(m, w);
    Split(n, w);
    Distribute(High(m, w) - High(n, w), High(n, w), Pow2(w));
    Same(m - n, ToNat(FromInt(m, w)) - ToNat(FromInt(n, w)), High(m, w) - High(n, w), w);
  }

  lemma {:induction false} ModProduct(m: int, n: int, w: nat)
    ensures FromInt(ToNat(FromInt(m, w)) * ToNat(FromInt(n, w)), w) == FromInt(m * n, w)
  {
    Split(m, w);
    Split(n, w);
    var k := ProductHigh(ToNat(FromInt(m, w)), High(m, w), ToNat(FromInt(n, w)), High(n, w), Pow2(w));
    Same(m * n, ToNat(FromInt(m, w)) * ToNat(FromInt(n, w)), k, w);
  }

  lemma {:induction false} ProductHigh(x: int, h: int, y: int, g: int, p: int) returns (k: int)
    ensures (x + h * p) * (y + g * p) == x * y + k * p
  {
    k := x * g + h * y + h * g * p;
    calc {
      (x + h * p) * (y + g * p);
      x * y + x * (g * p) + (h * p) * y + (h * p) * (g * p);
      { assert x * (g * p) == (x * g) * p; assert (h * p) * y == (h * y) * p; assert (h * p) * (g * p) == (h * g * p) * p; }
      x * y + (x * g) * p + (h * y) * p + (h * g * p) * p;
      { Distribute(x * g, h * y, p); Distribute(x * g + h * y, h * g * p, p); }
      x * y + k * p;
    }
  }

  lemma {:induction false} Distribute(a: int, b: int, p: int)
    ensures (a + b) * p == a * p + b * p
  {
  }

  function Fill(b: bool, w: nat): (r: Bv)
    ensures |r| == w
  {
    seq(w, _ => b)
  }

  lemma {:induction false} FillIs(w: nat)
    ensures FromInt(0, w) == Fill(false, w) && FromInt(-1, w) == Fill(true, w)
  {
    if w > 0 {
      FillIs(w - 1);
    }
  }

  /** Truncation, zero extension or sign extension. */
  function Extend(a: Bv, w: nat, signed: bool): (r: Bv)
    ensures |r| == w
  {
    if w <= |a| then a[..w] else a + Fill(signed && a != [] && a[|a| - 1], w - |a|)
  }

  /** Extending keeps the value, as far as it fits. */
  lemma {:induction false} ExtendIs(a: Bv, w: nat, signed: bool)
    ensures Extend(a, w, signed) == FromInt(Value(a, signed), w)
  {
    if w == 0 {
    } else if |a| > 1 {
      ExtendIs(a[1..], w - 1, signed);
      ValueStep(a, signed);
      ExtendStep(a, w, signed);
    } else {
      FillIs(w);
      FillIs(w - 1);
    }
  }

  lemma {:induction false} ExtendStep(a: Bv, w: nat, signed: bool)
    requires w > 0 && |a| > 1
    ensures Extend(a, w, signed) == [a[0]] + Extend(a[1..], w - 1, signed)
  {
  }

  lemma {:induction false} ValueStep(a: Bv, signed: bool)
    requires |a| > 1
    ensures Value(a, signed) == Num(a[0]) + 2 * Value(a[1..], signed)
  {
  }

  lemma {:induction false} ExtendKeepsValue(a: Bv, w: nat, signed: bool)
    requires |a| <= w && a != []
    ensures Value(Extend(a, w, signed), signed) == Value(a, signed)
  {
    ExtendIs(a, w, signed);
    if signed {
      ValueRange(a);
      Pow2Monotone(|a| - 1, w - 1);
      SmallSigned(Value(a, true), w);
    } else {
      Pow2Monotone(|a|, w);
      Small(ToNat(a), w);
    }
  }

  lemma {:induction false} FromIntTake(n: int, w: nat, k: nat)
    requires k <= w
    ensures FromInt(n, w)[..k] == FromInt(n, k)
    decreases w
  {
    if k > 0 {
      FromIntTake(n / 2, w - 1, k - 1);
      assert FromInt(n, w)[..k] == [n % 2 == 1] + FromInt(n / 2, w - 1)[..k - 1];
    }
  }

  function Not(a: Bv): (r: Bv)
    ensures |r| == |a|
  {
    seq(|a|, i requires 0 <= i < |a| => !a[i])
  }

  lemma {:induction false} NotIs(n: int, w: nat)
    ensures Not(FromInt(n, w)) == FromInt(-n - 1, w)
    decreases w
  {
    if w > 0 {
      NotIs(n / 2, w - 1);
      assert (-n - 1) / 2 == -(n / 2) - 1;
    }
  }

  lemma {:induction false} ToNatSplit(a: Bv, k: nat)
    requires k <= |a|
    ensures ToNat(a) == ToNat(a[..k]) + ToNat(a[k..]) * Pow2(k)
  {
    if k == 0 {
      assert a[0..] == a;
    } else {
      var hi := ToNat(a[k..]);
      calc {
        ToNat(a);
        Num(a[0]) + 2 * ToNat(a[1..]);
        { ToNatSplit(a[1..], k - 1); assert a[1..][..k - 1] == a[..k][1..] && a[1..][k - 1..] == a[k..]; }
        Num(a[0]) + 2 * (ToNat(a[..k][1..]) + hi * Pow2(k - 1));
        { MulTwo(hi, Pow2(k - 1)); }
        ToNat(a[..k]) + hi * Pow2(k);
      }
    }
  }

  lemma {:induction false} ToNatSnoc(a: Bv, b: bool)
    ensures ToNat(a + [b]) == ToNat(a) + Num(b) * Pow2(|a|)
  {
    ToNatSplit(a + [b], |a|);
    assert (a + [b])[..|a|] == a;
    assert (a + [b])[|a|..] == [b];
    assert ToNat([b]) == Num(b);
  }

  lemma {:induction false} ToNatZero(a: Bv)
    ensures ToNat(a) == 0 <==> a == Fill(false, |a|)
  {
    if a != [] {
      ToNatZero(a[1..]);
      assert a == [a[0]] + a[1..];
      assert Fill(false, |a|) == [false] + Fill(false, |a| - 1);
    }
  }

  lemma {:induction false} SmallBit(n: int, i: nat)
    requires 0 <= n < Pow2(i)
    ensures !Bit(n, i)
  {
    if i > 0 {
      SmallBit(n / 2, i - 1);
    }
  }

  lemma {:induction false} MinusPow2Bit(k: nat, i: nat)
    requires k <= i
    ensures Bit(-Pow2(k), i)
  {
    if k > 0 {
      MinusPow2Bit(k - 1, i - 1);
    } else if i > 0 {
      MinusPow2Bit(0, i - 1);
    }
  }

  lemma {:induction false} Pow2Bit(i: nat)
    ensures Bit(Pow2(i), i)
  {
    if i > 0 {
      Pow2Bit(i - 1);
    }
  }

  lemma {:induction false} SetBit(b: Bv, k: nat)
    requires k < |b| && !b[k]
    ensures ToNat(b[k := true]) == ToNat(b) + Pow2(k)
  {
    if k > 0 {
      assert b[k := true][1..] == b[1..][k - 1 := true];
      SetBit(b[1..], k - 1);
    } else {
      assert b[0 := true][1..] == b[1..];
    }
  }

  /** A single bit, zero-extended. */
  function Lone(b: bool, w: nat): (r: Bv)
    requires w > 0
    ensures |r| == w
  {
    [b] + Fill(false, w - 1)
  }
}
