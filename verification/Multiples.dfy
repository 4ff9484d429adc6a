/**
 * Products with, and quotients by, a variable such as the word size.  They
 * are defined by repeated addition and subtraction, and tied to `*`, `/` and
 * `%` here once, so that other proofs need no nonlinear arithmetic.
 */
module Multiples {
  function Times(k: nat, w: nat): nat {
    if k == 0 then 0 else Times(k - 1, w) + w
  }

  function Quot(n: nat, w: nat): nat
    requires w > 0
  {
    if n < w then 0 else 1 + Quot(n - w, w)
  }

  function Rem(n: nat, w: nat): (r: nat)
    requires w > 0
    ensures r < w && r <= n
  {
    if n < w then n else Rem(n - w, w)
  }

  predicate Aligned(n: nat, w: nat)
    requires w > 0
  {
    if n < w then n == 0 else Aligned(n - w, w)
  }

  lemma {:induction false} TimesIsProduct(k: nat, w: nat)
    ensures Times(k, w) == k * w
  {
    if k > 0 {
      TimesIsProduct(k - 1, w);
      assert (k - 1) * w + w == k * w;
    }
  }

  /** The source's `size() / _data_width` and `size() % _data_width == 0`. */
  lemma {:induction false} QuotIsDivision(n: nat, w: nat)
    requires w > 0
    ensures Quot(n, w) == n / w && (Aligned(n, w) <==> n % w == 0)
    decreases n
  {
    if n >= w {
      QuotIsDivision(n - w, w);
      var q, r := (n - w) / w, (n - w) % w;
      assert n - w == q * w + r;
      assert (q + 1) * w == q * w + w;
      Unique(n, w, q + 1, r);
    } else {
      Unique(n, w, 0, n);
    }
  }

  lemma {:induction false} Unique(n: nat, w: nat, q: int, r: int)
    requires w > 0 && n == q * w + r && 0 <= r < w
    ensures n / w == q && n % w == r
  {
    var q', r' := n / w, n % w;
    assert n == q' * w + r';
    assert (q - q') * w == q * w - q' * w;
    if q - q' >= 1 { MulMonotone(1, q - q', w); }
    if q - q' <= -1 { MulMonotone(q - q', -1, w); }
  }

  lemma {:induction false} MulMonotone(a: int, b: int, w: nat)
    requires a <= b
    ensures a * w <= b * w
  {
  }

  lemma {:induction false} Distribute(a: nat, b: nat, w: nat)
    ensures Times(a + b, w) == Times(a, w) + Times(b, w)
  {
    if b > 0 {
      Distribute(a, b - 1, w);
    }
  }

  lemma {:induction false} Monotone(a: nat, b: nat, w: nat)
    requires a <= b
    ensures Times(a, w) <= Times(b, w)
  {
    Distribute(a, b - a, w);
  }

  lemma {:induction false} Exact(k: nat, w: nat)
    requires w > 0
    ensures Quot(Times(k, w), w) == k && Aligned(Times(k, w), w)
  {
    if k > 0 {
      Exact(k - 1, w);
    }
  }

  lemma {:induction false} Whole(n: nat, w: nat)
    requires w > 0 && Aligned(n, w)
    ensures n == Times(Quot(n, w), w)
  {
    if n >= w {
      Whole(n - w, w);
    }
  }

  lemma {:induction false} RoundDown(n: nat, w: nat)
    requires w > 0
    ensures Times(Quot(n, w), w) <= n < Times(Quot(n, w), w) + w
  {
    if n >= w {
      RoundDown(n - w, w);
    }
  }

  /** Division with remainder, in terms of the operators. */
  lemma {:induction false} QuotRem(n: nat, w: nat)
    requires w > 0
    ensures n == Quot(n, w) * w + Rem(n, w) && Quot(n, w) <= n
    ensures Quot(n, w) == n / w && Rem(n, w) == n % w
    decreases n
  {
    if n >= w {
      QuotRem(n - w, w);
      assert (Quot(n - w, w) + 1) * w == Quot(n - w, w) * w + w;
    }
    Unique(n, w, Quot(n, w), Rem(n, w));
  }
}
