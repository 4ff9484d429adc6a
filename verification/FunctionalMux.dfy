/** $bmux and $demux in the functional IR (`CellSimplifier::handle_bmux`, and the $demux case of `handle`). */
module MuxSimplifier {
  import opened Rtlil
  import opened Bits
  import opened Calc
  import opened FunctionalIR
  import opened Muxes
  import CS = CellSimplifier
  import M = Multiples

  /** Word number n of a vector, counted in words of w bits from bit `offset` on. */
  function WordFrom(x: Bv, offset: nat, n: nat, w: nat): (r: Bv)
    requires offset + M.Times(n, w) + w <= |x|
    ensures |r| == w
  {
    x[offset + M.Times(n, w)..offset + M.Times(n, w) + w]
  }

  lemma {:induction false} LowSelect(s: Bv, sn: nat, w: nat)
    requires 0 < sn <= |s|
    ensures M.Times(ToNat(s[..sn]), w) == M.Times(ToNat(s[..sn - 1]), w) + (if s[sn - 1] then M.Times(Pow2(sn - 1), w) else 0)
    ensures M.Times(ToNat(s[..sn]), w) + w <= M.Times(Pow2(sn), w)
    ensures M.Times(ToNat(s[..sn - 1]), w) + w <= M.Times(Pow2(sn - 1), w)
    ensures M.Times(Pow2(sn), w) == M.Times(Pow2(sn - 1), w) + M.Times(Pow2(sn - 1), w)
  {
    assert s[..sn] == s[..sn - 1] + [s[sn - 1]];
    ToNatSnoc(s[..sn - 1], s[sn - 1]);
    M.Distribute(ToNat(s[..sn - 1]), Pow2(sn - 1), w);
    M.Distribute(Pow2(sn - 1), Pow2(sn - 1), w);
    M.Monotone(ToNat(s[..sn]) + 1, Pow2(sn), w);
    M.Monotone(ToNat(s[..sn - 1]) + 1, Pow2(sn - 1), w);
  }

  /** A tree of multiplexers over the low sn bits of the select. */
  method HandleBmux(a: Node, s: Node, aOffset: nat, width: nat, sn: nat) returns (r: Node)
    requires Wf(a) && Wf(s) && width > 0 && sn <= Width(s) && aOffset + M.Times(Pow2(sn), width) <= Width(a)
    ensures Wf(r) && Width(r) == width
    ensures forall env :: Selects(Eval(r, env), Eval(a, env), Eval(s, env), aOffset, width, sn)
    decreases sn
  {
    if sn < 1 {
      assert M.Times(1, width) == M.Times(0, width) + width;
      r := FSlice(a, aOffset, width);
      forall env ensures Selects(Eval(r, env), Eval(a, env), Eval(s, env), aOffset, width, sn) {
        SelectsFirst(Eval(a, env), Eval(s, env), aOffset, width);
      }
      return;
    }
    M.Distribute(Pow2(sn - 1), Pow2(sn - 1), width);
    var y0 := HandleBmux(a, s, aOffset, width, sn - 1);
    var y1 := HandleBmux(a, s, aOffset + M.Times(Pow2(sn - 1), width), width, sn - 1);
    r := ChooseHalf(y0, y1, a, s, aOffset, width, sn);
  }

  method ChooseHalf(y0: Node, y1: Node, a: Node, s: Node, aOffset: nat, width: nat, sn: nat) returns (r: Node)
    requires Wf(y0) && Wf(y1) && Wf(a) && Wf(s) && Width(y0) == Width(y1) == width && 0 < sn <= Width(s)
    requires aOffset + M.Times(Pow2(sn), width) <= Width(a)
    requires forall env :: Selects(Eval(y0, env), Eval(a, env), Eval(s, env), aOffset, width, sn - 1)
    requires forall env :: Selects(Eval(y1, env), Eval(a, env), Eval(s, env), aOffset + M.Times(Pow2(sn - 1), width), width, sn - 1)
    ensures Wf(r) && Width(r) == width
    ensures forall env :: Selects(Eval(r, env), Eval(a, env), Eval(s, env), aOffset, width, sn)
  {
    var top := FSlice(s, sn - 1, 1);
    r := FMux(y0, y1, top);
    forall env ensures Selects(Eval(r, env), Eval(a, env), Eval(s, env), aOffset, width, sn) {
      ChosenHalf(Eval(y0, env), Eval(y1, env), Eval(a, env), Eval(s, env), aOffset, width, sn);
    }
  }

  lemma {:induction false} SelectsFirst(x: Bv, s: Bv, offset: nat, width: nat)
    requires offset + width <= |x|
    ensures Selects(x[offset..offset + width], x, s, offset, width, 0)
  {
    assert s[..0] == [];
  }

  lemma {:induction false} ChosenHalf(y0: Bv, y1: Bv, x: Bv, s: Bv, offset: nat, width: nat, sn: nat)
    requires 0 < sn <= |s| && offset + M.Times(Pow2(sn), width) <= |x|
    requires Selects(y0, x, s, offset, width, sn - 1)
    requires Selects(y1, x, s, offset + M.Times(Pow2(sn - 1), width), width, sn - 1)
    ensures Selects(Choose(y0, y1, s[sn - 1..sn]), x, s, offset, width, sn)
  {
    LowSelect(s, sn, width);
  }

  ghost predicate Selects(r: Bv, x: Bv, s: Bv, offset: nat, width: nat, sn: nat) {
    && sn <= |s| && offset + M.Times(ToNat(s[..sn]), width) + width <= |x|
    && r == WordFrom(x, offset, ToNat(s[..sn]), width)
  }

  /** The $bmux cell: whatever `const_bmux` leaves defined, the tree computes. */
  method HandleBmuxCell(a: Node, s: Node, width: nat) returns (r: Node)
    requires Wf(a) && Wf(s) && width > 0 && Width(a) == M.Times(Pow2(Width(s)), width)
    ensures Wf(r) && Width(r) == width
    ensures forall env, ca, cs | Completes(Eval(a, env), ca) && Completes(Eval(s, env), cs) :: Completes(Eval(r, env), Bmux(ca, cs, width))
  {
    r := HandleBmux(a, s, 0, width, Width(s));
    forall env, ca, cs | Completes(Eval(a, env), ca) && Completes(Eval(s, env), cs)
      ensures Completes(Eval(r, env), Bmux(ca, cs, width))
    {
      BmuxCompletes(Eval(a, env), Eval(s, env), ca, cs, width, Eval(r, env));
    }
  }

  lemma {:induction false} BmuxCompletes(x: Bv, s: Bv, ca: Const, cs: Const, width: nat, r: Bv)
    requires Completes(x, ca) && Completes(s, cs) && |x| == M.Times(Pow2(|s|), width) && Selects(r, x, s, 0, width, |s|)
    ensures Completes(r, Bmux(ca, cs, width))
  {
    assert s[..|s|] == s;
    forall j | 0 <= j < width && Bmux(ca, cs, width)[j].Defined() ensures Bmux(ca, cs, width)[j] == OfBool(r[j]) {
      BmuxExact(ca, cs, width, j);
      assert Picks(ca, width, ToNat(s), j, Bmux(ca, cs, width)[j]);
    }
  }

  // ---------------------------------------------------------------- $demux

  /** $demux: A shifted up by the select times its width. */
  method HandleDemux(a: Node, s: Node) returns (r: Node)
    requires Wf(a) && Wf(s)
    ensures Wf(r) && Width(r) == M.Times(Pow2(Width(s)), Width(a))
    ensures forall env, ca, cs, y | Completes(Eval(a, env), ca) && Completes(Eval(s, env), cs) && IsDemux(y, ca, cs) ::
              Completes(Eval(r, env), y)
  {
    var width := Width(a);
    var yWidth := M.Times(Pow2(Width(s)), width);
    DemuxWidths(width, Width(s));
    var bWidth := CeilLog2(yWidth);
    var extended := FExtend(a, yWidth, false);
    var b := AmountNode(s, width, bWidth);
    r := CS.HandleShift(extended, b, false, false);
    forall env ensures IsRouted(Eval(r, env), Eval(a, env), Eval(s, env), yWidth) {
      assert CS.IsShift(Eval(r, env), Eval(extended, env), ToNat(Eval(b, env)), false, false);
    }
    forall env, ca, cs, y | Completes(Eval(a, env), ca) && Completes(Eval(s, env), cs) && IsDemux(y, ca, cs)
      ensures Completes(Eval(r, env), y)
    {
      DemuxCompletes(Eval(a, env), Eval(s, env), ca, cs, y, Eval(r, env));
    }
  }

  /** The select times the word width. */
  method AmountNode(s: Node, width: nat, bWidth: nat) returns (b: Node)
    requires Wf(s) && width > 0 && bWidth > 0
    requires M.Times(Pow2(Width(s)), width) <= Pow2(bWidth) && Width(s) <= bWidth && width < Pow2(bWidth)
    ensures Wf(b) && Width(b) == bWidth
    ensures forall env :: ToNat(Eval(b, env)) == M.Times(ToNat(Eval(s, env)), width)
  {
    var sel := FExtend(s, bWidth, false);
    var step := FConst(width, bWidth);
    b := FBinary(FnMul, sel, step);
    forall env ensures ToNat(Eval(b, env)) == M.Times(ToNat(Eval(s, env)), width) {
      DemuxAmount(Eval(s, env), width, bWidth);
    }
  }

  /** There are enough bits for every shift amount. */
  lemma {:induction false} DemuxWidths(width: nat, sWidth: nat)
    requires width > 0 && sWidth > 0
    ensures var y := M.Times(Pow2(sWidth), width);
            width < y <= Pow2(CeilLog2(y)) && sWidth <= CeilLog2(y) && y > 1
  {
    var y := M.Times(Pow2(sWidth), width);
    M.Distribute(Pow2(sWidth - 1), Pow2(sWidth - 1), width);
    M.Monotone(1, Pow2(sWidth - 1), width);
    assert M.Times(1, width) == M.Times(0, width) + width;
    CeilLog2IsLeast(y);
    M.TimesIsProduct(Pow2(sWidth), width);
    PowerBelow(Pow2(sWidth), width);
    if CeilLog2(y) < sWidth {
      Pow2Monotone(CeilLog2(y) + 1, sWidth);
    }
  }

  lemma {:induction false} PowerBelow(p: nat, w: nat)
    requires w > 0
    ensures p <= M.Times(p, w)
  {
    if p > 0 {
      PowerBelow(p - 1, w);
    }
  }

  lemma {:induction false} DemuxAmount(s: Bv, width: nat, bWidth: nat)
    requires s != [] && width > 0 && M.Times(Pow2(|s|), width) <= Pow2(bWidth) && |s| <= bWidth && width < Pow2(bWidth)
    ensures ToNat(EvalBinary(FnMul, Extend(s, bWidth, false), FromInt(width, bWidth))) == M.Times(ToNat(s), width)
  {
    ExtendKeepsValue(s, bWidth, false);
    Small(width, bWidth);
    M.TimesIsProduct(ToNat(s), width);
    M.Monotone(ToNat(s) + 1, Pow2(|s|), width);
    Small(M.Times(ToNat(s), width), bWidth);
  }

  /** A vector shifted up to its word. */
  ghost predicate IsRouted(r: Bv, x: Bv, s: Bv, size: nat) {
    r == ShiftBits(Extend(x, size, false), 0 - M.Times(ToNat(s), |x|), false)
  }

  lemma {:induction false} DemuxCompletes(x: Bv, s: Bv, ca: Const, cs: Const, y: Const, r: Bv)
    requires x != [] && Completes(x, ca) && Completes(s, cs) && IsDemux(y, ca, cs) && IsRouted(r, x, s, |y|)
    ensures Completes(r, y)
  {
    forall f | 0 <= f < |y| && y[f].Defined() ensures y[f] == OfBool(r[f]) {
      var n, j := WordOf(f, Pow2(|s|), |x|);
      assert WordBit(y, |x|, n, j) == DemuxBit(ca[j], cs, n);
      DemuxExact(ca[j], cs, n);
      assert Routed(ca[j], ToNat(s), n) == y[f];
      ShiftedWord(x, |y|, ToNat(s), n, j);
    }
  }

  /** Every bit belongs to a word. */
  lemma {:induction false} WordOf(f: nat, p: nat, w: nat) returns (n: nat, j: nat)
    requires w > 0 && f < M.Times(p, w)
    ensures n < p && j < w && f == M.Times(n, w) + j
  {
    n := p - 1;
    if f < M.Times(p - 1, w) {
      n, j := WordOf(f, p - 1, w);
    } else {
      j := f - M.Times(p - 1, w);
    }
  }

  lemma {:induction false} ShiftedWord(x: Bv, size: nat, sel: nat, n: nat, j: nat)
    requires j < |x| && M.Times(n, |x|) + j < size && |x| <= size
    ensures ShiftBits(Extend(x, size, false), 0 - M.Times(sel, |x|), false)[M.Times(n, |x|) + j] == (sel == n && x[j])
  {
    if sel < n {
      M.Monotone(sel + 1, n, |x|);
    } else if sel > n {
      M.Monotone(n + 1, sel, |x|);
    }
  }
}
