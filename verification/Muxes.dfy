/** $bmux and $demux on constants (`const_bmux`, `const_demux` in `kernel/calc.cc`). */
module Muxes {
  import opened Rtlil
  import opened Bits
  import opened Calc
  import opened Multiples
  import M = Multiples

  /** Equal bits stay, different ones become undefined. */
  function Merge(t: Const, u: Const): (r: Const)
    requires |t| == |u|
    ensures |r| == |t|
  {
    seq(|t|, j requires 0 <= j < |t| => if t[j] == u[j] then t[j] else Sx)
  }

  /** The half of t that a select bit picks. */
  function Halve(t: Const, half: nat, sel: State): (r: Const)
    requires |t| == half + half
    ensures |r| == half
  {
    if sel == S0 then t[..half] else if sel == S1 then t[half..] else Merge(t[..half], t[half..])
  }

  /** Selection from the top bit of the select down. */
  function Bmux(t: Const, s: Const, w: nat): (r: Const)
    requires |t| == Times(Pow2(|s|), w)
    ensures |r| == w
    decreases |s|
  {
    if s == [] then
      assert Times(1, w) == Times(0, w) + w;
      t
    else
      M.Distribute(Pow2(|s| - 1), Pow2(|s| - 1), w);
      Bmux(Halve(t, Times(Pow2(|s| - 1), w), s[|s| - 1]), s[..|s| - 1], w)
  }

  method ConstBmux(arg1: Const, arg2: Const, w: nat) returns (t: Const)
    requires |arg1| == Times(Pow2(|arg2|), w)
    ensures t == Bmux(arg1, arg2, w)
  {
    t := arg1;
    var i := |arg2|;
    assert arg2[..i] == arg2;
    while i > 0
      invariant 0 <= i <= |arg2| && |t| == Times(Pow2(i), w)
      invariant Bmux(t, arg2[..i], w) == Bmux(arg1, arg2, w)
    {
      i := i - 1;
      BmuxStep(t, arg2, i, w);
      t := SelectHalf(t, arg2[i]);
    }
  }

  lemma {:induction false} BmuxStep(t: Const, s: Const, i: nat, w: nat)
    requires i < |s| && |t| == Times(Pow2(i + 1), w)
    ensures |t| / 2 == Times(Pow2(i), w) && |t| == |t| / 2 + |t| / 2
    ensures Bmux(Halve(t, |t| / 2, s[i]), s[..i], w) == Bmux(t, s[..i + 1], w)
  {
    M.Distribute(Pow2(i), Pow2(i), w);
    var s', half := s[..i + 1], Times(Pow2(i), w);
    assert |t| == half + half && |s'| - 1 == i && s'[i] == s[i] && s'[..i] == s[..i];
  }

  method SelectHalf(t: Const, sel: State) returns (newT: Const)
    requires |t| == |t| / 2 + |t| / 2
    ensures newT == Halve(t, |t| / 2, sel)
  {
    var half := |t| / 2;
    newT := [];
    if sel == S0 {
      newT := t[..half];
    } else if sel == S1 {
      newT := t[half..];
    } else {
      for j := 0 to half
        invariant |newT| == j && forall k | 0 <= k < j :: newT[k] == if t[k] == t[k + half] then t[k] else Sx
      {
        newT := newT + [if t[j] == t[j + half] then t[j] else Sx];
      }
    }
  }

  lemma {:induction false} WordFits(n: nat, p: nat, w: nat, j: nat)
    requires n < p && j < w
    ensures Times(n, w) + j < Times(p, w)
  {
    Monotone(n + 1, p, w);
  }

  /** Bit j of word number n. */
  function WordBit<T(0)>(t: seq<T>, w: nat, n: nat, j: nat): T
    requires j < w && Times(n, w) + j < |t|
  {
    t[Times(n, w) + j]
  }

  /** Every completion of the select finds v. */
  ghost predicate Agreed(t: Const, s: Const, w: nat, j: nat, v: State)
    requires |t| == Times(Pow2(|s|), w) && j < w
  {
    forall c: Bv | Completes(c, s) :: Picks(t, w, ToNat(c), j, v)
  }

  ghost predicate Picks(t: Const, w: nat, n: nat, j: nat, v: State)
    requires j < w
  {
    Times(n, w) + j < |t| && WordBit(t, w, n, j) == v
  }

  /** Exact: a bit is v if every completion of the select finds v there, and otherwise undefined. */
  lemma {:induction false} BmuxExact(t: Const, s: Const, w: nat, j: nat)
    requires |t| == Times(Pow2(|s|), w) && j < w
    ensures forall v | Agreed(t, s, w, j, v) :: Bmux(t, s, w)[j] == v
    ensures Bmux(t, s, w)[j] != Sx ==> Agreed(t, s, w, j, Bmux(t, s, w)[j])
    decreases |s|
  {
    if s == [] {
      assert Completes([], s);
      forall c: Bv | Completes(c, s) ensures c == [] { }
    } else {
      var n := |s| - 1;
      M.Distribute(Pow2(n), Pow2(n), w);
      var half := Times(Pow2(n), w);
      var t', s' := Halve(t, half, s[n]), s[..n];
      BmuxExact(t', s', w, j);
      forall v | Agreed(t, s, w, j, v) ensures Agreed(t', s', w, j, v) {
        AgreedDown(t, s, w, j, v);
      }
      forall v | v != Sx && Agreed(t', s', w, j, v) ensures Agreed(t, s, w, j, v) {
        AgreedUp(t, s, w, j, v);
      }
    }
  }

  lemma {:induction false} SplitSelect(c: Bv, w: nat, j: nat)
    requires c != [] && j < w
    ensures var n := |c| - 1;
            && ToNat(c[..n]) < Pow2(n)
            && Times(ToNat(c), w) == Times(ToNat(c[..n]), w) + (if c[n] then Times(Pow2(n), w) else 0)
            && Times(ToNat(c[..n]), w) + j < Times(Pow2(n), w)
  {
    var n := |c| - 1;
    assert c == c[..n] + [c[n]];
    ToNatSnoc(c[..n], c[n]);
    M.Distribute(ToNat(c[..n]), Pow2(n), w);
    WordFits(ToNat(c[..n]), Pow2(n), w, j);
  }

  lemma {:induction false} AgreedDown(t: Const, s: Const, w: nat, j: nat, v: State)
    requires s != [] && |t| == Times(Pow2(|s|), w) && j < w && Agreed(t, s, w, j, v)
    requires |t| == Times(Pow2(|s| - 1), w) + Times(Pow2(|s| - 1), w)
    ensures Agreed(Halve(t, Times(Pow2(|s| - 1), w), s[|s| - 1]), s[..|s| - 1], w, j, v)
  {
    var n := |s| - 1;
    var t' := Halve(t, Times(Pow2(n), w), s[n]);
    forall c: Bv | Completes(c, s[..n]) ensures Picks(t', w, ToNat(c), j, v) {
      if s[n] != S1 { AgreedAt(t, s, w, j, v, c, false); }
      if s[n] != S0 { AgreedAt(t, s, w, j, v, c, true); }
    }
  }

  lemma {:induction false} AgreedAt(t: Const, s: Const, w: nat, j: nat, v: State, c: Bv, top: bool)
    requires s != [] && |t| == Times(Pow2(|s|), w) && j < w && Agreed(t, s, w, j, v)
    requires |t| == Times(Pow2(|s| - 1), w) + Times(Pow2(|s| - 1), w)
    requires Completes(c, s[..|s| - 1]) && (s[|s| - 1].Defined() ==> s[|s| - 1] == OfBool(top))
    ensures var at := Times(ToNat(c), w) + j;
            at < Times(Pow2(|s| - 1), w) && t[(if top then Times(Pow2(|s| - 1), w) else 0) + at] == v
  {
    var d := c + [top];
    assert d[..|c|] == c;
    SplitSelect(d, w, j);
    assert Completes(d, s);
    assert Picks(t, w, ToNat(d), j, v);
  }

  lemma {:induction false} AgreedUp(t: Const, s: Const, w: nat, j: nat, v: State)
    requires s != [] && |t| == Times(Pow2(|s|), w) && j < w && v != Sx
    requires |t| == Times(Pow2(|s| - 1), w) + Times(Pow2(|s| - 1), w)
    requires Agreed(Halve(t, Times(Pow2(|s| - 1), w), s[|s| - 1]), s[..|s| - 1], w, j, v)
    ensures Agreed(t, s, w, j, v)
  {
    forall c: Bv | Completes(c, s) ensures Picks(t, w, ToNat(c), j, v) {
      PickedUp(t, s, w, j, v, c);
    }
  }

  lemma {:induction false} PickedUp(t: Const, s: Const, w: nat, j: nat, v: State, c: Bv)
    requires s != [] && |t| == Times(Pow2(|s|), w) && j < w && v != Sx && Completes(c, s)
    requires |t| == Times(Pow2(|s| - 1), w) + Times(Pow2(|s| - 1), w)
    requires Agreed(Halve(t, Times(Pow2(|s| - 1), w), s[|s| - 1]), s[..|s| - 1], w, j, v)
    ensures Picks(t, w, ToNat(c), j, v)
  {
    var n := |s| - 1;
    var half, at := Times(Pow2(n), w), Times(ToNat(c[..n]), w) + j;
    var t' := Halve(t, half, s[n]);
    SplitSelect(c, w, j);
    assert Times(ToNat(c), w) + j == if c[n] then half + at else at;
    assert t'[at] == v by {
      assert Completes(c[..n], s[..n]);
      assert Picks(t', w, ToNat(c[..n]), j, v);
    }
    Halved(t, half, s[n], c[n], at);
  }

  lemma {:induction false} Halved(t: Const, half: nat, sel: State, top: bool, at: nat)
    requires |t| == half + half && at < half && (sel.Defined() ==> sel == OfBool(top))
    ensures var v := Halve(t, half, sel)[at]; v != Sx ==> t[if top then half + at else at] == v
  {
  }

  // ---------------------------------------------------------------- demux

  /** Bit i of the select is ruled out by the number n. */
  predicate Clashes(s: Const, n: nat) {
    exists j :: 0 <= j < |s| && s[j] == OfBool(!Bit(n, j))
  }

  function DemuxBit(a: State, s: Const, n: nat): State {
    if Clashes(s, n) then S0
    else if !FullyDefined(s) then if a == S0 then S0 else Sx
    else a
  }

  /** Word n of the result for every n below 2^|s|. */
  ghost predicate IsDemux(r: Const, a: Const, s: Const) {
    && |r| == Times(Pow2(|s|), |a|)
    && forall n: nat, j: nat {:trigger WordBit(r, |a|, n, j)} | n < Pow2(|s|) && j < |a| && Times(n, |a|) + j < |r| ::
         WordBit(r, |a|, n, j) == DemuxBit(a[j], s, n)
  }

  /** What output word n is under a completion of the select. */
  function Routed(a: State, sel: nat, n: nat): State {
    if sel == n then a else S0
  }

  ghost predicate AlwaysRouted(a: State, s: Const, n: nat, v: State) {
    forall c: Bv | Completes(c, s) :: Routed(a, ToNat(c), n) == v
  }

  /** Exact: a bit is v if every completion of the select routes v there, and otherwise undefined. */
  lemma {:induction false} DemuxExact(a: State, s: Const, n: nat)
    requires n < Pow2(|s|)
    ensures forall v | AlwaysRouted(a, s, n, v) :: DemuxBit(a, s, n) == v
    ensures DemuxBit(a, s, n) != Sx ==> AlwaysRouted(a, s, n, DemuxBit(a, s, n))
  {
    if Clashes(s, n) {
      ClashingNumber(a, s, n);
    } else {
      NumberCompletes(s, n);
      if FullyDefined(s) {
        DefinedNumber(a, s, n);
      } else {
        PossibleNumber(a, s, n);
      }
    }
  }

  lemma {:induction false} NumberIs(c: Bv, n: nat)
    requires n < Pow2(|c|)
    ensures ToNat(c) == n <==> c == FromInt(n, |c|)
  {
    Small(n, |c|);
    FromToNat(c);
  }

  lemma {:induction false} ClashingNumber(a: State, s: Const, n: nat)
    requires n < Pow2(|s|) && Clashes(s, n)
    ensures AlwaysRouted(a, s, n, S0) && forall v | AlwaysRouted(a, s, n, v) :: v == S0
  {
    var j :| 0 <= j < |s| && s[j] == OfBool(!Bit(n, j));
    forall c: Bv | Completes(c, s) ensures Routed(a, ToNat(c), n) == S0 {
      NumberIs(c, n);
      FromIntAt(n, |s|, j);
    }
    var c := SomeCompletion(s);
  }

  lemma {:induction false} NumberCompletes(s: Const, n: nat)
    requires n < Pow2(|s|) && !Clashes(s, n)
    ensures Completes(FromInt(n, |s|), s)
  {
    forall j: nat | j < |s| && s[j].Defined() ensures s[j] == OfBool(FromInt(n, |s|)[j]) {
      FromIntAt(n, |s|, j);
      assert s[j] != OfBool(!Bit(n, j));
    }
  }

  lemma {:induction false} DefinedNumber(a: State, s: Const, n: nat)
    requires n < Pow2(|s|) && FullyDefined(s) && Completes(FromInt(n, |s|), s)
    ensures AlwaysRouted(a, s, n, a) && forall v | AlwaysRouted(a, s, n, v) :: v == a
  {
    var here := FromInt(n, |s|);
    OnlyCompletion(here, s);
    NumberIs(here, n);
    forall c: Bv | Completes(c, s) ensures Routed(a, ToNat(c), n) == a {
      OnlyCompletion(c, s);
    }
  }

  /** The number and another one are both possible. */
  lemma {:induction false} PossibleNumber(a: State, s: Const, n: nat)
    requires n < Pow2(|s|) && !FullyDefined(s) && Completes(FromInt(n, |s|), s)
    ensures forall v | AlwaysRouted(a, s, n, v) :: v == a == S0
    ensures a == S0 ==> AlwaysRouted(a, s, n, S0)
  {
    var here := FromInt(n, |s|);
    var k :| 0 <= k < |s| && !s[k].Defined();
    var other := here[k := !here[k]];
    NumberIs(here, n);
    NumberIs(other, n);
    assert Completes(other, s) && other[k] != here[k];
    forall v | AlwaysRouted(a, s, n, v) ensures v == a == S0 {
      assert Routed(a, ToNat(here), n) == v;
      assert Routed(a, ToNat(other), n) == v;
    }
  }

  lemma {:induction false} SomeCompletion(s: Const) returns (c: Bv)
    ensures Completes(c, s)
  {
    c := Marks(s, S1);
  }

  method ConstDemux(arg1: Const, arg2: Const) returns (res: Const)
    ensures IsDemux(res, arg1, arg2)
  {
    var width, sWidth := |arg1|, |arg2|;
    res := [];
    for i := 0 to Pow2(sWidth)
      invariant |res| == Times(i, width)
      invariant forall n: nat, j: nat {:trigger WordBit(res, width, n, j)} | n < i && j < width && Times(n, width) + j < |res| ::
                  WordBit(res, width, n, j) == DemuxBit(arg1[j], arg2, n)
    {
      var ne, x := false, false;
      for j := 0 to sWidth
        invariant ne <==> exists k :: 0 <= k < j && arg2[k] == OfBool(!Bit(i, k))
        invariant x ==> !FullyDefined(arg2)
        invariant !ne ==> (x <==> !FullyDefined(arg2[..j]))
      {
        var bit := Bit(i, j);
        if arg2[j] == (if bit then S0 else S1) {
          ne := true;
        } else if !arg2[j].Defined() {
          x := true;
        }
        assert arg2[..j + 1] == arg2[..j] + [arg2[j]];
      }
      assert arg2[..sWidth] == arg2;
      var word := DemuxWord(arg1, ne, x);
      ghost var res0 := res;
      res := res + word;
      forall n: nat, j: nat | n < i + 1 && j < width && Times(n, width) + j < |res|
        ensures WordBit(res, width, n, j) == DemuxBit(arg1[j], arg2, n)
      {
        if n < i {
          WordFits(n, i, width, j);
          assert WordBit(res, width, n, j) == WordBit(res0, width, n, j);
        }
      }
    }
  }

  method DemuxWord(arg1: Const, ne: bool, x: bool) returns (word: Const)
    ensures |word| == |arg1|
    ensures forall j | 0 <= j < |arg1| ::
              word[j] == if ne then S0 else if x then if arg1[j] == S0 then S0 else Sx else arg1[j]
  {
    word := [];
    for j := 0 to |arg1|
      invariant |word| == j
      invariant forall k | 0 <= k < j ::
                  word[k] == if ne then S0 else if x then if arg1[k] == S0 then S0 else Sx else arg1[k]
    {
      word := word + [if ne then S0 else if x then if arg1[j] == S0 then S0 else Sx else arg1[j]];
    }
  }

  /** With a defined select, selecting undoes routing. */
  lemma {:induction false} BmuxOfDemux(a: Const, s: Const, r: Const)
    requires FullyDefined(s) && IsDemux(r, a, s)
    ensures Bmux(r, s, |a|) == a
  {
    var c := SomeCompletion(s);
    forall j | 0 <= j < |a| ensures Bmux(r, s, |a|)[j] == a[j] {
      BmuxExact(r, s, |a|, j);
      DefinedSelect(a[j], s, c);
      forall d: Bv | Completes(d, s) ensures Picks(r, |a|, ToNat(d), j, a[j]) {
        OnlyCompletion(d, s);
        OnlyCompletion(c, s);
        WordFits(ToNat(c), Pow2(|s|), |a|, j);
        assert WordBit(r, |a|, ToNat(c), j) == DemuxBit(a[j], s, ToNat(c));
      }
      assert Agreed(r, s, |a|, j, a[j]);
    }
  }

  lemma {:induction false} DefinedSelect(a: State, s: Const, c: Bv)
    requires FullyDefined(s) && Completes(c, s)
    ensures DemuxBit(a, s, ToNat(c)) == a
  {
    FromToNat(c);
    forall j: nat | j < |s| ensures s[j] != OfBool(!Bit(ToNat(c), j)) {
      FromIntAt(ToNat(c), |s|, j);
      assert s[j].Defined();
    }
  }
}
