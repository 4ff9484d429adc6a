/**
 * Flip-flops and their rewrites (`FfData` in `kernel/ff.h` and `kernel/ff.cc`).
 *
 * Signals are expressions over the wires of the design; a gate that a rewrite
 * adds becomes part of the expression.  Signal values are two-valued.
 */
module FfSemantics {
  type Env = map<int, bool>

  /** Q(i) is the wire the design knows as bit i of the output. */
  datatype Expr = Wire(id: int) | Q(i: nat) | Lit(value: bool) | Not(a: Expr) | And(a: Expr, b: Expr) | Or(a: Expr, b: Expr)
                | Xor(a: Expr, b: Expr) | Mux(a: Expr, b: Expr, s: Expr)

  predicate Eval(e: Expr, q: seq<bool>, env: Env) {
    match e
    case Wire(id) => id in env && env[id]
    case Q(i) => i < |q| && q[i]
    case Lit(b) => b
    case Not(a) => !Eval(a, q, env)
    case And(a, b) => Eval(a, q, env) && Eval(b, q, env)
    case Or(a, b) => Eval(a, q, env) || Eval(b, q, env)
    case Xor(a, b) => Eval(a, q, env) != Eval(b, q, env)
    case Mux(a, b, s) => if Eval(s, q, env) then Eval(b, q, env) else Eval(a, q, env)
  }

  /** What is active at one bit, and the values it may take. */
  datatype Controls = BitControls(
    clear: bool, set': bool, reset: bool, resetValue: bool, load: bool, loadValue: bool,
    edge: bool, heldFirst: bool, syncReset: bool, syncResetValue: bool, heldLast: bool,
    follows: bool, data: bool, register: bool)
  {
    /** By decreasing priority. */
    predicate Next() {
      if clear then false
      else if set' then true
      else if reset then resetValue
      else if load then loadValue
      else if edge then Clocked()
      else if follows then data
      else register
    }

    /** What a clock edge makes of the bit. */
    predicate Clocked() {
      if heldFirst then register
      else if syncReset then syncResetValue
      else if heldLast then register
      else data
    }
  }

  /** A control input, if the flip-flop has it, with its active level. */
  datatype Control = Control(has: bool, pol: bool, sig: Expr)
  {
    predicate On(q: seq<bool>, env: Env) {
      has && Eval(sig, q, env) == pol
    }

    /** Present and not active. */
    predicate Off(q: seq<bool>, env: Env) {
      has && Eval(sig, q, env) != pol
    }
  }

  /** The per-bit clear and set lines. */
  datatype Lines = Lines(has: bool, polClr: bool, polSet: bool, clr: seq<Expr>, set': seq<Expr>)
  {
    predicate Clears(i: nat, q: seq<bool>, env: Env) {
      has && i < |clr| && Eval(clr[i], q, env) == polClr
    }

    predicate Sets(i: nat, q: seq<bool>, env: Env) {
      has && i < |set'| && Eval(set'[i], q, env) == polSet
    }
  }

  /** Everything that determines a flip-flop's behaviour. */
  datatype Ff = Ff(
    clk: Control, hasGclk: bool, ce: Control, aload: Control, srst: Control, arst: Control, sr: Lines, ceOverSrst: bool,
    valArst: seq<bool>, valSrst: seq<bool>, valInit: seq<bool>, sigD: seq<Expr>, sigAd: seq<Expr>,
    sigQ: seq<nat>, flips: seq<bool>)
  {
    function Width(): nat {
      |sigQ|
    }

    /** Vectors have one entry per bit, as far as the feature they belong to is present. */
    predicate Good() {
      && |flips| == |valInit| == Width()
      && (arst.has ==> |valArst| == Width()) && (srst.has ==> |valSrst| == Width())
      && (clk.has || hasGclk ==> |sigD| == Width()) && (aload.has ==> |sigAd| == Width())
      && (sr.has ==> |sr.clr| == |sr.set'| == Width())
      && (ce.has || srst.has ==> clk.has)
      && (hasGclk ==> !clk.has && !aload.has && !arst.has && !sr.has)
    }

    predicate Edge(q: seq<bool>, prev: Env, env: Env) {
      clk.Off(q, prev) && clk.On(q, env)
    }

    /** The register: the output wire, behind an inverter where the bit was flipped. */
    predicate Register(i: nat, q: seq<bool>)
      requires Good() && i < Width()
    {
      (sigQ[i] < |q| && q[sigQ[i]]) != flips[i]
    }

    /** The situation of one bit at one step. */
    function Controls(i: nat, q: seq<bool>, prev: Env, env: Env): Controls
      requires Good() && i < Width()
    {
      BitControls(
        sr.Clears(i, q, env), sr.Sets(i, q, env),
        arst.On(q, env), arst.has && valArst[i],
        aload.On(q, env), aload.has && Eval(sigAd[i], q, env),
        Edge(q, prev, env),
        ceOverSrst && ce.Off(q, env),
        srst.On(q, env), srst.has && valSrst[i],
        !ceOverSrst && ce.Off(q, env),
        hasGclk, (clk.has || hasGclk) && Eval(sigD[i], q, env), Register(i, q))
    }

    /** The next value of register bit i. */
    predicate Next(i: nat, q: seq<bool>, prev: Env, env: Env)
      requires Good() && i < Width()
    {
      Controls(i, q, prev, env).Next()
    }

    /** What the design sees of bit i after a step, and at start. */
    predicate Output(i: nat, q: seq<bool>, prev: Env, env: Env)
      requires Good() && i < Width()
    {
      Next(i, q, prev, env) != flips[i]
    }

    predicate InitialOutput(i: nat)
      requires Good() && i < Width()
    {
      valInit[i] != flips[i]
    }
  }

  /** The inputs of a step, and the wires Q(i) before it, which the flip-flop's own outputs replace. */
  datatype Input = Input(env: Env, wires: seq<bool>)

  /** The wires with the first n outputs on them. */
  function Driven(wires: seq<bool>, sigQ: seq<nat>, outs: seq<bool>, n: nat): (q: seq<bool>)
    requires n <= |sigQ| == |outs|
    ensures |q| == |wires|
  {
    if n == 0 then wires
    else
      var q := Driven(wires, sigQ, outs, n - 1);
      if sigQ[n - 1] < |q| then q[sigQ[n - 1] := outs[n - 1]] else q
  }

  /** The outputs after a run of inputs. */
  function Trace(f: Ff, inputs: seq<Input>): (outs: seq<bool>)
    requires f.Good()
    ensures |outs| == f.Width()
  {
    if |inputs| <= 1 then seq(f.Width(), i requires 0 <= i < f.Width() => f.InitialOutput(i))
    else
      var before, now := inputs[|inputs| - 2], inputs[|inputs| - 1];
      var q := Driven(now.wires, f.sigQ, Trace(f, inputs[..|inputs| - 1]), f.Width());
      seq(f.Width(), i requires 0 <= i < f.Width() => f.Output(i, q, before.env, now.env))
  }

  /** Different bits drive different wires of the design. */
  predicate Wired(sigQ: seq<nat>, width: nat) {
    && (forall i | 0 <= i < |sigQ| :: sigQ[i] < width)
    && (forall i, j | 0 <= i < j < |sigQ| :: sigQ[i] != sigQ[j])
  }

  lemma {:induction false} DrivenAt(wires: seq<bool>, sigQ: seq<nat>, outs: seq<bool>, n: nat, i: nat)
    requires Wired(sigQ, |wires|) && i < n <= |sigQ| == |outs|
    ensures Driven(wires, sigQ, outs, n)[sigQ[i]] == outs[i]
  {
    if i < n - 1 {
      DrivenAt(wires, sigQ, outs, n - 1, i);
    }
  }

  /** A step starts from what the last one left in the register, whatever wires the bits drive. */
  lemma {:induction false} RegisterHolds(f: Ff, inputs: seq<Input>, i: nat)
    requires f.Good() && i < f.Width() && |inputs| > 1 && Wired(f.sigQ, |inputs[|inputs| - 1].wires|)
    ensures var outs, wires := Trace(f, inputs[..|inputs| - 1]), inputs[|inputs| - 1].wires;
            f.Register(i, Driven(wires, f.sigQ, outs, f.Width())) == (outs[i] != f.flips[i])
  {
    DrivenAt(inputs[|inputs| - 1].wires, f.sigQ, Trace(f, inputs[..|inputs| - 1]), f.Width(), i);
  }

  /** The two behave alike: same start, and the same step from every output, under all inputs. */
  ghost predicate Same(f: Ff, g: Ff) {
    && f.Good() && g.Good() && g.sigQ == f.sigQ
    && (forall i: nat | i < f.Width() :: g.InitialOutput(i) == f.InitialOutput(i))
    && (forall i: nat, q, prev, env | i < f.Width() :: g.Output(i, q, prev, env) == f.Output(i, q, prev, env))
  }

  /** One step of one bit. */
  ghost predicate SameBit(f: Ff, g: Ff, i: nat, q: seq<bool>, prev: Env, env: Env)
    requires f.Good() && g.Good() && g.Width() == f.Width() && i < f.Width()
  {
    g.Controls(i, q, prev, env).Next() == f.Controls(i, q, prev, env).Next()
  }

  lemma {:induction false} SameBits(f: Ff, g: Ff)
    requires f.Good() && g.Good() && g.sigQ == f.sigQ && g.flips == f.flips && g.valInit == f.valInit
    requires forall i: nat, q, prev, env | i < f.Width() :: SameBit(f, g, i, q, prev, env)
    ensures Same(f, g)
  {
    forall i: nat, q, prev, env | i < f.Width() ensures g.Output(i, q, prev, env) == f.Output(i, q, prev, env) {
      assert SameBit(f, g, i, q, prev, env);
    }
  }

  /** So they give the same outputs on every run. */
  lemma {:induction false} SameTrace(f: Ff, g: Ff, inputs: seq<Input>)
    requires Same(f, g)
    ensures Trace(g, inputs) == Trace(f, inputs)
  {
    if |inputs| > 1 {
      SameTrace(f, g, inputs[..|inputs| - 1]);
    }
  }
}

module FfRewrites {
  import opened FfSemantics

  function Inverts(s: seq<Expr>): (r: seq<Expr>)
    ensures |r| == |s|
  {
    seq(|s|, i requires 0 <= i < |s| => Not(s[i]))
  }

  /** The vector gates; constants are vectors of literals. */
  function Muxes(a: seq<Expr>, b: seq<Expr>, s: Expr): (r: seq<Expr>)
    requires |a| == |b|
    ensures |r| == |a|
  {
    seq(|a|, i requires 0 <= i < |a| => Mux(a[i], b[i], s))
  }

  function Ands(a: seq<Expr>, b: seq<Expr>): (r: seq<Expr>)
    requires |a| == |b|
    ensures |r| == |a|
  {
    seq(|a|, i requires 0 <= i < |a| => And(a[i], b[i]))
  }

  function Literals(v: seq<bool>): (r: seq<Expr>)
    ensures |r| == |v|
  {
    seq(|v|, i requires 0 <= i < |v| => Lit(v[i]))
  }

  function Repeated(b: bool, n: nat): (r: seq<Expr>)
    ensures |r| == n
  {
    seq(n, _ => Lit(b))
  }

  /** The register of f as a signal. */
  function QSignal(f: Ff): (r: seq<Expr>)
    requires f.Good()
    ensures |r| == f.Width()
  {
    seq(f.Width(), i requires 0 <= i < f.Width() => if f.flips[i] then Not(Q(f.sigQ[i])) else Q(f.sigQ[i]))
  }

  // -------------------------------------------- the rewrites, as functions

  /** A reset is a load of a constant. */
  function ResetAsLoad(f: Ff): (g: Ff)
    requires f.Good() && f.arst.has && !f.aload.has
    ensures g.Good() && g.Width() == f.Width()
  {
    f.(aload := Control(true, f.arst.pol, f.arst.sig), sigAd := Literals(f.valArst), arst := f.arst.(has := false))
  }

  lemma {:induction false} ResetAsLoadSame(f: Ff)
    requires f.Good() && f.arst.has && !f.aload.has
    ensures Same(f, ResetAsLoad(f))
  {
    var g := ResetAsLoad(f);
    forall i: nat, q, prev, env | i < f.Width() ensures SameBit(f, g, i, q, prev, env) {
      assert g.sigAd[i] == Lit(f.valArst[i]);
    }
    SameBits(f, g);
  }

  /** The lines of a reset: bits that are 1 in its value are set, the others cleared. */
  function ResetLines(f: Ff): (r: Lines)
    requires f.Good() && f.arst.has
    ensures |r.clr| == |r.set'| == f.Width()
  {
    var w := f.Width();
    Lines(true, f.arst.pol, f.arst.pol,
          seq(w, i requires 0 <= i < w => if f.valArst[i] then Lit(!f.arst.pol) else f.arst.sig),
          seq(w, i requires 0 <= i < w => if f.valArst[i] then f.arst.sig else Lit(!f.arst.pol)))
  }

  function ResetAsSetClear(f: Ff): (g: Ff)
    requires f.Good() && f.arst.has && !f.sr.has
    ensures g.Good() && g.Width() == f.Width()
  {
    f.(sr := ResetLines(f), arst := f.arst.(has := false))
  }

  lemma {:induction false} ResetAsSetClearSame(f: Ff)
    requires f.Good() && f.arst.has && !f.sr.has
    ensures Same(f, ResetAsSetClear(f))
  {
    var g := ResetAsSetClear(f);
    forall i: nat, q, prev, env | i < f.Width() ensures SameBit(f, g, i, q, prev, env) {
      assert g.sr.clr[i] == if f.valArst[i] then Lit(!f.arst.pol) else f.arst.sig;
      assert g.sr.set'[i] == if f.valArst[i] then f.arst.sig else Lit(!f.arst.pol);
    }
    SameBits(f, g);
  }

  /** The lines of a load: each bit is set or cleared by its data. */
  function LoadLines(f: Ff, isFine: bool): (r: Lines)
    requires f.Good() && f.aload.has && (isFine ==> f.Width() == 1)
    ensures |r.clr| == |r.set'| == f.Width()
  {
    var w, sig := f.Width(), f.aload.sig;
    if isFine then
      if f.aload.pol then Lines(true, true, true, [And(sig, Not(f.sigAd[0]))], [And(sig, f.sigAd[0])])
      else Lines(true, false, false, [Or(sig, f.sigAd[0])], [Or(sig, Not(f.sigAd[0]))])
    else if f.aload.pol then Lines(true, false, true, Muxes(Repeated(true, w), f.sigAd, sig), Muxes(Repeated(false, w), f.sigAd, sig))
    else Lines(true, false, true, Muxes(f.sigAd, Repeated(true, w), sig), Muxes(f.sigAd, Repeated(false, w), sig))
  }

  lemma {:induction false} LoadLinesBit(f: Ff, isFine: bool, i: nat, q: seq<bool>, env: Env)
    requires f.Good() && f.aload.has && (isFine ==> f.Width() == 1) && i < f.Width()
    ensures var l := LoadLines(f, isFine);
            && l.Clears(i, q, env) == (f.aload.On(q, env) && !Eval(f.sigAd[i], q, env))
            && l.Sets(i, q, env) == (f.aload.On(q, env) && Eval(f.sigAd[i], q, env))
  {
    var l, sig, ad := LoadLines(f, isFine), f.aload.sig, f.sigAd[i];
    assert Eval(Lit(true), q, env) && !Eval(Lit(false), q, env) && Eval(Not(ad), q, env) == !Eval(ad, q, env);
    if isFine {
      assert i == 0;
      if f.aload.pol {
        assert l.clr[i] == And(sig, Not(ad)) && l.set'[i] == And(sig, ad);
      } else {
        assert l.clr[i] == Or(sig, ad) && l.set'[i] == Or(sig, Not(ad));
      }
    } else if f.aload.pol {
      assert l.clr[i] == Mux(Lit(true), ad, sig) && l.set'[i] == Mux(Lit(false), ad, sig);
    } else {
      assert l.clr[i] == Mux(ad, Lit(true), sig) && l.set'[i] == Mux(ad, Lit(false), sig);
    }
  }

  function LoadAsSetClear(f: Ff, isFine: bool): (g: Ff)
    requires f.Good() && f.aload.has && !f.sr.has && (isFine ==> f.Width() == 1)
    ensures g.Good() && g.Width() == f.Width()
  {
    f.(sr := LoadLines(f, isFine), aload := f.aload.(has := false))
  }

  /** A reset and a load of the other value coincide at bit i. */
  predicate ResetMeetsLoadAt(f: Ff, i: nat, q: seq<bool>, env: Env)
    requires f.Good() && f.aload.has && i < f.Width()
  {
    f.arst.On(q, env) && f.aload.On(q, env) && Eval(f.sigAd[i], q, env) != f.valArst[i]
  }

  ghost predicate ResetMeetsLoad(f: Ff)
    requires f.Good() && f.aload.has
  {
    exists i: nat, q, env :: i < f.Width() && ResetMeetsLoadAt(f, i, q, env)
  }

  /** Set and clear come before a reset: the rewrite changes the bit exactly where a reset meets such a load. */
  lemma {:induction false} LoadAsSetClearBit(f: Ff, isFine: bool, i: nat, q: seq<bool>, prev: Env, env: Env)
    requires f.Good() && f.aload.has && !f.sr.has && (isFine ==> f.Width() == 1) && i < f.Width()
    ensures SameBit(f, LoadAsSetClear(f, isFine), i, q, prev, env) <==> !ResetMeetsLoadAt(f, i, q, env)
  {
    LoadLinesBit(f, isFine, i, q, env);
  }

  /** So the rewrite is right if and only if the two never meet. */
  lemma {:induction false} LoadAsSetClearExact(f: Ff, isFine: bool)
    requires f.Good() && f.aload.has && !f.sr.has && (isFine ==> f.Width() == 1)
    ensures Same(f, LoadAsSetClear(f, isFine)) <==> !ResetMeetsLoad(f)
  {
    var g := LoadAsSetClear(f, isFine);
    if i: nat, q, env :| i < f.Width() && ResetMeetsLoadAt(f, i, q, env) {
      LoadAsSetClearBit(f, isFine, i, q, env, env);
      assert g.Output(i, q, env, env) != f.Output(i, q, env, env);
    } else {
      forall i: nat, q, prev, env | i < f.Width() ensures SameBit(f, g, i, q, prev, env) {
        LoadAsSetClearBit(f, isFine, i, q, prev, env);
      }
      SameBits(f, g);
    }
  }

  /** Without a reset they never do. */
  lemma {:induction false} NoResetNoMeeting(f: Ff)
    requires f.Good() && f.aload.has && !f.arst.has
    ensures !ResetMeetsLoad(f)
  {
  }

  /** The enable that lets a reset through as well. */
  function EnableOrReset(ce: Control, srst: Control): Expr {
    if ce.pol then (if srst.pol then Or(ce.sig, srst.sig) else Or(ce.sig, Not(srst.sig)))
    else if srst.pol then And(ce.sig, Not(srst.sig)) else And(ce.sig, srst.sig)
  }

  /** The reset that needs the enable. */
  function ResetAndEnable(ce: Control, srst: Control): Expr {
    if srst.pol then (if ce.pol then And(srst.sig, ce.sig) else And(srst.sig, Not(ce.sig)))
    else if ce.pol then Or(srst.sig, Not(ce.sig)) else Or(srst.sig, ce.sig)
  }

  /** Clock enable and synchronous reset in the other order. */
  function Reordered(f: Ff, val: bool): Ff {
    if !f.ce.has || !f.srst.has || f.ceOverSrst == val then f
    else if val then f.(ceOverSrst := true, ce := f.ce.(sig := EnableOrReset(f.ce, f.srst)))
    else f.(ceOverSrst := false, srst := f.srst.(sig := ResetAndEnable(f.ce, f.srst)))
  }

  lemma {:induction false} Combined(ce: Control, srst: Control, q: seq<bool>, env: Env)
    requires ce.has && srst.has
    ensures ce.(sig := EnableOrReset(ce, srst)).On(q, env) == (ce.On(q, env) || srst.On(q, env))
    ensures srst.(sig := ResetAndEnable(ce, srst)).On(q, env) == (srst.On(q, env) && ce.On(q, env))
  {
    var c, r := Eval(ce.sig, q, env), Eval(srst.sig, q, env);
    assert Eval(Not(ce.sig), q, env) == !c && Eval(Not(srst.sig), q, env) == !r;
    if ce.pol && srst.pol {
    } else if ce.pol {
    } else if srst.pol {
    } else {
    }
  }

  lemma {:induction false} ReorderedSame(f: Ff, val: bool)
    requires f.Good()
    ensures Same(f, Reordered(f, val))
  {
    var g := Reordered(f, val);
    forall i: nat, q, prev, env | i < f.Width() ensures SameBit(f, g, i, q, prev, env) {
      if f.ce.has && f.srst.has {
        Combined(f.ce, f.srst, q, env);
      }
    }
    SameBits(f, g);
  }

  /** The clock enable as a choice between the register and the data. */
  function WithoutCe(f: Ff): Ff
    requires f.Good() && f.ce.has
  {
    f.(ce := f.ce.(has := false), sigD := if f.ce.pol then Muxes(QSignal(f), f.sigD, f.ce.sig) else Muxes(f.sigD, QSignal(f), f.ce.sig))
  }

  lemma {:induction false} WithoutCeSame(f: Ff)
    requires f.Good() && f.ce.has && !(f.srst.has && f.ceOverSrst)
    ensures Same(f, WithoutCe(f))
  {
    var g := WithoutCe(f);
    forall i: nat, q, prev, env | i < f.Width() ensures SameBit(f, g, i, q, prev, env) {
      EnabledData(f, i, q, env);
    }
    SameBits(f, g);
  }

  lemma {:induction false} EnabledData(f: Ff, i: nat, q: seq<bool>, env: Env)
    requires f.Good() && f.ce.has && i < f.Width()
    ensures Eval(WithoutCe(f).sigD[i], q, env) == if f.ce.On(q, env) then Eval(f.sigD[i], q, env) else f.Register(i, q)
  {
    var old', new' := QSignal(f)[i], f.sigD[i];
    assert Eval(old', q, env) == f.Register(i, q);
    assert WithoutCe(f).sigD[i] == if f.ce.pol then Mux(old', new', f.ce.sig) else Mux(new', old', f.ce.sig);
  }

  /** The synchronous reset as a choice between its value and the data. */
  function WithoutSrst(f: Ff): Ff
    requires f.Good() && f.srst.has
  {
    f.(srst := f.srst.(has := false),
       sigD := if f.srst.pol then Muxes(f.sigD, Literals(f.valSrst), f.srst.sig) else Muxes(Literals(f.valSrst), f.sigD, f.srst.sig))
  }

  lemma {:induction false} WithoutSrstSame(f: Ff)
    requires f.Good() && f.srst.has && !(f.ce.has && !f.ceOverSrst)
    ensures Same(f, WithoutSrst(f))
  {
    var g := WithoutSrst(f);
    forall i: nat, q, prev, env | i < f.Width() ensures SameBit(f, g, i, q, prev, env) {
      WithoutSrstBit(f, i, q, prev, env);
    }
    SameBits(f, g);
  }

  /** The reset value comes as data. */
  predicate ResetAsData(c: Controls, d: Controls) {
    !c.heldLast && d == c.(syncReset := false, syncResetValue := d.syncResetValue,
                           data := if c.syncReset then c.syncResetValue else c.data)
  }

  lemma {:induction false} ResetAsDataNext(c: Controls, d: Controls)
    requires ResetAsData(c, d) && !c.follows
    ensures d.Next() == c.Next()
  {
  }

  lemma {:induction false} ResetIsData(f: Ff, i: nat, q: seq<bool>, prev: Env, env: Env)
    requires f.Good() && f.srst.has && !(f.ce.has && !f.ceOverSrst) && i < f.Width()
    ensures ResetAsData(f.Controls(i, q, prev, env), WithoutSrst(f).Controls(i, q, prev, env))
    ensures !f.Controls(i, q, prev, env).follows
  {
    MuxedReset(f, i, q, env);
  }

  lemma {:induction false} WithoutSrstBit(f: Ff, i: nat, q: seq<bool>, prev: Env, env: Env)
    requires f.Good() && f.srst.has && !(f.ce.has && !f.ceOverSrst) && i < f.Width()
    ensures SameBit(f, WithoutSrst(f), i, q, prev, env)
  {
    ResetIsData(f, i, q, prev, env);
    ResetAsDataNext(f.Controls(i, q, prev, env), WithoutSrst(f).Controls(i, q, prev, env));
  }

  lemma {:induction false} MuxedReset(f: Ff, i: nat, q: seq<bool>, env: Env)
    requires f.Good() && f.srst.has && !(f.ce.has && !f.ceOverSrst) && i < f.Width()
    ensures Eval(WithoutSrst(f).sigD[i], q, env) == if f.srst.On(q, env) then f.valSrst[i] else Eval(f.sigD[i], q, env)
  {
    var val, new' := Lit(f.valSrst[i]), f.sigD[i];
    assert WithoutSrst(f).sigD[i] == if f.srst.pol then Mux(new', val, f.srst.sig) else Mux(val, new', f.srst.sig);
  }

  // ------------------------------------------------------ flipping bits

  function FlipWhere(v: seq<bool>, bits: set<nat>): (r: seq<bool>)
    ensures |r| == |v|
  {
    seq(|v|, i requires 0 <= i < |v| => v[i] != (i in bits))
  }

  function XorWhere(s: seq<Expr>, bits: set<nat>): (r: seq<Expr>)
    ensures |r| == |s|
  {
    seq(|s|, i requires 0 <= i < |s| => Xor(s[i], Lit(i in bits)))
  }

  /** A signal and its complement, whichever level is active. */
  function ActiveHigh(s: seq<Expr>, pol: bool): seq<Expr> {
    if pol then s else Inverts(s)
  }

  function ActiveLow(s: seq<Expr>, pol: bool): seq<Expr> {
    if pol then Inverts(s) else s
  }

  /** Set and clear trade places where the bit is flipped; clear keeps its precedence. */
  function FlippedLines(l: Lines, isFine: bool, bits: set<nat>): (r: Lines)
    requires l.has && |l.clr| == |l.set'| && (isFine ==> |l.clr| == 1)
    ensures |r.clr| == |r.set'| == |l.clr| && r.has
  {
    if isFine then
      var set', clr := l.set'[0], l.clr[0];
      Lines(true, l.polSet, l.polClr,
            [if l.polSet then (if l.polClr then And(set', Not(clr)) else And(set', clr))
             else if l.polClr then Or(set', clr) else Or(set', Not(clr))],
            l.clr)
    else
      var w, clr, set', notClr := |l.clr|, ActiveHigh(l.clr, l.polClr), ActiveHigh(l.set', l.polSet), ActiveLow(l.clr, l.polClr);
      Lines(true, true, true,
            seq(w, i requires 0 <= i < w => if i in bits then And(set'[i], notClr[i]) else clr[i]),
            seq(w, i requires 0 <= i < w => if i in bits then clr[i] else set'[i]))
  }

  lemma {:induction false} FlippedLinesBit(l: Lines, isFine: bool, bits: set<nat>, i: nat, q: seq<bool>, env: Env)
    requires l.has && |l.clr| == |l.set'| && (isFine ==> |l.clr| == 1 && 0 in bits) && i < |l.clr|
    ensures var r, clear, set' := FlippedLines(l, isFine, bits), l.Clears(i, q, env), l.Sets(i, q, env);
            && r.Clears(i, q, env) == (if i in bits then set' && !clear else clear)
            && r.Sets(i, q, env) == (if i in bits then clear else set')
  {
    var r := FlippedLines(l, isFine, bits);
    var set', clr := l.set'[i], l.clr[i];
    assert Eval(Not(clr), q, env) == !Eval(clr, q, env) && Eval(Not(set'), q, env) == !Eval(set', q, env);
    if isFine {
      assert i == 0;
      assert r.clr[i] == if l.polSet then (if l.polClr then And(set', Not(clr)) else And(set', clr))
                         else if l.polClr then Or(set', clr) else Or(set', Not(clr));
    } else {
      var high, setHigh, low := if l.polClr then clr else Not(clr), if l.polSet then set' else Not(set'), if l.polClr then Not(clr) else clr;
      assert ActiveHigh(l.clr, l.polClr)[i] == high && ActiveHigh(l.set', l.polSet)[i] == setHigh && ActiveLow(l.clr, l.polClr)[i] == low;
      assert i in bits ==> Eval(r.clr[i], q, env) == (Eval(setHigh, q, env) && Eval(low, q, env));
    }
  }

  /** What becomes of the lines, and of the data of a feature, if it is present. */
  function FlippedSr(l: Lines, isFine: bool, bits: set<nat>): (r: Lines)
    requires l.has ==> |l.clr| == |l.set'| && (isFine ==> |l.clr| == 1)
    ensures r.has == l.has && (l.has ==> |r.clr| == |r.set'| == |l.clr|)
  {
    if l.has then FlippedLines(l, isFine, bits) else l
  }

  function FlippedVector(has: bool, s: seq<Expr>, isFine: bool, bits: set<nat>): (r: seq<Expr>)
    ensures |r| == |s|
  {
    if !has then s else if isFine then Inverts(s) else XorWhere(s, bits)
  }

  /** `flip_bits`: the register holds the complement of the chosen bits, behind inverters. */
  function Flipped(f: Ff, isFine: bool, bits: set<nat>): (g: Ff)
    requires f.Good() && (isFine ==> f.Width() == 1)
    ensures g.Good() && g.Width() == f.Width()
  {
    f.(valArst := if f.arst.has then FlipWhere(f.valArst, bits) else f.valArst,
       valSrst := if f.srst.has then FlipWhere(f.valSrst, bits) else f.valSrst,
       valInit := FlipWhere(f.valInit, bits),
       sr := FlippedSr(f.sr, isFine, bits),
       sigD := FlippedVector(f.clk.has || f.hasGclk, f.sigD, isFine, bits),
       sigAd := FlippedVector(f.aload.has, f.sigAd, isFine, bits),
       flips := FlipWhere(f.flips, bits))
  }

  lemma {:induction false} FlippedSrBit(l: Lines, isFine: bool, bits: set<nat>, i: nat, q: seq<bool>, env: Env)
    requires l.has ==> |l.clr| == |l.set'| && (isFine ==> |l.clr| == 1 && 0 in bits) && i < |l.clr|
    ensures var r, clear, set' := FlippedSr(l, isFine, bits), l.Clears(i, q, env), l.Sets(i, q, env);
            && r.Clears(i, q, env) == (if i in bits then set' && !clear else clear)
            && r.Sets(i, q, env) == (if i in bits then clear else set')
  {
    if l.has {
      FlippedLinesBit(l, isFine, bits, i, q, env);
    }
  }

  lemma {:induction false} FlippedSetClear(f: Ff, isFine: bool, bits: set<nat>, i: nat, q: seq<bool>, env: Env)
    requires f.Good() && (isFine ==> f.Width() == 1 && 0 in bits) && i < f.Width()
    ensures var l, r := f.sr, Flipped(f, isFine, bits).sr;
            && r.Clears(i, q, env) == (if i in bits then l.Sets(i, q, env) && !l.Clears(i, q, env) else l.Clears(i, q, env))
            && r.Sets(i, q, env) == (if i in bits then l.Clears(i, q, env) else l.Sets(i, q, env))
  {
    FlippedSrBit(f.sr, isFine, bits, i, q, env);
  }

  lemma {:induction false} FlippedLoad(f: Ff, isFine: bool, bits: set<nat>, i: nat, q: seq<bool>, prev: Env, env: Env)
    requires f.Good() && (isFine ==> f.Width() == 1 && 0 in bits) && i < f.Width()
    ensures var c, d := f.Controls(i, q, prev, env), Flipped(f, isFine, bits).Controls(i, q, prev, env);
            d.load == c.load && (c.load ==> d.loadValue == (c.loadValue != (i in bits)))
  {
    FlippedData(f.aload.has, f.sigAd, isFine, bits, i, q, env);
  }

  lemma {:induction false} FlippedClocked(f: Ff, isFine: bool, bits: set<nat>, i: nat, q: seq<bool>, prev: Env, env: Env)
    requires f.Good() && (isFine ==> f.Width() == 1 && 0 in bits) && i < f.Width()
    ensures var c, d := f.Controls(i, q, prev, env), Flipped(f, isFine, bits).Controls(i, q, prev, env);
            c.edge || c.follows ==> d.data == (c.data != (i in bits))
  {
    FlippedData(f.clk.has || f.hasGclk, f.sigD, isFine, bits, i, q, env);
  }

  lemma {:induction false} FlippedAsyncControls(f: Ff, isFine: bool, bits: set<nat>, i: nat, q: seq<bool>, prev: Env, env: Env)
    requires f.Good() && (isFine ==> f.Width() == 1 && 0 in bits) && i < f.Width()
    ensures FlippedAsync(f.Controls(i, q, prev, env), Flipped(f, isFine, bits).Controls(i, q, prev, env), i in bits)
  {
    FlippedSetClear(f, isFine, bits, i, q, env);
    FlippedLoad(f, isFine, bits, i, q, prev, env);
  }

  lemma {:induction false} FlippedSyncControls(f: Ff, isFine: bool, bits: set<nat>, i: nat, q: seq<bool>, prev: Env, env: Env)
    requires f.Good() && (isFine ==> f.Width() == 1 && 0 in bits) && i < f.Width()
    ensures FlippedSync(f.Controls(i, q, prev, env), Flipped(f, isFine, bits).Controls(i, q, prev, env), i in bits)
  {
    FlippedClocked(f, isFine, bits, i, q, prev, env);
  }

  /** The register bit of the flipped cell is the register bit xor the mask. */
  lemma {:induction false} FlippedBit(f: Ff, isFine: bool, bits: set<nat>, i: nat, q: seq<bool>, prev: Env, env: Env)
    requires f.Good() && (isFine ==> f.Width() == 1 && 0 in bits) && i < f.Width()
    ensures Flipped(f, isFine, bits).Next(i, q, prev, env) == (f.Next(i, q, prev, env) != (i in bits))
  {
    var c, d := f.Controls(i, q, prev, env), Flipped(f, isFine, bits).Controls(i, q, prev, env);
    assert NextFlips(c, d, i in bits) by {
      FlippedAsyncControls(f, isFine, bits, i, q, prev, env);
      FlippedSyncControls(f, isFine, bits, i, q, prev, env);
      FlippedControls(c, d, i in bits);
    }
  }

  lemma {:induction false} FlippedData(has: bool, s: seq<Expr>, isFine: bool, bits: set<nat>, i: nat, q: seq<bool>, env: Env)
    requires has ==> i < |s| && (isFine ==> |s| == 1 && 0 in bits)
    ensures has ==> Eval(FlippedVector(has, s, isFine, bits)[i], q, env) == (Eval(s[i], q, env) != (i in bits))
  {
    if has {
      assert Eval(Lit(i in bits), q, env) == (i in bits);
      assert isFine ==> i == 0;
    }
  }

  /** The controls of a flipped bit that do not wait for the clock. */
  predicate FlippedAsync(c: Controls, d: Controls, flip: bool) {
    && d.clear == (if flip then c.set' && !c.clear else c.clear) && d.set' == (if flip then c.clear else c.set')
    && d.reset == c.reset && (c.reset ==> d.resetValue == (c.resetValue != flip))
    && d.load == c.load && (c.load ==> d.loadValue == (c.loadValue != flip))
  }

  /** And those that do. */
  predicate FlippedSync(c: Controls, d: Controls, flip: bool) {
    && d.edge == c.edge && d.heldFirst == c.heldFirst && d.heldLast == c.heldLast && d.follows == c.follows
    && d.syncReset == c.syncReset && (c.syncReset ==> d.syncResetValue == (c.syncResetValue != flip))
    && (c.edge || c.follows ==> d.data == (c.data != flip)) && d.register == (c.register != flip)
  }

  predicate NextFlips(c: Controls, d: Controls, flip: bool) {
    d.Next() == (c.Next() != flip)
  }

  lemma {:induction false} FlippedControls(c: Controls, d: Controls, flip: bool)
    requires FlippedAsync(c, d, flip) && FlippedSync(c, d, flip)
    ensures NextFlips(c, d, flip)
  {
  }

  /** What the design sees does not change. */
  lemma {:induction false} FlippedSame(f: Ff, isFine: bool, bits: set<nat>)
    requires f.Good() && (isFine ==> f.Width() == 1 && 0 in bits)
    ensures Same(f, Flipped(f, isFine, bits))
  {
    var g := Flipped(f, isFine, bits);
    forall i: nat, q, prev, env | i < f.Width() ensures g.Output(i, q, prev, env) == f.Output(i, q, prev, env) {
      FlippedBit(f, isFine, bits, i, q, prev, env);
    }
  }

  // -------------------------------------------------------------- slicing

  function Chosen<T>(s: seq<T>, bits: seq<nat>): (r: seq<T>)
    requires forall k | 0 <= k < |bits| :: bits[k] < |s|
    ensures |r| == |bits|
  {
    seq(|bits|, k requires 0 <= k < |bits| => s[bits[k]])
  }

  function Sliced(f: Ff, bits: seq<nat>): (g: Ff)
    requires f.Good() && forall k | 0 <= k < |bits| :: bits[k] < f.Width()
    ensures g.Good() && g.Width() == |bits|
  {
    f.(sigQ := Chosen(f.sigQ, bits), flips := Chosen(f.flips, bits), valInit := Chosen(f.valInit, bits),
       sigD := if f.clk.has || f.hasGclk then Chosen(f.sigD, bits) else [],
       sigAd := if f.aload.has then Chosen(f.sigAd, bits) else [],
       sr := if f.sr.has then f.sr.(clr := Chosen(f.sr.clr, bits), set' := Chosen(f.sr.set', bits)) else f.sr.(clr := [], set' := []),
       valArst := if f.arst.has then Chosen(f.valArst, bits) else [],
       valSrst := if f.srst.has then Chosen(f.valSrst, bits) else [])
  }

  /** Bit k of the slice behaves as the bit it was taken from. */
  lemma {:induction false} SlicedBit(f: Ff, bits: seq<nat>, k: nat, q: seq<bool>, prev: Env, env: Env)
    requires f.Good() && (forall k | 0 <= k < |bits| :: bits[k] < f.Width()) && k < |bits|
    ensures Sliced(f, bits).Output(k, q, prev, env) == f.Output(bits[k], q, prev, env)
    ensures Sliced(f, bits).InitialOutput(k) == f.InitialOutput(bits[k])
  {
    assert Sliced(f, bits).Controls(k, q, prev, env) == f.Controls(bits[k], q, prev, env);
  }

  /** Each bit keeps its wire and its inverter, and the slice its controls. */
  predicate SlicedOf(f: Ff, g: Ff, bits: seq<nat>)
    requires f.Good() && g.Good() && g.Width() == |bits| && forall k | 0 <= k < |bits| :: bits[k] < f.Width()
  {
    && (forall k | 0 <= k < |bits| :: g.sigQ[k] == f.sigQ[bits[k]] && g.flips[k] == f.flips[bits[k]])
    && g.clk == f.clk && g.hasGclk == f.hasGclk && g.ce == f.ce && g.aload == f.aload
    && g.srst == f.srst && g.arst == f.arst && g.sr.has == f.sr.has && g.ceOverSrst == f.ceOverSrst
  }

  lemma {:induction false} SlicedIs(f: Ff, bits: seq<nat>)
    requires f.Good() && forall k | 0 <= k < |bits| :: bits[k] < f.Width()
    ensures SlicedOf(f, Sliced(f, bits), bits)
  {
  }

  lemma {:induction false} SameTransitive(f: Ff, g: Ff, h: Ff)
    requires Same(f, g) && Same(g, h)
    ensures Same(f, h)
  {
    forall i: nat, q, prev, env | i < f.Width() ensures h.Output(i, q, prev, env) == f.Output(i, q, prev, env) {
      assert g.Output(i, q, prev, env) == f.Output(i, q, prev, env);
    }
  }

  /** The register of exactly the chosen bits is inverted, from the start on; the controls stay. */
  predicate FlippedIn(f: Ff, g: Ff, bits: set<nat>)
    requires f.Good() && g.Good() && g.Width() == f.Width()
  {
    && (forall i | 0 <= i < f.Width() :: g.flips[i] == (f.flips[i] != (i in bits)) && g.valInit[i] == (f.valInit[i] != (i in bits)))
    && g.sigQ == f.sigQ && g.clk == f.clk && g.hasGclk == f.hasGclk && g.ce == f.ce && g.aload == f.aload
    && g.srst == f.srst && g.arst == f.arst && g.sr.has == f.sr.has && g.ceOverSrst == f.ceOverSrst
  }

  lemma {:induction false} FlippedOrNot(f: Ff, isFine: bool, bits: set<nat>)
    requires f.Good() && (isFine ==> f.Width() == 1) && (forall b | b in bits :: b < f.Width())
    ensures var g := if bits == {} then f else Flipped(f, isFine, bits); Same(f, g) && FlippedIn(f, g, bits)
  {
    if bits != {} {
      var b :| b in bits;
      FlippedSame(f, isFine, bits);
    }
  }

  class FfData {
    // A control's has_, pol_ and sig_ fields are one record here, and so are those of the set and clear lines.
    var clk: Control
    var hasGclk: bool
    var ce: Control
    var aload: Control
    var srst: Control
    var arst: Control
    var sr: Lines
    var ceOverSrst: bool
    var isFine: bool
    var valArst: seq<bool>
    var valSrst: seq<bool>
    var valInit: seq<bool>
    var sigD: seq<Expr>
    var sigAd: seq<Expr>
    var sigQ: seq<nat>
    var flips: seq<bool>

    function Spec(): Ff
      reads this
    {
      Ff(clk, hasGclk, ce, aload, srst, arst, sr, ceOverSrst, valArst, valSrst, valInit, sigD, sigAd, sigQ, flips)
    }

    /** A fine cell has one bit. */
    predicate Valid()
      reads this
    {
      Spec().Good() && (isFine ==> |sigQ| == 1)
    }

    constructor (f: Ff, isFine: bool)
      requires f.Good() && (isFine ==> |f.sigQ| == 1)
      ensures Valid() && Spec() == f && this.isFine == isFine
    {
      clk, hasGclk, ce, aload, srst, arst, sr := f.clk, f.hasGclk, f.ce, f.aload, f.srst, f.arst, f.sr;
      ceOverSrst, valArst, valSrst, valInit := f.ceOverSrst, f.valArst, f.valSrst, f.valInit;
      sigD, sigAd, sigQ, flips, this.isFine := f.sigD, f.sigAd, f.sigQ, f.flips, isFine;
    }

    /** The reset is gone, and a load on the same signal and level loads its constant; nothing else changes. */
    method ArstToAload()
      requires Valid() && arst.has && !aload.has
      modifies this`aload, this`sigAd, this`arst
      ensures Valid() && Spec() == ResetAsLoad(old(Spec())) && Same(old(Spec()), Spec())
      ensures !arst.has && aload.has && aload.pol == old(arst.pol) && aload.sig == old(arst.sig)
      ensures |sigAd| == |sigQ| && forall i | 0 <= i < |sigQ| :: sigAd[i] == Lit(valArst[i])
      ensures arst == old(arst).(has := false) && Spec() == old(Spec()).(aload := aload, sigAd := sigAd, arst := arst)
    {
      ResetAsLoadSame(Spec());
      aload := Control(true, arst.pol, arst.sig);
      sigAd := Literals(valArst);
      arst := arst.(has := false);
    }

    /** The reset is gone, and sets the bits that are 1 in its value and clears the others; nothing else changes. */
    method ArstToSr()
      requires Valid() && arst.has && !sr.has
      modifies this`sr, this`arst
      ensures Valid() && Spec() == ResetAsSetClear(old(Spec())) && Same(old(Spec()), Spec())
      ensures !arst.has && sr.has && sr.polClr == sr.polSet == old(arst.pol) && |sr.clr| == |sr.set'| == |sigQ|
      ensures forall i | 0 <= i < |sigQ| ::
                && sr.set'[i] == (if valArst[i] then old(arst.sig) else Lit(!old(arst.pol)))
                && sr.clr[i] == (if valArst[i] then Lit(!old(arst.pol)) else old(arst.sig))
      ensures arst == old(arst).(has := false) && Spec() == old(Spec()).(sr := sr, arst := arst)
    {
      ResetAsSetClearSame(Spec());
      var clr, set' := WireReset();
      sr := Lines(true, arst.pol, arst.pol, clr, set');
      arst := arst.(has := false);
    }

    /** The loop that wires the reset to one of the two lines of each bit. */
    method WireReset() returns (clr: seq<Expr>, set': seq<Expr>)
      requires Valid() && arst.has
      ensures Lines(true, arst.pol, arst.pol, clr, set') == ResetLines(Spec())
    {
      clr := Repeated(!arst.pol, |sigQ|);
      set' := Repeated(!arst.pol, |sigQ|);
      for i := 0 to |sigQ|
        invariant |clr| == |set'| == |sigQ|
        invariant forall k | 0 <= k < |sigQ| :: set'[k] == if k < i && valArst[k] then arst.sig else Lit(!arst.pol)
        invariant forall k | 0 <= k < |sigQ| :: clr[k] == if k < i && !valArst[k] then arst.sig else Lit(!arst.pol)
      {
        if valArst[i] {
          set' := set'[i := arst.sig];
        } else {
          clr := clr[i := arst.sig];
        }
      }
    }

    /** The load is gone; where it was active, bits with data 1 are set and the others cleared, and nowhere else. */
    method AloadToSr()
      requires Valid() && aload.has && !sr.has
      modifies this`sr, this`aload
      ensures Valid() && Spec() == LoadAsSetClear(old(Spec()), isFine)
      ensures !aload.has && sr.has && |sr.clr| == |sr.set'| == |sigQ|
      ensures forall i: nat, q, env | i < |sigQ| ::
                && sr.Sets(i, q, env) == (old(aload).On(q, env) && Eval(sigAd[i], q, env))
                && sr.Clears(i, q, env) == (old(aload).On(q, env) && !Eval(sigAd[i], q, env))
      ensures Same(old(Spec()), Spec()) <==> !ResetMeetsLoad(old(Spec()))
      ensures aload == old(aload).(has := false) && Spec() == old(Spec()).(sr := sr, aload := aload)
    {
      ghost var f := Spec();
      LoadAsSetClearExact(f, isFine);
      forall i: nat, q, env | i < |sigQ|
        ensures LoadLines(f, isFine).Sets(i, q, env) == (aload.On(q, env) && Eval(sigAd[i], q, env))
        ensures LoadLines(f, isFine).Clears(i, q, env) == (aload.On(q, env) && !Eval(sigAd[i], q, env))
      {
        LoadLinesBit(f, isFine, i, q, env);
      }
      var polClr, polSet, clr, set' := WireLoad();
      sr := Lines(true, polClr, polSet, clr, set');
      aload := aload.(has := false);
    }

    method WireLoad() returns (pc: bool, ps: bool, clr: seq<Expr>, set': seq<Expr>)
      requires Valid() && aload.has
      ensures Lines(true, pc, ps, clr, set') == LoadLines(Spec(), isFine)
    {
      if !isFine {
        pc := false;
        ps := true;
        if aload.pol {
          clr := Muxes(Repeated(true, |sigQ|), sigAd, aload.sig);
          set' := Muxes(Repeated(false, |sigQ|), sigAd, aload.sig);
        } else {
          clr := Muxes(sigAd, Repeated(true, |sigQ|), aload.sig);
          set' := Muxes(sigAd, Repeated(false, |sigQ|), aload.sig);
        }
      } else {
        pc := aload.pol;
        ps := aload.pol;
        if aload.pol {
          clr := [And(aload.sig, Not(sigAd[0]))];
          set' := [And(aload.sig, sigAd[0])];
        } else {
          clr := [Or(aload.sig, sigAd[0])];
          set' := [Or(aload.sig, Not(sigAd[0]))];
        }
      }
    }

    /** Gives clock enable and synchronous reset the wanted order. */
    method ConvertCeOverSrst(val: bool)
      requires Valid()
      modifies this`ce, this`srst, this`ceOverSrst
      ensures Valid() && Spec() == Reordered(old(Spec()), val) && Same(old(Spec()), Spec())
      ensures ce.has == old(ce.has) && srst.has == old(srst.has) && (ce.has && srst.has ==> ceOverSrst == val)
    {
      ReorderedSame(Spec(), val);
      if !ce.has || !srst.has || ceOverSrst == val {
        return;
      }
      if val {
        if ce.pol {
          ce := ce.(sig := if srst.pol then Or(ce.sig, srst.sig) else Or(ce.sig, Not(srst.sig)));
        } else {
          ce := ce.(sig := if srst.pol then And(ce.sig, Not(srst.sig)) else And(ce.sig, srst.sig));
        }
      } else {
        if srst.pol {
          srst := srst.(sig := if ce.pol then And(srst.sig, ce.sig) else And(srst.sig, Not(ce.sig)));
        } else {
          srst := srst.(sig := if ce.pol then Or(srst.sig, Not(ce.sig)) else Or(srst.sig, ce.sig));
        }
      }
      ceOverSrst := val;
    }

    method UnmapCe()
      requires Valid()
      modifies this`sigD, this`ce, this`srst
      ensures Valid() && Same(old(Spec()), Spec()) && !ce.has
      ensures srst.has == (old(srst.has) && !(old(ce.has) && ceOverSrst))
      decreases (if ce.has then 1 else 0) + (if srst.has then 1 else 0), if srst.has && ceOverSrst then 1 else 0
    {
      if !ce.has {
        return;
      }
      ghost var f := Spec();
      if srst.has && ceOverSrst {
        UnmapSrst();
      }
      WithoutCeSame(Spec());
      SameTransitive(f, Spec(), WithoutCe(Spec()));
      if ce.pol {
        sigD := Muxes(QSignal(Spec()), sigD, ce.sig);
      } else {
        sigD := Muxes(sigD, QSignal(Spec()), ce.sig);
      }
      ce := ce.(has := false);
    }

    method UnmapSrst()
      requires Valid()
      modifies this`sigD, this`ce, this`srst
      ensures Valid() && Same(old(Spec()), Spec()) && !srst.has
      ensures ce.has == (old(ce.has) && !(old(srst.has) && !ceOverSrst))
      decreases (if ce.has then 1 else 0) + (if srst.has then 1 else 0), if ce.has && srst.has && !ceOverSrst then 1 else 0
    {
      if !srst.has {
        return;
      }
      ghost var f := Spec();
      if ce.has && !ceOverSrst {
        UnmapCe();
      }
      WithoutSrstSame(Spec());
      SameTransitive(f, Spec(), WithoutSrst(Spec()));
      if srst.pol {
        sigD := Muxes(sigD, Literals(valSrst), srst.sig);
      } else {
        sigD := Muxes(Literals(valSrst), sigD, srst.sig);
      }
      srst := srst.(has := false);
    }

    method UnmapCeSrst()
      requires Valid()
      modifies this`sigD, this`ce, this`srst
      ensures Valid() && Same(old(Spec()), Spec()) && !ce.has && !srst.has
    {
      ghost var f := Spec();
      UnmapCe();
      ghost var g := Spec();
      UnmapSrst();
      SameTransitive(f, g, Spec());
    }

    method FlipValues(v: seq<bool>, bits: set<nat>) returns (r: seq<bool>)
      ensures r == FlipWhere(v, bits)
    {
      r := v;
      for i := 0 to |v|
        invariant |r| == |v| && forall k | 0 <= k < |v| :: r[k] == (v[k] != (k < i && k in bits))
      {
        if i in bits {
          r := r[i := !r[i]];
        }
      }
    }

    method FlipRstBits(bits: set<nat>)
      requires Valid()
      modifies this`valArst, this`valSrst, this`valInit
      ensures Spec() == old(Spec()).(valArst := if arst.has then FlipWhere(old(valArst), bits) else old(valArst),
                                     valSrst := if srst.has then FlipWhere(old(valSrst), bits) else old(valSrst),
                                     valInit := FlipWhere(old(valInit), bits))
    {
      if arst.has {
        valArst := FlipValues(valArst, bits);
      }
      if srst.has {
        valSrst := FlipValues(valSrst, bits);
      }
      valInit := FlipValues(valInit, bits);
    }

    /** Swaps set and clear where a bit is flipped, so that the former clear still wins. */
    method FlipLines(bits: set<nat>) returns (pc: bool, ps: bool, clr: seq<Expr>, set': seq<Expr>)
      requires sr.has && |sr.clr| == |sr.set'| && (isFine ==> |sr.clr| == 1)
      ensures Lines(true, pc, ps, clr, set') == FlippedLines(Spec().sr, isFine, bits)
    {
      if isFine {
        pc := sr.polSet;
        if sr.polSet {
          clr := if sr.polClr then [And(sr.set'[0], Not(sr.clr[0]))] else [And(sr.set'[0], sr.clr[0])];
        } else {
          clr := if sr.polClr then [Or(sr.set'[0], sr.clr[0])] else [Or(sr.set'[0], Not(sr.clr[0]))];
        }
        ps := sr.polClr;
        set' := sr.clr;
        return;
      }
      var notClr;
      clr, set' := sr.clr, sr.set';
      if !sr.polClr {
        notClr := clr;
        clr := Inverts(clr);
      } else {
        notClr := Inverts(clr);
      }
      if !sr.polSet {
        set' := Inverts(set');
      }
      pc, ps := true, true;
      var maskedSet := Ands(set', notClr);
      ghost var c0, s0 := clr, set';
      for i := 0 to |maskedSet|
        invariant |clr| == |set'| == |maskedSet|
        invariant forall k | 0 <= k < |clr| :: clr[k] == if k < i && k in bits then maskedSet[k] else c0[k]
        invariant forall k | 0 <= k < |clr| :: set'[k] == if k < i && k in bits then c0[k] else s0[k]
      {
        if i in bits {
          set' := set'[i := clr[i]];
          clr := clr[i := maskedSet[i]];
        }
      }
    }

    method FlipSr(bits: set<nat>)
      requires sr.has ==> |sr.clr| == |sr.set'| && (isFine ==> |sr.clr| == 1)
      modifies this`sr
      ensures Spec() == old(Spec()).(sr := FlippedSr(old(sr), isFine, bits))
    {
      if sr.has {
        var polClr, polSet, clr, set' := FlipLines(bits);
        sr := Lines(true, polClr, polSet, clr, set');
      }
    }

    method FlipBits(bits: set<nat>)
      requires Valid() && (forall b | b in bits :: b < |sigQ|)
      modifies this
      ensures Valid() && isFine == old(isFine)
      ensures Spec() == (if bits == {} then old(Spec()) else Flipped(old(Spec()), isFine, bits)) && Same(old(Spec()), Spec())
      ensures FlippedIn(old(Spec()), Spec(), bits)
    {
      FlippedOrNot(Spec(), isFine, bits);
      if bits == {} {
        return;
      }
      FlipSome(bits);
    }

    method FlipSome(bits: set<nat>)
      requires Valid()
      modifies this
      ensures isFine == old(isFine) && Spec() == Flipped(old(Spec()), isFine, bits)
    {
      FlipRstBits(bits);
      FlipSr(bits);
      FlipData(bits);
    }

    method FlipData(bits: set<nat>)
      modifies this`sigD, this`sigAd, this`flips
      ensures Spec() == old(Spec()).(sigD := FlippedVector(clk.has || hasGclk, old(sigD), isFine, bits),
                                     sigAd := FlippedVector(aload.has, old(sigAd), isFine, bits), flips := FlipWhere(old(flips), bits))
    {
      sigD := FlippedVector(clk.has || hasGclk, sigD, isFine, bits);
      sigAd := FlippedVector(aload.has, sigAd, isFine, bits);
      flips := FlipWhere(flips, bits);
    }

    /** The chosen entries of a vector, if its feature is present. */
    method Pick<T>(has: bool, s: seq<T>, bits: seq<nat>) returns (r: seq<T>)
      requires has ==> forall k | 0 <= k < |bits| :: bits[k] < |s|
      ensures r == if has then Chosen(s, bits) else []
    {
      r := [];
      if has {
        for k := 0 to |bits|
          invariant |r| == k && forall j | 0 <= j < k :: r[j] == s[bits[j]]
        {
          r := r + [s[bits[k]]];
        }
      }
    }

    /** A flip-flop of the chosen bits only. */
    method Slice(bits: seq<nat>) returns (res: FfData)
      requires Valid() && (forall k | 0 <= k < |bits| :: bits[k] < |sigQ|) && (isFine ==> |bits| == 1)
      ensures fresh(res) && res.Valid() && res.Spec() == Sliced(Spec(), bits) && SlicedOf(Spec(), res.Spec(), bits)
    {
      SlicedIs(Spec(), bits);
      var sliced := PickAll(bits);
      res := new FfData(sliced, isFine);
    }

    method PickAll(bits: seq<nat>) returns (sliced: Ff)
      requires Valid() && forall k | 0 <= k < |bits| :: bits[k] < |sigQ|
      ensures sliced == Sliced(Spec(), bits)
    {
      var q := Pick(true, sigQ, bits);
      var inverted := Pick(true, flips, bits);
      var init := Pick(true, valInit, bits);
      var d := Pick(clk.has || hasGclk, sigD, bits);
      var ad := Pick(aload.has, sigAd, bits);
      var clr := Pick(sr.has, sr.clr, bits);
      var set' := Pick(sr.has, sr.set', bits);
      var rst := Pick(arst.has, valArst, bits);
      var srstVal := Pick(srst.has, valSrst, bits);
      sliced := Ff(clk, hasGclk, ce, aload, srst, arst, sr.(clr := clr, set' := set'), ceOverSrst, rst, srstVal, init, d, ad, q, inverted);
    }
  }

  /** Every rewrite keeps every trace; the load only if no reset meets it. */
  lemma {:induction false} RewritesKeepTraces(f: Ff, isFine: bool, val: bool, bits: set<nat>, inputs: seq<Input>)
    requires f.Good() && (isFine ==> f.Width() == 1) && (forall b | b in bits :: b < f.Width()) && bits != {}
    ensures f.arst.has && !f.aload.has ==> Trace(ResetAsLoad(f), inputs) == Trace(f, inputs)
    ensures f.arst.has && !f.sr.has ==> Trace(ResetAsSetClear(f), inputs) == Trace(f, inputs)
    ensures f.aload.has && !f.sr.has && !f.arst.has ==> Trace(LoadAsSetClear(f, isFine), inputs) == Trace(f, inputs)
    ensures Reordered(f, val).Good() && Trace(Reordered(f, val), inputs) == Trace(f, inputs)
    ensures f.ce.has && !(f.srst.has && f.ceOverSrst) ==> WithoutCe(f).Good() && Trace(WithoutCe(f), inputs) == Trace(f, inputs)
    ensures f.srst.has && !(f.ce.has && !f.ceOverSrst) ==> WithoutSrst(f).Good() && Trace(WithoutSrst(f), inputs) == Trace(f, inputs)
    ensures Trace(Flipped(f, isFine, bits), inputs) == Trace(f, inputs)
  {
    if f.arst.has && !f.aload.has {
      ResetAsLoadSame(f);
      SameTrace(f, ResetAsLoad(f), inputs);
    }
    if f.arst.has && !f.sr.has {
      ResetAsSetClearSame(f);
      SameTrace(f, ResetAsSetClear(f), inputs);
    }
    if f.aload.has && !f.sr.has && !f.arst.has {
      NoResetNoMeeting(f);
      LoadAsSetClearExact(f, isFine);
      SameTrace(f, LoadAsSetClear(f, isFine), inputs);
    }
    ReorderedSame(f, val);
    SameTrace(f, Reordered(f, val), inputs);
    if f.ce.has && !(f.srst.has && f.ceOverSrst) {
      WithoutCeSame(f);
      SameTrace(f, WithoutCe(f), inputs);
    }
    if f.srst.has && !(f.ce.has && !f.ceOverSrst) {
      WithoutSrstSame(f);
      SameTrace(f, WithoutSrst(f), inputs);
    }
    var b :| b in bits;
    FlippedSame(f, isFine, bits);
    SameTrace(f, Flipped(f, isFine, bits), inputs);
  }
}
