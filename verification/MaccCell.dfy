/**
 * The `$macc_v2` form of a multiply-accumulate (`Macc::to_cell` and
 * `Macc::from_cell` in `kernel/macc.h`).
 */
module MaccCells {
  import opened Rtlil
  import opened Bits
  import opened Calc
  import opened Maccs

  /** Parameters and ports of the cell. */
  datatype MaccCell = MaccV2(
    nproducts: nat, productNegated: Const, naddends: nat, addendNegated: Const, aSigned: Const, bSigned: Const, cSigned: Const,
    aWidths: Const, bWidths: Const, cWidths: Const, a: Sig, b: Sig, c: Sig)

  /** A width as its parameter field. */
  function Field(n: nat): (r: Const)
    ensures |r| == 16
  {
    ToConst(FromInt(n, 16))
  }

  /** `as_int(false)` of field i. */
  function ReadField(c: Const, i: nat): nat
    requires 16 * i + 16 <= |c|
  {
    ToNat(Marks(c[16 * i..16 * i + 16], S1))
  }

  lemma {:induction false} FieldReads(c: Const, i: nat, n: nat)
    requires 16 * i + 16 <= |c| && c[16 * i..16 * i + 16] == Field(n) && n < 65536
    ensures ReadField(c, i) == n
  {
    assert Pow2(16) == 65536 by {
      Pow2Sum(8, 8);
      assert Pow2(8) == 256;
    }
    assert Marks(Field(n), S1) == FromInt(n, 16);
    Small(n, 16);
  }

  predicate Fits(t: Term) {
    |t.inA| < 65536 && |t.inB| < 65536
  }

  /** The terms with a second port, and those without, in order. */
  function Products(ts: seq<Term>): (r: seq<Term>)
    ensures forall k | 0 <= k < |r| :: r[k].inB != [] && r[k] in ts
  {
    if ts == [] then [] else Products(ts[..|ts| - 1]) + if ts[|ts| - 1].inB != [] then [ts[|ts| - 1]] else []
  }

  function Addends(ts: seq<Term>): (r: seq<Term>)
    ensures forall k | 0 <= k < |r| :: r[k].inB == [] && r[k] in ts
  {
    if ts == [] then [] else Addends(ts[..|ts| - 1]) + if ts[|ts| - 1].inB == [] then [ts[|ts| - 1]] else []
  }

  /** Splitting the terms keeps what they compute. */
  lemma {:induction false} PartitionTotal(ts: seq<Term>, env: Env)
    ensures Total(Products(ts) + Addends(ts), env) == Total(ts, env)
  {
    TotalConcat(Products(ts), Addends(ts), env);
    PartitionSum(ts, env);
  }

  lemma {:induction false} PartitionSum(ts: seq<Term>, env: Env)
    ensures Total(Products(ts), env) + Total(Addends(ts), env) == Total(ts, env)
  {
    if ts != [] {
      var front, t := ts[..|ts| - 1], ts[|ts| - 1];
      assert front + [t] == ts;
      PartitionSum(front, env);
      PartitionOne(front, t, env);
    }
  }

  lemma {:induction false} PartitionOne(front: seq<Term>, t: Term, env: Env)
    ensures Total(Products(front + [t]), env) + Total(Addends(front + [t]), env)
         == Total(Products(front), env) + Total(Addends(front), env) + t.Contribution(env)
    ensures Total(front + [t], env) == Total(front, env) + t.Contribution(env)
  {
    var ts := front + [t];
    assert ts[..|ts| - 1] == front && ts[|ts| - 1] == t;
    TotalSnoc(front, t, env);
    if t.inB == [] {
      assert Products(ts) == Products(front) && Addends(ts) == Addends(front) + [t];
      TotalSnoc(Addends(front), t, env);
    } else {
      assert Products(ts) == Products(front) + [t] && Addends(ts) == Addends(front);
      TotalSnoc(Products(front), t, env);
    }
  }

  lemma {:induction false} TotalConcat(ps: seq<Term>, qs: seq<Term>, env: Env)
    ensures Total(ps + qs, env) == Total(ps, env) + Total(qs, env)
    decreases |qs|
  {
    if qs == [] {
      assert ps + qs == ps;
    } else {
      var front, t := SplitLast(ps, qs);
      TotalConcat(ps, front, env);
      TotalSnoc(ps + front, t, env);
      TotalSnoc(front, t, env);
    }
  }

  lemma {:induction false} SplitLast(ps: seq<Term>, qs: seq<Term>) returns (front: seq<Term>, t: Term)
    requires qs != []
    ensures |front| < |qs| && qs == front + [t] && ps + qs == ps + front + [t]
  {
    front, t := qs[..|qs| - 1], qs[|qs| - 1];
  }

  /** The first or second ports of the terms, one after the other. */
  function Ports(ts: seq<Term>, second: bool): Sig {
    if ts == [] then [] else Ports(ts[..|ts| - 1], second) + Port(ts[|ts| - 1], second)
  }

  function Port(t: Term, second: bool): Sig {
    if second then t.inB else t.inA
  }

  lemma {:induction false} PortsSnoc(ts: seq<Term>, t: Term, second: bool)
    ensures Ports(ts + [t], second) == Ports(ts, second) + Port(t, second)
  {
    assert (ts + [t])[..|ts|] == ts;
  }

  /** A port vector is cut at the right places. */
  lemma {:induction false} PortAt(ts: seq<Term>, i: nat, second: bool)
    requires i < |ts|
    ensures var start, port := |Ports(ts[..i], second)|, Port(ts[i], second);
            && start + |port| <= |Ports(ts, second)| && Ports(ts, second)[start..start + |port|] == port
            && |Ports(ts[..i + 1], second)| == start + |port|
    decreases |ts|
  {
    var front, last := ts[..|ts| - 1], Port(ts[|ts| - 1], second);
    if i < |front| {
      PortAt(front, i, second);
      assert front[..i] == ts[..i] && front[..i + 1] == ts[..i + 1];
      var start := |Ports(ts[..i], second)|;
      Before(Ports(front, second), last, start, start + |Port(ts[i], second)|);
    } else {
      assert ts[..i] == front && ts[..i + 1] == ts;
      Behind(Ports(front, second), last, |Ports(front, second)|, |Ports(front, second)| + |last|);
    }
  }

  lemma {:induction false} Before<T>(a: seq<T>, b: seq<T>, from: nat, to: nat)
    requires from <= to <= |a|
    ensures (a + b)[from..to] == a[from..to]
  {
  }

  lemma {:induction false} Behind<T>(a: seq<T>, b: seq<T>, from: nat, to: nat)
    requires from == |a| && to == |a| + |b|
    ensures (a + b)[from..to] == b
  {
  }

  /** Field k holds the width of a port of term k. */
  predicate FieldIs(widths: Const, k: nat, t: Term, second: bool) {
    16 * k + 16 <= |widths| && widths[16 * k..16 * k + 16] == Field(|Port(t, second)|)
  }

  predicate HoldsFields(widths: Const, ts: seq<Term>, second: bool) {
    forall k | 0 <= k < |ts| :: FieldIs(widths, k, ts[k], second)
  }

  predicate FlagsAre(negated: Const, signed: Const, k: nat, t: Term) {
    k < |negated| && k < |signed| && negated[k] == OfBool(t.doSubtract) && signed[k] == OfBool(t.isSigned)
  }

  predicate HoldsFlags(negated: Const, signed: Const, ts: seq<Term>) {
    forall k | 0 <= k < |ts| :: FlagsAre(negated, signed, k, ts[k])
  }

  /** The cell is that of these products and addends. */
  predicate Holds(cell: MaccCell, ps: seq<Term>, qs: seq<Term>) {
    && cell.nproducts == |ps| && cell.naddends == |qs|
    && HoldsFlags(cell.productNegated, cell.aSigned, ps) && HoldsFlags(cell.productNegated, cell.bSigned, ps)
    && HoldsFlags(cell.addendNegated, cell.cSigned, qs)
    && HoldsFields(cell.aWidths, ps, false) && HoldsFields(cell.bWidths, ps, true) && HoldsFields(cell.cWidths, qs, false)
    && cell.a == Ports(ps, false) && cell.b == Ports(ps, true) && cell.c == Ports(qs, false)
  }

  lemma {:induction false} FieldStays(widths: Const, more: Const, k: nat, t: Term, second: bool)
    requires FieldIs(widths, k, t, second)
    ensures FieldIs(widths + more, k, t, second)
  {
    var from, to := 16 * k, 16 * k + 16;
    assert (widths + more)[from..to] == widths[from..to];
  }

  lemma {:induction false} FieldAdded(widths: Const, n: nat, t: Term, second: bool)
    requires |widths| == 16 * n
    ensures FieldIs(widths + Field(|Port(t, second)|), n, t, second)
  {
    Behind(widths, Field(|Port(t, second)|), 16 * n, 16 * n + 16);
  }

  lemma {:induction false} AppendField(widths: Const, ts: seq<Term>, t: Term, second: bool)
    requires HoldsFields(widths, ts, second) && |widths| == 16 * |ts|
    ensures HoldsFields(widths + Field(|Port(t, second)|), ts + [t], second)
  {
    var field := Field(|Port(t, second)|);
    forall k | 0 <= k < |ts| + 1 ensures FieldIs(widths + field, k, (ts + [t])[k], second) {
      if k < |ts| {
        FieldStays(widths, field, k, ts[k], second);
      } else {
        FieldAdded(widths, |ts|, t, second);
      }
    }
  }

  lemma {:induction false} AppendFlags(negated: Const, signed: Const, ts: seq<Term>, t: Term)
    requires HoldsFlags(negated, signed, ts) && |negated| == |signed| == |ts|
    ensures HoldsFlags(negated + [OfBool(t.doSubtract)], signed + [OfBool(t.isSigned)], ts + [t])
  {
    forall k | 0 <= k < |ts| + 1
      ensures FlagsAre(negated + [OfBool(t.doSubtract)], signed + [OfBool(t.isSigned)], k, (ts + [t])[k])
    {
      if k < |ts| {
        assert FlagsAre(negated, signed, k, ts[k]);
      }
    }
  }

  /** The parameters have no more entries than the terms. */
  predicate Exact(cell: MaccCell, ps: seq<Term>, qs: seq<Term>) {
    && Holds(cell, ps, qs)
    && |cell.aSigned| == |cell.bSigned| == |cell.productNegated| == |ps| && |cell.cSigned| == |cell.addendNegated| == |qs|
    && |cell.aWidths| == |cell.bWidths| == 16 * |ps| && |cell.cWidths| == 16 * |qs|
  }

  method AppendAddend(cell: MaccCell, t: Term, ghost ps: seq<Term>, ghost qs: seq<Term>) returns (r: MaccCell)
    requires Exact(cell, ps, qs)
    ensures Exact(r, ps, qs + [t])
  {
    AppendField(cell.cWidths, qs, t, false);
    AppendFlags(cell.addendNegated, cell.cSigned, qs, t);
    PortsSnoc(qs, t, false);
    r := cell.(cWidths := cell.cWidths + Field(|t.inA|), cSigned := cell.cSigned + [if t.isSigned then S1 else S0],
               addendNegated := cell.addendNegated + [if t.doSubtract then S1 else S0], c := cell.c + t.inA,
               naddends := cell.naddends + 1);
  }

  method AppendProduct(cell: MaccCell, t: Term, ghost ps: seq<Term>, ghost qs: seq<Term>) returns (r: MaccCell)
    requires Exact(cell, ps, qs)
    ensures Exact(r, ps + [t], qs)
  {
    AppendField(cell.aWidths, ps, t, false);
    AppendField(cell.bWidths, ps, t, true);
    AppendFlags(cell.productNegated, cell.aSigned, ps, t);
    AppendFlags(cell.productNegated, cell.bSigned, ps, t);
    PortsSnoc(ps, t, false);
    PortsSnoc(ps, t, true);
    r := cell.(aWidths := cell.aWidths + Field(|t.inA|), bWidths := cell.bWidths + Field(|t.inB|),
               aSigned := cell.aSigned + [if t.isSigned then S1 else S0], bSigned := cell.bSigned + [if t.isSigned then S1 else S0],
               productNegated := cell.productNegated + [if t.doSubtract then S1 else S0],
               a := cell.a + t.inA, b := cell.b + t.inB, nproducts := cell.nproducts + 1);
  }

  /** An empty parameter becomes one undefined bit. */
  function OrUndef(c: Const): Const {
    if c == [] then [Sx] else c
  }

  function Padded(cell: MaccCell): MaccCell {
    cell.(aSigned := OrUndef(cell.aSigned), bSigned := OrUndef(cell.bSigned), cSigned := OrUndef(cell.cSigned),
          aWidths := OrUndef(cell.aWidths), bWidths := OrUndef(cell.bWidths), cWidths := OrUndef(cell.cWidths),
          productNegated := OrUndef(cell.productNegated), addendNegated := OrUndef(cell.addendNegated))
  }

  /** One bit and one field for each term; a single undefined bit where there are none. */
  predicate OnePerTerm(negated: Const, signed: Const, widths: Const, n: nat) {
    if n == 0 then negated == signed == widths == [Sx] else |negated| == |signed| == n && |widths| == 16 * n
  }

  /** The flags of the terms, and their widths as the fields are read. */
  predicate Describes(negated: Const, signed: Const, widths: Const, ts: seq<Term>, second: bool) {
    && OnePerTerm(negated, signed, widths, |ts|)
    && forall k | 0 <= k < |ts| :: DescribesTerm(negated, signed, widths, k, ts[k], second)
  }

  predicate DescribesTerm(negated: Const, signed: Const, widths: Const, k: nat, t: Term, second: bool) {
    && k < |negated| && k < |signed| && 16 * k + 16 <= |widths|
    && negated[k] == (if t.doSubtract then S1 else S0) && signed[k] == (if t.isSigned then S1 else S0)
    && (Fits(t) ==> ReadField(widths, k) == if second then |t.inB| else |t.inA|)
  }

  lemma {:induction false} HoldsDescribes(negated: Const, signed: Const, widths: Const, ts: seq<Term>, second: bool)
    requires HoldsFlags(negated, signed, ts) && HoldsFields(widths, ts, second) && OnePerTerm(negated, signed, widths, |ts|)
    ensures Describes(negated, signed, widths, ts, second)
  {
    forall k | 0 <= k < |ts| ensures DescribesTerm(negated, signed, widths, k, ts[k], second) {
      assert FlagsAre(negated, signed, k, ts[k]) && FieldIs(widths, k, ts[k], second);
      if Fits(ts[k]) {
        FieldAt(widths, ts, second, k);
      }
    }
  }

  /** No term is lost or doubled. */
  lemma {:induction false} PartitionKeepsAll(ts: seq<Term>)
    ensures multiset(Products(ts)) + multiset(Addends(ts)) == multiset(ts)
  {
    if ts != [] {
      var front, t := ts[..|ts| - 1], ts[|ts| - 1];
      PartitionKeepsAll(front);
      assert ts == front + [t];
      OneMore(Products(front), Addends(front), front, t);
    }
  }

  lemma {:induction false} OneMore(ps: seq<Term>, qs: seq<Term>, ts: seq<Term>, t: Term)
    requires multiset(ps) + multiset(qs) == multiset(ts)
    ensures multiset(ps + [t]) + multiset(qs) == multiset(ts + [t]) && multiset(ps) + multiset(qs + [t]) == multiset(ts + [t])
    ensures ps + [] == ps && qs + [] == qs
  {
  }

  lemma {:induction false} PartitionCount(ts: seq<Term>)
    ensures |Products(ts)| + |Addends(ts)| == |ts|
  {
    if ts != [] {
      PartitionCount(ts[..|ts| - 1]);
    }
  }

  lemma {:induction false} PaddedHolds(cell: MaccCell, ps: seq<Term>, qs: seq<Term>)
    requires Exact(cell, ps, qs)
    ensures var r := Padded(cell);
            && Holds(r, ps, qs)
            && OnePerTerm(r.productNegated, r.aSigned, r.aWidths, |ps|) && OnePerTerm(r.productNegated, r.bSigned, r.bWidths, |ps|)
            && OnePerTerm(r.addendNegated, r.cSigned, r.cWidths, |qs|)
  {
    if ps == [] {
      assert HoldsFields(Padded(cell).aWidths, ps, false) && HoldsFields(Padded(cell).bWidths, ps, true);
    }
    if qs == [] {
      assert HoldsFields(Padded(cell).cWidths, qs, false);
    }
  }

  /** The parameters tell of these products and addends, and none of them is empty. */
  predicate Complete(cell: MaccCell, ps: seq<Term>, qs: seq<Term>) {
    && Describes(cell.productNegated, cell.aSigned, cell.aWidths, ps, false)
    && Describes(cell.productNegated, cell.bSigned, cell.bWidths, ps, true)
    && Describes(cell.addendNegated, cell.cSigned, cell.cWidths, qs, false)
    && cell.productNegated != [] && cell.aSigned != [] && cell.bSigned != [] && cell.aWidths != [] && cell.bWidths != []
    && cell.addendNegated != [] && cell.cSigned != [] && cell.cWidths != []
  }

  lemma {:induction false} PaddedIsComplete(cell: MaccCell, ps: seq<Term>, qs: seq<Term>)
    requires Exact(cell, ps, qs)
    ensures Holds(Padded(cell), ps, qs) && Complete(Padded(cell), ps, qs)
  {
    var r := Padded(cell);
    PaddedHolds(cell, ps, qs);
    HoldsDescribes(r.productNegated, r.aSigned, r.aWidths, ps, false);
    HoldsDescribes(r.productNegated, r.bSigned, r.bWidths, ps, true);
    HoldsDescribes(r.addendNegated, r.cSigned, r.cWidths, qs, false);
  }

  lemma {:induction false} PartitionSnoc(ts: seq<Term>, i: nat)
    requires i < |ts|
    ensures Products(ts[..i + 1]) == if ts[i].inB == [] then Products(ts[..i]) else Products(ts[..i]) + [ts[i]]
    ensures Addends(ts[..i + 1]) == if ts[i].inB == [] then Addends(ts[..i]) + [ts[i]] else Addends(ts[..i])
  {
    var front := ts[..i + 1];
    assert front[..|front| - 1] == ts[..i] && front[|front| - 1] == ts[i];
  }

  /** The loop over the terms. */
  method AppendAll(ts: seq<Term>) returns (cell: MaccCell)
    ensures Exact(cell, Products(ts), Addends(ts))
  {
    cell := MaccV2(0, [], 0, [], [], [], [], [], [], [], [], [], []);
    for i := 0 to |ts|
      invariant Exact(cell, Products(ts[..i]), Addends(ts[..i]))
    {
      PartitionSnoc(ts, i);
      if ts[i].inB == [] {
        cell := AppendAddend(cell, ts[i], Products(ts[..i]), Addends(ts[..i]));
      } else {
        cell := AppendProduct(cell, ts[i], Products(ts[..i]), Addends(ts[..i]));
      }
    }
    assert ts[..|ts|] == ts;
  }

  /** `to_cell`. */
  method ToCell(macc: Macc) returns (cell: MaccCell)
    ensures Holds(cell, Products(macc.terms), Addends(macc.terms)) && Complete(cell, Products(macc.terms), Addends(macc.terms))
    ensures cell.nproducts + cell.naddends == |macc.terms|
  {
    cell := AppendAll(macc.terms);
    PaddedIsComplete(cell, Products(macc.terms), Addends(macc.terms));
    PartitionCount(macc.terms);
    cell := Padded(cell);
  }

  lemma {:induction false} FieldAt(widths: Const, ts: seq<Term>, second: bool, i: nat)
    requires HoldsFields(widths, ts, second) && i < |ts| && Fits(ts[i])
    ensures 16 * i + 16 <= |widths| && ReadField(widths, i) == |Port(ts[i], second)|
  {
    assert FieldIs(widths, i, ts[i], second);
    FieldReads(widths, i, |Port(ts[i], second)|);
  }

  /** One port of a term: its width's field, and its slice of the port vector. */
  method ReadPort(widths: Const, ports: Sig, start: nat, i: nat, ghost ts: seq<Term>, ghost second: bool) returns (port: Sig, next: nat)
    requires HoldsFields(widths, ts, second) && i < |ts| && Fits(ts[i])
    requires ports == Ports(ts, second) && start == |Ports(ts[..i], second)|
    ensures port == Port(ts[i], second) && next == |Ports(ts[..i + 1], second)|
  {
    FieldAt(widths, ts, second, i);
    PortAt(ts, i, second);
    var width := ReadField(widths, i);
    port := ports[start..start + width];
    next := start + width;
  }

  method ReadProduct(cell: MaccCell, i: nat, ai: nat, bi: nat, ghost ps: seq<Term>, ghost qs: seq<Term>)
    returns (t: Term, ai': nat, bi': nat)
    requires Holds(cell, ps, qs) && i < |ps| && Fits(ps[i])
    requires ai == |Ports(ps[..i], false)| && bi == |Ports(ps[..i], true)|
    ensures t == ps[i] && ai' == |Ports(ps[..i + 1], false)| && bi' == |Ports(ps[..i + 1], true)|
  {
    var inA, inB;
    inA, ai' := ReadPort(cell.aWidths, cell.a, ai, i, ps, false);
    inB, bi' := ReadPort(cell.bWidths, cell.b, bi, i, ps, true);
    assert FlagsAre(cell.productNegated, cell.aSigned, i, ps[i]);
    t := Term(inA, inB, cell.aSigned[i] == S1, cell.productNegated[i] == S1);
  }

  method ReadAddend(cell: MaccCell, i: nat, ci: nat, ghost ps: seq<Term>, ghost qs: seq<Term>) returns (t: Term, ci': nat)
    requires Holds(cell, ps, qs) && i < |qs| && Fits(qs[i]) && qs[i].inB == []
    requires ci == |Ports(qs[..i], false)|
    ensures t == qs[i] && ci' == |Ports(qs[..i + 1], false)|
  {
    var inA;
    inA, ci' := ReadPort(cell.cWidths, cell.c, ci, i, qs, false);
    assert FlagsAre(cell.addendNegated, cell.cSigned, i, qs[i]);
    t := Term(inA, [], cell.cSigned[i] == S1, cell.addendNegated[i] == S1);
  }

  lemma {:induction false} Prefixes(ts: seq<Term>, i: nat)
    requires i < |ts|
    ensures ts[..i + 1] == ts[..i] + [ts[i]]
  {
  }

  method ReadProducts(cell: MaccCell, ghost ps: seq<Term>, ghost qs: seq<Term>) returns (terms: seq<Term>)
    requires Holds(cell, ps, qs) && (forall k | 0 <= k < |ps| :: Fits(ps[k]))
    ensures terms == ps
  {
    var ai, bi, n := 0, 0, cell.nproducts;
    terms := [];
    for i := 0 to n
      invariant terms == ps[..i] && ai == |Ports(ps[..i], false)| && bi == |Ports(ps[..i], true)|
    {
      var t;
      t, ai, bi := ReadProduct(cell, i, ai, bi, ps, qs);
      Prefixes(ps, i);
      terms := terms + [t];
    }
    assert ps[..n] == ps;
  }

  method ReadAddends(cell: MaccCell, ghost ps: seq<Term>, ghost qs: seq<Term>) returns (terms: seq<Term>)
    requires Holds(cell, ps, qs) && (forall k | 0 <= k < |qs| :: Fits(qs[k]) && qs[k].inB == [])
    ensures terms == qs
  {
    var ci, n := 0, cell.naddends;
    terms := [];
    for i := 0 to n
      invariant terms == qs[..i] && ci == |Ports(qs[..i], false)|
    {
      var t;
      t, ci := ReadAddend(cell, i, ci, ps, qs);
      Prefixes(qs, i);
      terms := terms + [t];
    }
    assert qs[..n] == qs;
  }

  /** `from_cell`, on the cell of products ps and addends qs. */
  method FromCell(macc: Macc, cell: MaccCell, ghost ps: seq<Term>, ghost qs: seq<Term>)
    requires Holds(cell, ps, qs) && (forall k | 0 <= k < |ps| :: Fits(ps[k]))
    requires forall k | 0 <= k < |qs| :: Fits(qs[k]) && qs[k].inB == []
    modifies macc
    ensures macc.terms == ps + qs
  {
    var products := ReadProducts(cell, ps, qs);
    var addends := ReadAddends(cell, ps, qs);
    macc.terms := products + addends;
  }

  /** Through a cell and back: products first, addends after them, and the same result on every input. */
  method RoundTrip(macc: Macc)
    requires forall k | 0 <= k < |macc.terms| :: Fits(macc.terms[k])
    modifies macc
    ensures macc.terms == Products(old(macc.terms)) + Addends(old(macc.terms))
    ensures forall env :: Total(macc.terms, env) == Total(old(macc.terms), env)
  {
    ghost var ts := macc.terms;
    var cell := ToCell(macc);
    FromCell(macc, cell, Products(ts), Addends(ts));
    forall env ensures Total(macc.terms, env) == Total(ts, env) {
      PartitionTotal(ts, env);
    }
  }
}
