/**
 * The AND-inverter graphs of cells (`kernel/cellaigs.cc`): construction with
 * structural hashing and constant folding, and removal of dead nodes.
 */
module Aigs {
  import opened Bits
  import opened Calc
  import opened Carry
  import opened ConstEval

  /** A constant (no port bit, no parents), an input bit, or an AND of two earlier nodes; each possibly inverted. */
  datatype AigNode = AigNode(portname: string, portbit: int, inverter: bool, leftParent: int, rightParent: int)
  {
    predicate Constant() {
      portbit < 0 && leftParent < 0 && rightParent < 0
    }

    predicate Gate() {
      leftParent >= 0
    }
  }

  type OutPort = (string, int)
  type Env = map<(string, int), bool>

  predicate InputBit(e: Env, port: string, bit: int) {
    (port, bit) in e && e[(port, bit)]
  }

  /** The three shapes of node number i. */
  predicate GoodNode(node: AigNode, i: int) {
    || node == AigNode("", -1, node.inverter, -1, -1)
    || (node.portbit >= 0 && node.leftParent == node.rightParent == -1)
    || (node.portname == "" && node.portbit == -1 && 0 <= node.leftParent <= node.rightParent < i)
  }

  ghost predicate GoodNodes(nodes: seq<AigNode>) {
    forall i | 0 <= i < |nodes| :: GoodNode(nodes[i], i)
  }

  /** The value of node i. */
  ghost function Val(nodes: seq<AigNode>, i: nat, e: Env): bool
    requires GoodNodes(nodes) && i < |nodes|
  {
    var n := nodes[i];
    var base := if n.Gate() then Val(nodes, n.leftParent, e) && Val(nodes, n.rightParent, e)
                else n.portbit >= 0 && InputBit(e, n.portname, n.portbit);
    base != n.inverter
  }

  /** Structural hashing: no node is stored twice. */
  ghost predicate Distinct(nodes: seq<AigNode>) {
    forall i, j | 0 <= i < j < |nodes| :: nodes[i] != nodes[j]
  }

  /** The parents in order. */
  function InOrder(node: AigNode): AigNode {
    if node.leftParent > node.rightParent then node.(leftParent := node.rightParent, rightParent := node.leftParent) else node
  }

  function IndexOf(nodes: seq<AigNode>, node: AigNode): (i: int)
    ensures i == -1 || (0 <= i < |nodes| && nodes[i] == node)
    ensures i == -1 ==> forall k | 0 <= k < |nodes| :: nodes[k] != node
  {
    if nodes == [] then -1
    else if nodes[|nodes| - 1] == node then |nodes| - 1
    else IndexOf(nodes[..|nodes| - 1], node)
  }

  datatype Cell = Cell(widths: map<string, nat>, signs: map<string, bool>)
  {
    function WidthOf(port: string): nat {
      if port in widths then widths[port] else 0
    }

    predicate IsSigned(port: string) {
      port in signs && signs[port]
    }

    /** A signed port of width 0 has no bit to repeat. */
    predicate Extendable(port: string) {
      IsSigned(port) ==> WidthOf(port) > 0
    }

    /** The integer on a port, by its own signedness. */
    function IntOf(port: string, e: Env): int {
      Value(Port(port, e), IsSigned(port))
    }

    /** A one-bit port. */
    predicate Flag(port: string, e: Env) {
      WidthOf(port) > 0 && InputBit(e, port, 0)
    }

    /** The reference outputs of $alu for the values on the ports. */
    function AluOf(e: Env): AluOutput<Bv> {
      AluBits(Extended("A", e, WidthOf("Y")), Extended("B", e, WidthOf("Y")), Flag("CI", e), Flag("BI", e))
    }

    /** The sum, or the difference. */
    function AddSubOf(e: Env, isSub: bool): int {
      if isSub then IntOf("A", e) - IntOf("B", e) else IntOf("A", e) + IntOf("B", e)
    }

    /** What the adder is given: B negated by inversion, less one. */
    function SumOf(aName: string, bName: string, e: Env, inverted: bool, c: bool): int {
      IntOf(aName, e) + (if inverted then -IntOf(bName, e) - 1 else IntOf(bName, e)) + Num(c)
    }

    /** The value on a port, extended by its own signedness. */
    function Extended(port: string, e: Env, width: nat): (r: Bv)
      ensures |r| == width
    {
      Extend(Port(port, e), width, IsSigned(port))
    }

    /** The value on a port. */
    function Port(port: string, e: Env): (r: Bv)
      ensures |r| == WidthOf(port)
    {
      seq(WidthOf(port), b requires 0 <= b < WidthOf(port) => InputBit(e, port, b))
    }
  }

  /** Inputs e make node i true. */
  ghost predicate On(meaning: seq<iset<Env>>, i: int, e: Env) {
    0 <= i < |meaning| && e in meaning[i]
  }

  ghost function VecBits(meaning: seq<iset<Env>>, v: seq<nat>, e: Env): (r: Bv)
    ensures |r| == |v|
  {
    seq(|v|, i requires 0 <= i < |v| => On(meaning, v[i], e))
  }

  /** The adder has dealt with the low i bits of a + b + c. */
  ghost predicate AddedUpTo(meaning: seq<iset<Env>>, y: seq<nat>, co: seq<nat>, carry: nat, e: Env, a: Bv, b: Bv, c: bool, i: nat) {
    && |a| == |b| && |y| == |co| == i <= |a|
    && VecBits(meaning, y, e) == SumBits(a, b, c)[..i]
    && VecBits(meaning, co, e) == CarriesOut(a, b, c)[..i]
    && On(meaning, carry, e) == CarryInto(a, b, c, i)
  }

  lemma {:induction false} AddedStep(m: seq<iset<Env>>, m': seq<iset<Env>>, y: seq<nat>, co: seq<nat>, carry: nat, yi: nat, carry': nat,
                                     e: Env, a: Bv, b: Bv, c: bool, i: nat)
    requires AddedUpTo(m, y, co, carry, e, a, b, c, i) && i < |a|
    requires forall k | 0 <= k < i :: On(m', y[k], e) == On(m, y[k], e) && On(m', co[k], e) == On(m, co[k], e)
    requires On(m', yi, e) == ((a[i] != b[i]) != On(m, carry, e)) && On(m', carry', e) == Majority(a[i], b[i], On(m, carry, e))
    ensures AddedUpTo(m', y + [yi], co + [carry'], carry', e, a, b, c, i + 1)
  {
    var s, k := SumBits(a, b, c), CarriesOut(a, b, c);
    assert s[..i + 1] == s[..i] + [s[i]] && k[..i + 1] == k[..i] + [k[i]];
    assert VecBits(m', y + [yi], e) == VecBits(m, y, e) + [On(m', yi, e)];
    assert VecBits(m', co + [carry'], e) == VecBits(m, co, e) + [On(m', carry', e)];
  }

  lemma {:induction false} AddedAll(m: seq<iset<Env>>, y: seq<nat>, co: seq<nat>, carry: nat, e: Env, a: Bv, b: Bv, c: bool)
    requires AddedUpTo(m, y, co, carry, e, a, b, c, |a|)
    ensures VecBits(m, y, e) == SumBits(a, b, c) && VecBits(m, co, e) == CarriesOut(a, b, c)
  {
  }

  class AigMaker {
    const cell: Cell
    var nodes: seq<AigNode>
    /** The output bits each node drives. */
    var outports: seq<seq<OutPort>>
    /** For each node the inputs that make it true. */
    ghost var meaning: seq<iset<Env>>
    /** Which node drives an output bit. */
    ghost var driver: map<OutPort, nat>

    ghost predicate Valid()
      reads this
    {
      && GoodNodes(nodes) && Distinct(nodes)
      && |meaning| == |outports| == |nodes|
      && (forall i, e {:trigger e in meaning[i]} | 0 <= i < |nodes| :: e in meaning[i] <==> Val(nodes, i, e))
      && (forall i, o {:trigger o in outports[i]} | 0 <= i < |nodes| :: o in outports[i] <==> o in driver && driver[o] == i)
      && (forall o | o in driver :: driver[o] < |nodes|)
    }

    predicate Node(i: int)
      reads this
    {
      0 <= i < |nodes|
    }

    constructor (cell: Cell)
      ensures Valid() && this.cell == cell && nodes == [] && driver == map[]
    {
      this.cell := cell;
      nodes, outports := [], [];
      meaning, driver := [], map[];
    }

    /** Nodes are only added. */
    twostate predicate Grown()
      reads this
    {
      && old(nodes) <= nodes && old(meaning) <= meaning && driver == old(driver)
      && forall k, e {:trigger On(meaning, k, e)} | 0 <= k < |old(meaning)| :: On(meaning, k, e) == On(old(meaning), k, e)
    }

    method Append(node: AigNode)
      requires Valid() && GoodNode(node, |nodes|) && node !in nodes
      modifies this
      ensures Valid() && Grown() && nodes == old(nodes) + [node]
    {
      ghost var before := nodes;
      nodes := nodes + [node];
      outports := outports + [[]];
      meaning := meaning + [iset e: Env | Val(nodes, |before|, e)];
      forall k: nat, e | k < |before| ensures Val(nodes, k, e) == Val(before, k, e) {
        ValPrefix(before, nodes, k, e);
      }
    }

    /** Looks a node up, with its parents in order, and adds it if it is new. */
    method Node2Index(node: AigNode) returns (i: nat)
      requires Valid() && GoodNode(InOrder(node), |nodes|)
      modifies this
      ensures Valid() && Grown() && Node(i) && nodes[i] == InOrder(node)
      decreases if node.leftParent > node.rightParent then 1 else 0
    {
      if node.leftParent > node.rightParent {
        i := Node2Index(node.(leftParent := node.rightParent, rightParent := node.leftParent));
        return;
      }
      if IndexOf(nodes, node) == -1 {
        Append(node);
      }
      i := IndexOf(nodes, node);
    }

    /** What a node says about its value. */
    lemma {:induction false} MeaningOf(i: int, e: Env)
      requires Valid() && Node(i)
      ensures nodes[i].Gate() ==> Node(nodes[i].leftParent) && Node(nodes[i].rightParent)
      ensures var base := if nodes[i].Gate() then On(meaning, nodes[i].leftParent, e) && On(meaning, nodes[i].rightParent, e)
                          else nodes[i].portbit >= 0 && InputBit(e, nodes[i].portname, nodes[i].portbit);
              On(meaning, i, e) <==> base != nodes[i].inverter
    {
    }

    method BoolNode(value: bool) returns (i: nat)
      requires Valid()
      modifies this
      ensures Valid() && Grown() && Node(i) && forall e :: On(meaning, i, e) <==> value
    {
      i := Node2Index(AigNode("", -1, value, -1, -1));
      forall e ensures On(meaning, i, e) <==> value { MeaningOf(i, e); }
    }

    /** A bit of a port, extended by its sign or by zeros, inverted on demand. */
    method Inport(portname: string, portbit: nat, inverter: bool) returns (i: nat)
      requires Valid() && cell.Extendable(portname)
      modifies this
      ensures Valid() && Grown() && Node(i)
      ensures forall e :: On(meaning, i, e) <==> Extend(cell.Port(portname, e), portbit + 1, cell.IsSigned(portname))[portbit] != inverter
      decreases portbit
    {
      if portbit >= cell.WidthOf(portname) {
        if cell.IsSigned(portname) {
          i := Inport(portname, cell.WidthOf(portname) - 1, inverter);
        } else {
          i := BoolNode(inverter);
        }
        return;
      }
      i := Node2Index(AigNode(portname, portbit, inverter, -1, -1));
      forall e ensures On(meaning, i, e) <==> InputBit(e, portname, portbit) != inverter { MeaningOf(i, e); }
    }

    method NotGate(a: nat) returns (i: nat)
      requires Valid() && Node(a)
      modifies this
      ensures Valid() && Grown() && Node(i) && forall e :: On(meaning, i, e) <==> !On(meaning, a, e)
    {
      i := Node2Index(nodes[a].(inverter := !nodes[a].inverter));
      forall e ensures On(meaning, i, e) <==> !On(meaning, a, e) {
        MeaningOf(i, e);
        MeaningOf(a, e);
      }
    }

    /** Folds equal, opposite and constant operands; otherwise adds a node. */
    method AndGate(a: nat, b: nat, inverter: bool) returns (i: nat)
      requires Valid() && Node(a) && Node(b)
      modifies this
      ensures Valid() && Grown() && Node(i) && forall e :: On(meaning, i, e) <==> (On(meaning, a, e) && On(meaning, b, e)) != inverter
    {
      if a == b {
        if inverter {
          i := NotGate(a);
        } else {
          i := a;
        }
        return;
      }
      var nA, nB := nodes[a], nodes[b];
      if nA == nB.(inverter := !nB.inverter) {
        forall e ensures !(On(meaning, a, e) && On(meaning, b, e)) {
          MeaningOf(a, e);
          MeaningOf(b, e);
        }
        i := BoolNode(inverter);
      } else if nA.Constant() || nB.Constant() {
        i := FoldConstant(a, b, inverter);
      } else {
        i := Node2Index(AigNode("", -1, inverter, a, b));
        forall e ensures On(meaning, i, e) <==> (On(meaning, a, e) && On(meaning, b, e)) != inverter { MeaningOf(i, e); }
      }
    }

    method FoldConstant(a: nat, b: nat, inverter: bool) returns (i: nat)
      requires Valid() && Node(a) && Node(b) && (nodes[a].Constant() || nodes[b].Constant())
      modifies this
      ensures Valid() && Grown() && Node(i) && forall e :: On(meaning, i, e) <==> (On(meaning, a, e) && On(meaning, b, e)) != inverter
    {
      var nA, nB := nodes[a], nodes[b];
      forall e ensures nA.Constant() ==> (On(meaning, a, e) <==> nA.inverter) { MeaningOf(a, e); }
      forall e ensures nB.Constant() ==> (On(meaning, b, e) <==> nB.inverter) { MeaningOf(b, e); }
      if nA.Constant() && nB.Constant() {
        i := BoolNode(inverter != (nA.inverter && nB.inverter));
      } else if nA.Constant() {
        i := AndWithConstant(nA.inverter, b, inverter);
      } else {
        i := AndWithConstant(nB.inverter, a, inverter);
      }
    }

    method AndWithConstant(value: bool, b: nat, inverter: bool) returns (i: nat)
      requires Valid() && Node(b)
      modifies this
      ensures Valid() && Grown() && Node(i) && forall e :: On(meaning, i, e) <==> (value && On(meaning, b, e)) != inverter
    {
      if inverter {
        if value {
          i := NotGate(b);
        } else {
          i := BoolNode(true);
        }
      } else if value {
        i := b;
      } else {
        i := BoolNode(false);
      }
    }

    method NandGate(a: nat, b: nat) returns (i: nat)
      requires Valid() && Node(a) && Node(b)
      modifies this
      ensures Valid() && Grown() && Node(i) && forall e :: On(meaning, i, e) <==> !(On(meaning, a, e) && On(meaning, b, e))
    {
      i := AndGate(a, b, true);
    }

    method OrGate(a: nat, b: nat) returns (i: nat)
      requires Valid() && Node(a) && Node(b)
      modifies this
      ensures Valid() && Grown() && Node(i) && forall e :: On(meaning, i, e) <==> On(meaning, a, e) || On(meaning, b, e)
    {
      var notA := NotGate(a);
      var notB := NotGate(b);
      i := NandGate(notA, notB);
    }

    method NorGate(a: nat, b: nat) returns (i: nat)
      requires Valid() && Node(a) && Node(b)
      modifies this
      ensures Valid() && Grown() && Node(i) && forall e :: On(meaning, i, e) <==> !(On(meaning, a, e) || On(meaning, b, e))
    {
      var notA := NotGate(a);
      var notB := NotGate(b);
      i := AndGate(notA, notB, false);
    }

    method XorGate(a: nat, b: nat) returns (i: nat)
      requires Valid() && Node(a) && Node(b)
      modifies this
      ensures Valid() && Grown() && Node(i) && forall e :: On(meaning, i, e) <==> (On(meaning, a, e) != On(meaning, b, e))
    {
      var both := AndGate(a, b, false);
      var neither := NorGate(a, b);
      i := NorGate(both, neither);
    }

    method MuxGate(a: nat, b: nat, s: nat) returns (i: nat)
      requires Valid() && Node(a) && Node(b) && Node(s)
      modifies this
      ensures Valid() && Grown() && Node(i) && forall e :: On(meaning, i, e) <==> if On(meaning, s, e) then On(meaning, b, e) else On(meaning, a, e)
    {
      var notS := NotGate(s);
      var left := AndGate(a, notS, false);
      var right := AndGate(b, s, false);
      i := OrGate(left, right);
    }
  
    // ------------------------------------------------------------- vectors

    predicate Nodes(v: seq<nat>)
      reads this
    {
      forall i :: 0 <= i < |v| ==> v[i] < |nodes|
    }

    method InportVec(portname: string, width: nat) returns (vec: seq<nat>)
      requires Valid() && cell.Extendable(portname)
      modifies this
      ensures Valid() && Grown() && |vec| == width && Nodes(vec)
      ensures forall e :: VecBits(meaning, vec, e) == cell.Extended(portname, e, width)
    {
      vec := [];
      for i := 0 to width
        invariant Valid() && Grown() && |vec| == i && Nodes(vec)
        invariant forall e, k | 0 <= k < i :: On(meaning, vec[k], e) <==> Extend(cell.Port(portname, e), width, cell.IsSigned(portname))[k]
      {
        var node := Inport(portname, i, false);
        vec := vec + [node];
      }
    }

    method CarryGate(a: nat, b: nat, carry: nat) returns (i: nat)
      requires Valid() && Node(a) && Node(b) && Node(carry)
      modifies this
      ensures Valid() && Grown() && Node(i)
      ensures forall e :: On(meaning, i, e) <==> Majority(On(meaning, a, e), On(meaning, b, e), On(meaning, carry, e))
    {
      var both := AndGate(a, b, false);
      var either := OrGate(a, b);
      var passed := AndGate(either, carry, false);
      i := OrGate(both, passed);
    }

    method SumGate(a: nat, b: nat, carry: nat) returns (i: nat)
      requires Valid() && Node(a) && Node(b) && Node(carry)
      modifies this
      ensures Valid() && Grown() && Node(i)
      ensures forall e :: On(meaning, i, e) <==> ((On(meaning, a, e) != On(meaning, b, e)) != On(meaning, carry, e))
    {
      var ab := XorGate(a, b);
      i := XorGate(ab, carry);
    }

    method FullAdder(a: nat, b: nat, carry: nat) returns (y: nat, carry': nat)
      requires Valid() && Node(a) && Node(b) && Node(carry)
      modifies this
      ensures Valid() && Grown() && Node(y) && Node(carry')
      ensures forall e :: On(meaning, y, e) <==> ((On(old(meaning), a, e) != On(old(meaning), b, e)) != On(old(meaning), carry, e))
      ensures forall e :: On(meaning, carry', e) <==> Majority(On(old(meaning), a, e), On(old(meaning), b, e), On(old(meaning), carry, e))
    {
      y := SumGate(a, b, carry);
      carry' := CarryGate(a, b, carry);
    }

    /** A chain of full adders; each carry is also an output. */
    method Adder(a: seq<nat>, b: seq<nat>, carryIn: nat) returns (y: seq<nat>, co: seq<nat>)
      requires Valid() && |a| == |b| && Nodes(a) && Nodes(b) && Node(carryIn)
      modifies this
      ensures Valid() && Grown() && |y| == |co| == |a| && Nodes(y) && Nodes(co)
      ensures forall e :: VecBits(meaning, y, e) == SumBits(VecBits(old(meaning), a, e), VecBits(old(meaning), b, e), On(old(meaning), carryIn, e))
      ensures forall e :: VecBits(meaning, co, e) == CarriesOut(VecBits(old(meaning), a, e), VecBits(old(meaning), b, e), On(old(meaning), carryIn, e))
    {
      var carry := carryIn;
      ghost var m := meaning;
      y, co := [], [];
      for i := 0 to |a|
        invariant Valid() && Grown() && Nodes(y) && Nodes(co) && Node(carry)
        invariant |y| == |co| == i
        invariant forall e :: AddedUpTo(meaning, y, co, carry, e, VecBits(m, a, e), VecBits(m, b, e), On(m, carryIn, e), i)
      {
        ghost var m1 := meaning;
        var yi, carry' := FullAdder(a[i], b[i], carry);
        forall e ensures AddedUpTo(meaning, y + [yi], co + [carry'], carry', e, VecBits(m, a, e), VecBits(m, b, e), On(m, carryIn, e), i + 1) {
          assert AddedUpTo(m1, y, co, carry, e, VecBits(m, a, e), VecBits(m, b, e), On(m, carryIn, e), i);
          AddedStep(m1, meaning, y, co, carry, yi, carry', e, VecBits(m, a, e), VecBits(m, b, e), On(m, carryIn, e), i);
        }
        y, co, carry := y + [yi], co + [carry'], carry';
      }
      forall e
        ensures VecBits(meaning, y, e) == SumBits(VecBits(m, a, e), VecBits(m, b, e), On(m, carryIn, e))
        ensures VecBits(meaning, co, e) == CarriesOut(VecBits(m, a, e), VecBits(m, b, e), On(m, carryIn, e))
      {
        AddedAll(meaning, y, co, carry, e, VecBits(m, a, e), VecBits(m, b, e), On(m, carryIn, e));
      }
    }

    method NotVec(v: seq<nat>) returns (r: seq<nat>)
      requires Valid() && Nodes(v)
      modifies this
      ensures Valid() && Grown() && |r| == |v| && Nodes(r)
      ensures forall e :: VecBits(meaning, r, e) == Not(VecBits(old(meaning), v, e))
    {
      r := [];
      for i := 0 to |v|
        invariant Valid() && Grown() && |r| == i && Nodes(r)
        invariant forall e, k | 0 <= k < i :: On(meaning, r[k], e) <==> !On(old(meaning), v[k], e)
      {
        var n := NotGate(v[i]);
        r := r + [n];
      }
    }

    method XorVec(v: seq<nat>, w: seq<nat>) returns (r: seq<nat>)
      requires Valid() && Nodes(v) && Nodes(w) && |v| == |w|
      modifies this
      ensures Valid() && Grown() && |r| == |v| && Nodes(r)
      ensures forall e, k | 0 <= k < |v| :: On(meaning, r[k], e) <==> On(old(meaning), v[k], e) != On(old(meaning), w[k], e)
    {
      r := [];
      for i := 0 to |v|
        invariant Valid() && Grown() && |r| == i && Nodes(r)
        invariant forall e, k | 0 <= k < i :: On(meaning, r[k], e) <==> On(old(meaning), v[k], e) != On(old(meaning), w[k], e)
      {
        var n := XorGate(v[i], w[i]);
        r := r + [n];
      }
    }

    // ------------------------------------------------------------- outputs

    method Outport(node: nat, portname: string, portbit: nat)
      requires Valid() && Node(node) && (portname, portbit) !in driver
      modifies this
      ensures Valid() && nodes == old(nodes) && meaning == old(meaning)
      ensures driver == if portbit < cell.WidthOf(portname) then old(driver)[(portname, portbit) := node] else old(driver)
    {
      if portbit < cell.WidthOf(portname) {
        outports := outports[node := outports[node] + [(portname, portbit)]];
        driver := driver[(portname, portbit) := node];
      }
    }

    ghost predicate Undriven(portname: string)
      reads this
    {
      forall b: int :: (portname, b) !in driver
    }

    /** Every bit of an output port is driven by the matching node. */
    ghost predicate PortDriven(portname: string, vec: seq<nat>)
      reads this
    {
      && |vec| == cell.WidthOf(portname)
      && (forall o | o in driver && o.0 == portname :: 0 <= o.1 < |vec|)
      && (forall b | 0 <= b < |vec| :: (portname, b) in driver && driver[(portname, b)] == vec[b])
    }

    /** Only this port gets drivers, and nodes are only added. */
    twostate predicate OnlyDrives(portname: string)
      reads this
    {
      && old(nodes) <= nodes && old(meaning) <= meaning
      && (forall k, e {:trigger On(meaning, k, e)} | 0 <= k < |old(meaning)| :: On(meaning, k, e) == On(old(meaning), k, e))
      && (forall o | o in driver && o.0 != portname :: o in old(driver))
      && (forall o | o in old(driver) :: o in driver && driver[o] == old(driver)[o])
    }

    method OutportVec(vec: seq<nat>, portname: string)
      requires Valid() && Nodes(vec) && |vec| == cell.WidthOf(portname) && Undriven(portname)
      modifies this
      ensures Valid() && PortDriven(portname, vec) && OnlyDrives(portname) && nodes == old(nodes) && meaning == old(meaning)
    {
      for i := 0 to |vec|
        invariant Valid() && nodes == old(nodes) && meaning == old(meaning)
        invariant forall o | o in driver :: o in old(driver) || (o.0 == portname && 0 <= o.1 < i)
        invariant forall o | o in old(driver) :: o in driver && driver[o] == old(driver)[o]
        invariant forall b | 0 <= b < i :: (portname, b) in driver && driver[(portname, b)] == vec[b]
      {
        Outport(vec[i], portname, i);
      }
    }

    /** One bit, and zeros above it. */
    method OutportBool(node: nat, portname: string) returns (ghost vec: seq<nat>)
      requires Valid() && Node(node) && Undriven(portname)
      modifies this
      ensures Valid() && PortDriven(portname, vec) && OnlyDrives(portname) && Nodes(vec) && (|vec| > 0 ==> vec[0] == node)
      ensures forall e, k | 0 < k < |vec| :: !On(meaning, vec[k], e)
    {
      Outport(node, portname, 0);
      vec := [];
      if cell.WidthOf(portname) == 0 {
        return;
      }
      vec := [node];
      for i := 1 to cell.WidthOf(portname)
        invariant Valid() && old(nodes) <= nodes && old(meaning) <= meaning
        invariant forall k, e {:trigger On(meaning, k, e)} | 0 <= k < |old(meaning)| :: On(meaning, k, e) == On(old(meaning), k, e)
        invariant |vec| == i && Nodes(vec) && vec[0] == node
        invariant forall o | o in driver :: o in old(driver) || (o.0 == portname && 0 <= o.1 < i)
        invariant forall o | o in old(driver) :: o in driver && driver[o] == old(driver)[o]
        invariant forall b | 0 <= b < i :: (portname, b) in driver && driver[(portname, b)] == vec[b]
        invariant forall e, k | 0 < k < i :: !On(meaning, vec[k], e)
      {
        var zero := BoolNode(false);
        Outport(zero, portname, i);
        vec := vec + [zero];
      }
    }
  
    /** Under inputs e the output port carries `want`. */
    ghost predicate OutputIs(portname: string, e: Env, want: Bv)
      reads this
    {
      && |want| == cell.WidthOf(portname)
      && (forall b | 0 <= b < |want| :: (portname, b) in driver && On(meaning, driver[(portname, b)], e) == want[b])
      && (forall o | o in driver && o.0 == portname :: 0 <= o.1 < |want|)
    }

    /** The output of the finished graph. */
    lemma {:induction false} EmitsOutput(portname: string, e: Env)
      requires Valid()
      ensures forall want :: OutputIs(portname, e, want) ==> Emits(Aig(nodes, outports), portname, e, want)
    {
      var aig := Aig(nodes, outports);
      forall want | OutputIs(portname, e, want) ensures Emits(aig, portname, e, want) {
        forall b | 0 <= b < |want| ensures Driven(aig, (portname, b)) {
          assert Drives(aig, driver[(portname, b)], (portname, b));
        }
        forall i, o | Drives(aig, i, o) && o.0 == portname ensures 0 <= o.1 < |want| && Val(aig.nodes, i, e) == want[o.1] {
          assert o == (portname, o.1) && driver[o] == i;
        }
      }
    }

    lemma {:induction false} DrivenIs(portname: string, vec: seq<nat>, e: Env)
      requires PortDriven(portname, vec)
      ensures OutputIs(portname, e, VecBits(meaning, vec, e))
    {
    }

    lemma {:induction false} DrivenFlag(portname: string, vec: seq<nat>, e: Env, b: bool)
      requires PortDriven(portname, vec) && |vec| > 0
      requires On(meaning, vec[0], e) == b && forall k | 0 < k < |vec| :: !On(meaning, vec[k], e)
      ensures OutputIs(portname, e, Lone(b, |vec|))
    {
    }

    // --------------------------------------------------------------- cells

    /** Both operands at a width, with B inverted on demand, and a constant carry. */
    method Operands(aName: string, bName: string, width: nat, inverted: bool, carryValue: bool) returns (a: seq<nat>, b: seq<nat>, carry: nat)
      requires Valid() && cell.Extendable(aName) && cell.Extendable(bName)
      modifies this
      ensures Valid() && Grown() && Nodes(a) && Nodes(b) && Node(carry) && |a| == |b| == width
      ensures forall e :: VecBits(meaning, a, e) == cell.Extended(aName, e, width)
      ensures forall e :: VecBits(meaning, b, e) == NotIf(cell.Extended(bName, e, width), inverted)
      ensures forall e :: On(meaning, carry, e) == carryValue
    {
      a := InportVec(aName, width);
      ghost var m := meaning;
      b := InportVec(bName, width);
      if inverted {
        b := NotVec(b);
      }
      carry := BoolNode(carryValue);
      forall e ensures VecBits(meaning, a, e) == cell.Extended(aName, e, width) {
        assert VecBits(meaning, a, e) == VecBits(m, a, e);
      }
      forall e ensures VecBits(meaning, b, e) == NotIf(cell.Extended(bName, e, width), inverted) {
        assert forall k | 0 <= k < width :: On(meaning, b[k], e) == NotIf(cell.Extended(bName, e, width), inverted)[k];
      }
    }

    /** The adder over two ports: a + b + c, and with b inverted a - b - 1 + c. */
    method SumOfPorts(aName: string, bName: string, width: nat, inverted: bool, c: bool) returns (y: seq<nat>)
      requires Valid() && cell.Extendable(aName) && cell.Extendable(bName)
      modifies this
      ensures Valid() && Grown() && Nodes(y) && |y| == width
      ensures forall e :: VecBits(meaning, y, e) == FromInt(cell.SumOf(aName, bName, e, inverted, c), width)
    {
      var a, b, carry := Operands(aName, bName, width, inverted, c);
      ghost var m := meaning;
      var co;
      y, co := Adder(a, b, carry);
      forall e ensures VecBits(meaning, y, e) == FromInt(cell.SumOf(aName, bName, e, inverted, c), width) {
        CellSum(cell, aName, bName, e, inverted, c, width);
      }
    }

    /** $add and $sub. */
    method AddSub(isSub: bool)
      requires Valid() && Undriven("Y") && cell.Extendable("A") && cell.Extendable("B")
      modifies this
      ensures Valid()
      ensures forall e :: OutputIs("Y", e, FromInt(cell.AddSubOf(e, isSub), cell.WidthOf("Y")))
    {
      var width := cell.WidthOf("Y");
      var y := SumOfPorts("A", "B", width, isSub, isSub);
      forall e ensures VecBits(meaning, y, e) == FromInt(cell.AddSubOf(e, isSub), width) {
        assert cell.SumOf("A", "B", e, isSub, isSub) == cell.AddSubOf(e, isSub);
      }
      OutportVec(y, "Y");
      forall e ensures OutputIs("Y", e, FromInt(cell.AddSubOf(e, isSub), width)) {
        DrivenIs("Y", y, e);
      }
    }

    /** $lt, $le, $gt and $ge: the sign of a difference one bit wider than both operands. */
    method Compare(op: CellOp)
      requires Valid() && Undriven("Y") && cell.Extendable("A") && cell.Extendable("B") && op.Ordering()
      requires cell.IsSigned("A") == cell.IsSigned("B") && cell.WidthOf("Y") > 0
      modifies this
      ensures Valid()
      ensures forall e :: OutputIs("Y", e, Lone(IntOrder(op, cell.IntOf("A", e), cell.IntOf("B", e)), cell.WidthOf("Y")))
    {
      var width := Max(cell.WidthOf("A"), cell.WidthOf("B")) + 1;
      var swapped := op.Gt? || op.Ge?;
      var first, second := if swapped then "B" else "A", if swapped then "A" else "B";
      var y := DifferenceSignBit(first, second, width, !(op.Le? || op.Ge?));
      var vec := OutportBool(y, "Y");
      forall e ensures OutputIs("Y", e, Lone(IntOrder(op, cell.IntOf("A", e), cell.IntOf("B", e)), cell.WidthOf("Y"))) {
        DrivenFlag("Y", vec, e, IntOrder(op, cell.IntOf("A", e), cell.IntOf("B", e)));
      }
    }

    method DifferenceSignBit(first: string, second: string, width: nat, strict: bool) returns (y: nat)
      requires Valid() && cell.Extendable(first) && cell.Extendable(second)
      requires cell.IsSigned(first) == cell.IsSigned(second)
      requires width == Max(cell.WidthOf(first), cell.WidthOf(second)) + 1
      modifies this
      ensures Valid() && Grown() && Node(y)
      ensures forall e :: On(meaning, y, e) <==>
                if strict then cell.IntOf(first, e) < cell.IntOf(second, e) else cell.IntOf(first, e) <= cell.IntOf(second, e)
    {
      var sum := SumOfPorts(first, second, width, true, strict);
      y := sum[width - 1];
      forall e ensures On(meaning, y, e) <==>
                       if strict then cell.IntOf(first, e) < cell.IntOf(second, e) else cell.IntOf(first, e) <= cell.IntOf(second, e)
      {
        assert On(meaning, y, e) == VecBits(meaning, sum, e)[width - 1];
        DifferenceSign(cell.Port(first, e), cell.Port(second, e), cell.IsSigned(first), strict);
      }
    }

    /** $eq and $ne. */
    method Equality(isEq: bool)
      requires Valid() && Undriven("Y") && cell.Extendable("A") && cell.Extendable("B") && cell.WidthOf("Y") > 0
      requires cell.IsSigned("A") == cell.IsSigned("B")
      modifies this
      ensures Valid()
      ensures forall e :: OutputIs("Y", e, Lone((cell.IntOf("A", e) == cell.IntOf("B", e)) == isEq, cell.WidthOf("Y")))
    {
      var width := Max(cell.WidthOf("A"), cell.WidthOf("B"));
      var y := AnyDifference(width);
      if isEq {
        y := NotGate(y);
      }
      ghost var m := meaning;
      var vec := OutportBool(y, "Y");
      forall e ensures OutputIs("Y", e, Lone((cell.IntOf("A", e) == cell.IntOf("B", e)) == isEq, cell.WidthOf("Y"))) {
        EqualExtended(cell.Port("A", e), cell.Port("B", e), cell.IsSigned("A"), width);
        DrivenFlag("Y", vec, e, (cell.IntOf("A", e) == cell.IntOf("B", e)) == isEq);
      }
    }

    method OrDifference(y: nat, a: nat, b: nat) returns (r: nat)
      requires Valid() && Node(y) && Node(a) && Node(b)
      modifies this
      ensures Valid() && Grown() && Node(r)
      ensures forall e :: On(meaning, r, e) <==> On(old(meaning), y, e) || On(old(meaning), a, e) != On(old(meaning), b, e)
    {
      var differ := XorGate(a, b);
      r := OrGate(y, differ);
    }

    method AnyDifference(width: nat) returns (y: nat)
      requires Valid() && cell.Extendable("A") && cell.Extendable("B")
      modifies this
      ensures Valid() && Grown() && Node(y)
      ensures forall e :: On(meaning, y, e) <==> cell.Extended("A", e, width) != cell.Extended("B", e, width)
    {
      var a, b, zero := Operands("A", "B", width, false, false);
      ghost var m := meaning;
      y := zero;
      for i := 0 to width
        invariant Valid() && Grown() && Node(y) && m <= meaning
        invariant forall k, e {:trigger On(meaning, k, e)} | 0 <= k < |m| :: On(meaning, k, e) == On(m, k, e)
        invariant forall e :: On(meaning, y, e) <==> DifferBelow(VecBits(m, a, e), VecBits(m, b, e), i)
      {
        y := OrDifference(y, a[i], b[i]);
        forall e ensures On(meaning, y, e) <==> DifferBelow(VecBits(m, a, e), VecBits(m, b, e), i + 1) {
          DifferNext(VecBits(m, a, e), VecBits(m, b, e), i);
        }
      }
      forall e ensures On(meaning, y, e) <==> cell.Extended("A", e, width) != cell.Extended("B", e, width) {
        DifferAtAll(VecBits(m, a, e), VecBits(m, b, e));
      }
    }
  
    /** $alu. */
    method Alu()
      requires Valid() && Undriven("Y") && Undriven("X") && Undriven("CO")
      requires cell.Extendable("A") && cell.Extendable("B") && cell.Extendable("CI") && cell.Extendable("BI")
      requires cell.WidthOf("X") == cell.WidthOf("CO") == cell.WidthOf("Y")
      modifies this
      ensures Valid()
      ensures forall e :: OutputIs("X", e, cell.AluOf(e).x) && OutputIs("Y", e, cell.AluOf(e).y) && OutputIs("CO", e, cell.AluOf(e).co)
    {
      var width := cell.WidthOf("Y");
      var a, b, carry := AluOperands(width);
      var y, x, co := AluVectors(a, b, carry);
      OutportVec(y, "Y");
      OutportVec(x, "X");
      OutportVec(co, "CO");
      forall e ensures OutputIs("X", e, cell.AluOf(e).x) && OutputIs("Y", e, cell.AluOf(e).y) && OutputIs("CO", e, cell.AluOf(e).co) {
        DrivenIs("Y", y, e);
        DrivenIs("X", x, e);
        DrivenIs("CO", co, e);
      }
    }

    method AluOperands(width: nat) returns (a: seq<nat>, b: seq<nat>, carry: nat)
      requires Valid()
      requires cell.Extendable("A") && cell.Extendable("B") && cell.Extendable("CI") && cell.Extendable("BI")
      modifies this
      ensures Valid() && Grown() && Nodes(a) && Nodes(b) && Node(carry) && |a| == |b| == width
      ensures forall e :: VecBits(meaning, a, e) == cell.Extended("A", e, width)
      ensures forall e :: VecBits(meaning, b, e) == Inverted(cell.Extended("B", e, width), cell.Flag("BI", e))
      ensures forall e :: On(meaning, carry, e) == cell.Flag("CI", e)
    {
      a := InportVec("A", width);
      ghost var m1 := meaning;
      var b0 := InportVec("B", width);
      carry := Inport("CI", 0, false);
      var binv := Inport("BI", 0, false);
      ghost var m2 := meaning;
      b := XorWith(b0, binv);
      forall e ensures VecBits(meaning, a, e) == cell.Extended("A", e, width) {
        assert VecBits(meaning, a, e) == VecBits(m1, a, e);
      }
      forall e ensures VecBits(meaning, b, e) == Inverted(cell.Extended("B", e, width), cell.Flag("BI", e)) {
        assert VecBits(m2, b0, e) == cell.Extended("B", e, width);
        assert On(m2, binv, e) == cell.Flag("BI", e);
      }
    }

    method XorWith(v: seq<nat>, n: nat) returns (r: seq<nat>)
      requires Valid() && Nodes(v) && Node(n)
      modifies this
      ensures Valid() && Grown() && |r| == |v| && Nodes(r)
      ensures forall e :: VecBits(meaning, r, e) == Inverted(VecBits(old(meaning), v, e), On(old(meaning), n, e))
    {
      var ns := seq(|v|, _ => n);
      r := XorVec(v, ns);
    }

    method AluVectors(a: seq<nat>, b: seq<nat>, carry: nat) returns (y: seq<nat>, x: seq<nat>, co: seq<nat>)
      requires Valid() && Nodes(a) && Nodes(b) && |a| == |b| && Node(carry)
      modifies this
      ensures Valid() && Grown() && Nodes(y) && Nodes(x) && Nodes(co) && |y| == |x| == |co| == |a|
      ensures forall e :: VecBits(meaning, x, e) == Xored(VecBits(old(meaning), a, e), VecBits(old(meaning), b, e))
      ensures forall e :: VecBits(meaning, y, e) == SumBits(VecBits(old(meaning), a, e), VecBits(old(meaning), b, e), On(old(meaning), carry, e))
      ensures forall e :: VecBits(meaning, co, e) == CarriesOut(VecBits(old(meaning), a, e), VecBits(old(meaning), b, e), On(old(meaning), carry, e))
    {
      y, co := Adder(a, b, carry);
      ghost var m := meaning;
      x := XorVec(a, b);
      forall e ensures VecBits(meaning, y, e) == VecBits(m, y, e) && VecBits(meaning, co, e) == VecBits(m, co, e) { }
    }
  }

  function Xored(a: Bv, b: Bv): (r: Bv)
    requires |a| == |b|
    ensures |r| == |a|
  {
    seq(|a|, i requires 0 <= i < |a| => a[i] != b[i])
  }

  predicate DifferBelow(a: Bv, b: Bv, i: nat) {
    |a| == |b| && i <= |a| && exists k :: 0 <= k < i && a[k] != b[k]
  }

  lemma {:induction false} DifferNext(a: Bv, b: Bv, i: nat)
    requires i < |a| && |a| == |b|
    ensures DifferBelow(a, b, i + 1) <==> DifferBelow(a, b, i) || a[i] != b[i]
  {
  }

  lemma {:induction false} DifferAtAll(a: Bv, b: Bv)
    requires |a| == |b|
    ensures DifferBelow(a, b, |a|) <==> a != b
  {
  }

  /** With equal signedness the difference fits in one more bit, so its top bit is its sign. */
  lemma {:induction false} DifferenceSign(a: Bv, b: Bv, signed: bool, c: bool)
    ensures var w := Max(|a|, |b|);
            FromInt(Value(a, signed) - Value(b, signed) - 1 + Num(c), w + 1)[w]
            <==> if c then Value(a, signed) < Value(b, signed) else Value(a, signed) <= Value(b, signed)
  {
    var w, d := Max(|a|, |b|), Value(a, signed) - Value(b, signed) - 1 + Num(c);
    ValueWithin(a, signed, w);
    ValueWithin(b, signed, w);
    SmallSigned(d, w + 1);
    ValueRange(FromInt(d, w + 1));
  }

  lemma {:induction false} ValueWithin(a: Bv, signed: bool, w: nat)
    requires |a| <= w
    ensures if signed then 0 - Pow2(w) <= 2 * Value(a, signed) < Pow2(w) else 0 <= Value(a, signed) < Pow2(w)
  {
    Pow2Monotone(|a|, w);
    if signed && a != [] {
      ValueRange(a);
    }
  }

  lemma {:induction false} EqualExtended(a: Bv, b: Bv, signed: bool, w: nat)
    requires |a| <= w && |b| <= w
    ensures Extend(a, w, signed) == Extend(b, w, signed) <==> Value(a, signed) == Value(b, signed)
  {
    ExtendIs(a, w, signed);
    ExtendIs(b, w, signed);
    ValueWithin(a, signed, w);
    ValueWithin(b, signed, w);
    if w > 0 {
      if signed {
        SmallSigned(Value(a, signed), w);
        SmallSigned(Value(b, signed), w);
      } else {
        Small(Value(a, signed), w);
        Small(Value(b, signed), w);
      }
    }
  }

  function NotIf(x: Bv, inverted: bool): (r: Bv)
    ensures |r| == |x|
  {
    if inverted then Not(x) else x
  }

  /** a + b + c, and with b inverted a - b - 1 + c. */
  lemma {:induction false} AdderComputes(a: Bv, b: Bv, aSigned: bool, bSigned: bool, inverted: bool, c: bool, w: nat)
    ensures SumBits(Extend(a, w, aSigned), NotIf(Extend(b, w, bSigned), inverted), c)
            == FromInt(Value(a, aSigned) + (if inverted then -Value(b, bSigned) - 1 else Value(b, bSigned)) + Num(c), w)
  {
    var m, n := Value(a, aSigned), if inverted then -Value(b, bSigned) - 1 else Value(b, bSigned);
    ExtendIs(a, w, aSigned);
    ExtendIs(b, w, bSigned);
    NotIs(Value(b, bSigned), w);
    SumOfInts(Extend(a, w, aSigned), NotIf(Extend(b, w, bSigned), inverted), m, n, c, w);
  }

  lemma {:induction false} SumOfInts(x: Bv, y: Bv, m: int, n: int, c: bool, w: nat)
    requires x == FromInt(m, w) && y == FromInt(n, w)
    ensures SumBits(x, y, c) == FromInt(m + n + Num(c), w)
  {
    RippleIsSum(x, y, c);
    ThreeTerms(m, n, Num(c), w);
  }

  lemma {:induction false} CellSum(cell: Cell, aName: string, bName: string, e: Env, inverted: bool, c: bool, w: nat)
    ensures SumBits(cell.Extended(aName, e, w), NotIf(cell.Extended(bName, e, w), inverted), c)
            == FromInt(cell.SumOf(aName, bName, e, inverted, c), w)
  {
    AdderComputes(cell.Port(aName, e), cell.Port(bName, e), cell.IsSigned(aName), cell.IsSigned(bName), inverted, c, w);
  }

  lemma {:induction false} ThreeTerms(m: int, n: int, c: int, w: nat)
    ensures FromInt(ToNat(FromInt(m, w)) + ToNat(FromInt(n, w)) + c, w) == FromInt(m + n + c, w)
  {
    Split(m, w);
    Split(n, w);
    Distribute(High(m, w), High(n, w), Pow2(w));
    Same(m + n + c, ToNat(FromInt(m, w)) + ToNat(FromInt(n, w)) + c, High(m, w) + High(n, w), w);
  }

  /** Later nodes do not matter. */
  lemma {:induction false} ValPrefix(s: seq<AigNode>, t: seq<AigNode>, i: nat, e: Env)
    requires GoodNodes(s) && GoodNodes(t) && i < |s| <= |t| && t[..|s|] == s
    ensures Val(t, i, e) == Val(s, i, e)
  {
    assert t[i] == s[i];
    if s[i].Gate() {
      ValPrefix(s, t, s[i].leftParent, e);
      ValPrefix(s, t, s[i].rightParent, e);
    }
  }

  // ------------------------------------------------ removal of dead nodes

  datatype Aig = Aig(nodes: seq<AigNode>, outports: seq<seq<OutPort>>)

  ghost predicate GoodAig(aig: Aig) {
    GoodNodes(aig.nodes) && |aig.outports| == |aig.nodes|
  }

  predicate Drives(aig: Aig, i: int, o: OutPort) {
    0 <= i < |aig.outports| && o in aig.outports[i]
  }

  /** Under inputs e the port carries `want`: each bit is driven, and only by nodes of that value. */
  ghost predicate Emits(aig: Aig, port: string, e: Env, want: Bv)
    requires GoodAig(aig)
  {
    && (forall b | 0 <= b < |want| :: Driven(aig, (port, b)))
    && (forall i, o | Drives(aig, i, o) && o.0 == port :: 0 <= o.1 < |want| && Val(aig.nodes, i, e) == want[o.1])
  }

  ghost predicate Driven(aig: Aig, o: OutPort) {
    exists i :: Drives(aig, i, o)
  }

  predicate ParentOf(nodes: seq<AigNode>, k: int, j: int) {
    0 <= j < |nodes| && nodes[j].Gate() && (nodes[j].leftParent == k || nodes[j].rightParent == k)
  }

  ghost predicate HasUser(nodes: seq<AigNode>, used: set<int>, k: int, from: int) {
    exists j :: from <= j && j in used && ParentOf(nodes, k, j)
  }

  /** What is needed: nodes that drive an output, and the parents of needed nodes. */
  ghost predicate Needed(aig: Aig, used: set<int>) {
    && (forall k | k in used :: 0 <= k < |aig.nodes|)
    && (forall k | 0 <= k < |aig.outports| :: k in used <==> aig.outports[k] != [] || HasUser(aig.nodes, used, k, 0))
  }

  method MarkUsed(aig: Aig) returns (used: set<int>)
    requires GoodAig(aig)
    ensures Needed(aig, used)
  {
    used := {};
    var i := |aig.nodes|;
    while i > 0
      invariant 0 <= i <= |aig.nodes|
      invariant forall k | k in used :: 0 <= k < |aig.nodes|
      invariant forall k | i <= k < |aig.nodes| :: k in used <==> aig.outports[k] != [] || HasUser(aig.nodes, used, k, i)
      invariant forall k | 0 <= k < i :: k in used <==> HasUser(aig.nodes, used, k, i)
    {
      i := i - 1;
      ghost var used0 := used;
      if aig.outports[i] != [] {
        used := used + {i};
      }
      if i in used {
        if aig.nodes[i].leftParent >= 0 {
          used := used + {aig.nodes[i].leftParent};
        }
        if aig.nodes[i].rightParent >= 0 {
          used := used + {aig.nodes[i].rightParent};
        }
      }
      MarkStep(aig, used0, used, i);
    }
  }

  lemma {:induction false} MarkStep(aig: Aig, used: set<int>, used': set<int>, i: nat)
    requires GoodAig(aig) && i < |aig.nodes|
    requires forall k | k in used :: 0 <= k < |aig.nodes|
    requires forall k | i + 1 <= k < |aig.nodes| :: k in used <==> aig.outports[k] != [] || HasUser(aig.nodes, used, k, i + 1)
    requires forall k | 0 <= k < i + 1 :: k in used <==> HasUser(aig.nodes, used, k, i + 1)
    requires var live := i in used || aig.outports[i] != [];
             used' == used + (if live then {i} else {}) + (if live && aig.nodes[i].Gate() then {aig.nodes[i].leftParent, aig.nodes[i].rightParent} else {})
    ensures forall k | i <= k < |aig.nodes| :: k in used' <==> aig.outports[k] != [] || HasUser(aig.nodes, used', k, i)
    ensures forall k | 0 <= k < i :: k in used' <==> HasUser(aig.nodes, used', k, i)
  {
    forall k | 0 <= k < |aig.nodes|
      ensures HasUser(aig.nodes, used', k, i) <==> HasUser(aig.nodes, used, k, i + 1) || (i in used' && ParentOf(aig.nodes, k, i))
    {
      if j :| i <= j && j in used' && ParentOf(aig.nodes, k, j) {
        if j > i { assert j in used; }
      }
      if j :| i + 1 <= j && j in used && ParentOf(aig.nodes, k, j) {
        assert j in used';
      }
    }
  }

  /** Where the used nodes before n have gone; `olds` are the old numbers of the new nodes. */
  ghost predicate Renumbered(aig: Aig, used: set<int>, aig': Aig, ids: map<int, int>, olds: seq<nat>, n: nat) {
    GoodAig(aig') && n <= |aig.nodes| && |olds| == |aig'.nodes| && Inverses(used, ids, olds, n)
  }

  /** The used numbers below n, in order, and their positions; -1 stands for itself. */
  ghost predicate Inverses(used: set<int>, ids: map<int, int>, olds: seq<nat>, n: nat) {
    && (forall k :: k in ids <==> k == -1 || (k in used && k < n))
    && -1 in ids && ids[-1] == -1
    && (forall k | k in ids && k >= 0 :: 0 <= ids[k] < |olds| && olds[ids[k]] == k)
    && (forall i | 0 <= i < |olds| :: olds[i] in ids && ids[olds[i]] == i)
    && (forall i, j | 0 <= i < j < |olds| :: olds[i] < olds[j])
  }

  /** New node i is old node k, with its parents renumbered. */
  ghost predicate SameNode(aig: Aig, aig': Aig, ids: map<int, int>, k: nat, i: nat)
    requires GoodAig(aig) && GoodAig(aig') && k < |aig.nodes| && i < |aig'.nodes|
  {
    aig'.outports[i] == aig.outports[k] && IsRenumbered(aig.nodes[k], aig'.nodes[i], ids)
  }

  ghost predicate SameNodes(aig: Aig, aig': Aig, ids: map<int, int>, olds: seq<nat>)
    requires GoodAig(aig) && GoodAig(aig') && |olds| == |aig'.nodes|
  {
    forall i | 0 <= i < |olds| :: olds[i] < |aig.nodes| && SameNode(aig, aig', ids, olds[i], i)
  }

  method Renumber(aig: Aig, used: set<int>) returns (aig': Aig, ghost ids: map<int, int>, ghost olds: seq<nat>)
    requires GoodAig(aig) && Needed(aig, used)
    ensures Renumbered(aig, used, aig', ids, olds, |aig.nodes|) && SameNodes(aig, aig', ids, olds)
  {
    aig' := Aig([], []);
    olds := [];
    var oldToNewIds := map[-1 := -1];
    for i := 0 to |aig.nodes|
      invariant Renumbered(aig, used, aig', oldToNewIds, olds, i) && SameNodes(aig, aig', oldToNewIds, olds)
    {
      if i in used {
        UsedParents(aig, used, i);
        var node := aig.nodes[i].(leftParent := oldToNewIds[aig.nodes[i].leftParent], rightParent := oldToNewIds[aig.nodes[i].rightParent]);
        var ids' := oldToNewIds[i := |aig'.nodes|];
        var next := Aig(aig'.nodes + [node], aig'.outports + [aig.outports[i]]);
        RenumberStep(aig, used, aig', oldToNewIds, olds, i, node, next, ids');
        oldToNewIds, aig', olds := ids', next, olds + [i];
      }
    }
    ids := oldToNewIds;
  }

  lemma {:induction false} UsedParents(aig: Aig, used: set<int>, i: nat)
    requires GoodAig(aig) && Needed(aig, used) && i < |aig.nodes| && i in used
    ensures var n := aig.nodes[i];
            if n.Gate() then 0 <= n.leftParent <= n.rightParent < i && n.leftParent in used && n.rightParent in used
            else n.leftParent == n.rightParent == -1
  {
    var n := aig.nodes[i];
    assert GoodNode(n, i);
    if n.Gate() {
      assert ParentOf(aig.nodes, n.leftParent, i) && ParentOf(aig.nodes, n.rightParent, i);
      assert HasUser(aig.nodes, used, n.leftParent, 0) && HasUser(aig.nodes, used, n.rightParent, 0);
    }
  }

  lemma {:induction false} RenumberStep(aig: Aig, used: set<int>, aig': Aig, ids: map<int, int>, olds: seq<nat>, n: nat, node: AigNode,
                                        next: Aig, ids': map<int, int>)
    requires GoodAig(aig) && Needed(aig, used) && Renumbered(aig, used, aig', ids, olds, n) && SameNodes(aig, aig', ids, olds)
    requires n < |aig.nodes| && n in used && IsRenumbered(aig.nodes[n], node, ids)
    requires next == Aig(aig'.nodes + [node], aig'.outports + [aig.outports[n]]) && ids' == ids[n := |aig'.nodes|]
    ensures Renumbered(aig, used, next, ids', olds + [n], n + 1) && SameNodes(aig, next, ids', olds + [n])
  {
    assert GoodNode(aig.nodes[n], n);
    GoodRenumbered(aig.nodes[n], node, used, ids, olds, n);
    InversesStep(used, ids, olds, n);
    SameNodesStep(aig, aig', ids, olds, n, node, next, ids');
  }

  ghost predicate IsRenumbered(node: AigNode, node': AigNode, ids: map<int, int>) {
    && node.leftParent in ids && node.rightParent in ids
    && node' == node.(leftParent := ids[node.leftParent], rightParent := ids[node.rightParent])
  }

  lemma {:induction false} SameNodesStep(aig: Aig, aig': Aig, ids: map<int, int>, olds: seq<nat>, n: nat, node: AigNode,
                                         next: Aig, ids': map<int, int>)
    requires GoodAig(aig) && GoodAig(aig') && GoodAig(next) && |olds| == |aig'.nodes| && SameNodes(aig, aig', ids, olds)
    requires n < |aig.nodes| && n !in ids && IsRenumbered(aig.nodes[n], node, ids)
    requires next == Aig(aig'.nodes + [node], aig'.outports + [aig.outports[n]]) && ids' == ids[n := |aig'.nodes|]
    ensures SameNodes(aig, next, ids', olds + [n])
  {
    var olds' := olds + [n];
    forall i | 0 <= i < |olds'| ensures olds'[i] < |aig.nodes| && SameNode(aig, next, ids', olds'[i], i) {
      if i < |olds| {
        assert SameNode(aig, aig', ids, olds[i], i);
      } else {
        assert next.nodes[i] == node && next.outports[i] == aig.outports[n];
      }
    }
  }

  lemma {:induction false} InversesStep(used: set<int>, ids: map<int, int>, olds: seq<nat>, n: nat)
    requires Inverses(used, ids, olds, n) && n in used
    ensures Inverses(used, ids[n := |olds|], olds + [n], n + 1)
  {
  }

  lemma {:induction false} GoodRenumbered(node: AigNode, node': AigNode, used: set<int>, ids: map<int, int>, olds: seq<nat>, n: nat)
    requires GoodNode(node, n) && Inverses(used, ids, olds, n) && IsRenumbered(node, node', ids)
    ensures GoodNode(node', |olds|)
  {
  }

  lemma {:induction false} SameValue(aig: Aig, used: set<int>, aig': Aig, ids: map<int, int>, olds: seq<nat>, i: nat, e: Env)
    requires GoodAig(aig) && Needed(aig, used) && Renumbered(aig, used, aig', ids, olds, |aig.nodes|) && SameNodes(aig, aig', ids, olds)
    requires i < |olds|
    ensures Val(aig'.nodes, i, e) == Val(aig.nodes, olds[i], e)
  {
    var n := aig.nodes[olds[i]];
    assert SameNode(aig, aig', ids, olds[i], i);
    UsedParents(aig, used, olds[i]);
    assert GoodNode(aig'.nodes[i], i);
    if n.Gate() {
      SameValue(aig, used, aig', ids, olds, ids[n.leftParent], e);
      SameValue(aig, used, aig', ids, olds, ids[n.rightParent], e);
    }
  }

  /** Every node drives an output or is a parent. */
  ghost predicate NoDeadNodes(aig: Aig) {
    forall i | 0 <= i < |aig.outports| :: aig.outports[i] != [] || IsParent(aig.nodes, i)
  }

  ghost predicate IsParent(nodes: seq<AigNode>, i: int) {
    exists j :: ParentOf(nodes, i, j)
  }

  /** The `optimize` step. */
  method Optimize(aig: Aig) returns (aig': Aig)
    requires GoodAig(aig)
    ensures GoodAig(aig') && |aig'.nodes| <= |aig.nodes| && NoDeadNodes(aig')
    ensures Distinct(aig.nodes) ==> Distinct(aig'.nodes)
    ensures forall port, e, want :: Emits(aig, port, e, want) ==> Emits(aig', port, e, want)
  {
    var used := MarkUsed(aig);
    ghost var ids, olds;
    aig', ids, olds := Renumber(aig, used);
    forall port, e, want | Emits(aig, port, e, want) ensures Emits(aig', port, e, want) {
      OptimizedEmits(aig, used, aig', ids, olds, port, e, want);
    }
    OptimizedLive(aig, used, aig', ids, olds);
    if Distinct(aig.nodes) {
      OptimizedDistinct(aig, used, aig', ids, olds);
    }
    if |olds| > 0 {
      RankBound(olds, |olds| - 1);
    }
  }

  lemma {:induction false} OptimizedEmits(aig: Aig, used: set<int>, aig': Aig, ids: map<int, int>, olds: seq<nat>, port: string, e: Env, want: Bv)
    requires GoodAig(aig) && Needed(aig, used) && Renumbered(aig, used, aig', ids, olds, |aig.nodes|) && SameNodes(aig, aig', ids, olds)
    requires Emits(aig, port, e, want)
    ensures Emits(aig', port, e, want)
  {
    forall b | 0 <= b < |want| ensures Driven(aig', (port, b)) {
      assert Driven(aig, (port, b));
      var k :| Drives(aig, k, (port, b));
      assert k in used;
      assert SameNode(aig, aig', ids, k, ids[k]);
      assert Drives(aig', ids[k], (port, b));
    }
    forall i, o | Drives(aig', i, o) && o.0 == port ensures 0 <= o.1 < |want| && Val(aig'.nodes, i, e) == want[o.1] {
      assert SameNode(aig, aig', ids, olds[i], i);
      assert Drives(aig, olds[i], o);
      SameValue(aig, used, aig', ids, olds, i, e);
    }
  }

  lemma {:induction false} OptimizedLive(aig: Aig, used: set<int>, aig': Aig, ids: map<int, int>, olds: seq<nat>)
    requires GoodAig(aig) && Needed(aig, used) && Renumbered(aig, used, aig', ids, olds, |aig.nodes|) && SameNodes(aig, aig', ids, olds)
    ensures NoDeadNodes(aig')
  {
    forall i | 0 <= i < |aig'.outports| && aig'.outports[i] == [] ensures IsParent(aig'.nodes, i) {
      assert SameNode(aig, aig', ids, olds[i], i);
      assert HasUser(aig.nodes, used, olds[i], 0);
      var j :| 0 <= j && j in used && ParentOf(aig.nodes, olds[i], j);
      assert SameNode(aig, aig', ids, j, ids[j]);
      UsedParents(aig, used, j);
      assert ParentOf(aig'.nodes, i, ids[j]);
    }
  }

  /** Equal nodes would have come from equal nodes. */
  lemma {:induction false} OptimizedDistinct(aig: Aig, used: set<int>, aig': Aig, ids: map<int, int>, olds: seq<nat>)
    requires GoodAig(aig) && Renumbered(aig, used, aig', ids, olds, |aig.nodes|) && SameNodes(aig, aig', ids, olds) && Distinct(aig.nodes)
    ensures Distinct(aig'.nodes)
  {
    forall i, j | 0 <= i < j < |olds| ensures aig'.nodes[i] != aig'.nodes[j] {
      assert SameNode(aig, aig', ids, olds[i], i) && SameNode(aig, aig', ids, olds[j], j);
      assert aig.nodes[olds[i]] != aig.nodes[olds[j]];
    }
  }

  lemma {:induction false} RankBound(olds: seq<nat>, i: nat)
    requires i < |olds| && forall i, j | 0 <= i < j < |olds| :: olds[i] < olds[j]
    ensures olds[i] >= i
  {
    if i > 0 {
      RankBound(olds, i - 1);
    }
  }

  // -------------------------------------------------------- the whole cell

  /** What the output ports of a cell are to carry; None for the cells not modelled. */
  datatype AigCell = AddCell | SubCell | CompareCell(op: CellOp) | EqualityCell(isEq: bool) | AluCell

  predicate Buildable(cell: Cell, kind: AigCell) {
    && cell.Extendable("A") && cell.Extendable("B")
    && match kind
       case CompareCell(op) => op.Ordering() && cell.WidthOf("Y") > 0 && cell.IsSigned("A") == cell.IsSigned("B")
       case EqualityCell(_) => cell.WidthOf("Y") > 0 && cell.IsSigned("A") == cell.IsSigned("B")
       case AluCell => cell.Extendable("CI") && cell.Extendable("BI") && cell.WidthOf("X") == cell.WidthOf("CO") == cell.WidthOf("Y")
       case _ => true
  }

  ghost predicate Implements(aig: Aig, cell: Cell, kind: AigCell, e: Env)
    requires GoodAig(aig) && Buildable(cell, kind)
  {
    var a, b, w := cell.IntOf("A", e), cell.IntOf("B", e), cell.WidthOf("Y");
    match kind
    case AddCell => Emits(aig, "Y", e, FromInt(cell.AddSubOf(e, false), w))
    case SubCell => Emits(aig, "Y", e, FromInt(cell.AddSubOf(e, true), w))
    case CompareCell(op) => Emits(aig, "Y", e, Lone(IntOrder(op, a, b), w))
    case EqualityCell(isEq) => Emits(aig, "Y", e, Lone((a == b) == isEq, w))
    case AluCell => Emits(aig, "Y", e, cell.AluOf(e).y) && Emits(aig, "X", e, cell.AluOf(e).x) && Emits(aig, "CO", e, cell.AluOf(e).co)
  }

  /** `Aig::Aig`: for every input the outputs are the cell's, and nothing in the graph is useless. */
  method BuildAig(cell: Cell, kind: AigCell) returns (aig: Aig)
    requires Buildable(cell, kind)
    ensures GoodAig(aig) && forall e :: Implements(aig, cell, kind, e)
    ensures forall i, j | 0 <= i < j < |aig.nodes| :: aig.nodes[i] != aig.nodes[j]
    ensures forall i | 0 <= i < |aig.nodes| && aig.outports[i] == [] ::
              exists j :: 0 <= j < |aig.nodes| && (aig.nodes[j].leftParent == i || aig.nodes[j].rightParent == i)
  {
    var built := Construct(cell, kind);
    aig := Optimize(built);
    forall i | 0 <= i < |aig.nodes| && aig.outports[i] == []
      ensures exists j :: 0 <= j < |aig.nodes| && (aig.nodes[j].leftParent == i || aig.nodes[j].rightParent == i)
    {
      assert IsParent(aig.nodes, i);
      var j :| ParentOf(aig.nodes, i, j);
    }
    forall e ensures Implements(aig, cell, kind, e) {
      assert Implements(built, cell, kind, e);
    }
  }

  method Construct(cell: Cell, kind: AigCell) returns (built: Aig)
    requires Buildable(cell, kind)
    ensures GoodAig(built) && Distinct(built.nodes)
    ensures forall e :: Implements(built, cell, kind, e)
  {
    var mk := new AigMaker(cell);
    match kind {
      case AddCell => mk.AddSub(false);
      case SubCell => mk.AddSub(true);
      case CompareCell(op) => mk.Compare(op);
      case EqualityCell(isEq) => mk.Equality(isEq);
      case AluCell => mk.Alu();
    }
    built := Aig(mk.nodes, mk.outports);
    forall e ensures Implements(built, cell, kind, e) {
      mk.EmitsOutput("Y", e);
      mk.EmitsOutput("X", e);
      mk.EmitsOutput("CO", e);
    }
  }
}
