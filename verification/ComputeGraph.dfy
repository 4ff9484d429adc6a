/**
 * `ComputeGraph` (`kernel/compute_graph.h`): nodes whose argument lists are
 * packed into one shared vector.
 */
module ComputeGraphs {

  /** What a node says, wherever its arguments are stored. */
  datatype Call<F> = Call(fn: F, args: seq<int>)

  datatype Node<F> = Node(fn: F, argOffset: nat, argCount: nat)
  {
    function End(): nat {
      argOffset + argCount
    }
  }

  ghost predicate Stored<F>(nodes: seq<Node<F>>, args: seq<int>) {
    forall i | 0 <= i < |nodes| :: nodes[i].End() <= |args|
  }

  ghost function CallOf<F>(node: Node<F>, args: seq<int>): Call<F>
    requires node.End() <= |args|
  {
    Call(node.fn, args[node.argOffset..node.End()])
  }

  ghost function CallsOf<F>(nodes: seq<Node<F>>, args: seq<int>): (calls: seq<Call<F>>)
    requires Stored(nodes, args)
    ensures |calls| == |nodes|
  {
    seq(|nodes|, i requires 0 <= i < |nodes| => CallOf(nodes[i], args))
  }

  /** More stored arguments change nothing. */
  lemma {:induction false} CallsKept<F>(nodes: seq<Node<F>>, args: seq<int>, more: seq<int>)
    requires Stored(nodes, args)
    ensures Stored(nodes, args + more) && CallsOf(nodes, args + more) == CallsOf(nodes, args)
  {
    forall i | 0 <= i < |nodes| ensures CallOf(nodes[i], args + more) == CallOf(nodes[i], args) { }
  }

  predicate ArgsBelow(s: seq<int>, n: nat) {
    forall k :: 0 <= k < |s| ==> 0 <= s[k] < n
  }

  /** Every argument is a node. */
  ghost predicate Closed<F>(calls: seq<Call<F>>) {
    forall i | 0 <= i < |calls| :: ArgsBelow(calls[i].args, |calls|)
  }

  /** The lists follow each other without gaps, from the start of the vector to its end. */
  ghost predicate Packed<F>(nodes: seq<Node<F>>, args: seq<int>) {
    && (forall i, k | 0 <= i < k == i + 1 < |nodes| :: nodes[k].argOffset == nodes[i].End())
    && (if nodes == [] then args == [] else nodes[0].argOffset == 0 && |args| == nodes[|nodes| - 1].End())
  }

  /** Argument lists renamed by a permutation or an alias map. */
  function Renamed(args: seq<int>, names: seq<int>): (r: seq<int>)
    requires ArgsBelow(args, |names|)
    ensures |r| == |args|
  {
    seq(|args|, i requires 0 <= i < |args| => names[args[i]])
  }

  /** The same function of the renamed arguments, in the same order. */
  predicate RenamedCall<F(==)>(call: Call<F>, renamed: Call<F>, names: seq<int>) {
    && renamed.fn == call.fn && |renamed.args| == |call.args|
    && forall k | 0 <= k < |call.args| :: 0 <= call.args[k] < |names| && renamed.args[k] == names[call.args[k]]
  }

  /** The calls listed by perm, with their arguments renamed. */
  ghost function Permuted<F>(calls: seq<Call<F>>, perm: seq<nat>, names: seq<int>): (r: seq<Call<F>>)
    requires |names| == |calls| && Closed(calls) && forall j | 0 <= j < |perm| :: perm[j] < |calls|
    ensures |r| == |perm| && forall j | 0 <= j < |perm| :: RenamedCall(calls[perm[j]], r[j], names)
  {
    seq(|perm|, j requires 0 <= j < |perm| => Call(calls[perm[j]].fn, Renamed(calls[perm[j]].args, names)))
  }

  lemma {:induction false} RenameCall<F>(node: Node<F>, args: seq<int>, names: seq<int>)
    requires node.End() <= |args| && ArgsBelow(args, |names|)
    ensures CallOf(node, Renamed(args, names)) == Call(node.fn, Renamed(args[node.argOffset..node.End()], names))
  {
  }

  class ComputeGraph<F(==), K(==)> {
    var nodes: seq<Node<F>>
    var args: seq<int>
    var keys: map<K, int>
    var sparseAttrs: map<int, string>

    ghost predicate Valid()
      reads this
    {
      && Stored(nodes, args) && Closed(CallsOf(nodes, args))
      && (forall k | k in keys :: 0 <= keys[k] < |nodes|)
      && (forall i | i in sparseAttrs :: 0 <= i < |nodes|)
    }

    ghost function Calls(): (calls: seq<Call<F>>)
      requires Valid()
      reads this
      ensures |calls| == |nodes|
    {
      CallsOf(nodes, args)
    }

    constructor ()
      ensures Valid() && nodes == [] && keys == map[] && sparseAttrs == map[]
    {
      nodes, args, keys, sparseAttrs := [], [], map[], map[];
    }

    /** A node without arguments. */
    method Add(fn: F) returns (index: nat)
      requires Valid()
      modifies this`nodes
      ensures Valid() && index == old(|nodes|) && Calls() == old(Calls()) + [Call(fn, [])]
    {
      index := |nodes|;
      AddStep(nodes, args, fn);
      nodes := nodes + [Node(fn, |args|, 0)];
    }

    /** Appends in place if the list ends the shared vector, and otherwise moves it there first. */
    method AppendArg(i: nat, arg: nat)
      requires Valid() && i < |nodes| && arg < |nodes|
      modifies this`nodes, this`args
      ensures Valid()
      ensures Calls() == old(Calls())[i := Call(old(Calls())[i].fn, old(Calls())[i].args + [arg])]
    {
      if nodes[i].End() != |args| {
        MoveArgs(i);
      }
      ghost var calls := Calls();
      AppendStep(nodes, args, i, arg);
      args := args + [arg];
      nodes := nodes[i := nodes[i].(argCount := nodes[i].argCount + 1)];
    }

    /** Copies a list to the end of the vector. */
    method MoveArgs(i: nat)
      requires Valid() && i < |nodes|
      modifies this`nodes, this`args
      ensures Valid() && Calls() == old(Calls()) && nodes[i].End() == |args|
    {
      var node := nodes[i];
      MoveStep(nodes, args, i);
      ghost var args0 := args;
      nodes := nodes[i := node.(argOffset := |args|)];
      for n := 0 to node.argCount
        invariant args == args0 + args0[node.argOffset..node.argOffset + n] && nodes == old(nodes)[i := node.(argOffset := |args0|)]
      {
        args := args + [args[node.argOffset + n]];
      }
    }

    /** Copies the arguments of a node to another vector. */
    method CopyArgs(newArgs: seq<int>, i: nat) returns (r: seq<int>)
      requires Valid() && i < |nodes|
      ensures r == newArgs + Calls()[i].args
    {
      r := newArgs;
      var node := nodes[i];
      for k := 0 to node.argCount
        invariant r == newArgs + args[node.argOffset..node.argOffset + k]
      {
        r := r + [args[node.argOffset + k]];
      }
    }

    method CompactArgs()
      requires Valid()
      modifies this`nodes, this`args
      ensures Valid() && Packed(nodes, args) && Calls() == old(Calls())
      ensures forall i, k | 0 <= i < k == i + 1 < |nodes| :: nodes[k].argOffset == nodes[i].argOffset + nodes[i].argCount
      ensures nodes != [] ==> nodes[0].argOffset == 0 && |args| == nodes[|nodes| - 1].argOffset + nodes[|nodes| - 1].argCount
    {

      var newArgs: seq<int> := [];
      var newNodes: seq<Node<F>> := [];
      for n := 0 to |nodes|
        invariant Compacted(nodes, args, newNodes, newArgs, n)
        modifies {}
      {
        var newOffset := |newArgs|;
        CompactStep(nodes, args, newNodes, newArgs, n);
        newArgs := CopyArgs(newArgs, n);
        newNodes := newNodes + [nodes[n].(argOffset := newOffset)];
      }
      assert CallsOf(newNodes, newArgs) == CallsOf(nodes, args);
      nodes, args := newNodes, newArgs;
    }

    /** Keeps the nodes listed by perm, in that order, and renames every reference. */
    method Permute(perm: seq<nat>, invPerm: seq<int>)
      requires Valid() && |invPerm| == |nodes|
      requires forall j | 0 <= j < |perm| :: perm[j] < |nodes|
      requires forall j, k | 0 <= j < k < |perm| :: perm[j] != perm[k]
      requires forall j | 0 <= j < |perm| :: Lives(Calls()[perm[j]].args, invPerm, |perm|)
      requires forall k | k in keys :: 0 <= invPerm[keys[k]] < |perm|
      modifies this
      ensures Valid() && Packed(nodes, args)
      ensures Calls() == Permuted(old(Calls()), perm, invPerm)
      ensures |Calls()| == |perm| && forall j | 0 <= j < |perm| :: RenamedCall(old(Calls())[perm[j]], Calls()[j], invPerm)
      ensures keys == map k | k in old(keys) :: invPerm[old(keys)[k]]
      ensures forall j :: j in sparseAttrs <==> 0 <= j < |perm| && perm[j] in old(sparseAttrs)
      ensures forall j | j in sparseAttrs :: sparseAttrs[j] == old(sparseAttrs)[perm[j]]
    {
      var newNodes: seq<Node<F>> := [];
      var newSparseAttrs: map<int, string> := map[];
      for n := 0 to |perm|
        invariant |newNodes| == n && forall j | 0 <= j < n :: newNodes[j] == nodes[perm[j]]
        invariant forall j :: j in newSparseAttrs <==> 0 <= j < n && perm[j] in sparseAttrs
        invariant forall j | j in newSparseAttrs :: newSparseAttrs[j] == sparseAttrs[perm[j]]
      {
        newNodes := newNodes + [nodes[perm[n]]];
        if perm[n] in sparseAttrs {
          newSparseAttrs := newSparseAttrs[n := sparseAttrs[perm[n]]];
        }
      }
      RenameAll(perm, invPerm, newNodes);
      sparseAttrs := newSparseAttrs;
      keys := map k | k in keys :: invPerm[keys[k]];
    }

    /** Keeps the listed nodes, which must list every node they and the keys refer to. */
    method PermuteOnto(perm: seq<nat>) returns (ghost invPerm: seq<int>)
      requires Valid() && forall j | 0 <= j < |perm| :: perm[j] < |nodes|
      requires forall j, k | 0 <= j < k < |perm| :: perm[j] != perm[k]
      requires forall j | 0 <= j < |perm| :: forall a | a in Calls()[perm[j]].args :: a in perm
      requires forall k | k in keys :: keys[k] in perm
      modifies this
      ensures Valid() && Packed(nodes, args)
      ensures |invPerm| == |old(nodes)| && forall j | 0 <= j < |perm| :: invPerm[perm[j]] == j
      ensures Calls() == Permuted(old(Calls()), perm, invPerm)
      ensures |Calls()| == |perm| && forall j | 0 <= j < |perm| :: RenamedCall(old(Calls())[perm[j]], Calls()[j], invPerm)
      ensures keys == map k | k in old(keys) :: invPerm[old(keys)[k]]
      ensures forall j :: j in sparseAttrs <==> 0 <= j < |perm| && perm[j] in old(sparseAttrs)
      ensures forall j | j in sparseAttrs :: sparseAttrs[j] == old(sparseAttrs)[perm[j]]
    {
      var inverse: seq<int> := seq(|nodes|, _ => -1);
      for i := 0 to |perm|
        invariant |inverse| == |nodes|
        invariant forall j | 0 <= j < i :: inverse[perm[j]] == j
        modifies {}
      {
        inverse := inverse[perm[i] := i];
      }
      forall j | 0 <= j < |perm| ensures Lives(Calls()[perm[j]].args, inverse, |perm|) {
        var s := Calls()[perm[j]].args;
        assert ArgsBelow(s, |nodes|);
        forall k | 0 <= k < |s| ensures 0 <= inverse[s[k]] < |perm| {
          assert s[k] in s;
          var m :| 0 <= m < |perm| && perm[m] == s[k];
        }
      }
      forall k | k in keys ensures 0 <= inverse[keys[k]] < |perm| {
        var m :| 0 <= m < |perm| && perm[m] == keys[k];
      }
      Permute(perm, inverse);
      invPerm := inverse;
    }

    /** Compacts the lists of the kept nodes and renames them in place. */
    method RenameAll(perm: seq<nat>, invPerm: seq<int>, newNodes: seq<Node<F>>)
      requires Valid() && |invPerm| == |nodes| && |newNodes| == |perm|
      requires forall j | 0 <= j < |perm| :: perm[j] < |nodes| && newNodes[j] == nodes[perm[j]]
      requires forall j | 0 <= j < |perm| :: Lives(Calls()[perm[j]].args, invPerm, |perm|)
      modifies this`nodes, this`args
      ensures Stored(nodes, args) && Packed(nodes, args) && Closed(CallsOf(nodes, args))
      ensures CallsOf(nodes, args) == Permuted(old(Calls()), perm, invPerm)
    {
      var newArgs: seq<int> := [];
      var packed: seq<Node<F>> := [];
      assert Stored(newNodes, args);
      for n := 0 to |newNodes|
        invariant Compacted(newNodes, args, packed, newArgs, n)
        invariant ArgsLive(newArgs, invPerm, |perm|)
        modifies {}
      {
        var newOffset := |newArgs|;
        CompactStep(newNodes, args, packed, newArgs, n);
        assert CallOf(newNodes[n], args) == Calls()[perm[n]];
        newArgs := CopyArgs(newArgs, perm[n]);
        packed := packed + [newNodes[n].(argOffset := newOffset)];
      }
      ghost var before := newArgs;
      for n := 0 to |newArgs|
        invariant |newArgs| == |before|
        invariant forall k | 0 <= k < |before| :: newArgs[k] == if k < n then invPerm[before[k]] else before[k]
        modifies {}
      {
        newArgs := newArgs[n := invPerm[newArgs[n]]];
      }
      assert newArgs == Renamed(before, invPerm);
      RenameCalls(nodes, args, newNodes, packed, before, perm, invPerm);
      nodes, args := packed, newArgs;
    }
  }

  /** All arguments are renamed to kept nodes. */
  ghost predicate Lives(s: seq<int>, names: seq<int>, n: nat) {
    ArgsBelow(s, |names|) && forall k | 0 <= k < |s| :: 0 <= names[s[k]] < n
  }

  ghost predicate ArgsLive(s: seq<int>, names: seq<int>, n: nat) {
    Lives(s, names, n)
  }

  lemma {:induction false} AddStep<F>(nodes: seq<Node<F>>, args: seq<int>, fn: F)
    requires Stored(nodes, args) && Closed(CallsOf(nodes, args))
    ensures var nodes' := nodes + [Node(fn, |args|, 0)];
            Stored(nodes', args) && Closed(CallsOf(nodes', args)) && CallsOf(nodes', args) == CallsOf(nodes, args) + [Call(fn, [])]
  {
    var nodes', calls := nodes + [Node(fn, |args|, 0)], CallsOf(nodes, args);
    forall i | 0 <= i < |nodes'| ensures CallOf(nodes'[i], args) == (calls + [Call(fn, [])])[i] {
      if i < |nodes| { assert calls[i] == CallOf(nodes[i], args); }
    }
    forall i | 0 <= i < |nodes'| ensures ArgsBelow(CallsOf(nodes', args)[i].args, |nodes'|) {
      if i < |nodes| { assert ArgsBelow(calls[i].args, |nodes|); }
    }
  }

  lemma {:induction false} AppendStep<F>(nodes: seq<Node<F>>, args: seq<int>, i: nat, arg: nat)
    requires Stored(nodes, args) && Closed(CallsOf(nodes, args)) && i < |nodes| && arg < |nodes| && nodes[i].End() == |args|
    ensures var nodes', args' := nodes[i := nodes[i].(argCount := nodes[i].argCount + 1)], args + [arg];
            && Stored(nodes', args') && Closed(CallsOf(nodes', args'))
            && CallsOf(nodes', args') == CallsOf(nodes, args)[i := Call(nodes[i].fn, CallsOf(nodes, args)[i].args + [arg])]
  {
    var nodes', args' := nodes[i := nodes[i].(argCount := nodes[i].argCount + 1)], args + [arg];
    var calls := CallsOf(nodes, args);
    CallsKept(nodes, args, [arg]);
    forall k | 0 <= k < |nodes| ensures CallOf(nodes'[k], args') == if k == i then Call(nodes[i].fn, calls[i].args + [arg]) else calls[k] {
      assert CallsOf(nodes, args')[k] == calls[k];
    }
    assert CallsOf(nodes', args') == calls[i := Call(nodes[i].fn, calls[i].args + [arg])];
    forall k | 0 <= k < |nodes| ensures ArgsBelow(CallsOf(nodes', args')[k].args, |nodes|) {
      assert ArgsBelow(calls[k].args, |nodes|);
    }
  }

  lemma {:induction false} MoveStep<F>(nodes: seq<Node<F>>, args: seq<int>, i: nat)
    requires Stored(nodes, args) && i < |nodes|
    ensures var nodes', args' := nodes[i := nodes[i].(argOffset := |args|)], args + args[nodes[i].argOffset..nodes[i].End()];
            Stored(nodes', args') && CallsOf(nodes', args') == CallsOf(nodes, args)
  {
    var more := args[nodes[i].argOffset..nodes[i].End()];
    var nodes' := nodes[i := nodes[i].(argOffset := |args|)];
    CallsKept(nodes, args, more);
    assert (args + more)[|args|..|args| + |more|] == more;
    forall k | 0 <= k < |nodes| ensures CallOf(nodes'[k], args + more) == CallOf(nodes[k], args) {
      assert CallsOf(nodes, args + more)[k] == CallsOf(nodes, args)[k];
    }
  }

  /** The first n lists have been copied without gaps. */
  ghost predicate Compacted<F>(nodes: seq<Node<F>>, args: seq<int>, nodes': seq<Node<F>>, args': seq<int>, n: nat) {
    && n <= |nodes| && |nodes'| == n && Stored(nodes, args) && Stored(nodes', args') && Packed(nodes', args')
    && forall k | 0 <= k < n :: CallOf(nodes'[k], args') == CallOf(nodes[k], args)
  }

  lemma {:induction false} CompactStep<F>(nodes: seq<Node<F>>, args: seq<int>, nodes': seq<Node<F>>, args': seq<int>, n: nat)
    requires Compacted(nodes, args, nodes', args', n) && n < |nodes|
    ensures Compacted(nodes, args, nodes' + [nodes[n].(argOffset := |args'|)], args' + CallOf(nodes[n], args).args, n + 1)
  {
    var more := CallOf(nodes[n], args).args;
    var next := nodes' + [nodes[n].(argOffset := |args'|)];
    PackedMore(nodes', args', nodes[n].(argOffset := |args'|), more);
    CallsKept(nodes', args', more);
    forall k | 0 <= k < n + 1 ensures CallOf(next[k], args' + more) == CallOf(nodes[k], args) {
      if k < n {
        assert CallsOf(nodes', args' + more)[k] == CallsOf(nodes', args')[k];
      } else {
        assert (args' + more)[|args'|..] == more;
      }
    }
  }

  lemma {:induction false} PackedMore<F>(nodes: seq<Node<F>>, args: seq<int>, node: Node<F>, more: seq<int>)
    requires Stored(nodes, args) && Packed(nodes, args) && node.argOffset == |args| && node.argCount == |more|
    ensures Stored(nodes + [node], args + more) && Packed(nodes + [node], args + more)
  {
  }

  lemma {:induction false} RenameCalls<F>(nodes: seq<Node<F>>, args: seq<int>, kept: seq<Node<F>>, packed: seq<Node<F>>, packedArgs: seq<int>,
                                          perm: seq<nat>, names: seq<int>)
    requires Stored(nodes, args) && Closed(CallsOf(nodes, args)) && |names| == |nodes| && |kept| == |perm|
    requires forall j | 0 <= j < |perm| :: perm[j] < |nodes| && kept[j] == nodes[perm[j]]
    requires Compacted(kept, args, packed, packedArgs, |kept|) && Lives(packedArgs, names, |perm|)
    ensures var renamed := Renamed(packedArgs, names);
            && Stored(packed, renamed) && Packed(packed, renamed) && Closed(CallsOf(packed, renamed))
            && CallsOf(packed, renamed) == Permuted(CallsOf(nodes, args), perm, names)
  {
    var renamed := Renamed(packedArgs, names);
    forall j | 0 <= j < |perm| ensures CallOf(packed[j], renamed) == Permuted(CallsOf(nodes, args), perm, names)[j] {
      RenameCall(packed[j], packedArgs, names);
      assert CallOf(packed[j], packedArgs) == CallOf(kept[j], args);
    }
    forall j | 0 <= j < |perm| ensures ArgsBelow(CallsOf(packed, renamed)[j].args, |perm|) {
    }
  }
}
