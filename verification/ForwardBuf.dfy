/** Removal of buffers from the functional IR (`IR::forward_buf` in `kernel/functional.cc`). */
module ForwardBuf {
  import opened ComputeGraphs

  /** The functions of the IR, as far as buffers are concerned. */
  datatype Fn = Buf | Other(id: int)

  type Net = seq<Call<Fn>>

  /** What the other functions compute. */
  type Semantics<!V> = (int, seq<V>) -> V

  /** Arguments come before their users. */
  ghost predicate Sorted(net: Net) {
    forall i | 0 <= i < |net| :: ArgsBelow(net[i].args, i)
  }

  /** A buffer has one argument. */
  ghost predicate BufsFilled(net: Net) {
    forall i | 0 <= i < |net| && net[i].fn.Buf? :: |net[i].args| == 1
  }

  ghost function Values<V>(net: Net, args: seq<int>, n: nat, sem: Semantics<V>): (r: seq<V>)
    requires Sorted(net) && BufsFilled(net) && ArgsBelow(args, n) && n <= |net|
    ensures |r| == |args|
    decreases n, |args|
  {
    if args == [] then [] else Values(net, args[..|args| - 1], n, sem) + [Value(net, args[|args| - 1], sem)]
  }

  /** The value of node i; a buffer passes its argument on. */
  ghost function Value<V>(net: Net, i: nat, sem: Semantics<V>): V
    requires Sorted(net) && BufsFilled(net) && i < |net|
    decreases i, |net[i].args| + 1
  {
    var call := net[i];
    assert ArgsBelow(call.args, i);
    match call.fn
    case Buf => Value(net, call.args[0], sem)
    case Other(id) => sem(id, Values(net, call.args, i, sem))
  }

  lemma {:induction false} ValuesAt<V>(net: Net, args: seq<int>, n: nat, sem: Semantics<V>, k: nat)
    requires Sorted(net) && BufsFilled(net) && ArgsBelow(args, n) && n <= |net| && k < |args|
    ensures Values(net, args, n, sem)[k] == Value(net, args[k], sem)
  {
    if k < |args| - 1 {
      ValuesAt(net, args[..|args| - 1], n, sem, k);
    }
  }

  // -------------------------------------------------------- the alias map

  /** A buffer stands for what its argument stands for. */
  ghost predicate Follows(net: Net, alias: seq<int>, i: nat)
    requires i < |net| && i < |alias|
  {
    |net[i].args| == 1 && 0 <= net[i].args[0] < i && alias[i] == alias[net[i].args[0]]
  }

  /** alias names the kept node that each of the first n nodes stands for. */
  ghost predicate Aliases(net: Net, perm: seq<nat>, alias: seq<int>, n: nat) {
    && n <= |net| && |alias| == n
    && (forall j | 0 <= j < |perm| :: perm[j] < n && !net[perm[j]].fn.Buf? && alias[perm[j]] == j)
    && (forall j, k | 0 <= j < k < |perm| :: perm[j] < perm[k])
    && (forall i | 0 <= i < n :: 0 <= alias[i] < |perm| && perm[alias[i]] <= i)
    && (forall i | 0 <= i < n && net[i].fn.Buf? :: Follows(net, alias, i))
    && (forall i | 0 <= i < n && !net[i].fn.Buf? :: perm[alias[i]] == i)
  }

  /** A node and the kept node it stands for have the same value. */
  lemma {:induction false} AliasValue<V>(net: Net, perm: seq<nat>, alias: seq<int>, i: nat, sem: Semantics<V>)
    requires Sorted(net) && BufsFilled(net) && Aliases(net, perm, alias, |net|) && i < |net|
    ensures Value(net, perm[alias[i]], sem) == Value(net, i, sem)
    decreases i
  {
    if net[i].fn.Buf? {
      assert Follows(net, alias, i);
      AliasValue(net, perm, alias, net[i].args[0], sem);
    }
  }

  /** The graph that is left. */
  ghost function Forwarded(net: Net, perm: seq<nat>, alias: seq<int>): Net
    requires Closed(net) && Aliases(net, perm, alias, |net|)
  {
    Permuted(net, perm, alias)
  }

  lemma {:induction false} ForwardedSorted(net: Net, perm: seq<nat>, alias: seq<int>)
    requires Sorted(net) && Closed(net) && Aliases(net, perm, alias, |net|)
    ensures Sorted(Forwarded(net, perm, alias)) && forall j | 0 <= j < |perm| :: !Forwarded(net, perm, alias)[j].fn.Buf?
  {
    var next := Forwarded(net, perm, alias);
    forall j, k | 0 <= j < |perm| && 0 <= k < |next[j].args| ensures 0 <= next[j].args[k] < j {
      assert ArgsBelow(net[perm[j]].args, perm[j]);
      var a := net[perm[j]].args[k];
      assert perm[alias[a]] <= a < perm[j];
    }
    forall j | 0 <= j < |perm| ensures ArgsBelow(next[j].args, j) { }
  }

  lemma {:induction false} ForwardedValue<V>(net: Net, perm: seq<nat>, alias: seq<int>, j: nat, sem: Semantics<V>)
    requires Sorted(net) && BufsFilled(net) && Closed(net) && Aliases(net, perm, alias, |net|) && j < |perm|
    requires Sorted(Forwarded(net, perm, alias)) && BufsFilled(Forwarded(net, perm, alias))
    ensures Value(Forwarded(net, perm, alias), j, sem) == Value(net, perm[j], sem)
    decreases j
  {
    var next, call := Forwarded(net, perm, alias), net[perm[j]];
    assert ArgsBelow(call.args, perm[j]) && ArgsBelow(next[j].args, j);
    forall k | 0 <= k < |call.args| ensures Values(next, next[j].args, j, sem)[k] == Values(net, call.args, perm[j], sem)[k] {
      ValuesAt(next, next[j].args, j, sem, k);
      ValuesAt(net, call.args, perm[j], sem, k);
      ForwardedValue(net, perm, alias, next[j].args[k], sem);
      AliasValue(net, perm, alias, call.args[k], sem);
    }
    assert Values(next, next[j].args, j, sem) == Values(net, call.args, perm[j], sem);
  }

  /** After forwarding, whatever stood for node i has its value. */
  lemma {:induction false} ForwardKeepsValue<V>(net: Net, perm: seq<nat>, alias: seq<int>, i: nat, sem: Semantics<V>)
    requires Sorted(net) && BufsFilled(net) && Closed(net) && Aliases(net, perm, alias, |net|) && i < |net|
    ensures Sorted(Forwarded(net, perm, alias)) && BufsFilled(Forwarded(net, perm, alias))
    ensures Value(Forwarded(net, perm, alias), alias[i], sem) == Value(net, i, sem)
  {
    ForwardedSorted(net, perm, alias);
    ForwardedValue(net, perm, alias, alias[i], sem);
    AliasValue(net, perm, alias, i, sem);
  }

  // ------------------------------------------------------------- the method

  /** The names of nodes; each is public, with a backslash, or generated, with a dollar sign. */
  type Names = map<int, string>

  predicate IsPublic(name: string) {
    name != "" && name[0] == '\\'
  }

  predicate IsGenerated(name: string) {
    name != "" && name[0] == '$'
  }

  predicate WellNamed(names: Names) {
    forall i | i in names :: IsPublic(names[i]) || IsGenerated(names[i])
  }

  /** The name that survives: a public one before a generated one. */
  function MergeName(a: string, b: string): string {
    if a != "" && b != "" && a[0] == '$' && b[0] == '\\' then b else a
  }

  /** Node i has a name, and kept node j stands for it. */
  predicate Named(names: Names, alias: seq<int>, j: nat, i: int) {
    0 <= i < |alias| && alias[i] == j && i in names
  }

  /** Among the nodes that j stands for, i has the last public name, or the last name if none is public. */
  ghost predicate Preferred(names: Names, alias: seq<int>, j: nat, i: int) {
    && Named(names, alias, j, i)
    && forall m | Named(names, alias, j, m) ::
         (IsPublic(names[m]) ==> IsPublic(names[i])) && (m <= i || (IsPublic(names[i]) && !IsPublic(names[m])))
  }

  /** The kept node j bears, as number k, the preferred name of the nodes it stands for, if any has one. */
  ghost predicate Bears(names: Names, names': Names, alias: seq<int>, j: nat, k: int) {
    && (k in names' <==> exists i :: Named(names, alias, j, i))
    && (k in names' ==> exists i :: Preferred(names, alias, j, i) && names'[k] == names[i])
  }

  /** The names after as many rounds as there are aliases. */
  ghost predicate NamesUpTo(names: Names, names': Names, perm: seq<nat>, alias: seq<int>) {
    && (forall j: nat | j < |perm| :: Bears(names, names', alias, j, perm[j]))
    && (forall i | i >= |alias| :: (i in names' <==> i in names) && (i in names ==> names'[i] == names[i]))
  }

  lemma {:induction false} NamesKept(names: Names, names': Names, perm: seq<nat>, alias: seq<int>, n: nat, alias': seq<int>)
    requires NamesUpTo(names, names', perm, alias) && n == |alias| && (forall i | 0 <= i < n :: 0 <= alias[i] < |perm|)
    requires alias' == alias + [|perm|]
    ensures NamesUpTo(names, names', perm + [n], alias')
  {
    var perm' := perm + [n];
    forall j: nat | j < |perm'| ensures Bears(names, names', alias', j, perm'[j]) {
      if j < |perm| {
        OtherGroup(names, names', alias, |perm|, alias', j, perm[j]);
      } else {
        forall i ensures Named(names, alias', j, i) <==> i == n && n in names { }
        if n in names { assert Preferred(names, alias', j, n); }
      }
    }
  }

  /** A group that does not get the next node bears the name it had. */
  lemma {:induction false} OtherGroup(names: Names, names': Names, alias: seq<int>, a: int, alias': seq<int>, j: nat, k: int)
    requires Bears(names, names', alias, j, k) && alias' == alias + [a] && a != j
    ensures Bears(names, names', alias', j, k)
  {
    forall i ensures Named(names, alias', j, i) <==> Named(names, alias, j, i) { }
    if k in names' {
      var i :| Preferred(names, alias, j, i) && names'[k] == names[i];
      assert Preferred(names, alias', j, i);
    }
  }

  lemma {:induction false} NamesMerged(names: Names, names': Names, names2: Names, perm: seq<nat>, alias: seq<int>, target: nat, alias': seq<int>)
    requires WellNamed(names) && NamesUpTo(names, names', perm, alias) && target < |perm| && alias' == alias + [target]
    requires forall j | 0 <= j < |perm| :: perm[j] < |alias|
    requires forall j, k | 0 <= j < k < |perm| :: perm[j] != perm[k]
    requires Merged(names', names2, |alias|, perm[target])
    ensures NamesUpTo(names, names2, perm, alias')
  {
    forall j: nat | j < |perm| ensures Bears(names, names2, alias', j, perm[j]) {
      if j != target {
        assert Bears(names, names2, alias, j, perm[j]);
        OtherGroup(names, names2, alias, target, alias', j, perm[j]);
      } else {
        GroupMerged(names, names', names2, alias, |alias|, j, perm[j], alias');
      }
    }
  }

  /** Node n passes its name to node k. */
  predicate Merged(names: Names, names': Names, n: nat, k: nat) {
    names' == if n !in names then names else names[k := if k in names then MergeName(names[n], names[k]) else names[n]]
  }

  /** The group that gets node n. */
  lemma {:induction false} GroupMerged(names: Names, names': Names, names2: Names, alias: seq<int>, n: nat, j: nat, k: nat, alias': seq<int>)
    requires WellNamed(names) && Bears(names, names', alias, j, k) && |alias| == n && k != n && alias' == alias + [j]
    requires (n in names' <==> n in names) && (n in names ==> names'[n] == names[n]) && Merged(names', names2, n, k)
    ensures Bears(names, names2, alias', j, k)
  {
    forall i ensures Named(names, alias', j, i) <==> Named(names, alias, j, i) || (i == n && n in names) { }
    if k in names' {
      var i :| Preferred(names, alias, j, i) && names'[k] == names[i];
      assert Named(names, alias', j, i);
      if n in names && !(IsPublic(names[i]) && IsGenerated(names[n])) {
        assert Preferred(names, alias', j, n) && names2[k] == names[n];
      } else {
        assert Preferred(names, alias', j, i) && names2[k] == names[i];
      }
    } else if n in names {
      assert Named(names, alias', j, n);
      assert Preferred(names, alias', j, n) && names2[k] == names[n];
    }
  }

  /** The same network with `perm` listing what is kept and `alias` what each node became. */
  ghost predicate Result(net: Net, net': Net, keys: map<string, int>, keys': map<string, int>, alias: seq<int>, perm: seq<nat>)
    requires Closed(net)
  {
    && Aliases(net, perm, alias, |net|)
    && net' == Forwarded(net, perm, alias)
    && keys'.Keys == keys.Keys
    && forall k | k in keys :: 0 <= keys[k] < |net| && keys'[k] == alias[keys[k]]
  }

  /** `forward_buf` on a topologically sorted graph. */
  method Forward(g: ComputeGraph<Fn, string>) returns (ghost perm: seq<nat>, ghost alias: seq<int>)
    requires g.Valid() && Sorted(g.Calls()) && BufsFilled(g.Calls())
    modifies g
    ensures g.Valid() && Packed(g.nodes, g.args)
    ensures Closed(old(g.Calls())) && Result(old(g.Calls()), g.Calls(), old(g.keys), g.keys, alias, perm)
    ensures Sorted(g.Calls()) && forall j | 0 <= j < |g.Calls()| :: !g.Calls()[j].fn.Buf?
    ensures WellNamed(old(g.sparseAttrs)) ==>
              forall j: nat | j < |g.Calls()| :: Bears(old(g.sparseAttrs), g.sparseAttrs, alias, j, j)
  {
    ghost var net, names := g.Calls(), g.sparseAttrs;
    var permV, aliasV := AliasAll(g);
    ghost var names' := g.sparseAttrs;
    forall j | 0 <= j < |permV| ensures Lives(net[permV[j]].args, aliasV, |permV|) {
      assert ArgsBelow(net[permV[j]].args, |net|);
    }
    g.Permute(permV, aliasV);
    ForwardedSorted(net, permV, aliasV);
    if WellNamed(names) {
      forall j: nat | j < |permV| ensures Bears(names, g.sparseAttrs, aliasV, j, j) {
        assert Bears(names, names', aliasV, j, permV[j]);
      }
    }
    perm, alias := permV, aliasV;
  }

  /** The loop over the nodes. */
  method AliasAll(g: ComputeGraph<Fn, string>) returns (perm: seq<nat>, alias: seq<int>)
    requires g.Valid() && Sorted(g.Calls()) && BufsFilled(g.Calls())
    modifies g`sparseAttrs
    ensures g.Valid() && g.Calls() == old(g.Calls()) && Aliases(g.Calls(), perm, alias, |g.nodes|)
    ensures WellNamed(old(g.sparseAttrs)) ==> NamesUpTo(old(g.sparseAttrs), g.sparseAttrs, perm, alias)
  {
    ghost var net, names := g.Calls(), g.sparseAttrs;
    perm, alias := [], [];
    for i := 0 to |g.nodes|
      invariant g.Valid() && g.Calls() == net
      invariant Aliases(net, perm, alias, i)
      invariant WellNamed(names) ==> NamesUpTo(names, g.sparseAttrs, perm, alias)
    {
      assert net[i] == CallOf(g.nodes[i], g.args);
      if g.nodes[i].fn.Buf? {
        AliasBuffer(net, perm, alias, i);
        var target := alias[g.args[g.nodes[i].argOffset]];
        ghost var before := g.sparseAttrs;
        ForwardName(g, i, perm[target]);
        if WellNamed(names) {
          NamesMerged(names, before, g.sparseAttrs, perm, alias, target, alias + [target]);
        }
        alias := alias + [target];
      } else {
        AliasKept(net, perm, alias, i);
        if WellNamed(names) {
          NamesKept(names, g.sparseAttrs, perm, alias, i, alias + [|perm|]);
        }
        alias := alias + [|perm|];
        perm := perm + [i];
      }
    }
  }

  /** A buffer's name goes to the node it stands for. */
  method ForwardName(g: ComputeGraph<Fn, string>, i: nat, target: nat)
    requires g.Valid() && i < |g.nodes| && target < |g.nodes|
    modifies g`sparseAttrs
    ensures g.Valid() && g.Calls() == old(g.Calls())
    ensures Merged(old(g.sparseAttrs), g.sparseAttrs, i, target)
  {
    if i in g.sparseAttrs {
      if target in g.sparseAttrs {
        var id := MergeName(g.sparseAttrs[i], g.sparseAttrs[target]);
        g.sparseAttrs := g.sparseAttrs[target := id];
      } else {
        g.sparseAttrs := g.sparseAttrs[target := g.sparseAttrs[i]];
      }
    }
  }

  lemma {:induction false} AliasBuffer(net: Net, perm: seq<nat>, alias: seq<int>, n: nat)
    requires Sorted(net) && BufsFilled(net) && Aliases(net, perm, alias, n) && n < |net| && net[n].fn.Buf?
    ensures |net[n].args| == 1 && 0 <= net[n].args[0] < n && Aliases(net, perm, alias + [alias[net[n].args[0]]], n + 1)
  {
    assert ArgsBelow(net[n].args, n);
    var alias' := alias + [alias[net[n].args[0]]];
    forall i | 0 <= i < n + 1 && net[i].fn.Buf? ensures Follows(net, alias', i) {
      if i < n { assert Follows(net, alias, i); }
    }
  }

  lemma {:induction false} AliasKept(net: Net, perm: seq<nat>, alias: seq<int>, n: nat)
    requires Sorted(net) && Aliases(net, perm, alias, n) && n < |net| && !net[n].fn.Buf?
    ensures Aliases(net, perm + [n], alias + [|perm|], n + 1)
  {
    var perm', alias' := perm + [n], alias + [|perm|];
    forall j | 0 <= j < |perm'| ensures perm'[j] < n + 1 && !net[perm'[j]].fn.Buf? && alias'[perm'[j]] == j {
      if j < |perm| { assert perm[j] < n && alias[perm[j]] == j; }
    }
    forall i | 0 <= i < n + 1 && net[i].fn.Buf? ensures Follows(net, alias', i) {
      assert Follows(net, alias, i);
    }
  }

  /** Every keyed output and next state keeps its value, under every meaning of the functions. */
  method ForwardKeepsKeys<V>(g: ComputeGraph<Fn, string>, ghost sem: Semantics<V>)
    requires g.Valid() && Sorted(g.Calls()) && BufsFilled(g.Calls())
    modifies g
    ensures g.Valid() && Sorted(g.Calls()) && BufsFilled(g.Calls())
    ensures g.keys.Keys == old(g.keys).Keys
    ensures forall k | k in g.keys :: Value(g.Calls(), g.keys[k], sem) == old(Value(g.Calls(), g.keys[k], sem))
  {
    ghost var net, keys := g.Calls(), g.keys;
    ghost var perm, alias := Forward(g);
    forall k | k in keys ensures Value(g.Calls(), g.keys[k], sem) == Value(net, keys[k], sem) {
      ForwardKeepsValue(net, perm, alias, keys[k], sem);
    }
  }
}
