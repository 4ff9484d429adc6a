/**
 * `mfp`: union-find over an `idict`, with path compression in `ifind`.
 *
 * The parent links are modelled twice: here as the sequential structure the
 * non-const methods see, and in module ConcurrentFind as the step relation of
 * any number of concurrent `ifind` calls.
 */
module Forest {

  /** Parent links: -1 at a root, otherwise an element of smaller rank. */
  ghost predicate Ranked(parents: seq<int>, rank: seq<nat>) {
    && |rank| == |parents|
    && forall i | 0 <= i < |parents| ::
         parents[i] == -1 || (0 <= parents[i] < |parents| && rank[parents[i]] < rank[i])
  }

  ghost function Root(parents: seq<int>, rank: seq<nat>, i: nat): (r: nat)
    requires Ranked(parents, rank) && i < |parents|
    ensures r < |parents| && parents[r] == -1 && rank[r] <= rank[i]
    ensures r != i ==> parents[i] != -1 && rank[r] < rank[i]
    ensures r == i <==> parents[i] == -1
    decreases rank[i]
  {
    if parents[i] == -1 then i else Root(parents, rank, parents[i])
  }

  /** The root depends on the links alone, not on the rank that shows them acyclic. */
  lemma {:induction false} RootIsOfLinks(parents: seq<int>, rank: seq<nat>, rank': seq<nat>, i: nat)
    requires Ranked(parents, rank) && Ranked(parents, rank') && i < |parents|
    ensures Root(parents, rank, i) == Root(parents, rank', i)
    decreases rank[i]
  {
    if parents[i] != -1 {
      RootIsOfLinks(parents, rank, rank', parents[i]);
    }
  }

  /** Every link keeps its target or jumps to the root: no class changes. */
  ghost predicate Compressed(parents: seq<int>, rank: seq<nat>, parents': seq<int>)
    requires Ranked(parents, rank)
  {
    && |parents'| == |parents|
    && forall i | 0 <= i < |parents| ::
         parents'[i] == parents[i] || (parents[i] != -1 && parents'[i] == Root(parents, rank, i))
  }

  lemma {:induction false} CompressedKeepsRank(parents: seq<int>, rank: seq<nat>, parents': seq<int>)
    requires Ranked(parents, rank) && Compressed(parents, rank, parents')
    ensures Ranked(parents', rank)
  {
    forall i | 0 <= i < |parents'|
      ensures parents'[i] == -1 || (0 <= parents'[i] < |parents'| && rank[parents'[i]] < rank[i])
    {
      var r := Root(parents, rank, i);
    }
  }

  lemma {:induction false} CompressedKeepsRoot(parents: seq<int>, rank: seq<nat>, parents': seq<int>, i: nat)
    requires Ranked(parents, rank) && Compressed(parents, rank, parents') && Ranked(parents', rank)
    requires i < |parents|
    ensures Root(parents', rank, i) == Root(parents, rank, i)
    decreases rank[i]
  {
    var r := Root(parents, rank, i);
    if parents[i] != -1 {
      if parents'[i] == parents[i] {
        CompressedKeepsRoot(parents, rank, parents', parents[i]);
      } else {
        assert parents'[r] == -1;
      }
    }
  }

  lemma {:induction false} ExtendKeepsRoot(parents: seq<int>, rank: seq<nat>, parents': seq<int>, rank': seq<nat>, i: nat)
    requires Ranked(parents, rank) && Ranked(parents', rank') && parents <= parents' && i < |parents|
    ensures Root(parents', rank', i) == Root(parents, rank, i)
    decreases rank[i]
  {
    if parents[i] != -1 {
      ExtendKeepsRoot(parents, rank, parents', rank', parents[i]);
    }
  }

  /** Ranks that fit after the root `a` has been hung under another root `b`. */
  ghost function MergedRank(parents: seq<int>, rank: seq<nat>, a: nat, b: nat): (rank': seq<nat>)
    requires Ranked(parents, rank) && a < |parents| && b < |parents|
    ensures |rank'| == |rank|
  {
    seq(|rank|, i requires 0 <= i < |rank| =>
      if Root(parents, rank, i) == a then rank[i] + rank[b] + 1 else rank[i])
  }

  lemma {:induction false} MergeKeepsRanked(parents: seq<int>, rank: seq<nat>, a: nat, b: nat)
    requires Ranked(parents, rank) && a < |parents| && b < |parents| && a != b
    requires parents[a] == -1 && parents[b] == -1
    ensures Ranked(parents[a := b], MergedRank(parents, rank, a, b))
  {
    var rank' := MergedRank(parents, rank, a, b);
    forall i | 0 <= i < |parents| && i != a && parents[i] != -1
      ensures rank'[parents[i]] < rank'[i]
    {
      assert Root(parents, rank, i) == Root(parents, rank, parents[i]);
    }
  }

  lemma {:induction false} MergeRoots(parents: seq<int>, rank: seq<nat>, a: nat, b: nat, i: nat)
    requires Ranked(parents, rank) && a < |parents| && b < |parents| && a != b && i < |parents|
    requires parents[a] == -1 && parents[b] == -1
    requires Ranked(parents[a := b], MergedRank(parents, rank, a, b))
    ensures Root(parents[a := b], MergedRank(parents, rank, a, b), i) ==
            if Root(parents, rank, i) == a then b else Root(parents, rank, i)
    decreases rank[i]
  {
    if parents[i] != -1 {
      MergeRoots(parents, rank, a, b, parents[i]);
    }
  }

  /** `onPath[j]`: j lies on the parent chain of `from`. */
  ghost function PathFrom(parents: seq<int>, rank: seq<nat>, from: nat): (s: set<int>)
    requires Ranked(parents, rank) && from < |parents|
    ensures from in s && forall j | j in s :: 0 <= j < |parents|
    ensures forall j | j in s && parents[j] != -1 :: parents[j] in s
    ensures forall j: nat | j in s :: Root(parents, rank, j) == Root(parents, rank, from)
    ensures Root(parents, rank, from) in s
    ensures forall j | j in s && j != from :: rank[j] < rank[from]
    decreases rank[from]
  {
    if parents[from] == -1 then {from} else {from} + PathFrom(parents, rank, parents[from])
  }

  /** The links after promoting i: its whole chain points at it. */
  ghost function Promoted(parents: seq<int>, path: set<int>, i: nat): (r: seq<int>)
    ensures |r| == |parents|
  {
    seq(|parents|, j requires 0 <= j < |parents| => if j == i then -1 else if j in path then i else parents[j])
  }

  ghost function PromotedRank(rank: seq<nat>, path: set<int>, i: nat): (r: seq<nat>)
    ensures |r| == |rank|
  {
    seq(|rank|, j requires 0 <= j < |rank| => if j == i then 0 else if j in path then 1 else rank[j] + 2)
  }

  lemma {:induction false} PromoteRoots(parents: seq<int>, rank: seq<nat>, i: nat, j: nat)
    requires Ranked(parents, rank) && i < |parents| && j < |parents|
    ensures var path := PathFrom(parents, rank, i);
            && Ranked(Promoted(parents, path, i), PromotedRank(rank, path, i))
            && Root(Promoted(parents, path, i), PromotedRank(rank, path, i), j) ==
               if Root(parents, rank, j) == Root(parents, rank, i) then i else Root(parents, rank, j)
    decreases rank[j]
  {
    var path := PathFrom(parents, rank, i);
    var parents', rank' := Promoted(parents, path, i), PromotedRank(rank, path, i);
    assert Ranked(parents', rank');
    if j !in path {
      if parents[j] != -1 {
        PromoteRoots(parents, rank, i, parents[j]);
        assert Root(parents', rank', j) == Root(parents', rank', parents[j]);
      } else {
        assert Root(parents, rank, j) == j;
      }
    } else if j != i {
      assert parents'[j] == i && Root(parents', rank', i) == i;
    }
  }
}

/** The sequential structure. */
module UnionFind {
  import opened Forest
  import opened Hashlib

  class Mfp<K(==, !new)> {
    const database: IndexTable<K>
    var parents: seq<int>
    ghost var rank: seq<nat>

    ghost predicate Valid()
      reads this, database, database.database
    {
      && database.offset == 0 && database.Valid()
      && |parents| == |database.Keys()|
      && Ranked(parents, rank)
    }

    ghost function RootOf(i: nat): (r: nat)
      requires Ranked(parents, rank) && i < |parents|
      reads this
    {
      Root(parents, rank, i)
    }

    constructor (hash: K -> nat)
      ensures Valid() && parents == [] && fresh(database) && fresh(database.database)
    {
      database := new IndexTable(hash, 0);
      parents, rank := [], [];
    }

    /** `operator()`: a new key becomes the root of its own class. */
    method IndexOf(key: K) returns (i: nat)
      requires Valid()
      modifies this, database.database
      ensures Valid() && i < |parents| && database.Keys()[i] == key
      ensures old(parents) <= parents && old(rank) <= rank
      ensures database.Keys() == if key in old(database.Keys()) then old(database.Keys())
                                 else old(database.Keys()) + [key]
      ensures |parents| > old(|parents|) ==> RootOf(i) == i && i == old(|parents|)
    {
      i := database.IndexOf(key);
      if |parents| < |database.database.entries| {
        parents := parents + [-1];
        rank := rank + [0];
      }
    }

    method Ifind(i: nat) returns (p: nat)
      requires Ranked(parents, rank) && i < |parents|
      modifies this`parents
      ensures Compressed(old(parents), rank, parents)
      ensures Ranked(parents, rank) && p == old(RootOf(i))
      ensures forall j: nat | j < |parents| :: RootOf(j) == old(RootOf(j))
      ensures forall x | 0 <= x < |parents| :: parents[x] == if x in old(PathFrom(parents, rank, i)) && x != p then p else old(parents)[x]
    {
      p := i;
      while true
        invariant p < |parents| && RootOf(p) == RootOf(i)
        decreases rank[p]
      {
        var pp := parents[p];
        if pp < 0 {
          break;
        }
        p := pp;
      }
      LinkPath(i, p);
    }

    /** The second loop: everything on the way from i is linked to the root. */
    method LinkPath(i: nat, p: nat)
      requires Ranked(parents, rank) && i < |parents| && p == RootOf(i)
      modifies this`parents
      ensures Compressed(old(parents), rank, parents) && Ranked(parents, rank)
      ensures forall j: nat | j < |parents| :: RootOf(j) == old(RootOf(j))
      ensures forall x | 0 <= x < |parents| :: parents[x] == if x in old(PathFrom(parents, rank, i)) && x != p then p else old(parents)[x]
    {
      var k: nat := i;
      ghost var orig := parents;
      ghost var path, done := PathFrom(orig, rank, i), {};
      while k != p
        invariant |parents| == |orig| && k < |orig| && Root(orig, rank, k) == p
        invariant path == done + PathFrom(orig, rank, k) && done !! PathFrom(orig, rank, k) && p !in done
        invariant forall x | 0 <= x < |orig| :: parents[x] == if x in done then p else orig[x]
        decreases rank[k]
      {
        var nextK := parents[k];
        parents := parents[k := p];
        done := done + {k};
        k := nextK;
      }
      CompressedKeepsRank(orig, rank, parents);
      forall j: nat | j < |parents| ensures RootOf(j) == Root(orig, rank, j) {
        CompressedKeepsRoot(orig, rank, parents, j);
      }
    }

    method Imerge(i: nat, j: nat)
      requires Ranked(parents, rank) && i < |parents| && j < |parents|
      modifies this
      ensures |parents| == old(|parents|) && Ranked(parents, rank)
      ensures forall x: nat | x < |parents| ::
                RootOf(x) == if old(RootOf(x)) == old(RootOf(i)) then old(RootOf(j)) else old(RootOf(x))
    {
      var a := Ifind(i);
      var b := Ifind(j);
      if a != b {
        MergeKeepsRanked(parents, rank, a, b);
        forall x: nat | x < |parents| {
          MergeRoots(parents, rank, a, b, x);
        }
        rank := MergedRank(parents, rank, a, b);
        parents := parents[a := b];
      }
    }

    method Ipromote(i: nat)
      requires Ranked(parents, rank) && i < |parents|
      modifies this
      ensures |parents| == old(|parents|) && Ranked(parents, rank)
      ensures forall x: nat | x < |parents| ::
                RootOf(x) == if old(RootOf(x)) == old(RootOf(i)) then i else old(RootOf(x))
      ensures forall x | 0 <= x < |parents| ::
                parents[x] == if x == i then -1 else if x in old(PathFrom(parents, rank, i)) then i else old(parents)[x]
    {
      ghost var orig := parents;
      ghost var path := PathFrom(orig, rank, i);
      ghost var done := {};
      var k: int := i;
      while k != -1
        invariant |parents| == |orig| && rank == old(rank)
        invariant k == -1 || (0 <= k < |parents| && k in path && done !! PathFrom(orig, rank, k))
        invariant path == done + if k == -1 then {} else PathFrom(orig, rank, k)
        invariant forall j | 0 <= j < |parents| :: parents[j] == if j in done then i else orig[j]
        decreases if k == -1 then 0 else rank[k] + 1
      {
        var nextK := parents[k];
        parents := parents[k := i];
        done := done + {k};
        k := nextK;
      }
      parents := parents[i := -1];
      assert parents == Promoted(orig, path, i);
      forall x: nat | x < |orig| {
        PromoteRoots(orig, rank, i, x);
      }
      rank := PromotedRank(rank, path, i);
    }

    /** `find`: the representative key of a's class; an unknown key stands for itself. */
    method Find(a: K) returns (r: K)
      requires Valid()
      modifies this`parents
      ensures Valid()
      ensures a !in database.Keys() ==> r == a && parents == old(parents)
      ensures forall i: nat | i < |parents| && database.Keys()[i] == a :: r == database.Keys()[old(RootOf(i))]
      ensures forall j: nat | j < |parents| :: RootOf(j) == old(RootOf(j))
    {
      var index := database.IndexAt(a);
      if index.None? {
        return a;
      }
      database.KeysDistinct();
      var p := Ifind(index.value);
      r := database.KeyAt(p);
    }

    /** `merge` by key: a's class joins b's, every other class keeps its root. */
    method Merge(a: K, b: K) returns (ghost i: nat, ghost j: nat)
      requires Valid()
      modifies this, database.database
      ensures Valid() && i < |parents| && j < |parents| && database.Keys()[i] == a && database.Keys()[j] == b
      ensures RootOf(i) == RootOf(j) == if j < old(|parents|) then old(RootOf(j)) else j
      ensures forall x: nat | x < old(|parents|) :: x < |parents| &&
                RootOf(x) == if i < old(|parents|) && old(RootOf(x)) == old(RootOf(i)) then RootOf(j)
                             else old(RootOf(x))
    {
      ghost var orig, rank0 := parents, rank;
      var ia := IndexOf(a);
      ghost var orig1, rank1 := parents, rank;
      var ib := IndexOf(b);
      i, j := ia, ib;
      forall x: nat | x < |orig1| ensures RootOf(x) == Root(orig1, rank1, x) {
        ExtendKeepsRoot(orig1, rank1, parents, rank, x);
      }
      forall x: nat | x < |orig| ensures RootOf(x) == Root(orig, rank0, x) {
        ExtendKeepsRoot(orig, rank0, orig1, rank1, x);
      }
      Imerge(ia, ib);
    }
  }
}

/**
 * Concurrent `ifind` calls between two non-const operations.
 *
 * `orig` holds the parent links when the calls start.  Loads and stores are
 * relaxed atomics, so a load from a cell may return ANY value ever stored in
 * it, the original one included; the state therefore keeps, per cell, the set
 * of values stored so far.
 */
module ConcurrentFind {
  import opened Forest

  datatype Thread =
    | Climbing(i: nat, p: nat)                          // first loop
    | Walking(i: nat, p: nat, k: int)                   // second loop, before its test
    | Storing(i: nat, p: nat, k: int, nextK: int)       // next_k loaded, store pending
    | Done(i: nat, p: nat)

  datatype State = State(stored: seq<set<int>>, threads: map<nat, Thread>)

  ghost predicate Init(orig: seq<int>, s: State) {
    && |s.stored| == |orig|
    && (forall x | 0 <= x < |orig| :: s.stored[x] == {orig[x]})
    && s.threads == map[]
  }

  /** One atomic action of a running call; `read` is what its load, if any, returns. */
  ghost predicate ThreadStep(s: State, th: Thread, read: int, th': Thread, stored': seq<set<int>>) {
    match th
    case Climbing(i, p) =>
      && p < |s.stored| && read in s.stored[p] && stored' == s.stored
      && th' == (if read < 0 then Walking(i, p, i) else Climbing(i, read))
    case Walking(i, p, k) =>
      if k == p then th' == Done(i, p) && stored' == s.stored
      else
        && 0 <= k < |s.stored| && read in s.stored[k] && stored' == s.stored
        && th' == Storing(i, p, k, read)
    case Storing(i, p, k, nextK) =>
      && 0 <= k < |s.stored| && stored' == s.stored[k := s.stored[k] + {p}]
      && th' == Walking(i, p, nextK)
    case Done(_, _) => false
  }

  /** Thread t starts a call of ifind(i), or takes one action of its running call. */
  ghost predicate Step(s: State, t: nat, s': State) {
    if t !in s.threads then
      && s'.stored == s.stored
      && exists i: nat :: i < |s.stored| && s'.threads == s.threads[t := Climbing(i, i)]
    else
      exists read, th' ::
        && ThreadStep(s, s.threads[t], read, th', s'.stored)
        && s'.threads == s.threads[t := th']
  }

  // ------------------------------------------------------------- invariant

  ghost predicate ThreadOk(orig: seq<int>, rank: seq<nat>, th: Thread)
    requires Ranked(orig, rank)
  {
    && th.i < |orig|
    && var r := Root(orig, rank, th.i);
       match th
       case Climbing(i, p) => p < |orig| && Root(orig, rank, p) == r && rank[p] <= rank[i]
       case Walking(i, p, k) => p == r && 0 <= k < |orig| && Root(orig, rank, k) == r && rank[k] <= rank[i]
       case Storing(i, p, k, nextK) =>
         && p == r && 0 <= k < |orig| && Root(orig, rank, k) == r && k != r && rank[k] <= rank[i]
         && 0 <= nextK < |orig| && Root(orig, rank, nextK) == r && rank[nextK] < rank[k]
       case Done(_, p) => p == r
  }

  /** Every cell has only ever held its original parent or, if it is no root, its root. */
  ghost predicate CellsOk(orig: seq<int>, rank: seq<nat>, stored: seq<set<int>>)
    requires Ranked(orig, rank)
  {
    && |stored| == |orig|
    && forall x | 0 <= x < |orig| :: forall v | v in stored[x] ::
         v == orig[x] || (orig[x] != -1 && v == Root(orig, rank, x))
  }

  ghost predicate Inv(orig: seq<int>, rank: seq<nat>, s: State)
    requires Ranked(orig, rank)
  {
    && CellsOk(orig, rank, s.stored)
    && forall t | t in s.threads :: ThreadOk(orig, rank, s.threads[t])
  }

  /** What a load from cell x can return. */
  lemma {:induction false} LoadedValue(orig: seq<int>, rank: seq<nat>, stored: seq<set<int>>, x: nat, v: int)
    requires Ranked(orig, rank) && CellsOk(orig, rank, stored) && x < |orig| && v in stored[x]
    ensures v < 0 <==> Root(orig, rank, x) == x
    ensures v >= 0 ==> v < |orig| && rank[v] < rank[x] && Root(orig, rank, v) == Root(orig, rank, x)
  {
  }

  lemma {:induction false} ThreadStepKeepsOk(orig: seq<int>, rank: seq<nat>, s: State, th: Thread, read: int, th': Thread,
                          stored': seq<set<int>>)
    requires Ranked(orig, rank) && CellsOk(orig, rank, s.stored) && ThreadOk(orig, rank, th)
    requires ThreadStep(s, th, read, th', stored')
    ensures CellsOk(orig, rank, stored') && ThreadOk(orig, rank, th') && th'.i == th.i
    ensures Work(orig, rank, th') < Work(orig, rank, th)
  {
    match th
    case Climbing(i, p) => LoadedValue(orig, rank, s.stored, p, read);
    case Walking(i, p, k) => if k != p { LoadedValue(orig, rank, s.stored, k, read); }
    case Storing(i, p, k, nextK) =>
  }

  /** An upper bound on the number of actions a call still takes. */
  ghost function Work(orig: seq<int>, rank: seq<nat>, th: Thread): (w: nat)
    requires Ranked(orig, rank) && ThreadOk(orig, rank, th)
    ensures w <= 3 * rank[th.i] + 2
  {
    match th
    case Climbing(i, p) => 2 * rank[i] + 2 + rank[p]
    case Walking(i, p, k) => 2 * rank[k] + 1
    case Storing(i, p, k, nextK) => 2 * rank[k]
    case Done(_, _) => 0
  }

  // ----------------------------------------------------------- whole runs

  ghost predicate Execution(orig: seq<int>, states: seq<State>, who: seq<nat>) {
    && |states| == |who| + 1
    && Init(orig, states[0])
    && forall n | 0 <= n < |who| :: Step(states[n], who[n], states[n + 1])
  }

  /** How many of the actions were thread t's. */
  ghost function ActionsOf(who: seq<nat>, t: nat): nat {
    if who == [] then 0 else ActionsOf(who[..|who| - 1], t) + if who[|who| - 1] == t then 1 else 0
  }

  lemma {:induction false} StepKeepsInv(orig: seq<int>, rank: seq<nat>, s: State, t: nat, s': State)
    requires Ranked(orig, rank) && Inv(orig, rank, s) && Step(s, t, s')
    ensures Inv(orig, rank, s') && t in s'.threads && s.threads.Keys <= s'.threads.Keys
    ensures forall u | u in s.threads && u != t :: s'.threads[u] == s.threads[u]
    ensures t !in s.threads ==> Work(orig, rank, s'.threads[t]) <= 3 * rank[s'.threads[t].i] + 2
    ensures t in s.threads ==>
              s'.threads[t].i == s.threads[t].i && Work(orig, rank, s'.threads[t]) < Work(orig, rank, s.threads[t])
  {
    if t in s.threads {
      var read, th' :| ThreadStep(s, s.threads[t], read, th', s'.stored) && s'.threads == s.threads[t := th'];
      ThreadStepKeepsOk(orig, rank, s, s.threads[t], read, th', s'.stored);
    }
  }

  /** The informal argument of the source, over every interleaving of every number of calls. */
  lemma {:induction false} ExecutionKeepsInv(orig: seq<int>, rank: seq<nat>, states: seq<State>, who: seq<nat>, n: nat)
    requires Ranked(orig, rank) && Execution(orig, states, who) && n <= |who|
    ensures Inv(orig, rank, states[n])
    ensures forall t | t in states[n].threads ::
              ActionsOf(who[..n], t) + Work(orig, rank, states[n].threads[t]) <= 3 * rank[states[n].threads[t].i] + 3
    ensures forall t: nat | t !in states[n].threads :: ActionsOf(who[..n], t) == 0
  {
    if n > 0 {
      ExecutionKeepsInv(orig, rank, states, who, n - 1);
      StepKeepsInv(orig, rank, states[n - 1], who[n - 1], states[n]);
      assert who[..n][..n - 1] == who[..n - 1];
      forall t: nat
        ensures ActionsOf(who[..n], t) == ActionsOf(who[..n - 1], t) + if who[n - 1] == t then 1 else 0
      {
      }
    }
  }

  /** Number of links from i to its root. */
  ghost function Depth(orig: seq<int>, rank: seq<nat>, i: nat): (d: nat)
    requires Ranked(orig, rank) && i < |orig|
    decreases rank[i]
  {
    if orig[i] == -1 then 0 else Depth(orig, rank, orig[i]) + 1
  }

  /**
   * For an acyclic parent array, any number of concurrent calls and any
   * interleaving: at every moment each cell has only held its original parent
   * or its root, every call that has returned has returned the original root,
   * and no call has taken more than three times its depth, plus three, actions.
   */
  lemma {:induction false} ConcurrentFindCorrect(orig: seq<int>, rank: seq<nat>, states: seq<State>, who: seq<nat>, n: nat)
    requires Ranked(orig, rank) && Execution(orig, states, who) && n <= |who|
    ensures CellsOk(orig, rank, states[n].stored)
    ensures forall t | t in states[n].threads && states[n].threads[t].Done? ::
              var th := states[n].threads[t]; th.i < |orig| && th.p == Root(orig, rank, th.i)
    ensures forall t | t in states[n].threads ::
              var th := states[n].threads[t]; th.i < |orig| && ActionsOf(who[..n], t) <= 3 * Depth(orig, rank, th.i) + 3
  {
    var depth: seq<nat> := seq(|orig|, i requires 0 <= i < |orig| => Depth(orig, rank, i));
    ExecutionKeepsInv(orig, rank, states, who, n);
    ExecutionKeepsInv(orig, depth, states, who, n);
  }

  /** A call that has not returned is never blocked. */
  lemma {:induction false} ConcurrentFindProgress(orig: seq<int>, rank: seq<nat>, states: seq<State>, who: seq<nat>, n: nat, t: nat)
    requires Ranked(orig, rank) && Execution(orig, states, who) && n <= |who|
    requires t in states[n].threads && !states[n].threads[t].Done?
    ensures exists s' :: Step(states[n], t, s')
  {
    ExecutionKeepsInv(orig, rank, states, who, n);
    NeverEmpty(orig, states, who, n);
    var s := states[n];
    var th := s.threads[t];
    match th
    case Climbing(i, p) =>
      var read :| read in s.stored[p];
      var th' := if read < 0 then Walking(i, p, i) else Climbing(i, read);
      assert ThreadStep(s, th, read, th', s.stored);
      assert Step(s, t, s.(threads := s.threads[t := th']));
    case Walking(i, p, k) =>
      var read := if k == p then 0 else var v :| v in s.stored[k]; v;
      var th' := if k == p then Done(i, p) else Storing(i, p, k, read);
      assert ThreadStep(s, th, read, th', s.stored);
      assert Step(s, t, s.(threads := s.threads[t := th']));
    case Storing(i, p, k, nextK) =>
      var stored' := s.stored[k := s.stored[k] + {p as int}];
      assert ThreadStep(s, th, 0, Walking(i, p, nextK), stored');
      assert Step(s, t, State(stored', s.threads[t := Walking(i, p, nextK)]));
  }

  lemma {:induction false} NeverEmpty(orig: seq<int>, states: seq<State>, who: seq<nat>, n: nat)
    requires Execution(orig, states, who) && n <= |who|
    ensures |states[n].stored| == |orig|
    ensures forall x | 0 <= x < |orig| :: orig[x] in states[n].stored[x]
  {
    if n > 0 {
      NeverEmpty(orig, states, who, n - 1);
      assert Step(states[n - 1], who[n - 1], states[n]);
    }
  }

  /** Whatever a later non-const operation finds in the cells, every class is what it was. */
  lemma {:induction false} LaterReadersSeeSameClasses(orig: seq<int>, rank: seq<nat>, states: seq<State>, who: seq<nat>, n: nat,
                                   now: seq<int>)
    requires Ranked(orig, rank) && Execution(orig, states, who) && n <= |who|
    requires |now| == |orig| && forall x | 0 <= x < |orig| :: x < |states[n].stored| && now[x] in states[n].stored[x]
    ensures Ranked(now, rank)
    ensures forall i: nat | i < |orig| :: Root(now, rank, i) == Root(orig, rank, i)
  {
    ExecutionKeepsInv(orig, rank, states, who, n);
    assert Compressed(orig, rank, now);
    CompressedKeepsRank(orig, rank, now);
    forall i: nat | i < |orig| {
      CompressedKeepsRoot(orig, rank, now, i);
    }
  }
}
