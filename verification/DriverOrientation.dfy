/**
 * Resolving undirected connections between driver bits
 * (`DriverMap::DriveBitGraph` and `DriverMap::orient_undirected`).
 */
module DriverOrientation {
  datatype Edge = Edge(src: int, dst: int)

  /** Edges from each bit: the first two apart, the others newest first. */
  datatype DriveBitGraph = DriveBitGraph(firstEdges: map<int, int>, secondEdges: map<int, int>, moreEdges: map<int, seq<int>>)
  {
    function Targets(src: int): seq<int> {
      (if src in firstEdges then [firstEdges[src]] else [])
      + (if src in secondEdges then [secondEdges[src]] else [])
      + (if src in moreEdges then moreEdges[src] else [])
    }

    ghost predicate Valid() {
      && (forall s | s in secondEdges :: s in firstEdges)
      && (forall s | s in moreEdges :: s in secondEdges && moreEdges[s] != [])
      && (forall s :: NoRepeats(Targets(s)))
    }

    ghost predicate Has(e: Edge) {
      e.dst in Targets(e.src)
    }

    function Count(src: int): (n: nat)
      requires Valid()
      ensures n == |Targets(src)|
    {
      if src !in firstEdges then 0
      else if src !in secondEdges then 1
      else if src !in moreEdges then 2
      else |moreEdges[src]| + 2
    }

    function At(src: int, index: nat): (t: int)
      requires Valid() && index < Count(src)
      ensures t == Targets(src)[index]
    {
      if index == 0 then firstEdges[src]
      else if index == 1 then secondEdges[src]
      else moreEdges[src][index - 2]
    }
  }

  /** Adds an edge unless it is there. */
  method AddEdge(g: DriveBitGraph, src: int, dst: int) returns (g': DriveBitGraph)
    requires g.Valid()
    ensures g'.Valid() && forall e :: g'.Has(e) <==> g.Has(e) || e == Edge(src, dst)
    ensures forall s | s != src :: g'.Targets(s) == g.Targets(s)
  {
    g' := g;
    if src !in g'.firstEdges {
      g' := g'.(firstEdges := g'.firstEdges[src := dst]);
      assert g'.Targets(src) == [dst];
    }
    if g'.firstEdges[src] == dst {
      EdgeAdded(g, g', src, dst, 0);
      return;
    }
    if src !in g'.secondEdges {
      g' := g'.(secondEdges := g'.secondEdges[src := dst]);
      assert g'.Targets(src) == [g.firstEdges[src], dst];
    }
    if g'.secondEdges[src] == dst {
      EdgeAdded(g, g', src, dst, 1);
      return;
    }
    assert g' == g;
    g' := AddMore(g, src, dst);
  }

  /** The third store, for a bit that has the first two edges. */
  method AddMore(g: DriveBitGraph, src: int, dst: int) returns (g': DriveBitGraph)
    requires g.Valid() && src in g.firstEdges && src in g.secondEdges && dst != g.firstEdges[src] && dst != g.secondEdges[src]
    ensures g'.Valid() && forall e :: g'.Has(e) <==> g.Has(e) || e == Edge(src, dst)
    ensures forall s | s != src :: g'.Targets(s) == g.Targets(s)
  {
    g' := g;
    var more := if src in g'.moreEdges then g'.moreEdges[src] else [];
    if dst !in more {
      g' := g'.(moreEdges := g'.moreEdges[src := [dst] + more]);
    }
    EdgeAdded(g, g', src, dst, 2);
  }

  lemma {:induction false} InsertNoRepeats(t: seq<int>, at: nat, x: int)
    requires NoRepeats(t) && at <= |t| && x !in t
    ensures NoRepeats(t[..at] + [x] + t[at..])
    ensures forall y :: y in t[..at] + [x] + t[at..] <==> y in t || y == x
  {
    assert t == t[..at] + t[at..];
  }

  lemma {:induction false} EdgeAdded(g: DriveBitGraph, g': DriveBitGraph, src: int, dst: int, at: nat)
    requires g.Valid() && at <= 2
    requires forall s | s != src :: g'.Targets(s) == g.Targets(s)
    requires (forall s | s in g'.secondEdges :: s in g'.firstEdges) && forall s | s in g'.moreEdges :: s in g'.secondEdges && g'.moreEdges[s] != []
    requires var t := g.Targets(src); g'.Targets(src) == t || (at <= |t| && dst !in t && g'.Targets(src) == t[..at] + [dst] + t[at..])
    requires dst in g'.Targets(src)
    ensures g'.Valid() && forall e :: g'.Has(e) <==> g.Has(e) || e == Edge(src, dst)
  {
    var t := g.Targets(src);
    assert NoRepeats(t);
    if g'.Targets(src) != t {
      InsertNoRepeats(t, at, dst);
    }
    forall e: Edge ensures g'.Has(e) <==> g.Has(e) || e == Edge(src, dst) {
      if e.src != src { assert g'.Targets(e.src) == g.Targets(e.src); }
    }
  }

  method Clear(g: DriveBitGraph, src: int) returns (g': DriveBitGraph)
    requires g.Valid()
    ensures g'.Valid() && forall e :: g'.Has(e) <==> g.Has(e) && e.src != src
  {
    g' := DriveBitGraph(g.firstEdges - {src}, g.secondEdges - {src}, g.moreEdges - {src});
    assert g'.Targets(src) == [];
    assert forall s | s != src :: g'.Targets(s) == g.Targets(s);
  }

  ghost predicate NoRepeats(s: seq<int>) {
    forall i, j | 0 <= i < j < |s| :: s[i] != s[j]
  }

  // ------------------------------------------------- walks and distances

  /** The neighbours of each bit. */
  type Adjacency = map<int, set<int>>

  predicate Adjacent(adj: Adjacency, a: int, b: int) {
    a in adj && b in adj[a]
  }

  /** Some walk of n steps leads from a to b. */
  ghost predicate Walk(adj: Adjacency, a: int, b: int, n: nat)
    decreases n
  {
    if n == 0 then a == b else exists c :: Walk(adj, a, c, n - 1) && Adjacent(adj, c, b)
  }

  ghost predicate Reachable(adj: Adjacency, a: int, b: int) {
    exists n: nat :: Walk(adj, a, b, n)
  }

  /** n is the length of the shortest walk. */
  ghost predicate Distance(adj: Adjacency, a: int, b: int, n: nat) {
    Walk(adj, a, b, n) && forall m: nat | Walk(adj, a, b, m) :: n <= m
  }

  lemma {:induction false} DistanceUnique(adj: Adjacency, a: int, b: int, m: nat, n: nat)
    requires Distance(adj, a, b, m) && Distance(adj, a, b, n)
    ensures m == n
  {
  }

  lemma {:induction false} WalkStep(adj: Adjacency, a: int, b: int, c: int, n: nat)
    requires Walk(adj, a, b, n) && Adjacent(adj, b, c)
    ensures Walk(adj, a, c, n + 1)
  {
  }

  lemma {:induction false} WalkJoin(adj: Adjacency, a: int, b: int, c: int, m: nat, n: nat)
    requires Walk(adj, a, b, m) && Walk(adj, b, c, n)
    ensures Walk(adj, a, c, m + n)
    decreases n
  {
    if n > 0 {
      var d :| Walk(adj, b, d, n - 1) && Adjacent(adj, d, c);
      WalkJoin(adj, a, b, d, m, n - 1);
      WalkStep(adj, a, d, c, m + n - 1);
    }
  }

  ghost predicate Symmetric(adj: Adjacency) {
    forall a, b :: Adjacent(adj, a, b) ==> Adjacent(adj, b, a)
  }

  lemma {:induction false} WalkBack(adj: Adjacency, a: int, b: int, n: nat)
    requires Symmetric(adj) && Walk(adj, a, b, n)
    ensures Walk(adj, b, a, n)
    decreases n
  {
    if n > 0 {
      var c :| Walk(adj, a, c, n - 1) && Adjacent(adj, c, b);
      WalkBack(adj, a, c, n - 1);
      assert Walk(adj, b, b, 0);
      WalkStep(adj, b, b, c, 0);
      WalkJoin(adj, b, c, a, 1, n - 1);
    }
  }

  // ------------------------------------------------------ the breadth search

  /**
   * A breadth-first search from d after its first `pos` bits: `order` lists
   * the bits found, `dist` their distances.
   */
  ghost predicate Search(adj: Adjacency, d: int, order: seq<int>, dist: map<int, nat>, pos: nat) {
    && 0 < |order| && pos <= |order| && order[0] == d && NoRepeats(order)
    && (forall x :: x in dist <==> x in order)
    && dist[d] == 0
    && (forall x | x in dist :: Walk(adj, d, x, dist[x]))
    && (forall i, j | 0 <= i <= j < |order| :: dist[order[i]] <= dist[order[j]])
    && (pos < |order| ==> forall i | 0 <= i < |order| :: dist[order[i]] <= dist[order[pos]] + 1)
    && (forall i | 0 <= i < pos :: Scanned(adj, order[i], dist))
  }

  /** All neighbours of c are found, at most one step further. */
  ghost predicate Scanned(adj: Adjacency, c: int, dist: map<int, nat>) {
    c in dist && forall b | Adjacent(adj, c, b) :: b in dist && dist[b] <= dist[c] + 1
  }

  /** Everything at most as far as the bit being scanned has been found, and no nearer than it is. */
  lemma {:induction false} Covered(adj: Adjacency, d: int, order: seq<int>, dist: map<int, nat>, pos: nat, x: int, n: nat)
    requires Search(adj, d, order, dist, pos) && Walk(adj, d, x, n)
    requires pos < |order| ==> n <= dist[order[pos]]
    ensures x in dist && dist[x] <= n
    decreases n
  {
    if n > 0 {
      var c :| Walk(adj, d, c, n - 1) && Adjacent(adj, c, x);
      Covered(adj, d, order, dist, pos, c, n - 1);
      var i :| 0 <= i < |order| && order[i] == c;
      assert i < pos;
      assert Scanned(adj, order[i], dist);
    }
  }

  /** When nothing is left to scan, the distances are exact. */
  lemma {:induction false} SearchDone(adj: Adjacency, d: int, order: seq<int>, dist: map<int, nat>)
    requires Search(adj, d, order, dist, |order|)
    ensures forall x :: x in dist <==> Reachable(adj, d, x)
    ensures forall x | x in dist :: Distance(adj, d, x, dist[x])
  {
    forall x, n: nat | Walk(adj, d, x, n) ensures x in dist && dist[x] <= n {
      Covered(adj, d, order, dist, |order|, x, n);
    }
  }

  /** A bit first found now is one step further than the one being scanned. */
  lemma {:induction false} Discovered(adj: Adjacency, d: int, order: seq<int>, dist: map<int, nat>, pos: nat, next: int)
    requires Search(adj, d, order, dist, pos) && pos < |order| && Adjacent(adj, order[pos], next) && next !in dist
    ensures Search(adj, d, order + [next], dist[next := dist[order[pos]] + 1], pos)
  {
    var order', dist' := order + [next], dist[next := dist[order[pos]] + 1];
    WalkStep(adj, d, order[pos], next, dist[order[pos]]);
    forall i | 0 <= i < pos ensures Scanned(adj, order'[i], dist') {
      assert Scanned(adj, order[i], dist);
    }
    forall x ensures x in dist' <==> x in order' { }
  }

  lemma {:induction false} NextPosition(adj: Adjacency, d: int, order: seq<int>, dist: map<int, nat>, pos: nat)
    requires Search(adj, d, order, dist, pos) && pos < |order| && Scanned(adj, order[pos], dist)
    ensures Search(adj, d, order, dist, pos + 1)
  {
  }

  // ---------------------------------------------------------- orientation

  /** The edges one driver contributes: from each bit back to its neighbours one step nearer. */
  ghost predicate Oriented(adj: Adjacency, d: int, next: int, current: int) {
    Adjacent(adj, current, next) && exists n: nat :: Distance(adj, d, current, n) && Distance(adj, d, next, n + 1)
  }

  /** The bits that drive the component of `id`: those marked so, or all of it if there is none. */
  ghost predicate Drives(adj: Adjacency, marked: iset<int>, id: int, d: int) {
    Reachable(adj, id, d) && (d in marked || forall x | Reachable(adj, id, x) :: x !in marked)
  }

  ghost function Members(s: seq<int>): set<int> {
    set x | x in s
  }

  /** `same_driver.find`, given the bits that were merged into others. */
  function Find(sameDriver: map<int, int>, x: int): int {
    if x in sameDriver then sameDriver[x] else x
  }

  /** The representatives of the bits connected to c. */
  function Neighbours(g: DriveBitGraph, sameDriver: map<int, int>, c: int): (found: seq<int>)
    ensures |found| == |g.Targets(c)|
  {
    seq(|g.Targets(c)|, i requires 0 <= i < |g.Targets(c)| => Find(sameDriver, g.Targets(c)[i]))
  }

  /** adj is the graph of the undirected connections between representatives. */
  ghost predicate Describes(adj: Adjacency, g: DriveBitGraph, sameDriver: map<int, int>) {
    && g.Valid()
    && (forall a | a in adj :: adj[a] <= adj.Keys)
    && forall a | a in adj :: adj[a] == Members(Neighbours(g, sameDriver, a))
  }

  // ------------------------------------ ambiguous connections go both ways

  ghost predicate Idempotent(sameDriver: map<int, int>) {
    forall x :: Find(sameDriver, Find(sameDriver, x)) == Find(sameDriver, x)
  }

  /** The representative of the target leads back to the source's. */
  ghost predicate Mirrored(g: DriveBitGraph, sameDriver: map<int, int>, e: Edge) {
    exists u :: g.Has(Edge(Find(sameDriver, e.dst), u)) && Find(sameDriver, u) == e.src
  }

  /** Every stored connection starts at a representative and is there in the other direction. */
  ghost predicate Mutual(g: DriveBitGraph, sameDriver: map<int, int>) {
    && g.Valid() && Idempotent(sameDriver)
    && forall e | g.Has(e) :: Find(sameDriver, e.src) == e.src && Mirrored(g, sameDriver, e)
  }

  lemma {:induction false} MutualAdd(g: DriveBitGraph, g': DriveBitGraph, sameDriver: map<int, int>, a: int, b: int)
    requires Mutual(g, sameDriver) && Find(sameDriver, a) == a && Find(sameDriver, b) == b && g'.Valid()
    requires forall e :: g'.Has(e) <==> g.Has(e) || e == Edge(a, b) || e == Edge(b, a)
    ensures Mutual(g', sameDriver)
  {
    forall e: Edge | g'.Has(e) ensures Find(sameDriver, e.src) == e.src && Mirrored(g', sameDriver, e) {
      if g.Has(e) {
        var u :| g.Has(Edge(Find(sameDriver, e.dst), u)) && Find(sameDriver, u) == e.src;
        assert g'.Has(Edge(Find(sameDriver, e.dst), u));
      } else {
        assert g'.Has(Edge(e.dst, e.src));
      }
    }
  }

  /** `driven` and what it stood for is now represented by `driver`. */
  ghost predicate MergedInto(sameDriver: map<int, int>, sameDriver': map<int, int>, driven: int, driver: int) {
    forall x :: Find(sameDriver', x) == if Find(sameDriver, x) == driven then driver else Find(sameDriver, x)
  }

  /** The edges of `driven` are now edges of `driver`. */
  ghost predicate Moved(g: DriveBitGraph, g': DriveBitGraph, driven: int, driver: int) {
    g'.Valid() && forall e :: g'.Has(e) <==> e.src != driven && (g.Has(e) || (e.src == driver && g.Has(Edge(driven, e.dst))))
  }

  /** Merging a bit into another keeps the connections mutual. */
  lemma {:induction false} MutualMerge(g: DriveBitGraph, g': DriveBitGraph, sd: map<int, int>, sd': map<int, int>, driven: int, driver: int)
    requires Mutual(g, sd) && driven != driver && Find(sd, driven) == driven && Find(sd, driver) == driver
    requires MergedInto(sd, sd', driven, driver) && Moved(g, g', driven, driver)
    ensures Mutual(g', sd')
  {
    forall e: Edge | g'.Has(e) ensures Find(sd', e.src) == e.src && Mirrored(g', sd', e) {
      var from := if g.Has(e) then e else Edge(driven, e.dst);
      MirrorMoves(g, g', sd, sd', driven, driver, from, e);
    }
  }

  lemma {:induction false} MirrorMoves(g: DriveBitGraph, g': DriveBitGraph, sd: map<int, int>, sd': map<int, int>, driven: int, driver: int,
                                       from: Edge, e: Edge)
    requires Mutual(g, sd) && MergedInto(sd, sd', driven, driver) && Moved(g, g', driven, driver) && driven != driver
    requires g.Has(from) && e.dst == from.dst && e.src == if from.src == driven then driver else from.src
    ensures Mirrored(g', sd', e)
  {
    var r := Find(sd, e.dst);
    var u :| g.Has(Edge(r, u)) && Find(sd, u) == from.src;
    var r' := if r == driven then driver else r;
    assert Find(sd', e.dst) == r' && Find(sd', u) == e.src;
    assert g'.Has(Edge(r', u));
  }

  /** Adds the edges of one bit to another, and clears them there. */
  method MoveEdges(g: DriveBitGraph, driven: int, driver: int) returns (g': DriveBitGraph)
    requires g.Valid() && driven != driver
    ensures Moved(g, g', driven, driver)
  {
    g' := g;
    for i := 0 to g.Count(driven)
      invariant g'.Valid() && g'.Targets(driven) == g.Targets(driven)
      invariant forall e :: g'.Has(e) <==> g.Has(e) || (e.src == driver && e.dst in g.Targets(driven)[..i])
    {
      var target := g'.At(driven, i);
      assert g.Targets(driven)[..i + 1] == g.Targets(driven)[..i] + [target];
      g' := AddEdge(g', driver, target);
    }
    assert g.Targets(driven)[..g.Count(driven)] == g.Targets(driven);
    g' := Clear(g', driven);
  }

  /** The graph between representatives: those with connections, and `id`. */
  ghost function Resolved(g: DriveBitGraph, sameDriver: map<int, int>, id: int): Adjacency {
    map x | x in g.firstEdges.Keys + {id} :: Members(Neighbours(g, sameDriver, x))
  }

  lemma {:induction false} ResolvedAdjacent(g: DriveBitGraph, sameDriver: map<int, int>, id: int, a: int, b: int)
    requires g.Valid()
    ensures Adjacent(Resolved(g, sameDriver, id), a, b) <==> exists u :: g.Has(Edge(a, u)) && Find(sameDriver, u) == b
  {
    var adj, found := Resolved(g, sameDriver, id), Neighbours(g, sameDriver, a);
    if Adjacent(adj, a, b) {
      var i :| 0 <= i < |found| && found[i] == b;
      assert g.Has(Edge(a, g.Targets(a)[i]));
    }
    if u :| g.Has(Edge(a, u)) && Find(sameDriver, u) == b {
      var i :| 0 <= i < |g.Targets(a)| && g.Targets(a)[i] == u;
      assert found[i] == b && a in g.firstEdges;
    }
  }

  /** It describes the stored connections, and is symmetric. */
  lemma {:induction false} MutualIsSymmetric(g: DriveBitGraph, sameDriver: map<int, int>, id: int)
    requires Mutual(g, sameDriver)
    ensures var adj := Resolved(g, sameDriver, id); id in adj && Describes(adj, g, sameDriver) && Symmetric(adj)
  {
    var adj := Resolved(g, sameDriver, id);
    forall a, b | Adjacent(adj, a, b) ensures b in g.firstEdges && Adjacent(adj, b, a) {
      ResolvedAdjacent(g, sameDriver, id, a, b);
      var u :| g.Has(Edge(a, u)) && Find(sameDriver, u) == b;
      assert Mirrored(g, sameDriver, Edge(a, u));
      ResolvedAdjacent(g, sameDriver, id, b, a);
    }
    forall a | a in adj ensures adj[a] <= adj.Keys {
      forall b | b in adj[a] ensures b in adj.Keys {
        assert Adjacent(adj, a, b);
      }
    }
  }

  /** How a bit takes part in connections. */
  datatype BitMode = None | Driven | DrivenUnique | Keep | Tristate | Driver
  {
    predicate Uses() {
      Driven? || DrivenUnique?
    }

    predicate CanDrive() {
      Driver? || Tristate?
    }
  }

  /** The bit that connection number i of `current` leads to. */
  method Connected(g: DriveBitGraph, sameDriver: map<int, int>, current: int, i: nat, ghost adj: Adjacency) returns (next: int)
    requires Describes(adj, g, sameDriver) && current in adj && i < g.Count(current)
    ensures next == Neighbours(g, sameDriver, current)[i] && Adjacent(adj, current, next)
  {
    next := Find(sameDriver, g.At(current, i));
    assert Neighbours(g, sameDriver, current)[i] == next;
    assert next in Members(Neighbours(g, sameDriver, current));
  }

  /** The inner loop of the searches: finds the neighbours of one bit; those one step further than it are `nearer`. */
  method Scan(d: int, found: seq<int>, ghost adj: Adjacency, order: seq<int>, dist: map<int, nat>, pos: nat)
    returns (order': seq<int>, dist': map<int, nat>, nearer: seq<int>)
    requires Search(adj, d, order, dist, pos) && pos < |order| && Inside(order, adj)
    requires (forall a | a in adj :: adj[a] <= adj.Keys) && order[pos] in adj && adj[order[pos]] == Members(found)
    ensures Search(adj, d, order', dist', pos + 1) && order <= order' && Inside(order', adj) && Extends(dist, dist')
    ensures forall s :: s in nearer <==> Nearer(adj, dist', s, order[pos])
  {
    order', dist', nearer := order, dist, [];
    var current := order[pos];
    for i := 0 to |found|
      invariant Search(adj, d, order', dist', pos) && order <= order' && Inside(order', adj) && Extends(dist, dist')
      invariant forall k | 0 <= k < i :: Found(dist', current, found[k])
      invariant ListsNearer(nearer, found[..i], dist', current)
    {
      assert found[i] in Members(found);
      ghost var dist0 := dist';
      order', dist' := Visit(d, adj, order', dist', pos, found[i]);
      ghost var nearer0 := nearer;
      if dist'[found[i]] == dist'[current] + 1 {
        nearer := nearer + [found[i]];
      }
      NearerMore(nearer0, nearer, found, i, dist0, dist', current);
    }
    assert found[..|found|] == found;
    forall b | Adjacent(adj, current, b) ensures Found(dist', current, b) {
      var k :| 0 <= k < |found| && found[k] == b;
    }
    NextPosition(adj, d, order', dist', pos);
  }

  method Visit(d: int, ghost adj: Adjacency, order: seq<int>, dist: map<int, nat>, pos: nat, next: int)
    returns (order': seq<int>, dist': map<int, nat>)
    requires Search(adj, d, order, dist, pos) && pos < |order| && Inside(order, adj)
    requires (forall a | a in adj :: adj[a] <= adj.Keys) && Adjacent(adj, order[pos], next)
    ensures Search(adj, d, order', dist', pos) && order <= order' && Inside(order', adj) && Extends(dist, dist')
    ensures Found(dist', order[pos], next)
  {
    order', dist' := order, dist;
    Visited(adj, d, order, dist, pos, next);
    if next !in order {
      order', dist' := order + [next], dist[next := dist[order[pos]] + 1];
    }
  }

  /** The list holds those of `found` that are one step further than `current`. */
  ghost predicate ListsNearer(nearer: seq<int>, found: seq<int>, dist: map<int, nat>, current: int) {
    current in dist && forall s :: s in nearer <==> s in found && s in dist && dist[s] == dist[current] + 1
  }

  lemma {:induction false} NearerMore(nearer: seq<int>, nearer': seq<int>, found: seq<int>, i: nat, dist: map<int, nat>, dist': map<int, nat>, current: int)
    requires i < |found| && Extends(dist, dist') && Found(dist', current, found[i])
    requires ListsNearer(nearer, found[..i], dist, current) && forall k | 0 <= k < i :: Found(dist, current, found[k])
    requires nearer' == if dist'[found[i]] == dist'[current] + 1 then nearer + [found[i]] else nearer
    ensures ListsNearer(nearer', found[..i + 1], dist', current)
  {
    assert found[..i + 1] == found[..i] + [found[i]];
    forall s | s in found[..i] ensures s in dist {
      var k :| 0 <= k < i && found[k] == s;
      assert Found(dist, current, found[k]);
    }
  }

  ghost predicate Inside(order: seq<int>, adj: Adjacency) {
    forall x | x in order :: x in adj
  }

  class DriverMap {
    /** The modes of the wires and ports of the design. */
    const mode: int -> BitMode
    var sameDriver: map<int, int>
    var connectedDrivers: DriveBitGraph
    var connectedUndirected: DriveBitGraph
    var connectedOriented: DriveBitGraph
    var orientedPresent: set<int>

    ghost predicate Valid()
      reads this
    {
      connectedDrivers.Valid() && connectedOriented.Valid() && Mutual(connectedUndirected, sameDriver)
    }

    constructor (mode: int -> BitMode)
      ensures Valid() && this.mode == mode && sameDriver == map[] && orientedPresent == {}
      ensures forall e :: !connectedUndirected.Has(e) && !connectedDrivers.Has(e) && !connectedOriented.Has(e)
    {
      this.mode := mode;
      var empty := DriveBitGraph(map[], map[], map[]);
      connectedDrivers, connectedUndirected, connectedOriented := empty, empty, empty;
      sameDriver, orientedPresent := map[], {};
    }

    /** The bit drives a value itself, or is driven through a directed connection. */
    predicate IsMarked(x: int): (marked: bool)
      requires connectedDrivers.Valid()
      reads this
      ensures marked <==> mode(x).Driver? || mode(x).Tristate? || exists t :: connectedDrivers.Has(Edge(x, t))
    {
      assert x in connectedDrivers.firstEdges ==> connectedDrivers.Has(Edge(x, connectedDrivers.firstEdges[x]));
      mode(x).CanDrive() || x in connectedDrivers.firstEdges
    }

    ghost function Marked(): iset<int>
      requires connectedDrivers.Valid()
      reads this
    {
      iset x | IsMarked(x)
    }

    function Representative(x: int): int
      reads this
    {
      Find(sameDriver, x)
    }

    /** The undirected connections between representatives. */
    ghost function Graph(id: int): Adjacency
      reads this
    {
      Resolved(connectedUndirected, sameDriver, id)
    }

    /** `driven` is merged into `driver`, which takes over its connections. */
    method ConnectDirectedMerge(driven: int, driver: int)
      requires Valid() && Representative(driven) == driven && Representative(driver) == driver
      modifies this`sameDriver, this`connectedDrivers, this`connectedUndirected
      ensures Valid()
      ensures forall x :: Representative(x) == if old(Representative(x)) == driven then driver else old(Representative(x))
      ensures driven != driver ==> Moved(old(connectedDrivers), connectedDrivers, driven, driver)
      ensures driven != driver ==> Moved(old(connectedUndirected), connectedUndirected, driven, driver)
      ensures driven == driver ==> connectedDrivers == old(connectedDrivers) && connectedUndirected == old(connectedUndirected)
    {
      if driven == driver {
        return;
      }
      ghost var sd := sameDriver;
      sameDriver := map x | x in sameDriver.Keys + {driven} ::
        if Find(sameDriver, x) == driven then driver else Find(sameDriver, x);
      assert MergedInto(sd, sameDriver, driven, driver);
      connectedDrivers := MoveEdges(connectedDrivers, driven, driver);
      var moved := MoveEdges(connectedUndirected, driven, driver);
      MutualMerge(connectedUndirected, moved, sd, sameDriver, driven, driver);
      connectedUndirected := moved;
    }

    method ConnectDirectedBuffer(driven: int, driver: int)
      requires Valid()
      modifies this`connectedDrivers
      ensures Valid()
      ensures forall e :: connectedDrivers.Has(e) <==> old(connectedDrivers).Has(e) || e == Edge(driven, driver)
    {
      connectedDrivers := AddEdge(connectedDrivers, driven, driver);
    }

    /** Every ambiguous connection is stored in both directions. */
    method ConnectUndirected(a: int, b: int)
      requires Valid() && Representative(a) == a && Representative(b) == b
      modifies this`connectedUndirected
      ensures Valid()
      ensures forall e :: connectedUndirected.Has(e) <==> old(connectedUndirected).Has(e) || e == Edge(a, b) || e == Edge(b, a)
    {
      var added := AddEdge(connectedUndirected, a, b);
      added := AddEdge(added, b, a);
      MutualAdd(connectedUndirected, added, sameDriver, a, b);
      connectedUndirected := added;
    }

    /** The two bits have the same driver, or are connected by it or by an ambiguous connection. */
    ghost predicate Linked(a: int, b: int)
      reads this
    {
      var p, q := Representative(a), Representative(b);
      p == q || connectedDrivers.Has(Edge(p, q)) || connectedDrivers.Has(Edge(q, p))
      || (connectedUndirected.Has(Edge(p, q)) && connectedUndirected.Has(Edge(q, p)))
    }

    /** The bits that had the representative `gone` now have `kept`, which has taken over the connections of `gone`. */
    twostate predicate MergesAway(gone: int, kept: int)
      reads this
    {
      && (forall x :: Representative(x) == if old(Representative(x)) == gone then kept else old(Representative(x)))
      && (forall e :: connectedDrivers.Has(e) <==>
            e.src != gone && (old(connectedDrivers).Has(e) || (e.src == kept && old(connectedDrivers).Has(Edge(gone, e.dst)))))
      && (forall e :: connectedUndirected.Has(e) <==>
            e.src != gone && (old(connectedUndirected).Has(e) || (e.src == kept && old(connectedUndirected).Has(Edge(gone, e.dst)))))
    }

    /**
     * A connection of two single bits: merged, directed or ambiguous, as the modes of their representatives allow.
     * Only a bit of no mode is merged away, and only into one that uses no value. A directed connection leads from the
     * driven end to the driving one, and the connection is ambiguous exactly where the modes name no driven end.
     */
    method Add(aBit: int, bBit: int)
      requires Valid()
      modifies this`sameDriver, this`connectedDrivers, this`connectedUndirected
      ensures Valid() && Linked(aBit, bBit)
      ensures forall x, y | old(Representative(x) == Representative(y)) :: Representative(x) == Representative(y)
      ensures var a, b := old(Representative(aBit)), old(Representative(bBit));
              var aMerges := a != b && mode(a).None? && !mode(b).Driven? && !mode(b).DrivenUnique?;
              var bMerges := a != b && !aMerges && mode(b).None? && !mode(a).Driven? && !mode(a).DrivenUnique?;
              && (aMerges ==> MergesAway(a, b))
              && (bMerges ==> MergesAway(b, a))
              && (!aMerges && !bMerges ==> forall x :: Representative(x) == old(Representative(x)))
              && (a == b ==> connectedDrivers == old(connectedDrivers) && connectedUndirected == old(connectedUndirected))
      ensures var a, b := old(Representative(aBit)), old(Representative(bBit));
              var aDriven := (mode(b).Driver? && !mode(a).Driver?) || (mode(a).DrivenUnique? && !mode(b).Driven? && !mode(b).DrivenUnique?);
              var bDriven := mode(a).Driver? || (mode(b).DrivenUnique? && !mode(a).Driven? && !mode(a).DrivenUnique?);
              Representative(aBit) != Representative(bBit) ==>
                && (forall e :: connectedDrivers.Has(e) <==>
                      old(connectedDrivers).Has(e) || (aDriven && e == Edge(a, b)) || (bDriven && e == Edge(b, a)))
                && (forall e :: connectedUndirected.Has(e) <==>
                      old(connectedUndirected).Has(e) || (!aDriven && !bDriven && (e == Edge(a, b) || e == Edge(b, a))))
    {
      var a, b := Representative(aBit), Representative(bBit);
      if a == b {
        return;
      }
      var aMode, bMode := mode(a), mode(b);
      if aMode.None? && !bMode.Uses() {
        ConnectDirectedMerge(a, b);
      } else if bMode.None? && !aMode.Uses() {
        ConnectDirectedMerge(b, a);
      } else if aMode.DrivenUnique? && !bMode.Uses() {
        ConnectDirectedBuffer(a, b);
      } else if bMode.DrivenUnique? && !aMode.Uses() {
        ConnectDirectedBuffer(b, a);
      } else if aMode.Driver? {
        ConnectDirectedBuffer(b, a);
      } else if bMode.Driver? {
        ConnectDirectedBuffer(a, b);
      } else {
        ConnectUndirected(a, b);
      }
    }

    method NeighbourList(c: int, ghost adj: Adjacency) returns (found: seq<int>)
      requires Describes(adj, connectedUndirected, sameDriver) && c in adj
      ensures found == Neighbours(connectedUndirected, sameDriver, c)
    {
      found := [];
      for i := 0 to connectedUndirected.Count(c)
        invariant found == Neighbours(connectedUndirected, sameDriver, c)[..i]
      {
        var next := Connected(connectedUndirected, sameDriver, c, i, adj);
        found := found + [next];
      }
    }

    /** The bits connected to `id`, in the order they are found, and the marked ones among them. */
    method Component(id: int, ghost adj: Adjacency) returns (seen: seq<int>, drivers: seq<int>)
      requires connectedDrivers.Valid() && Describes(adj, connectedUndirected, sameDriver) && id in adj
      ensures NoRepeats(seen) && forall x :: x in seen <==> Reachable(adj, id, x)
      ensures forall x :: x in drivers <==> x in seen && IsMarked(x)
    {
      seen, drivers := [id], [];
      var dist: map<int, nat> := map[id := 0];
      var pos := 0;
      while pos < |seen|
        invariant Search(adj, id, seen, dist, pos) && Inside(seen, adj)
        invariant forall x :: x in drivers <==> x in seen[..pos] && IsMarked(x)
        decreases adj.Keys - Members(seen), |seen| - pos
      {
        var current := seen[pos];
        if IsMarked(current) {
          drivers := drivers + [current];
        }
        ghost var before := seen;
        var found := NeighbourList(current, adj);
        var nearer;
        seen, dist, nearer := Scan(id, found, adj, seen, dist, pos);
        Progress(adj, before, seen, pos);
        pos := pos + 1;
      }
      assert seen[..pos] == seen;
      SearchDone(adj, id, seen, dist);
    }

    /** Records that the bits of `nearer` are driven from `current`. */
    method AddOriented(nearer: seq<int>, current: int)
      requires Valid()
      modifies this`connectedOriented
      ensures Valid()
      ensures forall e :: connectedOriented.Has(e) <==> old(connectedOriented).Has(e) || (e.dst == current && e.src in nearer)
    {
      for i := 0 to |nearer|
        invariant Valid()
        invariant forall e :: connectedOriented.Has(e) <==> old(connectedOriented).Has(e) || (e.dst == current && e.src in nearer[..i])
      {
        connectedOriented := AddEdge(connectedOriented, nearer[i], current);
        assert nearer[..i + 1] == nearer[..i] + [nearer[i]];
      }
      assert nearer[..|nearer|] == nearer;
    }

    /** The search from one driver. */
    method OrientFrom(d: int, ghost adj: Adjacency)
      requires Valid() && Describes(adj, connectedUndirected, sameDriver) && d in adj
      modifies this`connectedOriented
      ensures Valid()
      ensures forall e :: connectedOriented.Has(e) <==> old(connectedOriented).Has(e) || Oriented(adj, d, e.src, e.dst)
    {
      var order := [d];
      var dist: map<int, nat> := map[d := 0];
      var pos := 0;
      while pos < |order|
        invariant Valid()
        invariant Search(adj, d, order, dist, pos) && Inside(order, adj)
        invariant forall e :: connectedOriented.Has(e) <==> old(connectedOriented).Has(e) || NearerUpTo(adj, order, dist, pos, e)
        decreases adj.Keys - Members(order), |order| - pos
      {
        var current := order[pos];
        var found := NeighbourList(current, adj);
        ghost var order0, dist0 := order, dist;
        var nearer;
        order, dist, nearer := Scan(d, found, adj, order, dist, pos);
        AddOriented(nearer, current);
        Progress(adj, order0, order, pos);
        forall e: Edge
          ensures NearerUpTo(adj, order, dist, pos + 1, e) <==> NearerUpTo(adj, order0, dist0, pos, e) || (e.dst == current && e.src in nearer)
        {
          NearerStep(adj, d, order0, dist0, order, dist, pos, e);
        }
        pos := pos + 1;
      }
      forall e: Edge ensures NearerUpTo(adj, order, dist, pos, e) <==> Oriented(adj, d, e.src, e.dst) {
        SearchEdges(adj, d, order, dist, e);
      }
    }

    /** The searches from a list of drivers, one after the other. */
    method OrientAll(drivers: seq<int>, ghost adj: Adjacency)
      requires Valid() && Describes(adj, connectedUndirected, sameDriver) && Inside(drivers, adj)
      modifies this`connectedOriented
      ensures Valid()
      ensures forall e :: connectedOriented.Has(e) <==> old(connectedOriented).Has(e) || ByOneOf(adj, drivers, e)
    {
      for i := 0 to |drivers|
        invariant Valid()
        invariant forall e :: connectedOriented.Has(e) <==> old(connectedOriented).Has(e) || ByOneOf(adj, drivers[..i], e)
      {
        OrientFrom(drivers[i], adj);
        forall e: Edge
          ensures ByOneOf(adj, drivers[..i + 1], e) <==> ByOneOf(adj, drivers[..i], e) || Oriented(adj, drivers[i], e.src, e.dst)
        {
          OneMoreDriver(adj, drivers, i, e);
        }
      }
      assert drivers[..|drivers|] == drivers;
    }

    /** `orient_undirected`: exactly the edges of every driver of the component are added. */
    method OrientUndirected(id: int)
      requires Valid()
      modifies this`orientedPresent, this`connectedOriented
      ensures Valid()
      ensures forall e :: connectedOriented.Has(e) <==> old(connectedOriented).Has(e) || OrientedByAny(Graph(id), Marked(), id, e)
      ensures forall e :: connectedOriented.Has(e) <==>
                (old(connectedOriented).Has(e)
                 || exists d, n: nat, m: nat :: NextTo(Graph(id), e, d, n, m) && Reachable(Graph(id), id, d)
                                                && (IsMarked(d) || forall x | Reachable(Graph(id), id, x) :: !IsMarked(x)))
      ensures forall x :: x in orientedPresent <==> x in old(orientedPresent) || Reachable(Graph(id), id, x)
    {
      OrientComponent(id);
      ghost var adj, marked := Graph(id), Marked();
      forall e ensures OrientedByAny(adj, marked, id, e) <==>
                       exists d, n: nat, m: nat :: NextTo(adj, e, d, n, m) && Reachable(adj, id, d)
                                                   && (d in marked || forall x | Reachable(adj, id, x) :: x !in marked)
      {
        OrientedMeans(adj, marked, id, e);
      }
    }

    method OrientComponent(id: int)
      requires Valid()
      modifies this`orientedPresent, this`connectedOriented
      ensures Valid()
      ensures forall e :: connectedOriented.Has(e) <==> old(connectedOriented).Has(e) || OrientedByAny(Graph(id), Marked(), id, e)
      ensures forall x :: x in orientedPresent <==> x in old(orientedPresent) || Reachable(Graph(id), id, x)
    {
      ghost var adj := Graph(id);
      MutualIsSymmetric(connectedUndirected, sameDriver, id);
      var seen, drivers := Component(id, adj);
      DriversAreAll(adj, Marked(), id, seen, drivers);
      if drivers == [] {
        drivers := seen;
      }
      ComponentInside(adj, id);
      DriversAreListed(adj, Marked(), id, drivers);
      OrientAll(drivers, adj);
      orientedPresent := orientedPresent + set x | x in seen;
    }

    /** In every map that connections have built, each bit of a component has a chain of oriented edges to each driver. */
    lemma {:induction false} EachReachesDriver(id: int, d: int, x: int) returns (path: seq<int>)
      requires Valid() && Reachable(Graph(id), id, d) && Reachable(Graph(id), id, x)
      ensures |path| > 0 && path[0] == x && path[|path| - 1] == d && Follows(Graph(id), d, path)
    {
      MutualIsSymmetric(connectedUndirected, sameDriver, id);
      path := ReachesDriver(Graph(id), id, d, x);
    }
  }

  ghost predicate Extends(dist: map<int, nat>, dist': map<int, nat>) {
    forall x | x in dist :: x in dist' && dist'[x] == dist[x]
  }

  /** The search makes progress: it finds a new bit or moves on. */
  lemma {:induction false} Progress(adj: Adjacency, order: seq<int>, order': seq<int>, pos: nat)
    requires order <= order' && Inside(order', adj) && NoRepeats(order') && pos < |order|
    ensures order' == order || adj.Keys - Members(order') < adj.Keys - Members(order)
    ensures order'[..pos + 1] == order[..pos] + [order[pos]]
  {
    if order' != order {
      var x := order'[|order|];
      assert x in order' && x !in order;
      assert forall y | y in order :: y in order';
      assert x in adj.Keys - Members(order) && x !in adj.Keys - Members(order');
    }
  }

  /** An edge found after the first `pos` bits. */
  ghost predicate NearerUpTo(adj: Adjacency, order: seq<int>, dist: map<int, nat>, pos: nat, e: Edge)
    requires pos <= |order|
  {
    e.dst in order[..pos] && Nearer(adj, dist, e.src, e.dst)
  }

  lemma {:induction false} NearerStep(adj: Adjacency, d: int, order: seq<int>, dist: map<int, nat>,
                                      order': seq<int>, dist': map<int, nat>, pos: nat, e: Edge)
    requires Search(adj, d, order, dist, pos) && pos < |order| && order <= order' && Extends(dist, dist')
    ensures NearerUpTo(adj, order', dist', pos + 1, e) <==>
            NearerUpTo(adj, order, dist, pos, e) || (e.dst == order[pos] && Nearer(adj, dist', e.src, e.dst))
  {
    assert order'[..pos + 1] == order[..pos] + [order[pos]];
    if e.dst in order[..pos] {
      var k :| 0 <= k < pos && order[k] == e.dst;
      assert Scanned(adj, order[k], dist);
    }
  }

  /** The finished search has recorded the oriented edges. */
  lemma {:induction false} SearchEdges(adj: Adjacency, d: int, order: seq<int>, dist: map<int, nat>, e: Edge)
    requires Search(adj, d, order, dist, |order|)
    ensures NearerUpTo(adj, order, dist, |order|, e) <==> Oriented(adj, d, e.src, e.dst)
  {
    SearchDone(adj, d, order, dist);
    assert order[..|order|] == order;
    NearerIsOriented(adj, d, dist, e.src, e.dst);
  }

  ghost predicate ByOneOf(adj: Adjacency, drivers: seq<int>, e: Edge) {
    exists d :: d in drivers && Oriented(adj, d, e.src, e.dst)
  }

  ghost predicate OrientedByAny(adj: Adjacency, marked: iset<int>, id: int, e: Edge) {
    exists d :: Drives(adj, marked, id, d) && Oriented(adj, d, e.src, e.dst)
  }

  /** The edge leads one step nearer to d: from distance m to distance n. */
  ghost predicate NextTo(adj: Adjacency, e: Edge, d: int, n: nat, m: nat) {
    Adjacent(adj, e.dst, e.src) && Distance(adj, d, e.dst, n) && Distance(adj, d, e.src, m) && m == n + 1
  }

  lemma {:induction false} OrientedMeans(adj: Adjacency, marked: iset<int>, id: int, e: Edge)
    ensures OrientedByAny(adj, marked, id, e) <==>
            exists d, n: nat, m: nat :: NextTo(adj, e, d, n, m) && Reachable(adj, id, d)
                                        && (d in marked || forall x | Reachable(adj, id, x) :: x !in marked)
  {
    if OrientedByAny(adj, marked, id, e) {
      var d :| Drives(adj, marked, id, d) && Oriented(adj, d, e.src, e.dst);
      var n: nat :| Distance(adj, d, e.dst, n) && Distance(adj, d, e.src, n + 1);
      assert NextTo(adj, e, d, n, n + 1);
    }
    if d, n: nat, m: nat :| NextTo(adj, e, d, n, m) && Reachable(adj, id, d) && (d in marked || forall x | Reachable(adj, id, x) :: x !in marked) {
      assert Drives(adj, marked, id, d) && Oriented(adj, d, e.src, e.dst);
    }
  }

  lemma {:induction false} OneMoreDriver(adj: Adjacency, drivers: seq<int>, i: nat, e: Edge)
    requires i < |drivers|
    ensures ByOneOf(adj, drivers[..i + 1], e) <==> ByOneOf(adj, drivers[..i], e) || Oriented(adj, drivers[i], e.src, e.dst)
  {
    assert drivers[..i + 1] == drivers[..i] + [drivers[i]];
  }

  /** The list the searches start from is the set of drivers. */
  lemma {:induction false} DriversAreAll(adj: Adjacency, marked: iset<int>, id: int, seen: seq<int>, drivers: seq<int>)
    requires forall x :: x in seen <==> Reachable(adj, id, x)
    requires forall x :: x in drivers <==> x in seen && x in marked
    ensures forall d :: Drives(adj, marked, id, d) <==> d in (if drivers == [] then seen else drivers)
  {
    if drivers != [] {
      assert drivers[0] in drivers;
      assert Reachable(adj, id, drivers[0]) && drivers[0] in marked;
    } else {
      forall x | Reachable(adj, id, x) ensures x !in marked {
        assert x in seen && x !in drivers;
      }
    }
  }

  lemma {:induction false} DriversAreListed(adj: Adjacency, marked: iset<int>, id: int, drivers: seq<int>)
    requires forall d :: Drives(adj, marked, id, d) <==> d in drivers
    ensures forall e :: OrientedByAny(adj, marked, id, e) <==> ByOneOf(adj, drivers, e)
  {
  }

  /** s is a neighbour of t and one step further from the driver. */
  ghost predicate Nearer(adj: Adjacency, dist: map<int, nat>, s: int, t: int) {
    Adjacent(adj, t, s) && t in dist && s in dist && dist[s] == dist[t] + 1
  }

  lemma {:induction false} NearerIsOriented(adj: Adjacency, d: int, dist: map<int, nat>, s: int, t: int)
    requires forall x :: x in dist <==> Reachable(adj, d, x)
    requires forall x | x in dist :: Distance(adj, d, x, dist[x])
    ensures Oriented(adj, d, s, t) <==> Nearer(adj, dist, s, t)
  {
    if Oriented(adj, d, s, t) {
      var n: nat :| Distance(adj, d, t, n) && Distance(adj, d, s, n + 1);
      assert Reachable(adj, d, t) && Reachable(adj, d, s);
    }
  }

  lemma {:induction false} WalkInside(adj: Adjacency, a: int, b: int, n: nat)
    requires (forall x | x in adj :: adj[x] <= adj.Keys) && a in adj && Walk(adj, a, b, n)
    ensures b in adj
    decreases n
  {
    if n > 0 {
      var c :| Walk(adj, a, c, n - 1) && Adjacent(adj, c, b);
      WalkInside(adj, a, c, n - 1);
    }
  }

  lemma {:induction false} ComponentInside(adj: Adjacency, id: int)
    requires (forall x | x in adj :: adj[x] <= adj.Keys) && id in adj
    ensures forall x | Reachable(adj, id, x) :: x in adj
  {
    forall x, n: nat | Walk(adj, id, x, n) ensures x in adj {
      WalkInside(adj, id, x, n);
    }
  }

  // ---------------------------------------------- one driver in a component

  /** d is the only driver of the component of `id`. */
  ghost predicate OnlyDriver(adj: Adjacency, marked: iset<int>, id: int, d: int) {
    forall x :: Drives(adj, marked, id, x) <==> x == d
  }

  /** With one driver, the edges point exactly one step nearer to it. */
  lemma {:induction false} OneDriver(adj: Adjacency, marked: iset<int>, id: int, d: int, s: int, t: int)
    requires OnlyDriver(adj, marked, id, d)
    ensures OrientedByAny(adj, marked, id, Edge(s, t)) <==> Oriented(adj, d, s, t)
  {
    assert Drives(adj, marked, id, d);
  }

  /** So no connection is oriented both ways. */
  lemma {:induction false} NeverDouble(adj: Adjacency, d: int, s: int, t: int)
    requires Oriented(adj, d, s, t)
    ensures !Oriented(adj, d, t, s)
  {
    var n: nat :| Distance(adj, d, t, n) && Distance(adj, d, s, n + 1);
    forall m: nat | Distance(adj, d, s, m) ensures m == n + 1 { DistanceUnique(adj, d, s, m, n + 1); }
    forall m: nat | Distance(adj, d, t, m) ensures m == n { DistanceUnique(adj, d, t, m, n); }
  }

  /** A chain of oriented edges. */
  ghost predicate Follows(adj: Adjacency, d: int, path: seq<int>) {
    forall i | 0 <= i < |path| - 1 :: Oriented(adj, d, path[i], path[i + 1])
  }

  /** Along oriented edges the distance drops by one each time: there are no cycles. */
  lemma {:induction false} Acyclic(adj: Adjacency, d: int, path: seq<int>)
    requires Follows(adj, d, path) && |path| > 1
    ensures path[0] != path[|path| - 1]
  {
    assert Oriented(adj, d, path[0], path[1]);
    var n: nat :| Distance(adj, d, path[1], n) && Distance(adj, d, path[0], n + 1);
    FollowDistance(adj, d, path, |path| - 1, n + 1);
    assert !Distance(adj, d, path[0], n + 1 - (|path| - 1));
  }

  lemma {:induction false} FollowDistance(adj: Adjacency, d: int, path: seq<int>, i: nat, n: nat)
    requires Follows(adj, d, path) && i < |path| && Distance(adj, d, path[0], n)
    ensures i <= n && Distance(adj, d, path[i], n - i)
    decreases i
  {
    if i > 0 {
      FollowDistance(adj, d, path, i - 1, n);
      assert Oriented(adj, d, path[i - 1], path[i]);
      var m: nat :| Distance(adj, d, path[i], m) && Distance(adj, d, path[i - 1], m + 1);
      DistanceUnique(adj, d, path[i - 1], m + 1, n - (i - 1));
    }
  }

  /** Every bit of the component has a chain of oriented edges to the driver. */
  lemma {:induction false} ReachesDriver(adj: Adjacency, id: int, d: int, x: int) returns (path: seq<int>)
    requires Symmetric(adj) && Reachable(adj, id, d) && Reachable(adj, id, x)
    ensures |path| > 0 && path[0] == x && path[|path| - 1] == d && Follows(adj, d, path)
  {
    var m: nat :| Walk(adj, id, d, m);
    var k: nat :| Walk(adj, id, x, k);
    WalkBack(adj, id, d, m);
    WalkJoin(adj, d, id, x, m, k);
    var n := ShortestExists(adj, d, x, m + k);
    path := DistancePath(adj, d, x, n);
  }

  lemma {:induction false} ShortestExists(adj: Adjacency, a: int, b: int, n: nat) returns (m: nat)
    requires Walk(adj, a, b, n)
    ensures Distance(adj, a, b, m)
    decreases n
  {
    if k: nat :| k < n && Walk(adj, a, b, k) {
      m := ShortestExists(adj, a, b, k);
    } else {
      m := n;
    }
  }

  lemma {:induction false} DistancePath(adj: Adjacency, d: int, x: int, n: nat) returns (path: seq<int>)
    requires Distance(adj, d, x, n)
    ensures |path| == n + 1 && path[0] == x && path[n] == d && Follows(adj, d, path)
    decreases n
  {
    if n == 0 {
      path := [x];
    } else {
      var c :| Walk(adj, d, c, n - 1) && Adjacent(adj, c, x);
      forall m: nat | Walk(adj, d, c, m) ensures n - 1 <= m { WalkStep(adj, d, c, x, m); }
      assert Distance(adj, d, c, n - 1);
      var rest := DistancePath(adj, d, c, n - 1);
      path := [x] + rest;
      assert Oriented(adj, d, x, c);
      forall i | 0 <= i < |path| - 1 ensures Oriented(adj, d, path[i], path[i + 1]) {
        if i > 0 { assert Oriented(adj, d, rest[i - 1], rest[i]); }
      }
    }
  }

  /** b is found, at most one step further than c. */
  ghost predicate Found(dist: map<int, nat>, c: int, b: int) {
    c in dist && b in dist && dist[b] <= dist[c] + 1
  }

  /** One neighbour of the bit being scanned. */
  lemma {:induction false} Visited(adj: Adjacency, d: int, order: seq<int>, dist: map<int, nat>, pos: nat, next: int)
    requires Search(adj, d, order, dist, pos) && pos < |order| && Adjacent(adj, order[pos], next)
    ensures var new' := next !in order;
            var order' := if new' then order + [next] else order;
            var dist' := if new' then dist[next := dist[order[pos]] + 1] else dist;
            && Search(adj, d, order', dist', pos) && Found(dist', order[pos], next)
            && forall c, b | Found(dist, c, b) :: Found(dist', c, b)
  {
    if next !in order {
      Discovered(adj, d, order, dist, pos, next);
    } else {
      var k :| 0 <= k < |order| && order[k] == next;
    }
  }
}
