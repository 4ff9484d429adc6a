/**
 * Dropping removed ports and inits before a memory is emitted (`Mem::emit` in
 * `kernel/mem.cc`).
 */
module MemEmit {
  import opened Rtlil
  import I = MemInits

  /** The masks have one entry per write port: which one bypasses, collides with or yields to this port. */
  datatype RdPort = RdPort(id: int, removed: bool, transparency: seq<bool>, collisionX: seq<bool>)
  datatype WrPort = WrPort(id: int, removed: bool, priority: seq<bool>)

  /** The entries at the given positions, in order. */
  function Kept<T>(s: seq<T>, left: seq<nat>): (r: seq<T>)
    requires forall k | 0 <= k < |left| :: left[k] < |s|
    ensures |r| == |left|
  {
    seq(|left|, k requires 0 <= k < |left| => s[left[k]])
  }

  /** The positions below n that are not removed, in increasing order. */
  ghost predicate Lists(left: seq<nat>, removed: seq<bool>, n: nat)
    requires n <= |removed|
  {
    && I.Increasing(left, n)
    && forall i: nat | i < n :: i in left <==> !removed[i]
  }

  /** So the k-th position is at least k. */
  lemma {:induction false} AtLeast(left: seq<nat>, n: nat, k: nat)
    requires I.Increasing(left, n) && k < |left|
    ensures k <= left[k]
  {
    if k > 0 {
      AtLeast(left, n, k - 1);
    }
  }

  lemma {:induction false} ListedLive(left: seq<nat>, removed: seq<bool>)
    requires Lists(left, removed, |removed|)
    ensures forall k | 0 <= k < |left| :: left[k] < |removed| && !removed[left[k]]
  {
    forall k | 0 <= k < |left| ensures !removed[left[k]] {
      assert left[k] in left;
    }
  }

  method LivePositions(removed: seq<bool>) returns (left: seq<nat>)
    ensures Lists(left, removed, |removed|)
  {
    left := [];
    for i := 0 to |removed|
      invariant Lists(left, removed, i)
    {
      if !removed[i] {
        left := left + [i];
      }
    }
  }

  /** The swapping loop: every kept entry is still in its old place when its turn comes. */
  method SwapDown<T>(s: seq<T>, left: seq<nat>) returns (r: seq<T>)
    requires I.Increasing(left, |s|)
    ensures r == Kept(s, left)
  {
    r := s;
    for i := 0 to |left|
      invariant |r| == |s| && i <= |s|
      invariant forall k | 0 <= k < i :: r[k] == s[left[k]]
      invariant forall k | i <= k < |left| :: r[left[k]] == s[left[k]]
    {
      AtLeast(left, |s|, i);
      if i != left[i] {
        r := r[i := r[left[i]]][left[i] := r[i]];
      }
    }
    if |left| > 0 {
      AtLeast(left, |s|, |left| - 1);
    }
    r := r[..|left|];
  }

  /** The copying loop over a mask, in place. */
  method CompactMask(mask: seq<bool>, left: seq<nat>) returns (r: seq<bool>)
    requires I.Increasing(left, |mask|)
    ensures r == Kept(mask, left)
  {
    r := mask;
    for i := 0 to |left|
      invariant |r| == |mask| && i <= |mask|
      invariant forall k | 0 <= k < i :: r[k] == mask[left[k]]
      invariant forall k | i <= k < |mask| :: r[k] == mask[k]
    {
      AtLeast(left, |mask|, i);
      r := r[i := r[left[i]]];
    }
    r := r[..|left|];
  }

  class MemPorts {
    var rdPorts: seq<RdPort>
    var wrPorts: seq<WrPort>
    var mem: I.Mem

    /** What `check` asserts of the masks of ports that are not removed. */
    ghost predicate Valid()
      reads this, mem
    {
      && mem.Valid()
      && (forall i | 0 <= i < |rdPorts| && !rdPorts[i].removed ::
            |rdPorts[i].transparency| == |rdPorts[i].collisionX| == |wrPorts|)
      && (forall i | 0 <= i < |wrPorts| && !wrPorts[i].removed :: |wrPorts[i].priority| == |wrPorts|)
    }

    constructor (rdPorts: seq<RdPort>, wrPorts: seq<WrPort>, mem: I.Mem)
      requires mem.Valid()
      requires forall i | 0 <= i < |rdPorts| && !rdPorts[i].removed ::
                 |rdPorts[i].transparency| == |rdPorts[i].collisionX| == |wrPorts|
      requires forall i | 0 <= i < |wrPorts| && !wrPorts[i].removed :: |wrPorts[i].priority| == |wrPorts|
      ensures Valid() && this.rdPorts == rdPorts && this.wrPorts == wrPorts && this.mem == mem
    {
      this.rdPorts, this.wrPorts, this.mem := rdPorts, wrPorts, mem;
    }

    /**
     * Exactly the live ports and inits are left, in order; any two that are
     * left relate to each other as before, and the memory image is unchanged.
     */
    method Compact() returns (ghost rdLeft: seq<nat>, ghost wrLeft: seq<nat>)
      requires Valid()
      modifies this`rdPorts, this`wrPorts, mem`inits
      ensures Valid() && mem == old(mem)
      ensures Lists(rdLeft, RemovedRd(old(rdPorts)), |old(rdPorts)|) && Lists(wrLeft, RemovedWr(old(wrPorts)), |old(wrPorts)|)
      ensures |rdPorts| == |rdLeft| && |wrPorts| == |wrLeft|
      ensures forall i | 0 <= i < |rdPorts| ::
                rdLeft[i] < |old(rdPorts)| && SeenAs(rdPorts[i], old(rdPorts)[rdLeft[i]], wrLeft)
      ensures forall i | 0 <= i < |wrPorts| ::
                wrLeft[i] < |old(wrPorts)| && YieldsAs(wrPorts[i], old(wrPorts)[wrLeft[i]], wrLeft)
      ensures forall i | 0 <= i < |mem.inits| :: !mem.inits[i].removed
      ensures forall a, j: nat | j < mem.width :: I.Image(mem.inits, mem.width, a, j) == old(I.Image(mem.inits, mem.width, a, j))
    {
      var rds := LivePositions(RemovedRd(rdPorts));
      var wrs := LivePositions(RemovedWr(wrPorts));
      var inits := LivePositions(RemovedInits(mem.inits));
      rdLeft, wrLeft := rds, wrs;
      ListedLive(rds, RemovedRd(rdPorts));
      ListedLive(wrs, RemovedWr(wrPorts));
      ListedLive(inits, RemovedInits(mem.inits));
      KeptImage(mem.inits, inits, mem.width);
      var liveRd := SwapDown(rdPorts, rds);
      var liveWr := SwapDown(wrPorts, wrs);
      var liveInits := SwapDown(mem.inits, inits);
      liveRd := CompactRd(liveRd, wrs, |wrPorts|);
      liveWr := CompactWr(liveWr, wrs, |wrPorts|);
      mem.inits := liveInits;
      rdPorts, wrPorts := liveRd, liveWr;
    }
  }

  function RemovedRd(ports: seq<RdPort>): (r: seq<bool>)
    ensures |r| == |ports|
  {
    seq(|ports|, i requires 0 <= i < |ports| => ports[i].removed)
  }

  function RemovedWr(ports: seq<WrPort>): (r: seq<bool>)
    ensures |r| == |ports|
  {
    seq(|ports|, i requires 0 <= i < |ports| => ports[i].removed)
  }

  function RemovedInits(inits: seq<I.MemInit>): (r: seq<bool>)
    ensures |r| == |inits|
  {
    seq(|inits|, i requires 0 <= i < |inits| => inits[i].removed)
  }

  /** Port r is port `was`, with its masks read through the kept write ports. */
  ghost predicate SeenAs(r: RdPort, was: RdPort, left: seq<nat>) {
    && r.id == was.id && !r.removed && |r.transparency| == |r.collisionX| == |left|
    && forall k | 0 <= k < |left| ::
      && left[k] < |was.transparency| && left[k] < |was.collisionX|
      && r.transparency[k] == was.transparency[left[k]] && r.collisionX[k] == was.collisionX[left[k]]
  }

  ghost predicate YieldsAs(w: WrPort, was: WrPort, left: seq<nat>) {
    && w.id == was.id && !w.removed && |w.priority| == |left|
    && forall k | 0 <= k < |left| :: left[k] < |was.priority| && w.priority[k] == was.priority[left[k]]
  }

  method CompactRd(ports: seq<RdPort>, left: seq<nat>, n: nat) returns (r: seq<RdPort>)
    requires I.Increasing(left, n)
    requires forall i | 0 <= i < |ports| :: !ports[i].removed && |ports[i].transparency| == |ports[i].collisionX| == n
    ensures |r| == |ports| && forall i | 0 <= i < |r| :: SeenAs(r[i], ports[i], left)
  {
    r := ports;
    for i := 0 to |ports|
      invariant |r| == |ports| && forall k | i <= k < |ports| :: r[k] == ports[k]
      invariant forall k | 0 <= k < i :: SeenAs(r[k], ports[k], left)
    {
      var transparency := CompactMask(r[i].transparency, left);
      var collisionX := CompactMask(r[i].collisionX, left);
      r := r[i := r[i].(transparency := transparency, collisionX := collisionX)];
    }
  }

  method CompactWr(ports: seq<WrPort>, left: seq<nat>, n: nat) returns (r: seq<WrPort>)
    requires I.Increasing(left, n)
    requires forall i | 0 <= i < |ports| :: !ports[i].removed && |ports[i].priority| == n
    ensures |r| == |ports| && forall i | 0 <= i < |r| :: YieldsAs(r[i], ports[i], left)
  {
    r := ports;
    for i := 0 to |ports|
      invariant |r| == |ports| && forall k | i <= k < |ports| :: r[k] == ports[k]
      invariant forall k | 0 <= k < i :: YieldsAs(r[k], ports[k], left)
    {
      var priority := CompactMask(r[i].priority, left);
      r := r[i := r[i].(priority := priority)];
    }
  }

  /** Removed inits write nothing, so the image does not need them. */
  lemma {:induction false} KeptImage(inits: seq<I.MemInit>, left: seq<nat>, w: nat)
    requires I.GoodInits(inits, w) && Lists(left, RemovedInits(inits), |inits|)
    ensures I.GoodInits(Kept(inits, left), w)
    ensures forall a, j: nat | j < w :: I.Image(Kept(inits, left), w, a, j) == I.Image(inits, w, a, j)
  {
    assert Kept(inits, left) == I.Pick(inits, left);
    forall a, j: nat | j < w ensures I.Image(Kept(inits, left), w, a, j) == I.Image(inits, w, a, j) {
      forall i: nat | i < |inits| && i !in left ensures I.Contrib(inits[i], w, a, j).None? {
        assert RemovedInits(inits)[i];
      }
      I.PickKeepsImage(inits, left, w, a, j);
    }
  }
}
