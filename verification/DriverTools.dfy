/** The sparse numbering of driver bits (`DriverMap::id_from_drive_bit`, `drive_bit_from_id`). */
module DriveBitIds {
  import opened Wrappers

  datatype Wire = Wire(name: string, width: nat)
  datatype CellPort = CellPort(cell: string, port: string, width: nat)
  datatype Range = OfWire(wire: Wire) | OfPort(port: CellPort)
  {
    function Width(): nat {
      if OfWire? then wire.width else port.width
    }
  }

  datatype DriveBit = NoneBit | ConstantBit(state: nat) | WireBit(wire: Wire, offset: int) | PortBit(port: CellPort, offset: int)
  {
    /** A constant is one of the six states; an offset lies within its wire or port. */
    predicate Good() {
      match this
      case NoneBit => true
      case ConstantBit(s) => s < 6
      case WireBit(w, o) => 0 <= o < w.width
      case PortBit(p, o) => 0 <= o < p.width
    }
  }

  function BitOfRange(r: Range, offset: int): DriveBit {
    match r
    case OfWire(w) => WireBit(w, offset)
    case OfPort(p) => PortBit(p, offset)
  }

  /** The position before `upper_bound`: the greatest key not above id. */
  function FloorKey(keys: set<int>, id: int): (k: Option<int>)
    ensures k.None? ==> forall m | m in keys :: m > id
    ensures k.Some? ==> k.value in keys && k.value <= id && forall m | m in keys && m <= id :: m <= k.value
  {
    var below := set m | m in keys && m <= id;
    if forall m | m in keys :: m > id then None
    else
      assert exists m :: m in below by { var m :| m in keys && m <= id; assert m in below; }
      MaximumExists(below);
      var k :| k in below && forall m | m in below :: m <= k;
      assert forall m | m in keys && m <= id :: m in below;
      Some(k)
  }

  lemma {:induction false} MaximumExists(s: set<int>)
    requires exists x :: x in s
    ensures exists k :: k in s && forall m | m in s :: m <= k
    decreases s
  {
    var x :| x in s;
    var rest := s - {x};
    assert s == rest + {x};
    if exists y :: y in rest {
      MaximumExists(rest);
      var k :| k in rest && forall m | m in rest :: m <= k;
      var best := if x > k then x else k;
      assert best in s && forall m | m in s :: m <= best;
    } else {
      assert x in s && forall m | m in s :: m <= x;
    }
  }

  /** Single-bit wires are stored one by one. */
  predicate Isolated(r: Range) {
    r.OfWire? && r.Width() == 1
  }

  /** The numbers of different wires and ports do not overlap, and skip the six states. */
  ghost predicate RangesApart(starts: map<Range, int>, limit: int) {
    && (forall r | r in starts :: r.Width() > 0 && 6 <= starts[r] && starts[r] + r.Width() <= limit)
    && (forall r, q | r in starts && q in starts && r != q ::
          starts[r] + r.Width() <= starts[q] || starts[q] + q.Width() <= starts[r])
  }

  /** `stored` holds the first bit of exactly the chosen ranges, at their starts. */
  ghost predicate Stores(starts: map<Range, int>, stored: map<int, DriveBit>, isolated: bool) {
    && (forall r | r in starts && Isolated(r) == isolated :: starts[r] in stored && stored[starts[r]] == BitOfRange(r, 0))
    && (forall k | k in stored :: exists r :: r in starts && Isolated(r) == isolated && starts[r] == k)
  }

  /** The number of a bit, if it has one. */
  ghost function IdOf(starts: map<Range, int>, bit: DriveBit): Option<int> {
    match bit
    case NoneBit => Some(-1)
    case ConstantBit(s) => Some(s)
    case WireBit(w, o) => if OfWire(w) in starts then Some(starts[OfWire(w)] + o) else None
    case PortBit(p, o) => if OfPort(p) in starts then Some(starts[OfPort(p)] + o) else None
  }

  ghost predicate IsIdOf(starts: map<Range, int>, bit: DriveBit, id: int) {
    IdOf(starts, bit) == Some(id)
  }

  lemma {:induction false} RangeBitId(starts: map<Range, int>, r: Range, bit: DriveBit, start: int, o: int, id: int)
    requires r in starts && starts[r] == start && id == start + o
    requires bit == if r.OfWire? then WireBit(r.wire, o) else PortBit(r.port, o)
    ensures IsIdOf(starts, bit, id)
  {
  }

  /** The wire or port of a bit. */
  function RangeOf(bit: DriveBit): Option<Range> {
    match bit
    case WireBit(w, _) => Some(OfWire(w))
    case PortBit(p, _) => Some(OfPort(p))
    case _ => None
  }

  /** Different bits have different numbers. */
  lemma {:induction false} IdsInjective(starts: map<Range, int>, limit: int, b: DriveBit, c: DriveBit)
    requires RangesApart(starts, limit) && b.Good() && c.Good()
    requires IdOf(starts, b).Some? && IdOf(starts, b) == IdOf(starts, c)
    ensures b == c
  {
    var r, q := RangeOf(b), RangeOf(c);
    if r.Some? && q.Some? {
      assert r.value in starts && q.value in starts;
      assert r == q;
    }
  }

  lemma {:induction false} FoundRange(starts: map<Range, int>, limit: int, stored: map<int, DriveBit>, isolated: map<int, DriveBit>,
                                      b: DriveBit, id: int, k: int)
    requires RangesApart(starts, limit) && Stores(starts, stored, false) && Stores(starts, isolated, true)
    requires b.Good() && IdOf(starts, b) == Some(id)
    requires id !in isolated && k in stored && k <= id && forall m | m in stored && m <= id :: m <= k
    ensures Moved(stored[k], id - k) == b
  {
    var r :| r in starts && !Isolated(r) && starts[r] == k;
    assert starts[r] >= 6;
    assert RangeOf(b).Some?;
    var q := RangeOf(b).value;
    assert q in starts && !Isolated(q);
    assert starts[q] in stored;
    SameRange(starts, limit, q, r, id);
    MovedTo(b, q, id - k);
  }

  /** The range with the greatest start not above a number of another range is that range. */
  lemma {:induction false} SameRange(starts: map<Range, int>, limit: int, q: Range, r: Range, id: int)
    requires RangesApart(starts, limit) && q in starts && r in starts
    requires starts[q] <= starts[r] <= id < starts[q] + q.Width()
    ensures q == r
  {
    assert r.Width() > 0 && q.Width() > 0;
  }

  lemma {:induction false} MovedTo(b: DriveBit, q: Range, n: int)
    requires RangeOf(b) == Some(q) && q.Width() > 0 && n == (if b.WireBit? then b.offset else if b.PortBit? then b.offset else 0)
    ensures Moved(BitOfRange(q, 0), n) == b
  {
  }

  lemma {:induction false} FoundIsolated(starts: map<Range, int>, limit: int, isolated: map<int, DriveBit>, b: DriveBit, id: int)
    requires RangesApart(starts, limit) && Stores(starts, isolated, true)
    requires b.Good() && IdOf(starts, b) == Some(id) && id in isolated
    ensures isolated[id] == b
  {
    var r :| r in starts && Isolated(r) && starts[r] == id;
    assert IdOf(starts, BitOfRange(r, 0)) == Some(id);
    IdsInjective(starts, limit, b, BitOfRange(r, 0));
  }

  lemma {:induction false} NothingBelow(starts: map<Range, int>, limit: int, stored: map<int, DriveBit>, isolated: map<int, DriveBit>,
                                        b: DriveBit, id: int)
    requires RangesApart(starts, limit) && Stores(starts, stored, false) && Stores(starts, isolated, true)
    requires b.Good() && IdOf(starts, b) == Some(id) && id !in isolated && forall m | m in stored :: m > id
    ensures b == if id < 0 then NoneBit else ConstantBit(id)
  {
    if RangeOf(b).Some? {
      RangeBelow(starts, limit, stored, isolated, b, id);
      assert false;
    }
  }

  lemma {:induction false} RangeBelow(starts: map<Range, int>, limit: int, stored: map<int, DriveBit>, isolated: map<int, DriveBit>,
                                      b: DriveBit, id: int)
    requires RangesApart(starts, limit) && Stores(starts, stored, false) && Stores(starts, isolated, true)
    requires b.Good() && IdOf(starts, b) == Some(id) && RangeOf(b).Some?
    ensures id in isolated || exists m :: m in stored && m <= id
  {
    var q := RangeOf(b).value;
    assert q in starts && starts[q] <= id;
  }

  ghost predicate SameWires(starts: map<Range, int>, offsets: map<Wire, int>) {
    && (forall w :: w in offsets <==> OfWire(w) in starts)
    && (forall w | w in offsets :: offsets[w] == starts[OfWire(w)])
  }

  ghost predicate SamePorts(starts: map<Range, int>, offsets: map<CellPort, int>) {
    && (forall p :: p in offsets <==> OfPort(p) in starts)
    && (forall p | p in offsets :: offsets[p] == starts[OfPort(p)])
  }

  lemma {:induction false} OneMoreRange(starts: map<Range, int>, r: Range, offset: int)
    requires RangesApart(starts, offset) && r !in starts && r.Width() > 0 && offset >= 6
    ensures RangesApart(starts[r := offset], offset + r.Width())
  {
  }

  lemma {:induction false} OneMoreOffset(starts: map<Range, int>, wires: map<Wire, int>, ports: map<CellPort, int>, r: Range, offset: int)
    requires SameWires(starts, wires) && SamePorts(starts, ports)
    ensures SameWires(starts[r := offset], if r.OfWire? then wires[r.wire := offset] else wires)
    ensures SamePorts(starts[r := offset], if r.OfPort? then ports[r.port := offset] else ports)
  {
  }

  lemma {:induction false} StoresMore(starts: map<Range, int>, stored: map<int, DriveBit>, isolated: bool, r: Range, offset: int, limit: int)
    requires Stores(starts, stored, isolated) && RangesApart(starts, limit) && r !in starts && offset == limit
    ensures Stores(starts[r := offset], if Isolated(r) == isolated then stored[offset := BitOfRange(r, 0)] else stored, isolated)
  {
    var starts', stored' := starts[r := offset], if Isolated(r) == isolated then stored[offset := BitOfRange(r, 0)] else stored;
    forall k | k in stored' ensures exists q :: q in starts' && Isolated(q) == isolated && starts'[q] == k {
      if k in stored {
        var q :| q in starts && Isolated(q) == isolated && starts[q] == k;
        assert q in starts' && starts'[q] == k;
      } else {
        assert r in starts' && starts'[r] == k;
      }
    }
  }

  ghost predicate Keeps(starts: map<Range, int>, starts': map<Range, int>) {
    forall r | r in starts :: r in starts' && starts'[r] == starts[r]
  }

  class DriverMap {
    var wireOffsets: map<Wire, int>
    var portOffsets: map<CellPort, int>
    var driveBits: map<int, DriveBit>
    var isolatedDriveBits: map<int, DriveBit>
    var nextOffset: int
    /** Where the numbers of each known wire and port start. */
    ghost var starts: map<Range, int>

    ghost predicate Valid()
      reads this
    {
      && nextOffset >= 6 && RangesApart(starts, nextOffset)
      && SameWires(starts, wireOffsets) && SamePorts(starts, portOffsets)
      && Stores(starts, driveBits, false) && Stores(starts, isolatedDriveBits, true)
    }

    constructor ()
      ensures Valid() && starts == map[]
    {
      wireOffsets, portOffsets, driveBits, isolatedDriveBits := map[], map[], map[], map[];
      nextOffset := 6;
      starts := map[];
    }

    /** Gives a bit its number, reserving its whole wire or port at first sight; no number ever changes. */
    method IdFromDriveBit(bit: DriveBit) returns (id: int)
      requires Valid() && bit.Good()
      modifies this
      ensures Valid() && IsIdOf(starts, bit, id) && Keeps(old(starts), starts)
    {
      match bit {
        case NoneBit => id := -1;
        case ConstantBit(s) => id := s;
        case WireBit(w, o) => id := WireBitId(w, o);
        case PortBit(p, o) => id := PortBitId(p, o);
      }
    }

    method WireBitId(w: Wire, o: int) returns (id: int)
      requires Valid() && w.width > 0
      modifies this
      ensures Valid() && Keeps(old(starts), starts) && IsIdOf(starts, WireBit(w, o), id)
    {
      var start := WireStart(w);
      id := start + o;
      RangeBitId(starts, OfWire(w), WireBit(w, o), start, o, id);
    }

    method PortBitId(p: CellPort, o: int) returns (id: int)
      requires Valid() && p.width > 0
      modifies this
      ensures Valid() && Keeps(old(starts), starts) && IsIdOf(starts, PortBit(p, o), id)
    {
      var start := PortStart(p);
      id := start + o;
      RangeBitId(starts, OfPort(p), PortBit(p, o), start, o, id);
    }

    method WireStart(w: Wire) returns (start: int)
      requires Valid() && w.width > 0
      modifies this
      ensures Valid() && Keeps(old(starts), starts) && OfWire(w) in starts && starts[OfWire(w)] == start
    {
      if w !in wireOffsets {
        Reserve(OfWire(w));
      }
      start := wireOffsets[w];
    }

    method PortStart(p: CellPort) returns (start: int)
      requires Valid() && p.width > 0
      modifies this
      ensures Valid() && Keeps(old(starts), starts) && OfPort(p) in starts && starts[OfPort(p)] == start
    {
      if p !in portOffsets {
        Reserve(OfPort(p));
      }
      start := portOffsets[p];
    }

    method Reserve(r: Range)
      requires Valid() && r !in starts && r.Width() > 0
      modifies this
      ensures Valid() && starts == old(starts)[r := old(nextOffset)]
    {
      var offset := nextOffset;
      OneMoreRange(starts, r, offset);
      OneMoreOffset(starts, wireOffsets, portOffsets, r, offset);
      StoresMore(starts, driveBits, false, r, offset, nextOffset);
      StoresMore(starts, isolatedDriveBits, true, r, offset, nextOffset);
      match r {
        case OfWire(w) => wireOffsets := wireOffsets[w := offset];
        case OfPort(p) => portOffsets := portOffsets[p := offset];
      }
      if Isolated(r) {
        isolatedDriveBits := isolatedDriveBits[offset := BitOfRange(r, 0)];
      } else {
        driveBits := driveBits[offset := BitOfRange(r, 0)];
      }
      nextOffset := nextOffset + r.Width();
      starts := starts[r := offset];
    }

    /** The exact inverse, for every number handed out. */
    method DriveBitFromId(id: int, ghost b: DriveBit) returns (bit: DriveBit)
      requires Valid() && b.Good() && IsIdOf(starts, b, id)
      ensures bit == b
    {
      if id in isolatedDriveBits {
        FoundIsolated(starts, nextOffset, isolatedDriveBits, b, id);
        return isolatedDriveBits[id];
      }
      var found := FloorKey(driveBits.Keys, id);
      if found.None? {
        NothingBelow(starts, nextOffset, driveBits, isolatedDriveBits, b, id);
        bit := if id < 0 then NoneBit else ConstantBit(id);
      } else {
        FoundRange(starts, nextOffset, driveBits, isolatedDriveBits, b, id, found.value);
        bit := Moved(driveBits[found.value], id - found.value);
      }
    }

    /** Numbering a bit and looking the number up gives the bit back. */
    method RoundTrip(bit: DriveBit) returns (back: DriveBit)
      requires Valid() && bit.Good()
      modifies this
      ensures Valid() && back == bit
    {
      var id := IdFromDriveBit(bit);
      back := DriveBitFromId(id, bit);
    }
  }

  function Moved(bit: DriveBit, n: int): DriveBit {
    match bit
    case WireBit(w, o) => WireBit(w, o + n)
    case PortBit(p, o) => PortBit(p, o + n)
    case _ => bit
  }
}
