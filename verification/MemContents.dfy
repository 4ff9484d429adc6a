/**
 * `MemContents`: the defined words of a sparse memory, as sorted ranges that
 * neither overlap nor touch, each holding its words concatenated.
 *
 * The `std::map` from start address to contents is a sequence sorted by start
 * address, and an iterator into it is a position, the end being its length.
 * Addresses are 32-bit unsigned.
 */
module MemContents {
  import opened Rtlil
  import opened Multiples
  import opened Wrappers
  import B = Bits

  type Word = seq<State>
  const ADDR_MOD := 0x1_0000_0000

  datatype Range = Range(base: nat, data: seq<State>)

  function RangeSize(r: Range, w: nat): nat
    requires w > 0
  {
    Quot(|r.data|, w)
  }

  function RangeEnd(r: Range, w: nat): nat
    requires w > 0
  {
    r.base + RangeSize(r, w)
  }

  /** `addr` lies in the range; the subtraction wraps around for smaller addresses. */
  predicate RangeContains(r: Range, w: nat, addr: nat)
    requires w > 0
  {
    (addr - r.base) % ADDR_MOD < RangeSize(r, w)
  }

  predicate InRange(r: Range, w: nat, addr: int)
    requires w > 0
  {
    r.base <= addr < RangeEnd(r, w)
  }

  /** Nonempty and a whole number of words. */
  predicate GoodRange(r: Range, w: nat)
    requires w > 0
  {
    |r.data| > 0 && Aligned(|r.data|, w)
  }

  /** The bit offset of an address in a range. */
  function Offset(r: Range, w: nat, addr: nat): nat
    requires r.base <= addr
  {
    Times(addr - r.base, w)
  }

  lemma {:induction false} OffsetFits(r: Range, w: nat, addr: nat)
    requires w > 0 && GoodRange(r, w) && r.base <= addr <= RangeEnd(r, w)
    ensures 0 <= Offset(r, w, addr) <= |r.data|
    ensures addr < RangeEnd(r, w) ==> Offset(r, w, addr) + w <= |r.data|
    ensures addr == RangeEnd(r, w) ==> Offset(r, w, addr) == |r.data|
  {
    Whole(|r.data|, w);
    Monotone(addr - r.base, RangeSize(r, w), w);
    if addr < RangeEnd(r, w) {
      Monotone(addr - r.base + 1, RangeSize(r, w), w);
      Distribute(addr - r.base, 1, w);
    }
  }

  function Slice(s: seq<State>, from: nat, n: nat): (r: seq<State>)
    requires from + n <= |s|
    ensures |r| == n
  {
    s[from..from + n]
  }

  lemma {:induction false} SliceFirst(a: seq<State>, b: seq<State>, from: nat, n: nat)
    requires from + n <= |a|
    ensures Slice(a + b, from, n) == Slice(a, from, n)
  {
  }

  lemma {:induction false} SliceSecond(a: seq<State>, b: seq<State>, from: nat, n: nat)
    requires from + n <= |b|
    ensures Slice(a + b, |a| + from, n) == Slice(b, from, n)
  {
  }

  lemma {:induction false} SliceTake(a: seq<State>, m: nat, from: nat, n: nat)
    requires from + n <= m <= |a|
    ensures Slice(a[..m], from, n) == Slice(a, from, n)
  {
  }

  lemma {:induction false} SliceDrop(a: seq<State>, m: nat, from: nat, n: nat)
    requires m + from + n <= |a|
    ensures Slice(a[m..], from, n) == Slice(a, m + from, n)
  {
  }

  /** The word a range stores for an address in it. */
  function WordAt(r: Range, w: nat, addr: nat): (word: Word)
    requires w > 0 && GoodRange(r, w) && InRange(r, w, addr)
    ensures |word| == w
  {
    OffsetFits(r, w, addr);
    Slice(r.data, Offset(r, w, addr), w)
  }

  // ----------------------------------------------------------- range lists

  ghost predicate Sorted(vs: seq<Range>, w: nat)
    requires w > 0
  {
    && (forall k | 0 <= k < |vs| :: GoodRange(vs[k], w))
    && (forall j, k | 0 <= j < k < |vs| :: RangeEnd(vs[j], w) < vs[k].base)
  }

  /** The partial function from addresses to words that a range list stands for. */
  ghost function Get(vs: seq<Range>, w: nat, addr: int): (r: Option<Word>)
    requires w > 0 && Sorted(vs, w)
    ensures r.Some? <==> exists k :: 0 <= k < |vs| && InRange(vs[k], w, addr)
    ensures r.Some? ==> |r.value| == w
  {
    if k :| 0 <= k < |vs| && InRange(vs[k], w, addr) then Some(WordAt(vs[k], w, addr)) else None
  }

  lemma {:induction false} GetAt(vs: seq<Range>, w: nat, k: nat, addr: nat)
    requires w > 0 && Sorted(vs, w) && k < |vs| && InRange(vs[k], w, addr)
    ensures Get(vs, w, addr) == Some(WordAt(vs[k], w, addr))
  {
    forall j | 0 <= j < |vs| && InRange(vs[j], w, addr) ensures j == k { }
  }

  /** Two lists agree at an address when each finds the other's range, with the same word. */
  lemma {:induction false} GetSame(vs: seq<Range>, vs': seq<Range>, w: nat, addr: nat, k: nat, k': nat)
    requires w > 0 && Sorted(vs, w) && Sorted(vs', w) && k < |vs| && k' < |vs'|
    requires InRange(vs[k], w, addr) && InRange(vs'[k'], w, addr)
    requires WordAt(vs[k], w, addr) == WordAt(vs'[k'], w, addr)
    ensures Get(vs, w, addr) == Get(vs', w, addr)
  {
    GetAt(vs, w, k, addr);
    GetAt(vs', w, k', addr);
  }

  /** `upper_bound`: the first position whose range starts after `addr`. */
  function UpperBound(vs: seq<Range>, addr: int): (k: nat)
    ensures k <= |vs|
    ensures k > 0 ==> vs[k - 1].base <= addr
    ensures k < |vs| ==> vs[k].base > addr || (exists j :: k < j < |vs| && vs[j].base <= addr)
    ensures forall j | k <= j < |vs| :: vs[j].base > addr
  {
    if vs == [] then 0
    else if vs[|vs| - 1].base <= addr then |vs|
    else UpperBound(vs[..|vs| - 1], addr)
  }

  lemma {:induction false} UpperBoundSorted(vs: seq<Range>, w: nat, addr: int)
    requires w > 0 && Sorted(vs, w)
    ensures forall j | 0 <= j < UpperBound(vs, addr) :: vs[j].base <= addr
  {
  }

  // --------------------------------------- pieces of ranges and their words

  /** The part of a range below `end`. */
  function Head(r: Range, w: nat, end: nat): (h: Range)
    requires w > 0 && GoodRange(r, w) && r.base < end <= RangeEnd(r, w)
    ensures GoodRange(h, w) && h.base == r.base && RangeEnd(h, w) == end
  {
    OffsetFits(r, w, end);
    Exact(end - r.base, w);
    Monotone(1, end - r.base, w);
    Range(r.base, r.data[..Offset(r, w, end)])
  }

  lemma {:induction false} HeadWord(r: Range, w: nat, end: nat, addr: nat)
    requires w > 0 && GoodRange(r, w) && r.base < end <= RangeEnd(r, w) && r.base <= addr < end
    ensures InRange(Head(r, w, end), w, addr) && WordAt(Head(r, w, end), w, addr) == WordAt(r, w, addr)
  {
    OffsetFits(r, w, addr);
    OffsetFits(Head(r, w, end), w, addr);
    OffsetFits(r, w, end);
    SliceTake(r.data, Offset(r, w, end), Offset(r, w, addr), w);
  }

  /** The part of a range from `begin` on. */
  function Tail(r: Range, w: nat, begin: nat): (t: Range)
    requires w > 0 && GoodRange(r, w) && r.base <= begin < RangeEnd(r, w)
    ensures GoodRange(t, w) && t.base == begin && RangeEnd(t, w) == RangeEnd(r, w)
  {
    OffsetFits(r, w, begin);
    Whole(|r.data|, w);
    Distribute(RangeEnd(r, w) - begin, begin - r.base, w);
    Exact(RangeEnd(r, w) - begin, w);
    Range(begin, r.data[Offset(r, w, begin)..])
  }

  lemma {:induction false} TailWord(r: Range, w: nat, begin: nat, addr: nat)
    requires w > 0 && GoodRange(r, w) && r.base <= begin <= addr < RangeEnd(r, w)
    ensures InRange(Tail(r, w, begin), w, addr) && WordAt(Tail(r, w, begin), w, addr) == WordAt(r, w, addr)
  {
    OffsetFits(r, w, addr);
    OffsetFits(r, w, begin);
    var t := Tail(r, w, begin);
    OffsetFits(t, w, addr);
    var x, y := addr - begin, begin - r.base;
    Distribute(x, y, w);
    assert x + y == addr - r.base;
    assert Offset(r, w, addr) == Offset(t, w, addr) + Offset(r, w, begin);
    SliceDrop(r.data, Offset(r, w, begin), Offset(t, w, addr), w);
  }

  /** `n` undefined words. */
  function Undefined(n: nat, w: nat): (data: seq<State>)
    ensures |data| == Times(n, w)
  {
    Monotone(0, n, w);
    seq(Times(n, w), _ => Sx)
  }

  /** Range r followed directly by the contents `more`. */
  function Joined(r: Range, w: nat, more: seq<State>): (j: Range)
    requires w > 0 && GoodRange(r, w) && Aligned(|more|, w)
    ensures GoodRange(j, w) && j.base == r.base && RangeEnd(j, w) == RangeEnd(r, w) + Quot(|more|, w)
  {
    Whole(|r.data|, w);
    Whole(|more|, w);
    Distribute(Quot(|r.data|, w), Quot(|more|, w), w);
    Exact(Quot(|r.data|, w) + Quot(|more|, w), w);
    Range(r.base, r.data + more)
  }

  lemma {:induction false} JoinedWordLow(r: Range, w: nat, more: seq<State>, addr: nat)
    requires w > 0 && GoodRange(r, w) && Aligned(|more|, w) && InRange(r, w, addr)
    ensures InRange(Joined(r, w, more), w, addr) && WordAt(Joined(r, w, more), w, addr) == WordAt(r, w, addr)
  {
    OffsetFits(Joined(r, w, more), w, addr);
    OffsetFits(r, w, addr);
    SliceFirst(r.data, more, Offset(r, w, addr), w);
  }

  lemma {:induction false} OffsetFrom(r: Range, w: nat, addr: nat, a: nat)
    requires r.base <= addr <= a
    ensures Offset(r, w, a) == Times(a - addr, w) + Offset(r, w, addr) && Times(a - addr, w) >= 0
  {
    var x, y := a - addr, addr - r.base;
    Distribute(x, y, w);
    assert x + y == a - r.base;
    Monotone(0, x, w);
  }

  lemma {:induction false} JoinedHighFits(r: Range, w: nat, more: seq<State>, addr: nat)
    requires w > 0 && GoodRange(r, w) && Aligned(|more|, w)
    requires RangeEnd(r, w) <= addr < RangeEnd(r, w) + Quot(|more|, w)
    ensures var s := Range(RangeEnd(r, w), more);
            && GoodRange(s, w) && InRange(s, w, addr) && InRange(Joined(r, w, more), w, addr)
            && Offset(Joined(r, w, more), w, addr) == |r.data| + Offset(s, w, addr)
            && Offset(s, w, addr) + w <= |more|
  {
    var s := Range(RangeEnd(r, w), more);
    OffsetFits(r, w, RangeEnd(r, w));
    OffsetFits(s, w, addr);
    OffsetFrom(Joined(r, w, more), w, RangeEnd(r, w), addr);
  }

  lemma {:induction false} JoinedWordHigh(r: Range, w: nat, more: seq<State>, addr: nat)
    requires w > 0 && GoodRange(r, w) && Aligned(|more|, w)
    requires RangeEnd(r, w) <= addr < RangeEnd(r, w) + Quot(|more|, w)
    ensures var s := Range(RangeEnd(r, w), more);
            && GoodRange(s, w) && InRange(s, w, addr) && InRange(Joined(r, w, more), w, addr)
            && WordAt(Joined(r, w, more), w, addr) == WordAt(s, w, addr)
  {
    JoinedHighFits(r, w, more, addr);
    SliceSecond(r.data, more, Offset(Range(RangeEnd(r, w), more), w, addr), w);
  }

  lemma {:induction false} JoinedWord(r: Range, w: nat, more: seq<State>, addr: nat)
    requires w > 0 && GoodRange(r, w) && Aligned(|more|, w)
    requires r.base <= addr < RangeEnd(r, w) + Quot(|more|, w)
    ensures InRange(Joined(r, w, more), w, addr)
    ensures addr < RangeEnd(r, w) ==> WordAt(Joined(r, w, more), w, addr) == WordAt(r, w, addr)
    ensures addr >= RangeEnd(r, w) ==>
              var s := Range(RangeEnd(r, w), more);
              GoodRange(s, w) && InRange(s, w, addr) && WordAt(Joined(r, w, more), w, addr) == WordAt(s, w, addr)
  {
    if addr < RangeEnd(r, w) {
      JoinedWordLow(r, w, more, addr);
    } else {
      JoinedWordHigh(r, w, more, addr);
    }
  }

  // -------------------------------------------------------------- the class

  class MemContents {
    const addrWidth: nat
    const dataWidth: nat
    const defaultValue: Word
    var values: seq<Range>

    /** One past the last address. */
    function Limit(): nat
      requires addrWidth < 32
    {
      B.Pow2(addrWidth)
    }

    /** The invariants `check()` aborts on. */
    ghost predicate Valid()
      reads this
    {
      && 0 < addrWidth < 32 && 0 < dataWidth && |defaultValue| == dataWidth
      && Sorted(values, dataWidth)
      && Below(values, dataWidth, Limit())
    }

    ghost function Word(addr: int): Option<Word>
      requires Valid()
      reads this
    {
      Get(values, dataWidth, addr)
    }

    constructor (addrWidth: nat, dataWidth: nat, defaultValue: Word)
      requires 0 < addrWidth < 32 && 0 < dataWidth
      ensures Valid() && this.addrWidth == addrWidth && this.dataWidth == dataWidth
      ensures this.defaultValue == Extu(defaultValue, dataWidth) && ZeroPadded(this.defaultValue, defaultValue, 0, dataWidth)
      ensures forall a :: Word(a) == None
    {
      this.addrWidth := addrWidth;
      this.dataWidth := dataWidth;
      this.defaultValue := Extu(defaultValue, dataWidth);
      values := [];
    }

    /** The range holding `addr`, or the first one past it. */
    method RangeAt(addr: nat) returns (it: nat)
      requires Valid() && addr <= Limit()
      ensures it <= |values|
      ensures forall k | 0 <= k < it :: RangeEnd(values[k], dataWidth) <= addr
      ensures forall k | it <= k < |values| :: addr < RangeEnd(values[k], dataWidth)
    {
      it := UpperBound(values, addr);
      UpperBoundSorted(values, dataWidth, addr);
      if it == 0 {
        return;
      }
      Pow2Bound(addrWidth);
      ContainsIsInRange(values[it - 1], dataWidth, addr);
      if RangeContains(values[it - 1], dataWidth, addr) {
        it := it - 1;
      }
    }

    /** `operator[]`: the stored word, or the default. */
    method At(addr: nat) returns (word: Word)
      requires Valid() && addr <= Limit()
      ensures word == if Word(addr).Some? then Word(addr).value else defaultValue
    {
      var it := RangeAt(addr);
      if it < |values| {
        Pow2Bound(addrWidth);
        ContainsIsInRange(values[it], dataWidth, addr);
      }
      if it < |values| && RangeContains(values[it], dataWidth, addr) {
        OffsetFits(values[it], dataWidth, addr);
        GetAt(values, dataWidth, it, addr);
        var offset := Times(addr - values[it].base, dataWidth);
        word := values[it].data[offset..offset + dataWidth];
      } else {
        forall k | 0 <= k < |values| ensures !InRange(values[k], dataWidth, addr) { }
        word := defaultValue;
      }
    }

    /** The number of defined words in [begin, end). */
    method CountRange(begin: nat, end: nat) returns (count: nat)
      requires Valid() && begin <= Limit()
      ensures count == |set a: int | begin <= a < end && Word(a).Some?|
    {
      count := CountDefined(begin, end);
      assert DefinedIn(values, dataWidth, begin, end) == set a: int | begin <= a < end && Word(a).Some?;
    }

    method CountDefined(begin: nat, end: nat) returns (count: nat)
      requires Valid() && begin <= Limit()
      ensures count == |DefinedIn(values, dataWidth, begin, end)|
    {
      count := 0;
      var it := RangeAt(begin);
      ghost var pos: nat := begin;
      while it < |values| && RangeOverlaps(values[it], dataWidth, begin, end)
        invariant CountedUpTo(values, dataWidth, it, begin, pos, end)
        invariant count == |DefinedIn(values, dataWidth, begin, pos)|
        decreases |values| - it
      {
        var r := values[it];
        var first := if r.base > begin then r.base else begin;
        var last := if RangeEnd(r, dataWidth) < end then RangeEnd(r, dataWidth) else end;
        CountStep(values, dataWidth, it, begin, pos, end);
        count := count + (last - first);
        it := it + 1;
        pos := last;
      }
      CountDone(values, dataWidth, it, begin, pos, end);
    }

    /** Undefines exactly the words in [begin, end). */
    method ClearRange(begin: nat, end: nat)
      requires Valid() && begin <= Limit() && end < ADDR_MOD
      modifies this
      ensures Valid()
      ensures forall a :: Word(a) == if begin <= a < end then None else old(Word(a))
    {
      if begin >= end {
        return;
      }
      var beginIt := RangeAt(begin);
      var endIt := UpperBound(values, end - 1);
      MeetsBetween(values, dataWidth, begin, end, beginIt, endIt);
      ClearedGet(values, dataWidth, begin, end, beginIt, endIt, Limit());
      if beginIt == endIt {
        assert Replaced(values, beginIt, endIt, []) == values;
        return;
      }
      ClearBetween(begin, end, beginIt, endIt);
    }

    /** The rest of `clear_range`, once the ranges it meets are known. */
    method ClearBetween(begin: nat, end: nat, i: nat, j: nat)
      requires Valid() && end < ADDR_MOD
      requires Meets(values, dataWidth, begin, end, i, j) && i < j
      modifies this
      ensures values == Replaced(old(values), i, j, Remains(old(values), dataWidth, begin, end, i, j))
    {
      Pow2Bound(addrWidth);
      ContainsIsInRange(values[j - 1], dataWidth, end - 1);
      ContainsIsInRange(values[i], dataWidth, begin);
      var beginIt, endIt := i, j;
      var lastIt := endIt - 1;
      RemainsSplice(values, dataWidth, begin, end, i, j);
      var cutBegin := RangeContains(values[beginIt], dataWidth, begin);
      if RangeContains(values[lastIt], dataWidth, end - 1) {
        // data past the end address is preserved in a new range
        if end != RangeEnd(values[lastIt], dataWidth) {
          values := values[..endIt] + [Tail(values[lastIt], dataWidth, end)] + values[endIt..];
        }
      }
      if cutBegin {
        // data before the start address stays, truncated
        if begin != values[beginIt].base {
          values := values[beginIt := Head(values[beginIt], dataWidth, begin)];
          beginIt := beginIt + 1;
        }
      }
      values := values[..beginIt] + values[endIt..];
    }

    /**
     * Makes one range cover [begin, end) and returns its position.  Words
     * already stored there are kept or become undefined.
     */
    method ReserveRange(begin: nat, end: nat) returns (it: nat)
      requires Valid() && begin < Limit() && end <= Limit()
      modifies this
      ensures Valid()
      ensures begin >= end ==> values == old(values) && it == |values|
      ensures begin < end ==> ReservedIn(old(values), values, dataWidth, it, begin, end, Limit())
      ensures begin < end ==>
                && it < |values| && values[it].base <= begin && end <= values[it].base + RangeSize(values[it], dataWidth)
                && (forall a :: Word(a) == old(Word(a)) || (begin <= a < end && Word(a).Some? && AllUndefined(Word(a).value, dataWidth)))
    {
      it := TakeRange(begin, end);
      if begin < end {
        forall a ensures Word(a) == old(Word(a)) || (begin <= a < end && Word(a).Some? && AllUndefined(Word(a).value, dataWidth)) {
          assert ReservedAt(old(values), values, dataWidth, begin, end, a);
          OneUndefined(dataWidth);
        }
      }
    }

    method TakeRange(begin: nat, end: nat) returns (it: nat)
      requires Valid() && begin < Limit() && end <= Limit()
      modifies this
      ensures Valid()
      ensures begin >= end ==> values == old(values) && it == |values|
      ensures begin < end ==> ReservedIn(old(values), values, dataWidth, it, begin, end, Limit())
    {
      if begin >= end {
        return |values|;
      }
      Pow2Bound(addrWidth);
      var lowerIt := 0;
      if begin != 0 {
        lowerIt := RangeAt(begin - 1);
      }
      if lowerIt < |values| && RangeContainsAll(values[lowerIt], dataWidth, begin, end) {
        return lowerIt;
      }
      var upperIt := RangeAt(end);
      IsAround(values, dataWidth, lowerIt, upperIt, begin, end);
      ReserveBetween(begin, end, lowerIt, upperIt);
      return lowerIt;
    }

    /** The rest of `_reserve_range`, once the ranges around the interval are known. */
    method ReserveBetween(begin: nat, end: nat, lowerIt: nat, upperIt: nat)
      requires Valid() && end <= Limit() && Around(values, dataWidth, lowerIt, upperIt, begin, end)
      requires Uncovered(values, dataWidth, lowerIt, begin, end)
      modifies this
      ensures ReservedIn(old(values), values, dataWidth, lowerIt, begin, end, Limit())
    {
      Pow2Bound(addrWidth);
      if lowerIt < |values| && begin > 0 { ContainsIsInRange(values[lowerIt], dataWidth, begin - 1); }
      if upperIt < |values| { ContainsIsInRange(values[upperIt], dataWidth, end); }
      var lowerTouch := begin > 0 && lowerIt < |values| && RangeContains(values[lowerIt], dataWidth, begin - 1);
      var upperTouch := upperIt < |values| && RangeContains(values[upperIt], dataWidth, end);
      if lowerTouch && upperTouch {
        MergeRanges(begin, end, lowerIt, upperIt);
      } else if lowerTouch {
        GrowRange(begin, end, lowerIt, upperIt);
      } else if upperTouch {
        StealRange(begin, end, lowerIt, upperIt);
      } else {
        FreshRange(begin, end, lowerIt, upperIt);
      }
    }

    /** Two ranges touch at either end: the lower one swallows the upper. */
    method MergeRanges(begin: nat, end: nat, lowerIt: nat, upperIt: nat)
      requires Valid() && end <= Limit() && Around(values, dataWidth, lowerIt, upperIt, begin, end)
      requires Uncovered(values, dataWidth, lowerIt, begin, end)
      requires begin > 0 && lowerIt < |values| && InRange(values[lowerIt], dataWidth, begin - 1)
      requires upperIt < |values| && InRange(values[upperIt], dataWidth, end)
      modifies this
      ensures ReservedIn(old(values), values, dataWidth, lowerIt, begin, end, Limit())
    {
      var lower, upper := values[lowerIt], values[upperIt];
      MergeReserves(values, dataWidth, lowerIt, upperIt, begin, end, Limit());
      MergedData(lower, upper, dataWidth, end);
      var upperEnd := RangeEnd(upper, dataWidth);
      var data := Resize(lower.data, Times(upperEnd - lower.base, dataWidth), Sx);
      data := data[..Times(end - lower.base, dataWidth)] + upper.data[Times(end - upper.base, dataWidth)..];
      values := values[lowerIt := lower.(data := data)];
      values := values[..lowerIt + 1] + values[upperIt + 1..];
      assert values == Replaced(old(values), lowerIt, upperIt + 1, [Merged(lower, upper, dataWidth, end)]);
    }

    /** The range on the left grows. */
    method GrowRange(begin: nat, end: nat, lowerIt: nat, upperIt: nat)
      requires Valid() && end <= Limit() && Around(values, dataWidth, lowerIt, upperIt, begin, end)
      requires Uncovered(values, dataWidth, lowerIt, begin, end)
      requires begin > 0 && lowerIt < |values| && InRange(values[lowerIt], dataWidth, begin - 1)
      requires upperIt < |values| ==> !InRange(values[upperIt], dataWidth, end)
      modifies this
      ensures ReservedIn(old(values), values, dataWidth, lowerIt, begin, end, Limit())
    {
      var lower := values[lowerIt];
      GrowReserves(values, dataWidth, lowerIt, upperIt, begin, end, Limit());
      GrownData(lower, dataWidth, end);
      var data := Resize(lower.data, Times(end - lower.base, dataWidth), Sx);
      values := values[lowerIt := lower.(data := data)];
      values := values[..lowerIt + 1] + values[upperIt..];
      assert values == Replaced(old(values), lowerIt, upperIt, [Grown(lower, dataWidth, end)]);
    }

    /** The range on the right gets a new start: it is erased and inserted again. */
    method StealRange(begin: nat, end: nat, lowerIt: nat, upperIt: nat)
      requires Valid() && end <= Limit() && Around(values, dataWidth, lowerIt, upperIt, begin, end)
      requires Uncovered(values, dataWidth, lowerIt, begin, end)
      requires lowerIt < |values| && begin > 0 ==> !InRange(values[lowerIt], dataWidth, begin - 1)
      requires upperIt < |values| && InRange(values[upperIt], dataWidth, end)
      modifies this
      ensures ReservedIn(old(values), values, dataWidth, lowerIt, begin, end, Limit())
    {
      var upper := values[upperIt];
      StealReserves(values, dataWidth, lowerIt, upperIt, begin, end, Limit());
      var data := Undefined(upper.base - begin, dataWidth) + upper.data;
      assert Range(begin, data) == Stolen(upper, dataWidth, begin);
      EraseInsert(values, lowerIt, upperIt + 1, Range(begin, data));
      values := values[..lowerIt] + values[upperIt + 1..];
      values := values[..lowerIt] + [Range(begin, data)] + values[lowerIt..];
    }

    /** No range touches: a new one replaces all that lie inside. */
    method FreshRange(begin: nat, end: nat, lowerIt: nat, upperIt: nat)
      requires Valid() && end <= Limit() && Around(values, dataWidth, lowerIt, upperIt, begin, end)
      requires Uncovered(values, dataWidth, lowerIt, begin, end)
      requires lowerIt < |values| && begin > 0 ==> !InRange(values[lowerIt], dataWidth, begin - 1)
      requires upperIt < |values| ==> !InRange(values[upperIt], dataWidth, end)
      modifies this
      ensures ReservedIn(old(values), values, dataWidth, lowerIt, begin, end, Limit())
    {
      FreshReserves(values, dataWidth, lowerIt, upperIt, begin, end, Limit());
      EraseInsert(values, lowerIt, upperIt, Range(begin, Undefined(end - begin, dataWidth)));
      values := values[..lowerIt] + values[upperIt..];
      values := values[..lowerIt] + [Range(begin, Undefined(end - begin, dataWidth))] + values[lowerIt..];
    }

    /**
     * Stores consecutive words given as one constant, padded with zeros to a
     * whole word.  The source writes through the iterator it reserved, so at
     * least one bit is needed.
     */
    method InsertConcatenated(addr: nat, vals: seq<State>)
      requires Valid() && addr < Limit()
      requires |vals| > 0 && WordCount(vals, dataWidth) <= Limit() - addr
      modifies this
      ensures Valid()
      ensures forall a :: Word(a) == if addr <= a < addr + WordCount(vals, dataWidth)
                                     then Some(WordOf(vals, dataWidth, a - addr)) else old(Word(a))
      ensures forall a | addr <= a < addr + WordCount(vals, dataWidth) ::
                Word(a).Some? && ZeroPadded(Word(a).value, vals, Times(a - addr, dataWidth), dataWidth)
    {
      QuotIsDivision(|vals| + dataWidth - 1, dataWidth);
      var words := (|vals| + dataWidth - 1) / dataWidth;
      PaddingFits(vals, dataWidth);
      var it := ReserveRange(addr, addr + words);
      var r := values[it];
      var data := Overwrite(r, addr, vals, words);
      OverwriteGet(values, dataWidth, it, addr, vals, Limit());
      ghost var mid := values;
      values := values[it := r.(data := data)];
      WriteAfterReserve(old(values), mid, values, dataWidth, addr, vals, addr + words);
    }

    /** The range's data with the constant copied in, and zeros up to the end of its last word. */
    method Overwrite(r: Range, addr: nat, vals: seq<State>, words: nat) returns (data: seq<State>)
      requires dataWidth > 0 && GoodRange(r, dataWidth) && words == WordCount(vals, dataWidth)
      requires r.base <= addr && addr + words <= RangeEnd(r, dataWidth)
      ensures data == Overwritten(r, dataWidth, addr, vals).data
    {
      OffsetFits(r, dataWidth, addr);
      OffsetFits(r, dataWidth, addr + words);
      var toBegin := Times(addr - r.base, dataWidth);
      OverwrittenData(r, dataWidth, addr, vals);
      data := r.data[..toBegin] + vals + r.data[toBegin + |vals|..];
      data := data[..toBegin + |vals|] + seq(Times(words, dataWidth) - |vals|, _ => S0) + data[toBegin + Times(words, dataWidth)..];
    }

    /** Stores a run of words, each truncated or zero-extended to the data width. */
    method InsertRange(addr: nat, words: seq<seq<State>>)
      requires Valid() && addr < Limit() && 0 < |words| <= Limit() - addr
      modifies this
      ensures Valid()
      ensures forall a :: Word(a) == if addr <= a < addr + |words|
                                     then Some(Extu(words[a - addr], dataWidth)) else old(Word(a))
      ensures forall a | addr <= a < addr + |words| :: Word(a).Some? && ZeroPadded(Word(a).value, words[a - addr], 0, dataWidth)
    {
      var it := ReserveRange(addr, addr + |words|);
      forall a | !(addr <= a < addr + |words|) ensures Word(a) == old(Word(a)) {
        assert ReservedAt(old(values), values, dataWidth, addr, addr + |words|, a);
      }
      for k := 0 to |words|
        invariant Valid() && it < |values| && values[it].base <= addr && addr + |words| <= RangeEnd(values[it], dataWidth)
        invariant forall a | !(addr <= a < addr + |words|) :: Word(a) == old(Word(a))
        invariant forall a | addr <= a < addr + k :: Word(a) == Some(Extu(words[a - addr], dataWidth))
      {
        RangeWrite(it, addr + k, words[k]);
      }
    }

    /** `_range_write` for one word. */
    method RangeWrite(it: nat, addr: nat, word: seq<State>)
      requires Valid() && it < |values| && InRange(values[it], dataWidth, addr)
      modifies this
      ensures Valid() && it < |values|
      ensures values[it].base == old(values)[it].base
      ensures RangeEnd(values[it], dataWidth) == RangeEnd(old(values)[it], dataWidth)
      ensures forall a :: Word(a) == if a == addr then Some(Extu(word, dataWidth)) else old(Word(a))
      ensures Word(addr).Some? && ZeroPadded(Word(addr).value, word, 0, dataWidth)
    {
      var r := values[it];
      var padded := Extu(word, dataWidth);
      SingleWord(padded, dataWidth);
      OffsetFits(r, dataWidth, addr);
      OverwrittenData(r, dataWidth, addr, padded);
      OverwriteGet(values, dataWidth, it, addr, padded, Limit());
      var at := Times(addr - r.base, dataWidth);
      assert seq(0, _ => S0) == [];
      var data := r.data[..at] + padded + r.data[at + dataWidth..];
      assert data == Overwritten(r, dataWidth, addr, padded).data;
      values := values[it := r.(data := data)];
    }
  }

  /** Everything in [begin, pos) has been counted, and the ranges from `it` on lie beyond. */
  ghost predicate CountedUpTo(vs: seq<Range>, w: nat, it: nat, begin: nat, pos: nat, end: nat)
    requires w > 0
  {
    && it <= |vs| && begin <= pos && (pos <= end || pos == begin)
    && (forall k | 0 <= k < it :: RangeEnd(vs[k], w) <= pos || pos == end)
    && (pos == end || forall k | it <= k < |vs| :: pos < RangeEnd(vs[k], w))
    && (pos == begin || forall k | it <= k < |vs| :: pos < vs[k].base)
  }

  lemma {:induction false} CountStep(vs: seq<Range>, w: nat, it: nat, begin: nat, pos: nat, end: nat)
    requires w > 0 && Sorted(vs, w) && CountedUpTo(vs, w, it, begin, pos, end)
    requires it < |vs| && RangeOverlaps(vs[it], w, begin, end)
    ensures var r := vs[it];
            var first := if r.base > begin then r.base else begin;
            var last := if RangeEnd(r, w) < end then RangeEnd(r, w) else end;
            && first <= last && CountedUpTo(vs, w, it + 1, begin, last, end)
            && |DefinedIn(vs, w, begin, last)| == |DefinedIn(vs, w, begin, pos)| + (last - first)
  {
    var r := vs[it];
    var first := if r.base > begin then r.base else begin;
    var last := if RangeEnd(r, w) < end then RangeEnd(r, w) else end;
    assert pos <= first;
    CountRun(vs, w, begin, pos, first, last, it);
  }

  lemma {:induction false} CountDone(vs: seq<Range>, w: nat, it: nat, begin: nat, pos: nat, end: nat)
    requires w > 0 && Sorted(vs, w) && CountedUpTo(vs, w, it, begin, pos, end)
    requires it == |vs| || !RangeOverlaps(vs[it], w, begin, end)
    ensures |DefinedIn(vs, w, begin, end)| == |DefinedIn(vs, w, begin, pos)|
  {
    if pos < end {
      CountGap(vs, w, begin, pos, end, it);
    } else {
      assert DefinedIn(vs, w, begin, end) == DefinedIn(vs, w, begin, pos);
    }
  }

  ghost function DefinedIn(vs: seq<Range>, w: nat, begin: int, end: int): set<int>
    requires w > 0 && Sorted(vs, w)
  {
    set a: int | begin <= a < end && Get(vs, w, a).Some?
  }

  ghost function Interval(begin: int, end: int): (s: set<int>)
    requires begin <= end
    ensures forall a :: a in s <==> begin <= a < end
    ensures |s| == end - begin
    decreases end - begin
  {
    if begin == end then {} else Interval(begin, end - 1) + {end - 1}
  }

  lemma {:induction false} CountGap(vs: seq<Range>, w: nat, begin: int, pos: int, first: int, it: nat)
    requires w > 0 && Sorted(vs, w) && begin <= pos <= first && it <= |vs|
    requires forall k | 0 <= k < it :: RangeEnd(vs[k], w) <= pos
    requires it < |vs| ==> first <= vs[it].base
    ensures DefinedIn(vs, w, begin, first) == DefinedIn(vs, w, begin, pos)
  {
    forall a | pos <= a < first ensures Get(vs, w, a).None? {
      forall k | 0 <= k < |vs| ensures !InRange(vs[k], w, a) { }
    }
  }

  lemma {:induction false} CountRun(vs: seq<Range>, w: nat, begin: int, pos: int, first: int, last: int, it: nat)
    requires w > 0 && Sorted(vs, w) && begin <= pos <= first <= last && it < |vs|
    requires forall k | 0 <= k < it :: RangeEnd(vs[k], w) <= pos
    requires first == pos || first <= vs[it].base
    requires vs[it].base <= first && last <= RangeEnd(vs[it], w)
    ensures |DefinedIn(vs, w, begin, last)| == |DefinedIn(vs, w, begin, pos)| + (last - first)
  {
    if first != pos { CountGap(vs, w, begin, pos, first, it); }
    forall a | first <= a < last ensures Get(vs, w, a).Some? {
      assert InRange(vs[it], w, a);
    }
    assert DefinedIn(vs, w, begin, last) == DefinedIn(vs, w, begin, first) + Interval(first, last);
  }

  lemma {:induction false} Pow2Bound(n: nat)
    requires n < 32
    ensures B.Pow2(n) < ADDR_MOD
  {
    B.Pow2Monotone(n, 31);
    assert B.Pow2(31) == 0x8000_0000 by { Pow2Eight(); }
  }

  lemma {:induction false} Pow2Eight()
    ensures B.Pow2(31) == 0x8000_0000
  {
    assert B.Pow2(8) == 256;
    assert B.Pow2(16) == 65536;
    assert B.Pow2(24) == 0x100_0000;
  }

  /** The word is made of the bits of s from bit `at` on, and of zeros beyond its end. */
  predicate ZeroPadded(word: Word, s: seq<State>, at: nat, w: nat) {
    |word| == w && forall i | 0 <= i < w :: word[i] == if at + i < |s| then s[at + i] else S0
  }

  /** `extu`: zero-extends or truncates. */
  function Extu(s: seq<State>, n: nat): (r: seq<State>)
    ensures |r| == n && ZeroPadded(r, s, 0, n)
  {
    if |s| >= n then s[..n] else s + seq(n - |s|, _ => S0)
  }

  lemma {:induction false} ContainsIsInRange(r: Range, w: nat, addr: nat)
    requires w > 0 && RangeEnd(r, w) <= ADDR_MOD && addr < ADDR_MOD
    ensures RangeContains(r, w, addr) <==> InRange(r, w, addr)
  {
    if addr < r.base {
      assert (addr - r.base) % ADDR_MOD == addr - r.base + ADDR_MOD;
    } else {
      assert (addr - r.base) % ADDR_MOD == addr - r.base;
    }
  }

  predicate RangeOverlaps(r: Range, w: nat, begin: nat, end: nat)
    requires w > 0
  {
    begin < end && !(RangeEnd(r, w) - 1 < begin || end - 1 < r.base)
  }

  // ---------------------------------------------- replacing part of a list

  ghost predicate Below(vs: seq<Range>, w: nat, limit: nat)
    requires w > 0
  {
    forall k | 0 <= k < |vs| :: RangeEnd(vs[k], w) <= limit
  }

  /** `mid` can take the place of positions [i, j). */
  ghost predicate Fits(vs: seq<Range>, w: nat, i: nat, j: nat, mid: seq<Range>)
    requires w > 0
  {
    && i <= j <= |vs| && Sorted(vs, w) && Sorted(mid, w)
    && (|mid| > 0 && i > 0 ==> RangeEnd(vs[i - 1], w) < mid[0].base)
    && (|mid| > 0 && j < |vs| ==> RangeEnd(mid[|mid| - 1], w) < vs[j].base)
  }

  ghost function Replaced(vs: seq<Range>, i: nat, j: nat, mid: seq<Range>): seq<Range>
    requires i <= j <= |vs|
  {
    vs[..i] + mid + vs[j..]
  }

  lemma {:induction false} ReplacedAt(vs: seq<Range>, i: nat, j: nat, mid: seq<Range>, k: nat)
    requires i <= j <= |vs| && k < |Replaced(vs, i, j, mid)|
    ensures Replaced(vs, i, j, mid)[k] ==
            if k < i then vs[k] else if k < i + |mid| then mid[k - i] else vs[k - i - |mid| + j]
  {
  }

  lemma {:induction false} ReplacedOrder(vs: seq<Range>, w: nat, i: nat, j: nat, mid: seq<Range>, k: nat, m: nat)
    requires w > 0 && Fits(vs, w, i, j, mid) && k < m < |Replaced(vs, i, j, mid)|
    ensures RangeEnd(Replaced(vs, i, j, mid)[k], w) < Replaced(vs, i, j, mid)[m].base
  {
    ReplacedAt(vs, i, j, mid, k);
    ReplacedAt(vs, i, j, mid, m);
    assert forall o | 0 <= o < |vs| :: vs[o].base <= RangeEnd(vs[o], w);
    assert forall o | 0 <= o < |mid| :: mid[o].base <= RangeEnd(mid[o], w);
    if k < i && i <= m < i + |mid| {
      assert RangeEnd(vs[k], w) <= RangeEnd(vs[i - 1], w);
      assert mid[0].base <= mid[m - i].base;
    } else if i <= k < i + |mid| && m >= i + |mid| {
      assert RangeEnd(mid[k - i], w) <= RangeEnd(mid[|mid| - 1], w);
      assert vs[j].base <= vs[m - i - |mid| + j].base;
    }
  }

  lemma {:induction false} ReplacedIsSorted(vs: seq<Range>, w: nat, i: nat, j: nat, mid: seq<Range>)
    requires w > 0 && Fits(vs, w, i, j, mid)
    ensures Sorted(Replaced(vs, i, j, mid), w)
  {
    var vs' := Replaced(vs, i, j, mid);
    forall k | 0 <= k < |vs'| ensures GoodRange(vs'[k], w) {
      ReplacedAt(vs, i, j, mid, k);
    }
    forall k, m | 0 <= k < m < |vs'| ensures RangeEnd(vs'[k], w) < vs'[m].base {
      ReplacedOrder(vs, w, i, j, mid, k, m);
    }
  }

  lemma {:induction false} GetNone(vs: seq<Range>, w: nat, a: int)
    requires w > 0 && Sorted(vs, w) && forall k | 0 <= k < |vs| :: !InRange(vs[k], w, a)
    ensures Get(vs, w, a).None?
  {
  }

  lemma {:induction false} InNoOther(vs: seq<Range>, w: nat, k: nat, a: int)
    requires w > 0 && Sorted(vs, w) && k < |vs| && InRange(vs[k], w, a)
    ensures forall m | 0 <= m < |vs| && m != k :: !InRange(vs[m], w, a)
  {
  }

  ghost predicate InSome(vs: seq<Range>, w: nat, i: nat, j: nat, a: int)
    requires w > 0 && i <= j <= |vs|
  {
    exists k :: i <= k < j && InRange(vs[k], w, a)
  }

  lemma {:induction false} ReplacedGetInside(vs: seq<Range>, w: nat, i: nat, j: nat, mid: seq<Range>, a: int, k: nat)
    requires w > 0 && Fits(vs, w, i, j, mid) && Sorted(Replaced(vs, i, j, mid), w)
    requires k < |mid| && InRange(mid[k], w, a)
    ensures Get(Replaced(vs, i, j, mid), w, a) == Get(mid, w, a)
  {
    ReplacedAt(vs, i, j, mid, i + k);
    GetSame(mid, Replaced(vs, i, j, mid), w, a, k, i + k);
  }

  lemma {:induction false} ReplacedGetOutside(vs: seq<Range>, w: nat, i: nat, j: nat, mid: seq<Range>, a: int, k: nat)
    requires w > 0 && Fits(vs, w, i, j, mid) && Sorted(Replaced(vs, i, j, mid), w)
    requires k < |vs| && InRange(vs[k], w, a) && !(i <= k < j)
    ensures Get(Replaced(vs, i, j, mid), w, a) == Get(vs, w, a)
  {
    var k' := if k < i then k else k - j + i + |mid|;
    ReplacedAt(vs, i, j, mid, k');
    GetSame(vs, Replaced(vs, i, j, mid), w, a, k, k');
  }

  lemma {:induction false} ReplacedGetNowhere(vs: seq<Range>, w: nat, i: nat, j: nat, mid: seq<Range>, a: int)
    requires w > 0 && Fits(vs, w, i, j, mid) && Sorted(Replaced(vs, i, j, mid), w)
    requires forall k | 0 <= k < |mid| :: !InRange(mid[k], w, a)
    requires forall k | 0 <= k < |vs| && !(i <= k < j) :: !InRange(vs[k], w, a)
    ensures Get(Replaced(vs, i, j, mid), w, a).None?
  {
    var vs' := Replaced(vs, i, j, mid);
    forall k | 0 <= k < |vs'| ensures !InRange(vs'[k], w, a) {
      ReplacedAt(vs, i, j, mid, k);
    }
    GetNone(vs', w, a);
  }

  /** An address is looked up in the replacement first; what was replaced is gone; the rest is as before. */
  lemma {:induction false} ReplacedGet(vs: seq<Range>, w: nat, i: nat, j: nat, mid: seq<Range>, a: int)
    requires w > 0 && Fits(vs, w, i, j, mid)
    requires Sorted(Replaced(vs, i, j, mid), w)
    ensures Get(Replaced(vs, i, j, mid), w, a) ==
            if Get(mid, w, a).Some? then Get(mid, w, a)
            else if InSome(vs, w, i, j, a) then None
            else Get(vs, w, a)
  {
    if k :| 0 <= k < |mid| && InRange(mid[k], w, a) {
      ReplacedGetInside(vs, w, i, j, mid, a, k);
    } else if k :| 0 <= k < |vs| && InRange(vs[k], w, a) && !(i <= k < j) {
      ReplacedGetOutside(vs, w, i, j, mid, a, k);
      InNoOther(vs, w, k, a);
    } else {
      ReplacedGetNowhere(vs, w, i, j, mid, a);
    }
  }

  lemma {:induction false} ReplacedIsBelow(vs: seq<Range>, w: nat, i: nat, j: nat, mid: seq<Range>, limit: nat)
    requires w > 0 && i <= j <= |vs| && Below(vs, w, limit) && Below(mid, w, limit)
    ensures Below(Replaced(vs, i, j, mid), w, limit)
  {
    forall k | 0 <= k < |Replaced(vs, i, j, mid)| ensures RangeEnd(Replaced(vs, i, j, mid)[k], w) <= limit {
      ReplacedAt(vs, i, j, mid, k);
    }
  }

  // ------------------------------------------------------------- clearing

  /** Positions [i, j) are exactly the ranges that meet [begin, end). */
  ghost predicate Meets(vs: seq<Range>, w: nat, begin: nat, end: nat, i: nat, j: nat)
    requires w > 0
  {
    && begin < end && i <= j <= |vs|
    && (forall k | 0 <= k < i :: RangeEnd(vs[k], w) <= begin)
    && (forall k | i <= k < |vs| :: begin < RangeEnd(vs[k], w))
    && (forall k | 0 <= k < j :: vs[k].base < end)
    && (forall k | j <= k < |vs| :: end <= vs[k].base)
  }

  /** What clearing [begin, end) leaves of the ranges [i, j) it meets. */
  ghost function Remains(vs: seq<Range>, w: nat, begin: nat, end: nat, i: nat, j: nat): seq<Range>
    requires w > 0 && Sorted(vs, w) && Meets(vs, w, begin, end, i, j)
  {
    if i == j then []
    else
      (if vs[i].base < begin then [Head(vs[i], w, begin)] else [])
      + (if end < RangeEnd(vs[j - 1], w) then [Tail(vs[j - 1], w, end)] else [])
  }

  lemma {:induction false} RemainsFits(vs: seq<Range>, w: nat, begin: nat, end: nat, i: nat, j: nat, limit: nat)
    requires w > 0 && Sorted(vs, w) && Meets(vs, w, begin, end, i, j) && Below(vs, w, limit)
    ensures Fits(vs, w, i, j, Remains(vs, w, begin, end, i, j))
    ensures Below(Remains(vs, w, begin, end, i, j), w, limit)
  {
  }

  /** Inserting the tail after position j, truncating the range at i, and erasing up to j. */
  lemma {:induction false} RemainsSplice(vs: seq<Range>, w: nat, begin: nat, end: nat, i: nat, j: nat)
    requires w > 0 && Sorted(vs, w) && Meets(vs, w, begin, end, i, j) && i < j
    ensures var vs1 := if end < RangeEnd(vs[j - 1], w) then vs[..j] + [Tail(vs[j - 1], w, end)] + vs[j..] else vs;
            && vs1[i] == vs[i] && |vs1| >= |vs|
            && var vs2 := if vs[i].base < begin then vs1[i := Head(vs[i], w, begin)] else vs1;
               vs2[..if vs[i].base < begin then i + 1 else i] + vs2[j..] == Replaced(vs, i, j, Remains(vs, w, begin, end, i, j))
  {
    var head := if vs[i].base < begin then [Head(vs[i], w, begin)] else [];
    var tail := if end < RangeEnd(vs[j - 1], w) then [Tail(vs[j - 1], w, end)] else [];
    SpliceOut(vs, i, j, head, tail);
    assert head + tail == Remains(vs, w, begin, end, i, j);
  }

  lemma {:induction false} SpliceOut<T>(vs: seq<T>, i: nat, j: nat, head: seq<T>, tail: seq<T>)
    requires i < j <= |vs| && |head| <= 1
    ensures tail == [] ==> vs[..j] + tail + vs[j..] == vs
    ensures var vs1 := vs[..j] + tail + vs[j..];
            var vs2 := if head == [] then vs1 else vs1[i := head[0]];
            vs1[i] == vs[i] && vs2[..i + |head|] + vs2[j..] == vs[..i] + (head + tail) + vs[j..]
  {
  }

  lemma {:induction false} RemainsGetHead(vs: seq<Range>, w: nat, begin: nat, end: nat, i: nat, j: nat, a: int)
    requires w > 0 && Sorted(vs, w) && Meets(vs, w, begin, end, i, j) && i < j
    requires Sorted(Remains(vs, w, begin, end, i, j), w) && vs[i].base <= a < begin
    ensures Get(Remains(vs, w, begin, end, i, j), w, a) == Get(vs, w, a)
  {
    var mid := Remains(vs, w, begin, end, i, j);
    HeadWord(vs[i], w, begin, a);
    assert mid[0] == Head(vs[i], w, begin);
    GetSame(vs, mid, w, a, i, 0);
  }

  lemma {:induction false} RemainsGetTail(vs: seq<Range>, w: nat, begin: nat, end: nat, i: nat, j: nat, a: int)
    requires w > 0 && Sorted(vs, w) && Meets(vs, w, begin, end, i, j) && i < j
    requires Sorted(Remains(vs, w, begin, end, i, j), w) && end <= a < RangeEnd(vs[j - 1], w)
    ensures Get(Remains(vs, w, begin, end, i, j), w, a) == Get(vs, w, a)
  {
    var mid := Remains(vs, w, begin, end, i, j);
    TailWord(vs[j - 1], w, end, a);
    assert mid[|mid| - 1] == Tail(vs[j - 1], w, end);
    GetSame(vs, mid, w, a, j - 1, |mid| - 1);
  }

  lemma {:induction false} RemainsGetNone(vs: seq<Range>, w: nat, begin: nat, end: nat, i: nat, j: nat, a: int)
    requires w > 0 && Sorted(vs, w) && Meets(vs, w, begin, end, i, j)
    requires Sorted(Remains(vs, w, begin, end, i, j), w)
    requires i < j ==> !(vs[i].base <= a < begin) && !(end <= a < RangeEnd(vs[j - 1], w))
    ensures Get(Remains(vs, w, begin, end, i, j), w, a).None?
  {
    var mid := Remains(vs, w, begin, end, i, j);
    forall k | 0 <= k < |mid| ensures !InRange(mid[k], w, a) { }
    GetNone(mid, w, a);
  }

  lemma {:induction false} MetOutside(vs: seq<Range>, w: nat, begin: nat, end: nat, i: nat, j: nat, a: int)
    requires w > 0 && Sorted(vs, w) && Meets(vs, w, begin, end, i, j) && i < j && !(begin <= a < end)
    ensures InSome(vs, w, i, j, a) <==> vs[i].base <= a < begin || end <= a < RangeEnd(vs[j - 1], w)
  {
    if vs[i].base <= a < begin { assert InRange(vs[i], w, a); }
    if end <= a < RangeEnd(vs[j - 1], w) { assert InRange(vs[j - 1], w, a); }
    if k :| i <= k < j && InRange(vs[k], w, a) {
      var e, b := RangeEnd(vs[i], w), vs[j - 1].base;
    }
  }

  lemma {:induction false} RemainsGet(vs: seq<Range>, w: nat, begin: nat, end: nat, i: nat, j: nat, a: int)
    requires w > 0 && Sorted(vs, w) && Meets(vs, w, begin, end, i, j)
    requires Sorted(Remains(vs, w, begin, end, i, j), w)
    ensures Get(Remains(vs, w, begin, end, i, j), w, a) ==
            if begin <= a < end || !InSome(vs, w, i, j, a) then None else Get(vs, w, a)
  {
    if i < j && !(begin <= a < end) {
      MetOutside(vs, w, begin, end, i, j, a);
    }
    if i < j && vs[i].base <= a < begin {
      RemainsGetHead(vs, w, begin, end, i, j, a);
    } else if i < j && end <= a < RangeEnd(vs[j - 1], w) {
      RemainsGetTail(vs, w, begin, end, i, j, a);
    } else {
      RemainsGetNone(vs, w, begin, end, i, j, a);
    }
  }

  /** vs' is vs without the words in [begin, end). */
  ghost predicate ClearedIn(vs: seq<Range>, vs': seq<Range>, w: nat, begin: nat, end: nat, limit: nat)
    requires w > 0 && Sorted(vs, w)
  {
    && Sorted(vs', w) && Below(vs', w, limit)
    && forall a :: Get(vs', w, a) == if begin <= a < end then None else Get(vs, w, a)
  }

  lemma {:induction false} MeetsBetween(vs: seq<Range>, w: nat, begin: nat, end: nat, i: nat, j: nat)
    requires w > 0 && Sorted(vs, w) && begin < end && i <= |vs|
    requires forall k | 0 <= k < i :: RangeEnd(vs[k], w) <= begin
    requires forall k | i <= k < |vs| :: begin < RangeEnd(vs[k], w)
    requires j == UpperBound(vs, end - 1)
    ensures Meets(vs, w, begin, end, i, j)
  {
    UpperBoundSorted(vs, w, end - 1);
    var probe := if j < |vs| then RangeEnd(vs[j], w) else 0;
  }

  lemma {:induction false} ClearedGet(vs: seq<Range>, w: nat, begin: nat, end: nat, i: nat, j: nat, limit: nat)
    requires w > 0 && Sorted(vs, w) && Meets(vs, w, begin, end, i, j) && Below(vs, w, limit)
    ensures ClearedIn(vs, Replaced(vs, i, j, Remains(vs, w, begin, end, i, j)), w, begin, end, limit)
  {
    var mid := Remains(vs, w, begin, end, i, j);
    RemainsFits(vs, w, begin, end, i, j, limit);
    ReplacedIsSorted(vs, w, i, j, mid);
    ReplacedIsBelow(vs, w, i, j, mid, limit);
    forall a ensures Get(Replaced(vs, i, j, mid), w, a) == if begin <= a < end then None else Get(vs, w, a) {
      ReplacedGet(vs, w, i, j, mid, a);
      RemainsGet(vs, w, begin, end, i, j, a);
      if begin <= a < end && !InSome(vs, w, i, j, a) {
        forall k | 0 <= k < |vs| ensures !InRange(vs[k], w, a) { }
        GetNone(vs, w, a);
      }
    }
  }

  // ------------------------------------------------------------ reserving

  predicate RangeContainsAll(r: Range, w: nat, begin: nat, end: nat)
    requires w > 0 && begin <= end
  {
    r.base <= begin && (end - r.base) % ADDR_MOD <= RangeSize(r, w)
  }

  function Resize(s: seq<State>, n: nat, fill: State): (r: seq<State>)
    ensures |r| == n
  {
    if |s| >= n then s[..n] else s + seq(n - |s|, _ => fill)
  }

  /** Positions `lower` and `upper` are the first ranges reaching begin - 1 and end. */
  ghost predicate Around(vs: seq<Range>, w: nat, lower: nat, upper: nat, begin: nat, end: nat)
    requires w > 0
  {
    && begin < end && lower <= upper <= |vs|
    && (begin > 0 ==> forall k | 0 <= k < lower :: RangeEnd(vs[k], w) < begin)
    && (begin == 0 ==> lower == 0)
    && (forall k | lower <= k < |vs| :: begin <= RangeEnd(vs[k], w))
    && (forall k | 0 <= k < upper :: RangeEnd(vs[k], w) <= end)
    && (forall k | upper <= k < |vs| :: end < RangeEnd(vs[k], w))
  }

  /** Range r can be put in place of positions [i, j), and covers [begin, end). */
  ghost predicate TakesPlace(vs: seq<Range>, w: nat, i: nat, j: nat, r: Range, begin: nat, end: nat, limit: nat)
    requires w > 0
  {
    && Sorted(vs, w) && Below(vs, w, limit) && i <= j <= |vs| && Fits(vs, w, i, j, [r])
    && GoodRange(r, w) && r.base <= begin < end <= RangeEnd(r, w) <= limit
  }

  /** At address a, range r is what positions [i, j) were, save that inside [begin, end) it may be undefined. */
  ghost predicate TakesAt(vs: seq<Range>, w: nat, i: nat, j: nat, r: Range, begin: nat, end: nat, a: int)
    requires w > 0 && Sorted(vs, w) && i <= j <= |vs| && GoodRange(r, w)
  {
    if begin <= a < end then
      InRange(r, w, a) && (WordAt(r, w, a) == Undefined(1, w) || Get(vs, w, a) == Some(WordAt(r, w, a)))
    else
      && (InRange(r, w, a) <==> InSome(vs, w, i, j, a))
      && (InRange(r, w, a) ==> Get(vs, w, a) == Some(WordAt(r, w, a)))
  }

  ghost predicate Takes(vs: seq<Range>, w: nat, i: nat, j: nat, r: Range, begin: nat, end: nat)
    requires w > 0 && Sorted(vs, w) && i <= j <= |vs| && GoodRange(r, w)
  {
    forall a :: TakesAt(vs, w, i, j, r, begin, end, a)
  }

  /** vs' is vs but for its range number i, which takes [begin, end). */
  ghost predicate ReservedIn(vs: seq<Range>, vs': seq<Range>, w: nat, i: nat, begin: nat, end: nat, limit: nat)
    requires w > 0 && Sorted(vs, w)
  {
    && Sorted(vs', w) && Below(vs', w, limit)
    && i < |vs'| && vs'[i].base <= begin && end <= RangeEnd(vs'[i], w)
    && (forall a :: ReservedAt(vs, vs', w, begin, end, a))
  }

  predicate AllUndefined(word: Word, w: nat) {
    |word| == w && forall i | 0 <= i < w :: word[i] == Sx
  }

  lemma {:induction false} OneUndefined(w: nat)
    ensures AllUndefined(Undefined(1, w), w)
  {
    assert Times(1, w) == Times(0, w) + w;
  }

  ghost predicate ReservedAt(vs: seq<Range>, vs': seq<Range>, w: nat, begin: nat, end: nat, a: int)
    requires w > 0 && Sorted(vs, w) && Sorted(vs', w)
  {
    Get(vs', w, a) == Get(vs, w, a) || (begin <= a < end && Get(vs', w, a) == Some(Undefined(1, w)))
  }

  lemma {:induction false} TakenAt(vs: seq<Range>, w: nat, i: nat, j: nat, r: Range, begin: nat, end: nat, limit: nat, a: int)
    requires w > 0 && TakesPlace(vs, w, i, j, r, begin, end, limit) && TakesAt(vs, w, i, j, r, begin, end, a)
    requires Sorted(Replaced(vs, i, j, [r]), w)
    ensures ReservedAt(vs, Replaced(vs, i, j, [r]), w, begin, end, a)
  {
    ReplacedGet(vs, w, i, j, [r], a);
    if InRange(r, w, a) {
      GetAt([r], w, 0, a);
    } else {
      GetNone([r], w, a);
    }
  }

  lemma {:induction false} Reserved(vs: seq<Range>, w: nat, i: nat, j: nat, r: Range, begin: nat, end: nat, limit: nat)
    requires w > 0 && TakesPlace(vs, w, i, j, r, begin, end, limit)
    requires Takes(vs, w, i, j, r, begin, end)
    ensures ReservedIn(vs, Replaced(vs, i, j, [r]), w, i, begin, end, limit)
  {
    ReplacedIsSorted(vs, w, i, j, [r]);
    ReplacedIsBelow(vs, w, i, j, [r], limit);
    forall a ensures ReservedAt(vs, Replaced(vs, i, j, [r]), w, begin, end, a) {
      assert TakesAt(vs, w, i, j, r, begin, end, a);
      TakenAt(vs, w, i, j, r, begin, end, limit, a);
    }
  }

  /** Range `lo` extended by undefined words up to `end`. */
  function Grown(lo: Range, w: nat, end: nat): (g: Range)
    requires w > 0 && GoodRange(lo, w) && RangeEnd(lo, w) <= end
    ensures GoodRange(g, w) && g.base == lo.base && RangeEnd(g, w) == end
    ensures |g.data| == Times(end - lo.base, w)
  {
    var n := end - RangeEnd(lo, w);
    Exact(n, w);
    Whole(|lo.data|, w);
    var x := RangeSize(lo, w);
    Distribute(x, n, w);
    assert x + n == end - lo.base;
    Joined(lo, w, Undefined(n, w))
  }

  /** `n` undefined words starting at `base`. */
  function Blank(base: nat, n: nat, w: nat): (r: Range)
    requires w > 0 && n > 0
    ensures GoodRange(r, w) && r.base == base && RangeEnd(r, w) == base + n
  {
    Exact(n, w);
    Monotone(1, n, w);
    Range(base, Undefined(n, w))
  }

  lemma {:induction false} BlankWord(base: nat, n: nat, w: nat, a: nat)
    requires w > 0 && base <= a < base + n
    ensures WordAt(Blank(base, n, w), w, a) == Undefined(1, w)
  {
    OffsetFits(Blank(base, n, w), w, a);
    assert Times(1, w) == Times(0, w) + w;
  }

  lemma {:induction false} GrownWord(lo: Range, w: nat, end: nat, a: nat)
    requires w > 0 && GoodRange(lo, w) && RangeEnd(lo, w) <= end && lo.base <= a < end
    ensures WordAt(Grown(lo, w, end), w, a) == if a < RangeEnd(lo, w) then WordAt(lo, w, a) else Undefined(1, w)
  {
    var n := end - RangeEnd(lo, w);
    Exact(n, w);
    assert Grown(lo, w, end) == Joined(lo, w, Undefined(n, w));
    JoinedWord(lo, w, Undefined(n, w), a);
    if a >= RangeEnd(lo, w) {
      BlankWord(RangeEnd(lo, w), n, w, a);
    }
  }

  /** Range `lo` grown up to `end`, followed by what `up` holds from there on. */
  function Merged(lo: Range, up: Range, w: nat, end: nat): (m: Range)
    requires w > 0 && GoodRange(lo, w) && GoodRange(up, w) && RangeEnd(lo, w) <= end && InRange(up, w, end)
    ensures GoodRange(m, w) && m.base == lo.base && RangeEnd(m, w) == RangeEnd(up, w)
  {
    Joined(Grown(lo, w, end), w, Tail(up, w, end).data)
  }

  lemma {:induction false} MergedWord(lo: Range, up: Range, w: nat, end: nat, a: nat)
    requires w > 0 && GoodRange(lo, w) && GoodRange(up, w) && RangeEnd(lo, w) <= end && InRange(up, w, end)
    requires lo.base <= a < RangeEnd(up, w)
    ensures WordAt(Merged(lo, up, w, end), w, a) ==
            if a < RangeEnd(lo, w) then WordAt(lo, w, a) else if a < end then Undefined(1, w) else WordAt(up, w, a)
  {
    JoinedWord(Grown(lo, w, end), w, Tail(up, w, end).data, a);
    if a < end {
      GrownWord(lo, w, end, a);
    } else {
      TailWord(up, w, end, a);
    }
  }

  /** The bit copying that merges two ranges. */
  lemma {:induction false} MergedData(lo: Range, up: Range, w: nat, end: nat)
    requires w > 0 && GoodRange(lo, w) && GoodRange(up, w) && RangeEnd(lo, w) <= end && InRange(up, w, end)
    ensures var at := Times(end - lo.base, w);
            var resized := Resize(lo.data, Times(RangeEnd(up, w) - lo.base, w), Sx);
            && 0 <= at <= |resized| && 0 <= Times(end - up.base, w) <= |up.data|
            && resized[..at] + up.data[Times(end - up.base, w)..] == Merged(lo, up, w, end).data
  {
    Whole(|lo.data|, w);
    OffsetFits(up, w, end);
    Monotone(RangeSize(lo, w), end - lo.base, w);
    Monotone(end - lo.base, RangeEnd(up, w) - lo.base, w);
    var at := Times(end - lo.base, w);
    assert Resize(lo.data, Times(RangeEnd(up, w) - lo.base, w), Sx)[..at] == Grown(lo, w, end).data;
  }

  lemma {:induction false} GrownData(lo: Range, w: nat, end: nat)
    requires w > 0 && GoodRange(lo, w) && RangeEnd(lo, w) <= end
    ensures 0 <= Times(end - lo.base, w) && Resize(lo.data, Times(end - lo.base, w), Sx) == Grown(lo, w, end).data
  {
    Whole(|lo.data|, w);
    Monotone(RangeSize(lo, w), end - lo.base, w);
  }

  /** An undefined stretch up to `up`, followed by `up`. */
  function Stolen(up: Range, w: nat, begin: nat): (r: Range)
    requires w > 0 && GoodRange(up, w) && begin < up.base
    ensures GoodRange(r, w) && r.base == begin && RangeEnd(r, w) == RangeEnd(up, w)
    ensures r.data == Undefined(up.base - begin, w) + up.data
  {
    Joined(Blank(begin, up.base - begin, w), w, up.data)
  }

  lemma {:induction false} StolenWord(up: Range, w: nat, begin: nat, a: nat)
    requires w > 0 && GoodRange(up, w) && begin < up.base && begin <= a < RangeEnd(up, w)
    ensures WordAt(Stolen(up, w, begin), w, a) == if a < up.base then Undefined(1, w) else WordAt(up, w, a)
  {
    var blank := Blank(begin, up.base - begin, w);
    if a < up.base {
      JoinedWordLow(blank, w, up.data, a);
      BlankWord(begin, up.base - begin, w, a);
    } else {
      JoinedWordHigh(blank, w, up.data, a);
      assert Range(RangeEnd(blank, w), up.data) == up;
    }
  }

  /** Covering the interval fails only when lower does not reach its end. */
  ghost predicate Uncovered(vs: seq<Range>, w: nat, lower: nat, begin: nat, end: nat)
    requires w > 0
  {
    lower < |vs| ==> !(vs[lower].base <= begin && end <= RangeEnd(vs[lower], w))
  }

  lemma {:induction false} MergeAt(vs: seq<Range>, w: nat, lower: nat, upper: nat, begin: nat, end: nat, a: int)
    requires w > 0 && Sorted(vs, w) && Around(vs, w, lower, upper, begin, end) && lower < upper < |vs|
    requires InRange(vs[lower], w, begin - 1) && InRange(vs[upper], w, end) && RangeEnd(vs[lower], w) <= end
    ensures TakesAt(vs, w, lower, upper + 1, Merged(vs[lower], vs[upper], w, end), begin, end, a)
  {
    var lo, up := vs[lower], vs[upper];
    if lo.base <= a < RangeEnd(up, w) {
      MergedWord(lo, up, w, end, a);
      if a < RangeEnd(lo, w) {
        GetAt(vs, w, lower, a);
      } else if a >= end {
        GetAt(vs, w, upper, a);
      }
    }
  }

  lemma {:induction false} MergeReserves(vs: seq<Range>, w: nat, lower: nat, upper: nat, begin: nat, end: nat, limit: nat)
    requires w > 0 && Sorted(vs, w) && Around(vs, w, lower, upper, begin, end) && Uncovered(vs, w, lower, begin, end)
    requires lower < |vs| && begin > 0 && InRange(vs[lower], w, begin - 1) && upper < |vs| && InRange(vs[upper], w, end)
    requires Below(vs, w, limit)
    ensures lower < upper && RangeEnd(vs[lower], w) <= end
    ensures ReservedIn(vs, Replaced(vs, lower, upper + 1, [Merged(vs[lower], vs[upper], w, end)]), w, lower, begin, end, limit)
  {
    MergeTakes(vs, w, lower, upper, upper + 1, begin, end, Merged(vs[lower], vs[upper], w, end));
    Reserved(vs, w, lower, upper + 1, Merged(vs[lower], vs[upper], w, end), begin, end, limit);
  }

  lemma {:induction false} MergeTakes(vs: seq<Range>, w: nat, lower: nat, upper: nat, j: nat, begin: nat, end: nat, r: Range)
    requires w > 0 && Sorted(vs, w) && Around(vs, w, lower, upper, begin, end) && lower < upper < |vs|
    requires InRange(vs[lower], w, begin - 1) && InRange(vs[upper], w, end) && RangeEnd(vs[lower], w) <= end
    requires r == Merged(vs[lower], vs[upper], w, end) && j == upper + 1
    ensures Takes(vs, w, lower, j, r, begin, end)
  {
    forall a ensures TakesAt(vs, w, lower, j, r, begin, end, a) {
      MergeAt(vs, w, lower, upper, begin, end, a);
    }
  }

  lemma {:induction false} GrowReserves(vs: seq<Range>, w: nat, lower: nat, upper: nat, begin: nat, end: nat, limit: nat)
    requires w > 0 && Sorted(vs, w) && Around(vs, w, lower, upper, begin, end) && Uncovered(vs, w, lower, begin, end)
    requires lower < |vs| && begin > 0 && InRange(vs[lower], w, begin - 1)
    requires upper < |vs| ==> !InRange(vs[upper], w, end)
    requires Below(vs, w, limit) && end <= limit
    ensures lower < upper && RangeEnd(vs[lower], w) <= end
    ensures ReservedIn(vs, Replaced(vs, lower, upper, [Grown(vs[lower], w, end)]), w, lower, begin, end, limit)
  {
    var lo := vs[lower];
    var r := Grown(lo, w, end);
    forall a ensures TakesAt(vs, w, lower, upper, r, begin, end, a) {
      if InRange(r, w, a) {
        GrownWord(lo, w, end, a);
        if a < RangeEnd(lo, w) {
          GetAt(vs, w, lower, a);
        }
      }
    }
    Reserved(vs, w, lower, upper, r, begin, end, limit);
  }

  lemma {:induction false} StealAt(vs: seq<Range>, w: nat, lower: nat, upper: nat, begin: nat, end: nat, a: int)
    requires w > 0 && Sorted(vs, w) && Around(vs, w, lower, upper, begin, end)
    requires lower < |vs| && begin > 0 ==> !InRange(vs[lower], w, begin - 1)
    requires upper < |vs| && begin < vs[upper].base && InRange(vs[upper], w, end)
    ensures TakesAt(vs, w, lower, upper + 1, Stolen(vs[upper], w, begin), begin, end, a)
  {
    var up := vs[upper];
    if begin <= a < RangeEnd(up, w) {
      StolenWord(up, w, begin, a);
      if a >= up.base {
        GetAt(vs, w, upper, a);
      }
    }
  }

  lemma {:induction false} StealReserves(vs: seq<Range>, w: nat, lower: nat, upper: nat, begin: nat, end: nat, limit: nat)
    requires w > 0 && Sorted(vs, w) && Around(vs, w, lower, upper, begin, end) && Uncovered(vs, w, lower, begin, end)
    requires lower < |vs| && begin > 0 ==> !InRange(vs[lower], w, begin - 1)
    requires upper < |vs| && InRange(vs[upper], w, end) && Below(vs, w, limit)
    ensures begin < vs[upper].base
    ensures ReservedIn(vs, Replaced(vs, lower, upper + 1, [Stolen(vs[upper], w, begin)]), w, lower, begin, end, limit)
  {
    StealTakes(vs, w, lower, upper, upper + 1, begin, end, Stolen(vs[upper], w, begin));
    Reserved(vs, w, lower, upper + 1, Stolen(vs[upper], w, begin), begin, end, limit);
  }

  lemma {:induction false} StealTakes(vs: seq<Range>, w: nat, lower: nat, upper: nat, j: nat, begin: nat, end: nat, r: Range)
    requires w > 0 && Sorted(vs, w) && Around(vs, w, lower, upper, begin, end)
    requires lower < |vs| && begin > 0 ==> !InRange(vs[lower], w, begin - 1)
    requires upper < |vs| && begin < vs[upper].base && InRange(vs[upper], w, end)
    requires r == Stolen(vs[upper], w, begin) && j == upper + 1
    ensures Takes(vs, w, lower, j, r, begin, end)
  {
    forall a ensures TakesAt(vs, w, lower, j, r, begin, end, a) {
      StealAt(vs, w, lower, upper, begin, end, a);
    }
  }

  lemma {:induction false} FreshReserves(vs: seq<Range>, w: nat, lower: nat, upper: nat, begin: nat, end: nat, limit: nat)
    requires w > 0 && Sorted(vs, w) && Around(vs, w, lower, upper, begin, end) && Uncovered(vs, w, lower, begin, end)
    requires lower < |vs| && begin > 0 ==> !InRange(vs[lower], w, begin - 1)
    requires upper < |vs| ==> !InRange(vs[upper], w, end)
    requires Below(vs, w, limit) && end <= limit
    ensures ReservedIn(vs, Replaced(vs, lower, upper, [Blank(begin, end - begin, w)]), w, lower, begin, end, limit)
  {
    var r := Blank(begin, end - begin, w);
    forall a ensures TakesAt(vs, w, lower, upper, r, begin, end, a) {
      if InRange(r, w, a) {
        BlankWord(begin, end - begin, w, a);
      }
    }
    Reserved(vs, w, lower, upper, r, begin, end, limit);
  }

  lemma {:induction false} EraseInsert(vs: seq<Range>, i: nat, j: nat, r: Range)
    requires i <= j <= |vs|
    ensures var vs' := vs[..i] + vs[j..]; vs'[..i] + [r] + vs'[i..] == Replaced(vs, i, j, [r])
  {
  }

  lemma {:induction false} IsAround(vs: seq<Range>, w: nat, lower: nat, upper: nat, begin: nat, end: nat)
    requires w > 0 && Sorted(vs, w) && begin < end < ADDR_MOD && lower <= |vs| && upper <= |vs| && Below(vs, w, ADDR_MOD)
    requires begin == 0 ==> lower == 0
    requires begin > 0 ==> forall k | 0 <= k < lower :: RangeEnd(vs[k], w) <= begin - 1
    requires begin > 0 ==> forall k | lower <= k < |vs| :: begin - 1 < RangeEnd(vs[k], w)
    requires forall k | 0 <= k < upper :: RangeEnd(vs[k], w) <= end
    requires forall k | upper <= k < |vs| :: end < RangeEnd(vs[k], w)
    requires lower < |vs| ==> !RangeContainsAll(vs[lower], w, begin, end)
    ensures Around(vs, w, lower, upper, begin, end) && Uncovered(vs, w, lower, begin, end)
  {
    var probe := if upper < |vs| then RangeEnd(vs[upper], w) else 0;
  }

  // ------------------------------------------------------------ inserting

  ghost function WordCount(vals: seq<State>, w: nat): nat
    requires w > 0
  {
    Quot(|vals| + w - 1, w)
  }

  /** Word number k of a constant, zero-padded at its end. */
  ghost function WordOf(vals: seq<State>, w: nat, k: nat): (word: Word)
    ensures |word| == w && ZeroPadded(word, vals, Times(k, w), w)
  {
    seq(w, i requires 0 <= i < w => if 0 <= Times(k, w) + i < |vals| then vals[Times(k, w) + i] else S0)
  }

  lemma {:induction false} PaddingFits(vals: seq<State>, w: nat)
    requires w > 0
    ensures |vals| <= Times(WordCount(vals, w), w) < |vals| + w
    ensures |vals| > 0 ==> WordCount(vals, w) > 0
  {
    var n := |vals| + w - 1;
    RoundDown(n, w);
  }

  /** Range r with the padded constant written from address `addr` on. */
  ghost function Overwritten(r: Range, w: nat, addr: nat, vals: seq<State>): (o: Range)
    requires w > 0 && GoodRange(r, w) && r.base <= addr && addr + WordCount(vals, w) <= RangeEnd(r, w)
    ensures o.base == r.base && |o.data| == |r.data| && GoodRange(o, w) && RangeEnd(o, w) == RangeEnd(r, w)
  {
    var lo, n := Offset(r, w, addr), Times(WordCount(vals, w), w);
    PaddingFits(vals, w);
    Fit(r, w, addr, vals);
    Range(r.base, r.data[..lo] + vals + seq(n - |vals|, _ => S0) + r.data[lo + n..])
  }

  lemma {:induction false} Fit(r: Range, w: nat, addr: nat, vals: seq<State>)
    requires w > 0 && GoodRange(r, w) && r.base <= addr && addr + WordCount(vals, w) <= RangeEnd(r, w)
    ensures Offset(r, w, addr) + Times(WordCount(vals, w), w) <= |r.data|
  {
    var x, y := addr - r.base, WordCount(vals, w);
    OffsetFits(r, w, addr + y);
    Distribute(x, y, w);
    assert x + y == addr + y - r.base;
  }

  lemma {:induction false} OverwrittenData(r: Range, w: nat, addr: nat, vals: seq<State>)
    requires w > 0 && GoodRange(r, w) && r.base <= addr && addr + WordCount(vals, w) <= RangeEnd(r, w)
    ensures var lo, n := Times(addr - r.base, w), Times(WordCount(vals, w), w);
            && 0 <= lo && lo + |vals| <= lo + n <= |r.data|
            && var data := r.data[..lo] + vals + r.data[lo + |vals|..];
               data[..lo + |vals|] + seq(n - |vals|, _ => S0) + data[lo + n..] == Overwritten(r, w, addr, vals).data
  {
    PaddingFits(vals, w);
    Fit(r, w, addr, vals);
    OffsetFits(r, w, addr);
  }

  lemma {:induction false} OverwrittenBefore(r: Range, w: nat, addr: nat, vals: seq<State>, a: nat)
    requires w > 0 && GoodRange(r, w) && r.base <= a < addr && addr + WordCount(vals, w) <= RangeEnd(r, w)
    ensures WordAt(Overwritten(r, w, addr, vals), w, a) == WordAt(r, w, a)
  {
    var o := Overwritten(r, w, addr, vals);
    OffsetFits(r, w, a);
    OffsetFits(o, w, a);
    Monotone(a + 1 - r.base, addr - r.base, w);
    Distribute(a - r.base, 1, w);
    Fit(r, w, addr, vals);
  }

  lemma {:induction false} OverwrittenInside(r: Range, w: nat, addr: nat, vals: seq<State>, a: nat)
    requires w > 0 && GoodRange(r, w) && r.base <= addr && addr + WordCount(vals, w) <= RangeEnd(r, w)
    requires addr <= a < addr + WordCount(vals, w)
    ensures WordAt(Overwritten(r, w, addr, vals), w, a) == WordOf(vals, w, a - addr)
  {
    var o, padded := Overwritten(r, w, addr, vals), Padded(vals, w);
    var x, lo, hi := a - addr, Offset(r, w, addr), Offset(r, w, addr) + Times(WordCount(vals, w), w);
    PaddingFits(vals, w);
    Fit(r, w, addr, vals);
    assert o.data == r.data[..lo] + (padded + r.data[hi..]);
    PaddedWord(vals, w, x);
    OffsetFrom(r, w, addr, a);
    WordInside(o, w, a, r.data[..lo], padded, r.data[hi..], Times(x, w));
  }

  lemma {:induction false} WordInside(o: Range, w: nat, a: nat, s: seq<State>, t: seq<State>, u: seq<State>, k: nat)
    requires w > 0 && GoodRange(o, w) && InRange(o, w, a) && o.data == s + (t + u)
    requires Offset(o, w, a) == k + |s| && k + w <= |t|
    ensures WordAt(o, w, a) == Slice(t, k, w)
  {
    MiddleSlice(s, t, u, k, w);
  }

  lemma {:induction false} MiddleSlice(s: seq<State>, t: seq<State>, u: seq<State>, k: nat, n: nat)
    requires k + n <= |t|
    ensures (s + (t + u))[|s| + k..|s| + k + n] == t[k..k + n]
  {
    SliceSecond(s, t + u, k, n);
    SliceFirst(t, u, k, n);
  }

  ghost function Padded(vals: seq<State>, w: nat): (p: seq<State>)
    requires w > 0
    ensures |p| == Times(WordCount(vals, w), w)
  {
    PaddingFits(vals, w);
    vals + seq(Times(WordCount(vals, w), w) - |vals|, _ => S0)
  }

  lemma {:induction false} PaddedWord(vals: seq<State>, w: nat, x: nat)
    requires w > 0 && x < WordCount(vals, w)
    ensures Times(x, w) + w <= |Padded(vals, w)|
    ensures Slice(Padded(vals, w), Times(x, w), w) == WordOf(vals, w, x)
  {
    Monotone(x + 1, WordCount(vals, w), w);
    PaddingFits(vals, w);
  }

  lemma {:induction false} OverwrittenAfter(r: Range, w: nat, addr: nat, vals: seq<State>, a: nat)
    requires w > 0 && GoodRange(r, w) && r.base <= addr && addr + WordCount(vals, w) <= a < RangeEnd(r, w)
    ensures WordAt(Overwritten(r, w, addr, vals), w, a) == WordAt(r, w, a)
  {
    var o := Overwritten(r, w, addr, vals);
    OffsetFrom(r, w, addr, a);
    PaddingFits(vals, w);
    Fit(r, w, addr, vals);
    OffsetFits(r, w, a);
    OffsetFits(o, w, a);
    Monotone(WordCount(vals, w), a - addr, w);
    var e := Offset(r, w, addr) + Times(WordCount(vals, w), w);
    var d := Offset(r, w, a) - e;
    assert o.data[e..] == r.data[e..];
    SliceDrop(o.data, e, d, w);
    SliceDrop(r.data, e, d, w);
  }

  lemma {:induction false} OverwrittenWord(r: Range, w: nat, addr: nat, vals: seq<State>, a: nat)
    requires w > 0 && GoodRange(r, w) && r.base <= addr && addr + WordCount(vals, w) <= RangeEnd(r, w)
    requires InRange(r, w, a)
    ensures WordAt(Overwritten(r, w, addr, vals), w, a) ==
            if addr <= a < addr + WordCount(vals, w) then WordOf(vals, w, a - addr) else WordAt(r, w, a)
  {
    if a < addr {
      OverwrittenBefore(r, w, addr, vals, a);
    } else if a < addr + WordCount(vals, w) {
      OverwrittenInside(r, w, addr, vals, a);
    } else {
      OverwrittenAfter(r, w, addr, vals, a);
    }
  }

  lemma {:induction false} OverwriteGetAt(vs: seq<Range>, w: nat, it: nat, addr: nat, vals: seq<State>, a: int)
    requires w > 0 && Sorted(vs, w) && it < |vs|
    requires vs[it].base <= addr && addr + WordCount(vals, w) <= RangeEnd(vs[it], w)
    requires Sorted(vs[it := Overwritten(vs[it], w, addr, vals)], w)
    ensures Get(vs[it := Overwritten(vs[it], w, addr, vals)], w, a) == AfterWrite(vs, w, addr, vals, a)
  {
    var vs' := vs[it := Overwritten(vs[it], w, addr, vals)];
    if InRange(vs[it], w, a) {
      OverwrittenWord(vs[it], w, addr, vals, a);
      GetAt(vs, w, it, a);
      GetAt(vs', w, it, a);
    } else if k :| 0 <= k < |vs| && InRange(vs[k], w, a) {
      GetSame(vs, vs', w, a, k, k);
    } else {
      GetNone(vs', w, a);
    }
  }

  lemma {:induction false} OverwriteGet(vs: seq<Range>, w: nat, it: nat, addr: nat, vals: seq<State>, limit: nat)
    requires w > 0 && Sorted(vs, w) && Below(vs, w, limit) && it < |vs|
    requires vs[it].base <= addr && addr + WordCount(vals, w) <= RangeEnd(vs[it], w)
    ensures var vs' := vs[it := Overwritten(vs[it], w, addr, vals)];
            && Sorted(vs', w) && Below(vs', w, limit)
            && forall a :: Get(vs', w, a) == AfterWrite(vs, w, addr, vals, a)
  {
    forall a {
      OverwriteGetAt(vs, w, it, addr, vals, a);
    }
  }

  /** What address a holds once the constant has been written at `addr`. */
  ghost function AfterWrite(vs: seq<Range>, w: nat, addr: nat, vals: seq<State>, a: int): Option<Word>
    requires w > 0 && Sorted(vs, w)
  {
    if addr <= a < addr + WordCount(vals, w) then Some(WordOf(vals, w, a - addr)) else Get(vs, w, a)
  }

  lemma {:induction false} WriteAfterReserve(vs: seq<Range>, mid: seq<Range>, vs': seq<Range>, w: nat, addr: nat, vals: seq<State>, end: nat)
    requires w > 0 && Sorted(vs, w) && Sorted(mid, w) && Sorted(vs', w) && end == addr + WordCount(vals, w)
    requires forall a :: ReservedAt(vs, mid, w, addr, end, a)
    requires forall a :: Get(vs', w, a) == AfterWrite(mid, w, addr, vals, a)
    ensures forall a :: Get(vs', w, a) == AfterWrite(vs, w, addr, vals, a)
  {
    forall a ensures Get(vs', w, a) == AfterWrite(vs, w, addr, vals, a) {
      assert ReservedAt(vs, mid, w, addr, end, a);
      assert Get(vs', w, a) == AfterWrite(mid, w, addr, vals, a);
    }
  }

  lemma {:induction false} SingleWord(word: Word, w: nat)
    requires w > 0 && |word| == w
    ensures WordCount(word, w) == 1 && WordOf(word, w, 0) == word
  {
    assert Quot(w + w - 1, w) == 1 + Quot(w - 1, w);
    assert Times(0, w) == 0;
  }
}
