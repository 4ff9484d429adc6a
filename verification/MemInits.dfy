/**
 * The initial values of a memory: `Mem::get_init_data`, `Mem::coalesce_inits`
 * and the construction of a `MemContents` from a `Mem`.
 *
 * Bit j of the word at address a is written (a, j); inits hold their words
 * concatenated, and carry one enable per bit of the word.
 */
module MemInits {
  import opened Rtlil
  import opened Wrappers
  import opened Multiples
  import MC = MemContents

  datatype MemInit = MemInit(addr: int, data: seq<State>, en: seq<State>, removed: bool)

  function Words(init: MemInit, w: nat): nat
    requires w > 0
  {
    Quot(|init.data|, w)
  }

  function EndAddr(init: MemInit, w: nat): int
    requires w > 0
  {
    init.addr + Words(init, w)
  }

  /** One enable per bit of the word, and whole words. */
  predicate GoodInit(init: MemInit, w: nat) {
    w > 0 && |init.en| == w && Aligned(|init.data|, w)
  }

  predicate Covers(init: MemInit, w: nat, a: int)
    requires w > 0
  {
    init.addr <= a < EndAddr(init, w)
  }

  lemma {:induction false} FlatIndex(init: MemInit, w: nat, a: int, j: nat)
    requires GoodInit(init, w) && Covers(init, w, a) && j < w
    ensures Times(a - init.addr, w) + j < |init.data|
  {
    Whole(|init.data|, w);
    Monotone(a - init.addr + 1, Words(init, w), w);
  }

  /** What an init writes to bit (a, j), if it does. */
  ghost function Contrib(init: MemInit, w: nat, a: int, j: nat): Option<State>
    requires GoodInit(init, w) && j < w
  {
    if !init.removed && Covers(init, w, a) && init.en[j] == S1 then
      FlatIndex(init, w, a, j);
      Some(init.data[Times(a - init.addr, w) + j])
    else None
  }

  ghost predicate GoodInits(inits: seq<MemInit>, w: nat) {
    w > 0 && forall i | 0 <= i < |inits| :: GoodInit(inits[i], w)
  }

  /** The memory image: the last init to write a bit decides it. */
  ghost function Image(inits: seq<MemInit>, w: nat, a: int, j: nat): State
    requires GoodInits(inits, w) && j < w
  {
    if inits == [] then Sx
    else
      var n := |inits| - 1;
      match Contrib(inits[n], w, a, j)
      case Some(v) => v
      case None => Image(inits[..n], w, a, j)
  }

  /** The init is live and enables bit j of a word that it covers. */
  predicate Writes(init: MemInit, w: nat, a: int, j: nat)
    requires GoodInit(init, w) && j < w
  {
    !init.removed && init.addr <= a < init.addr + Words(init, w) && init.en[j] == S1
  }

  /** Init i writes the bit, and no later one does. */
  ghost predicate LastToWrite(inits: seq<MemInit>, w: nat, a: int, j: nat, i: int)
    requires GoodInits(inits, w) && j < w
  {
    0 <= i < |inits| && Writes(inits[i], w, a, j) && forall k | i < k < |inits| :: !Writes(inits[k], w, a, j)
  }

  ghost predicate NoneWrites(inits: seq<MemInit>, w: nat, a: int, j: nat)
    requires GoodInits(inits, w) && j < w
  {
    forall i | 0 <= i < |inits| :: !Writes(inits[i], w, a, j)
  }

  /** Bit j of the init's word for address a. */
  ghost function HeldBit(init: MemInit, w: nat, a: int, j: nat): State
    requires GoodInit(init, w) && j < w && Writes(init, w, a, j)
  {
    FlatIndex(init, w, a, j);
    init.data[Times(a - init.addr, w) + j]
  }

  /** The image is what that init holds there. */
  lemma {:induction false} ImageOfLast(inits: seq<MemInit>, w: nat, a: int, j: nat, i: int)
    requires GoodInits(inits, w) && j < w && LastToWrite(inits, w, a, j, i)
    ensures Image(inits, w, a, j) == HeldBit(inits[i], w, a, j)
    decreases |inits|
  {
    var n := |inits| - 1;
    if i < n {
      assert !Writes(inits[n], w, a, j);
      ImageOfLast(inits[..n], w, a, j, i);
    }
  }

  /** A bit that nothing writes is undefined. */
  lemma {:induction false} ImageOfNone(inits: seq<MemInit>, w: nat, a: int, j: nat)
    requires GoodInits(inits, w) && j < w && NoneWrites(inits, w, a, j)
    ensures Image(inits, w, a, j) == Sx
    decreases |inits|
  {
    if inits != [] {
      assert !Writes(inits[|inits| - 1], w, a, j);
      ImageOfNone(inits[..|inits| - 1], w, a, j);
    }
  }

  // ------------------------------------------------------ flat bit vectors

  lemma {:induction false} ModOfTimes(k: nat, w: nat, j: nat)
    requires j < w
    ensures (Times(k, w) + j) % w == j
  {
    TimesIsProduct(k, w);
    Unique(k * w + j, w, k, j);
  }

  /** `base` with the enabled bits of `data` written at bit offset `off`, as far as they fall inside. */
  ghost function Overlay(base: seq<State>, off: int, data: seq<State>, en: seq<State>): (r: seq<State>)
    requires |en| > 0
    ensures |r| == |base|
  {
    seq(|base|, f requires 0 <= f < |base| =>
      if 0 <= f - off < |data| && en[(f - off) % |en|] == S1 then data[f - off] else base[f])
  }

  /** The bit loops of `get_init_data` and `coalesce_inits`. */
  method WriteBits(base: seq<State>, off: int, data: seq<State>, en: seq<State>) returns (r: seq<State>)
    requires |en| > 0
    ensures r == Overlay(base, off, data, en)
  {
    r := base;
    for i := 0 to |data|
      invariant |r| == |base|
      invariant forall f | 0 <= f < |base| ::
                  r[f] == if 0 <= f - off < i && en[(f - off) % |en|] == S1 then data[f - off] else base[f]
    {
      if 0 <= i + off < |r| && en[i % |en|] == S1 {
        r := r[i + off := data[i]];
      }
    }
  }

  /** A product of a signed address difference and the word size. */
  function IntTimes(k: int, w: nat): int {
    if k >= 0 then Times(k, w) else 0 - Times(-k, w)
  }

  lemma {:induction false} IntTimesIsProduct(k: int, w: nat)
    ensures IntTimes(k, w) == k * w
  {
    TimesIsProduct(if k >= 0 then k else -k, w);
  }

  /** Bit (a, j) of a vector that starts at address `start`. */
  ghost function BitAt(v: seq<State>, w: nat, start: int, a: int, j: nat): State
  {
    if start <= a && Times(a - start, w) + j < |v| then v[Times(a - start, w) + j] else Sx
  }

  lemma {:induction false} FlatFits(size: nat, w: nat, k: nat, j: nat)
    requires k < size && j < w
    ensures Times(k, w) + j < Times(size, w)
  {
    Monotone(k + 1, size, w);
  }

  /** v holds the image of the `size` words from address `start` on. */
  ghost predicate HoldsImage(v: seq<State>, w: nat, start: int, size: nat, inits: seq<MemInit>)
    requires GoodInits(inits, w)
  {
    && |v| == Times(size, w)
    && forall a, j: nat {:trigger BitAt(v, w, start, a, j)} | start <= a < start + size && j < w ::
         BitAt(v, w, start, a, j) == Image(inits, w, a, j)
  }

  lemma {:induction false} HoldsImageStep(v: seq<State>, w: nat, start: int, size: nat, inits: seq<MemInit>, init: MemInit)
    requires GoodInits(inits, w) && GoodInit(init, w) && HoldsImage(v, w, start, size, inits)
    ensures init.removed ==> HoldsImage(v, w, start, size, inits + [init])
    ensures !init.removed ==>
              HoldsImage(Overlay(v, IntTimes(init.addr - start, w), init.data, init.en), w, start, size, inits + [init])
  {
    var v' := if init.removed then v else Overlay(v, IntTimes(init.addr - start, w), init.data, init.en);
    assert (inits + [init])[..|inits|] == inits;
    forall a, j: nat | start <= a < start + size && j < w
      ensures BitAt(v', w, start, a, j) == Image(inits + [init], w, a, j)
    {
      FlatFits(size, w, a - start, j);
      assert BitAt(v, w, start, a, j) == Image(inits, w, a, j);
      if !init.removed {
        OverlayBit(v, w, start, init, IntTimes(init.addr - start, w), a, j);
      }
    }
  }

  /** The bit offset, relative to an init, of bit (a, j) of a vector from `start` on. */
  lemma {:induction false} RelativeIndex(w: nat, start: int, addr: int, a: int, j: nat)
    requires start <= a && j < w
    ensures var d := Times(a - start, w) + j - IntTimes(addr - start, w);
            if a >= addr then d == Times(a - addr, w) + j else d < 0
  {
    if a >= addr {
      if addr >= start {
        Distribute(a - addr, addr - start, w);
      } else {
        Distribute(a - start, start - addr, w);
      }
    } else {
      Distribute(a - start, addr - a, w);
      Monotone(1, addr - a, w);
      assert Times(1, w) == Times(0, w) + w;
    }
  }

  lemma {:induction false} OverlayBit(base: seq<State>, w: nat, start: int, init: MemInit, off: int, a: int, j: nat)
    requires GoodInit(init, w) && !init.removed && j < w
    requires start <= a && Times(a - start, w) + j < |base|
    requires off == IntTimes(init.addr - start, w)
    ensures BitAt(Overlay(base, off, init.data, init.en), w, start, a, j) ==
            match Contrib(init, w, a, j) case Some(v) => v case None => BitAt(base, w, start, a, j)
  {
    RelativeIndex(w, start, init.addr, a, j);
    var f := Times(a - start, w) + j;
    if a >= init.addr {
      ModOfTimes(a - init.addr, w, j);
      if Covers(init, w, a) {
        FlatIndex(init, w, a, j);
      } else {
        PastData(init, w, a);
      }
      OverlayAt(base, off, init.data, init.en, f, Times(a - init.addr, w) + j, j);
    } else {
      OverlayAt(base, off, init.data, init.en, f, f - off, j);
    }
  }

  lemma {:induction false} OverlayAt(base: seq<State>, off: int, data: seq<State>, en: seq<State>, f: nat, g: int, j: nat)
    requires |en| > 0 && f < |base| && g == f - off && j < |en| && (g >= 0 ==> g % |en| == j)
    ensures Overlay(base, off, data, en)[f] == if 0 <= g < |data| && en[j] == S1 then data[g] else base[f]
  {
  }

  /** Words that an init does not cover lie past its data. */
  lemma {:induction false} PastData(init: MemInit, w: nat, a: int)
    requires GoodInit(init, w) && init.addr <= a && !Covers(init, w, a)
    ensures Times(a - init.addr, w) >= |init.data|
  {
    Whole(|init.data|, w);
    Monotone(Words(init, w), a - init.addr, w);
  }

  // ------------------------------------------------- images and positions

  /** Some bit is enabled. */
  predicate AnyEnabled(init: MemInit) {
    exists j :: 0 <= j < |init.en| && init.en[j] == S1
  }

  predicate FullyOnes(en: seq<State>) {
    forall j :: 0 <= j < |en| ==> en[j] == S1
  }

  /** Lists that contribute the same at a bit have the same image there. */
  lemma {:induction false} SameContribs(s: seq<MemInit>, t: seq<MemInit>, w: nat, a: int, j: nat)
    requires GoodInits(s, w) && GoodInits(t, w) && |s| == |t| && j < w
    requires forall i | 0 <= i < |s| :: Contrib(s[i], w, a, j) == Contrib(t[i], w, a, j)
    ensures Image(s, w, a, j) == Image(t, w, a, j)
  {
    if |s| > 0 {
      var n := |s| - 1;
      SameContribs(s[..n], t[..n], w, a, j);
    }
  }

  lemma {:induction false} NoContribs(s: seq<MemInit>, w: nat, a: int, j: nat)
    requires GoodInits(s, w) && j < w
    requires forall i | 0 <= i < |s| :: Contrib(s[i], w, a, j) == None
    ensures Image(s, w, a, j) == Sx
  {
    if |s| > 0 {
      NoContribs(s[..|s| - 1], w, a, j);
    }
  }

  /** One contributor decides. */
  lemma {:induction false} OnlyContrib(s: seq<MemInit>, w: nat, a: int, j: nat, k: nat)
    requires GoodInits(s, w) && j < w && k < |s|
    requires forall i | 0 <= i < |s| && i != k :: Contrib(s[i], w, a, j) == None
    ensures Image(s, w, a, j) == match Contrib(s[k], w, a, j) case Some(v) => v case None => Sx
  {
    var n := |s| - 1;
    if k < n {
      OnlyContrib(s[..n], w, a, j, k);
    } else {
      NoContribs(s[..n], w, a, j);
    }
  }

  ghost predicate Increasing(idxs: seq<nat>, n: nat) {
    && (forall p | 0 <= p < |idxs| :: idxs[p] < n)
    && (forall p, q | 0 <= p < q < |idxs| :: idxs[p] < idxs[q])
  }

  /** The inits at the given positions, in order. */
  ghost function Pick(s: seq<MemInit>, idxs: seq<nat>): (r: seq<MemInit>)
    requires forall p | 0 <= p < |idxs| :: idxs[p] < |s|
    ensures |r| == |idxs| && forall p | 0 <= p < |idxs| :: r[p] == s[idxs[p]]
  {
    seq(|idxs|, p requires 0 <= p < |idxs| => s[idxs[p]])
  }

  lemma {:induction false} DropLast(idxs: seq<nat>, n: nat)
    requires Increasing(idxs, n + 1)
    ensures n in idxs ==> |idxs| > 0 && idxs[|idxs| - 1] == n && Increasing(idxs[..|idxs| - 1], n)
    ensures n !in idxs ==> Increasing(idxs, n)
  {
    if n in idxs {
      var p :| 0 <= p < |idxs| && idxs[p] == n;
      var m := |idxs| - 1;
      assert idxs[p] <= idxs[m];
    } else {
      forall p | 0 <= p < |idxs| ensures idxs[p] < n { assert idxs[p] in idxs; }
    }
  }

  lemma {:induction false} PickSplit(s: seq<MemInit>, idxs: seq<nat>)
    requires |s| > 0 && Increasing(idxs, |s|)
    ensures var n := |s| - 1;
            if n in idxs then
              && |idxs| > 0 && Increasing(idxs[..|idxs| - 1], n)
              && Pick(s, idxs) == Pick(s[..n], idxs[..|idxs| - 1]) + [s[n]]
            else Increasing(idxs, n) && Pick(s, idxs) == Pick(s[..n], idxs)
  {
    DropLast(idxs, |s| - 1);
  }

  ghost predicate OthersSilent(s: seq<MemInit>, idxs: seq<nat>, w: nat, a: int, j: nat)
    requires GoodInits(s, w) && j < w
  {
    forall i: nat | i < |s| && i !in idxs :: Contrib(s[i], w, a, j) == None
  }

  /** Only the inits that can contribute matter. */
  lemma {:induction false} PickKeepsImage(s: seq<MemInit>, idxs: seq<nat>, w: nat, a: int, j: nat)
    requires GoodInits(s, w) && Increasing(idxs, |s|) && j < w && OthersSilent(s, idxs, w, a, j)
    ensures Image(Pick(s, idxs), w, a, j) == Image(s, w, a, j)
  {
    if |s| > 0 {
      var n := |s| - 1;
      DropLast(idxs, n);
      PickSplit(s, idxs);
      if n in idxs {
        var rest := idxs[..|idxs| - 1];
        assert idxs == rest + [n];
        assert OthersSilent(s[..n], rest, w, a, j);
        PickKeepsImage(s[..n], rest, w, a, j);
        assert (Pick(s[..n], rest) + [s[n]])[..|rest|] == Pick(s[..n], rest);
      } else {
        assert OthersSilent(s[..n], idxs, w, a, j);
        PickKeepsImage(s[..n], idxs, w, a, j);
      }
    }
  }

  // --------------------------------------------------------------- chunks

  datatype Chunk = Chunk(start: int, end: int)

  /** The index of chunk boundaries: sorted, and no two chunks overlap or touch. */
  ghost predicate Apart(chunks: seq<Chunk>) {
    && (forall k | 0 <= k < |chunks| :: chunks[k].start <= chunks[k].end)
    && (forall k, m | 0 <= k < m < |chunks| :: chunks[k].end < chunks[m].start)
  }

  ghost predicate Inside(init: MemInit, w: nat, c: Chunk)
    requires w > 0
  {
    c.start <= init.addr && EndAddr(init, w) <= c.end
  }

  function UpperBound(chunks: seq<Chunk>, x: int): (k: nat)
    ensures k <= |chunks|
    ensures forall m | k <= m < |chunks| :: chunks[m].start > x
    ensures k > 0 ==> chunks[k - 1].start <= x
  {
    if chunks == [] then 0
    else if chunks[|chunks| - 1].start <= x then |chunks|
    else UpperBound(chunks[..|chunks| - 1], x)
  }

  ghost predicate InsideOne(init: MemInit, w: nat, chunks: seq<Chunk>)
    requires w > 0
  {
    exists k :: 0 <= k < |chunks| && Inside(init, w, chunks[k])
  }

  /** Positions [lo, hi) are merged into one chunk together with [addr, end]. */
  lemma {:induction false} MergeChunks(chunks: seq<Chunk>, lo: nat, hi: nat, addr: int, end: int, merged: Chunk)
    requires Apart(chunks) && lo <= hi <= |chunks| && addr <= end
    requires forall k | 0 <= k < lo :: chunks[k].end < addr
    requires forall k | lo <= k < hi :: chunks[k].end >= addr && chunks[k].start <= end
    requires forall k | hi <= k < |chunks| :: chunks[k].start > end
    requires merged.start == if lo < hi && chunks[lo].start < addr then chunks[lo].start else addr
    requires merged.end == if lo < hi && chunks[hi - 1].end > end then chunks[hi - 1].end else end
    ensures Apart(chunks[..lo] + [merged] + chunks[hi..])
    ensures merged.start <= addr && end <= merged.end
    ensures forall k | lo <= k < hi :: merged.start <= chunks[k].start && chunks[k].end <= merged.end
  {
    forall k | lo <= k < hi ensures merged.start <= chunks[k].start && chunks[k].end <= merged.end {
      if k > lo { assert chunks[lo].end < chunks[k].start; }
      if k < hi - 1 { assert chunks[k].end < chunks[hi - 1].start; }
    }
    var cs := chunks[..lo] + [merged] + chunks[hi..];
    forall k, m | 0 <= k < m < |cs| ensures cs[k].end < cs[m].start {
      if k < lo && m == lo {
        if lo < hi { assert chunks[k].end < chunks[lo].start; }
      }
      if k == lo && m > lo {
        if lo < hi { assert chunks[hi - 1].end < chunks[hi + m - lo - 1].start; }
      }
      if k < lo && m > lo {
        assert chunks[k].end < chunks[hi + m - lo - 1].start;
      }
    }
  }

  lemma {:induction false} StartBelow(chunks: seq<Chunk>, lo: nat, hi: nat, end: int)
    requires Apart(chunks) && lo <= hi <= |chunks| && (hi > 0 ==> chunks[hi - 1].start <= end)
    ensures forall k | lo <= k < hi :: chunks[k].start <= end
  {
    forall k | lo <= k < hi ensures chunks[k].start <= end {
      if k < hi - 1 { assert chunks[k].end < chunks[hi - 1].start; }
    }
  }

  lemma {:induction false} MergeKeepsAllInside(chunks: seq<Chunk>, lo: nat, hi: nat, merged: Chunk, inits: seq<MemInit>, w: nat)
    requires w > 0 && lo <= hi <= |chunks|
    requires forall k | 0 <= k < |inits| && !inits[k].removed :: InsideOne(inits[k], w, chunks)
    requires forall k | lo <= k < hi :: merged.start <= chunks[k].start && chunks[k].end <= merged.end
    ensures forall k | 0 <= k < |inits| && !inits[k].removed :: InsideOne(inits[k], w, chunks[..lo] + [merged] + chunks[hi..])
  {
    forall k | 0 <= k < |inits| && !inits[k].removed ensures InsideOne(inits[k], w, chunks[..lo] + [merged] + chunks[hi..]) {
      MergeKeepsInside(chunks, lo, hi, merged, inits[k], w);
    }
  }

  lemma {:induction false} MergeKeepsInside(chunks: seq<Chunk>, lo: nat, hi: nat, merged: Chunk, init: MemInit, w: nat)
    requires w > 0 && lo <= hi <= |chunks| && InsideOne(init, w, chunks)
    requires forall k | lo <= k < hi :: merged.start <= chunks[k].start && chunks[k].end <= merged.end
    ensures InsideOne(init, w, chunks[..lo] + [merged] + chunks[hi..])
  {
    var k :| 0 <= k < |chunks| && Inside(init, w, chunks[k]);
    var cs := chunks[..lo] + [merged] + chunks[hi..];
    var k' := if k < lo then k else if k < hi then lo else k - hi + lo + 1;
    assert Inside(init, w, cs[k']);
  }

  /** An init can only be inside one chunk, and then an upper bound finds it. */
  lemma {:induction false} FoundChunk(chunks: seq<Chunk>, init: MemInit, w: nat)
    requires w > 0 && Apart(chunks) && InsideOne(init, w, chunks)
    ensures var k := UpperBound(chunks, init.addr); k > 0 && Inside(init, w, chunks[k - 1])
  {
    var k :| 0 <= k < |chunks| && Inside(init, w, chunks[k]);
    var u := UpperBound(chunks, init.addr);
    var last := chunks[u - 1];
  }

  // ------------------------------------------------------------ the memory

  class Mem {
    const width: nat
    const startOffset: int
    const size: nat
    var inits: seq<MemInit>

    ghost predicate Valid()
      reads this
    {
      width > 0 && GoodInits(inits, width)
    }

    constructor (width: nat, startOffset: int, size: nat, inits: seq<MemInit>)
      requires width > 0 && GoodInits(inits, width)
      ensures Valid() && this.width == width && this.startOffset == startOffset && this.size == size
      ensures this.inits == inits
    {
      this.width, this.startOffset, this.size, this.inits := width, startOffset, size, inits;
    }

    /** The image of the addresses the memory has. */
    method GetInitData() returns (initData: seq<State>)
      requires Valid()
      ensures HoldsImage(initData, width, startOffset, size, inits)
      ensures forall a, j: nat, i | startOffset <= a < startOffset + size && j < width && LastToWrite(inits, width, a, j, i) ::
                BitAt(initData, width, startOffset, a, j) == HeldBit(inits[i], width, a, j)
      ensures forall a, j: nat | startOffset <= a < startOffset + size && j < width && NoneWrites(inits, width, a, j) ::
                BitAt(initData, width, startOffset, a, j) == Sx
    {
      initData := OverlayAll();
      forall a, j: nat, i | startOffset <= a < startOffset + size && j < width && LastToWrite(inits, width, a, j, i)
        ensures BitAt(initData, width, startOffset, a, j) == HeldBit(inits[i], width, a, j)
      {
        ImageOfLast(inits, width, a, j, i);
      }
      forall a, j: nat | startOffset <= a < startOffset + size && j < width && NoneWrites(inits, width, a, j)
        ensures BitAt(initData, width, startOffset, a, j) == Sx
      {
        ImageOfNone(inits, width, a, j);
      }
    }

    method OverlayAll() returns (initData: seq<State>)
      requires Valid()
      ensures HoldsImage(initData, width, startOffset, size, inits)
    {
      initData := seq(Times(size, width), _ => Sx);
      for i := 0 to |inits|
        invariant HoldsImage(initData, width, startOffset, size, inits[..i])
      {
        var init := inits[i];
        assert inits[..i + 1] == inits[..i] + [init];
        HoldsImageStep(initData, width, startOffset, size, inits[..i], init);
        if !init.removed {
          var offset := IntTimes(init.addr - startOffset, width);
          initData := WriteBits(initData, offset, init.data, init.en);
        }
      }
      assert inits[..|inits|] == inits;
    }

    // --------------------------------------------------- coalescing inits

    /** Drops inits that enable nothing, and finds the chunks the others form. */
    method FindChunks() returns (chunks: seq<Chunk>)
      requires Valid()
      modifies this
      ensures Valid() && |inits| == |old(inits)|
      ensures forall i | 0 <= i < |inits| ::
                inits[i] == old(inits)[i].(removed := old(inits)[i].removed || !AnyEnabled(old(inits)[i]))
      ensures Apart(chunks) && forall i | 0 <= i < |inits| && !inits[i].removed :: InsideOne(inits[i], width, chunks)
    {
      chunks := [];
      for i := 0 to |inits|
        invariant Valid() && |inits| == |old(inits)|
        invariant forall k | 0 <= k < i ::
                    inits[k] == old(inits)[k].(removed := old(inits)[k].removed || !AnyEnabled(old(inits)[k]))
        invariant forall k | i <= k < |inits| :: inits[k] == old(inits)[k]
        invariant Apart(chunks)
        invariant forall k | 0 <= k < i && !inits[k].removed :: InsideOne(inits[k], width, chunks)
      {
        var init := inits[i];
        if !init.removed {
          var valid := HasEnabledBit(init);
          if !valid {
            inits := inits[i := init.(removed := true)];
          } else {
            ghost var before := chunks;
            chunks := AddToIndex(chunks, init, inits[..i]);
          }
        }
      }
    }

    method HasEnabledBit(init: MemInit) returns (valid: bool)
      ensures valid <==> AnyEnabled(init)
    {
      valid := false;
      for j := 0 to |init.en|
        invariant valid <==> exists b :: 0 <= b < j && init.en[b] == S1
      {
        if init.en[j] == S1 {
          valid := true;
        }
      }
    }

    /** Merges an init's addresses with every chunk they overlap or touch. */
    method AddToIndex(chunks: seq<Chunk>, init: MemInit, ghost indexed: seq<MemInit>) returns (chunks': seq<Chunk>)
      requires width > 0 && Apart(chunks)
      requires forall k | 0 <= k < |indexed| && !indexed[k].removed :: InsideOne(indexed[k], width, chunks)
      ensures Apart(chunks') && InsideOne(init, width, chunks')
      ensures forall k | 0 <= k < |indexed| && !indexed[k].removed :: InsideOne(indexed[k], width, chunks')
    {
      var addr := init.addr;
      var addrE := addr + Quot(|init.data|, width);
      var itE := UpperBound(chunks, addrE);
      var it := FirstTouching(chunks, itE, addr);
      StartBelow(chunks, it, itE, addrE);
      var start, end := addr, addrE;
      if it != itE {
        if chunks[it].start < start {
          start := chunks[it].start;
        }
        if chunks[itE - 1].end > end {
          end := chunks[itE - 1].end;
        }
      }
      MergeChunks(chunks, it, itE, addr, addrE, Chunk(start, end));
      chunks' := chunks[..it] + [Chunk(start, end)] + chunks[itE..];
      assert Inside(init, width, chunks'[it]);
      MergeKeepsAllInside(chunks, it, itE, Chunk(start, end), indexed, width);
    }

    /** The chunks before itE are searched downwards for the first that reaches addr. */
    static method FirstTouching(chunks: seq<Chunk>, itE: nat, addr: int) returns (it: nat)
      requires Apart(chunks) && itE <= |chunks|
      ensures it <= itE && forall k | it <= k < itE :: chunks[k].end >= addr
      ensures forall k | 0 <= k < it :: chunks[k].end < addr
    {
      it := itE;
      while it != 0 && chunks[it - 1].end >= addr
        invariant 0 <= it <= itE
        invariant forall k | it <= k < itE :: chunks[k].end >= addr
      {
        it := it - 1;
      }
      forall k | 0 <= k < it ensures chunks[k].end < addr {
        if k < it - 1 { assert chunks[k].end < chunks[it - 1].start; }
      }
    }

    /** A chunk with one init: its disabled bits become undefined, and all are enabled. */
    method EnableAll(c: Chunk, k: nat)
      requires Valid() && k < |inits| && Members(inits, width, c, [k])
      modifies this
      ensures Valid() && |inits| == |old(inits)|
      ensures forall i: nat | i < |inits| && i != k :: inits[i] == old(inits)[i]
      ensures !inits[k].removed && Inside(inits[k], width, c) && FullyOnes(inits[k].en)
      ensures forall a, j: nat | j < width :: Image(inits, width, a, j) == Image(old(inits), width, a, j)
    {
      var init := inits[k];
      assert k in [k];
      if !FullyOnes(init.en) {
        var data := init.data;
        for i := 0 to |init.data|
          invariant |data| == |init.data|
          invariant forall f | 0 <= f < |data| ::
                      data[f] == if f < i && init.en[f % width] != S1 then Sx else init.data[f]
        {
          if init.en[i % width] != S1 {
            data := data[i := Sx];
          }
        }
        ghost var s0 := inits;
        inits := inits[k := init.(data := data, en := seq(width, _ => S1))];
        forall a, j: nat | j < width ensures Image(inits, width, a, j) == Image(s0, width, a, j) {
          EnabledImage(s0, inits, width, c, k, a, j);
        }
      }
    }

    /** Removes the members of a chunk and gathers their words. */
    method GatherInits(c: Chunk, members: seq<nat>) returns (cdata: seq<State>)
      requires Valid() && Members(inits, width, c, members)
      modifies this
      ensures Valid() && Gathered(old(inits), inits, cdata, width, c, members)
    {
      ghost var s0 := inits;
      cdata := seq(Times(c.end - c.start, width), _ => Sx);
      for t := 0 to |members|
        invariant Valid() && Gathered(s0, inits, cdata, width, c, members[..t])
      {
        var idx := members[t];
        ghost var s1, cdata1 := inits, cdata;
        GatherNext(s0, inits, cdata, width, c, members, t);
        var init := inits[idx];
        cdata := WriteBits(cdata, IntTimes(init.addr - c.start, width), init.data, init.en);
        inits := inits[idx := init.(removed := true)];
        GatherOne(s0, s1, cdata1, width, c, members, t, inits, cdata);
      }
      assert members[..|members|] == members;
    }

    /** A chunk with several inits: they are removed, and one new init holds their image. */
    method MergeInits(c: Chunk, members: seq<nat>)
      requires Valid() && Members(inits, width, c, members)
      modifies this
      ensures Valid() && |inits| == |old(inits)| + 1
      ensures Retired(old(inits), inits[..|old(inits)|], members)
      ensures var last := inits[|old(inits)|]; !last.removed && Inside(last, width, c) && FullyOnes(last.en)
      ensures forall a, j: nat | j < width :: Image(inits, width, a, j) == Image(old(inits), width, a, j)
    {
      ghost var s0 := inits;
      var cdata := GatherInits(c, members);
      Exact(c.end - c.start, width);
      ghost var s1 := inits;
      var newInit := MemInit(c.start, cdata, seq(width, _ => S1), false);
      inits := inits + [newInit];
      forall a, j: nat | j < width ensures Image(inits, width, a, j) == Image(s0, width, a, j) {
        MergedImage(s0, s1, width, c, members, newInit, a, j);
      }
    }

    /** The body of the loop over chunks. */
    method ProcessChunk(c: Chunk, members: seq<nat>)
      requires Valid() && |members| > 0 && Members(inits, width, c, members)
      modifies this
      ensures Valid() && Processed(old(inits), inits, width, c, members)
      ensures forall a, j: nat | j < width :: Image(inits, width, a, j) == Image(old(inits), width, a, j)
    {
      if |members| == 1 {
        assert members == [members[0]];
        EnableAll(c, members[0]);
        assert SoleLive(inits, width, c, members[0]);
      } else {
        MergeInits(c, members);
        assert SoleLive(inits, width, c, |old(inits)|);
      }
    }

    /** Files every live init under the start of its chunk; `order` is the order in which chunks were first met. */
    method GroupInits(chunks: seq<Chunk>) returns (order: seq<int>, byChunk: map<int, seq<nat>>)
      requires Valid() && Apart(chunks)
      requires forall i | 0 <= i < |inits| && !inits[i].removed :: InsideOne(inits[i], width, chunks)
      ensures GroupedUpTo(inits, width, chunks, order, byChunk, |inits|)
    {
      order, byChunk := [], map[];
      for i := 0 to |inits|
        invariant GroupedUpTo(inits, width, chunks, order, byChunk, i)
      {
        order, byChunk := FileInit(chunks, order, byChunk, i);
      }
    }

    method FileInit(chunks: seq<Chunk>, order: seq<int>, byChunk: map<int, seq<nat>>, i: nat)
      returns (order': seq<int>, byChunk': map<int, seq<nat>>)
      requires Valid() && Apart(chunks) && i < |inits| && (inits[i].removed || InsideOne(inits[i], width, chunks))
      requires GroupedUpTo(inits, width, chunks, order, byChunk, i)
      ensures GroupedUpTo(inits, width, chunks, order', byChunk', i + 1)
    {
      order', byChunk' := order, byChunk;
      if !inits[i].removed {
        FoundChunk(chunks, inits[i], width);
        var it := UpperBound(chunks, inits[i].addr) - 1;
        order', byChunk' := Met(order, byChunk, chunks[it].start), Filed(byChunk, chunks[it].start, i);
        GroupStep(inits, width, chunks, order, byChunk, i, it);
      } else {
        GroupSkip(inits, width, chunks, order, byChunk, i);
      }
    }

    /**
     * Coalesces inits: the image stays what it was, every remaining init
     * enables all bits, and no two of them overlap or touch.
     */
    method CoalesceInits()
      requires Valid()
      modifies this
      ensures Valid()
      ensures forall a, j: nat | j < width :: Image(inits, width, a, j) == Image(old(inits), width, a, j)
      ensures forall i, j | 0 <= i < |inits| && !inits[i].removed && 0 <= j < |inits[i].en| :: inits[i].en[j] == S1
      ensures forall i, k | 0 <= i < k < |inits| && !inits[i].removed && !inits[k].removed ::
                EndAddr(inits[i], width) < inits[k].addr || EndAddr(inits[k], width) < inits[i].addr
    {
      var chunks := FindChunks();
      ghost var s0 := inits;
      forall a, j: nat | j < width ensures Image(s0, width, a, j) == Image(old(inits), width, a, j) {
        SameContribs(s0, old(inits), width, a, j);
      }
      var order, byChunk := GroupInits(chunks);
      ReadyAtStart(s0, width, chunks, order, byChunk);
      var t := |order|;
      while t != 0
        invariant 0 <= t <= |order| && Valid()
        invariant Ready(inits, width, chunks, order, byChunk, t)
        invariant forall a, j: nat | j < width :: Image(inits, width, a, j) == Image(s0, width, a, j)
      {
        t := t - 1;
        ghost var s1 := inits;
        ReadyPick(s1, width, chunks, order, byChunk, t);
        var caddr := order[t];
        var c := ChunkAt(chunks, caddr);
        ProcessChunk(c, byChunk[caddr]);
        ReadyStep(s1, inits, width, chunks, order, byChunk, t);
      }
      ReadyAtEnd(inits, width, chunks, order, byChunk);
    }
  }

  // ------------------------------------------------ the loops over chunks

  /** The live inits inside chunk c, by position; the others stay clear of its addresses. */
  ghost predicate Members(s: seq<MemInit>, w: nat, c: Chunk, members: seq<nat>)
    requires GoodInits(s, w)
  {
    && c.start <= c.end && Increasing(members, |s|)
    && (forall i: nat | i < |s| :: i in members <==> !s[i].removed && Inside(s[i], w, c))
    && (forall i: nat, a | i < |s| && i !in members && !s[i].removed && c.start <= a < c.end :: !Covers(s[i], w, a))
  }

  /** Position k is the only live init inside c, and enables every bit. */
  ghost predicate SoleLive(s: seq<MemInit>, w: nat, c: Chunk, k: nat)
    requires w > 0
  {
    && k < |s| && !s[k].removed && Inside(s[k], w, c) && FullyOnes(s[k].en)
    && forall i: nat | i < |s| && !s[i].removed && Inside(s[i], w, c) :: i == k
  }

  ghost predicate Processed(s: seq<MemInit>, s': seq<MemInit>, w: nat, c: Chunk, members: seq<nat>)
    requires GoodInits(s, w)
  {
    && |s| <= |s'|
    && (forall i: nat | i < |s| && i !in members :: s'[i] == s[i])
    && (forall i: nat | i < |s'| && (i in members || i >= |s|) && !s'[i].removed :: Inside(s'[i], w, c))
    && (exists k :: SoleLive(s', w, c, k))
  }

  lemma {:induction false} InsideOnlyOne(chunks: seq<Chunk>, w: nat, init: MemInit, k: nat, m: nat)
    requires w > 0 && Apart(chunks) && k < |chunks| && m < |chunks|
    requires Inside(init, w, chunks[k]) && Inside(init, w, chunks[m])
    ensures k == m
  {
  }

  ghost predicate GroupUpTo(s: seq<MemInit>, w: nat, c: Chunk, members: seq<nat>, n: nat)
    requires w > 0 && n <= |s|
  {
    && Increasing(members, n) && |members| > 0
    && forall i: nat | i < n :: i in members <==> !s[i].removed && Inside(s[i], w, c)
  }

  /** The groups of the first n inits. */
  ghost predicate GroupedUpTo(s: seq<MemInit>, w: nat, chunks: seq<Chunk>, order: seq<int>, byChunk: map<int, seq<nat>>, n: nat)
    requires w > 0
  {
    && n <= |s|
    && (forall p, q | 0 <= p < q < |order| :: order[p] != order[q])
    && (forall key :: key in byChunk <==> key in order)
    && (forall key | key in byChunk :: StartsChunk(chunks, key) && GroupUpTo(s, w, ChunkAt(chunks, key), byChunk[key], n))
    && (forall i, k | 0 <= i < n && 0 <= k < |chunks| && !s[i].removed && Inside(s[i], w, chunks[k]) :: chunks[k].start in byChunk)
  }

  /** `dict::operator[]` on the groups, then `push_back`. */
  function Filed(byChunk: map<int, seq<nat>>, key: int, i: nat): map<int, seq<nat>> {
    byChunk[key := (if key in byChunk then byChunk[key] else []) + [i]]
  }

  function Met(order: seq<int>, byChunk: map<int, seq<nat>>, key: int): seq<int> {
    if key in byChunk then order else order + [key]
  }

  /** The chunk that starts at `key`. */
  function ChunkAt(chunks: seq<Chunk>, key: int): Chunk {
    var u := UpperBound(chunks, key);
    if u > 0 then chunks[u - 1] else Chunk(key, key)
  }

  lemma {:induction false} ChunkAtStart(chunks: seq<Chunk>, k: nat)
    requires Apart(chunks) && k < |chunks|
    ensures ChunkAt(chunks, chunks[k].start) == chunks[k]
  {
    var u := UpperBound(chunks, chunks[k].start);
    assert k < u;
    var last := chunks[u - 1];
  }

  ghost predicate StartsChunk(chunks: seq<Chunk>, key: int) {
    exists k :: 0 <= k < |chunks| && chunks[k].start == key
  }

  lemma {:induction false} GroupStep(s: seq<MemInit>, w: nat, chunks: seq<Chunk>, order: seq<int>,
                                     byChunk: map<int, seq<nat>>, n: nat, it: nat)
    requires w > 0 && Apart(chunks) && GroupedUpTo(s, w, chunks, order, byChunk, n)
    requires n < |s| && !s[n].removed && it < |chunks| && Inside(s[n], w, chunks[it])
    ensures var key := chunks[it].start;
            GroupedUpTo(s, w, chunks, Met(order, byChunk, key), Filed(byChunk, key, n), n + 1)
  {
    var key := chunks[it].start;
    var byChunk' := Filed(byChunk, key, n);
    MetKeys(order, byChunk, key, n);
    forall x | x in byChunk' ensures StartsChunk(chunks, x) && GroupUpTo(s, w, ChunkAt(chunks, x), byChunk'[x], n + 1) {
      if x == key {
        assert StartsChunk(chunks, key);
        ChunkAtStart(chunks, it);
        GroupGrows(s, w, chunks, byChunk, n, it);
      } else {
        GroupStays(s, w, chunks, byChunk[x], n, it, x);
      }
    }
    forall i, k | 0 <= i < n + 1 && 0 <= k < |chunks| && !s[i].removed && Inside(s[i], w, chunks[k])
      ensures chunks[k].start in byChunk'
    {
      if i == n { InsideOnlyOne(chunks, w, s[n], k, it); }
    }
  }

  lemma {:induction false} MetKeys(order: seq<int>, byChunk: map<int, seq<nat>>, key: int, n: nat)
    requires forall x :: x in byChunk <==> x in order
    requires forall p, q | 0 <= p < q < |order| :: order[p] != order[q]
    ensures forall x :: x in Filed(byChunk, key, n) <==> x in Met(order, byChunk, key)
    ensures var order' := Met(order, byChunk, key); forall p, q | 0 <= p < q < |order'| :: order'[p] != order'[q]
  {
    assert forall x :: x in Met(order, byChunk, key) <==> x in order || x == key;
  }

  /** An init of chunk number `it` does not belong to another chunk's group. */
  lemma {:induction false} GroupStays(s: seq<MemInit>, w: nat, chunks: seq<Chunk>, members: seq<nat>, n: nat, it: nat, x: int)
    requires w > 0 && Apart(chunks) && n < |s| && it < |chunks| && Inside(s[n], w, chunks[it])
    requires StartsChunk(chunks, x) && x != chunks[it].start && GroupUpTo(s, w, ChunkAt(chunks, x), members, n)
    ensures GroupUpTo(s, w, ChunkAt(chunks, x), members, n + 1)
  {
    var k :| 0 <= k < |chunks| && chunks[k].start == x;
    ChunkAtStart(chunks, k);
    if Inside(s[n], w, chunks[k]) {
      InsideOnlyOne(chunks, w, s[n], k, it);
    }
  }

  lemma {:induction false} GroupGrows(s: seq<MemInit>, w: nat, chunks: seq<Chunk>, byChunk: map<int, seq<nat>>, n: nat, it: nat)
    requires w > 0 && n < |s| && !s[n].removed && it < |chunks| && Inside(s[n], w, chunks[it])
    requires chunks[it].start in byChunk ==> GroupUpTo(s, w, chunks[it], byChunk[chunks[it].start], n)
    requires chunks[it].start !in byChunk ==> forall i: nat | i < n && !s[i].removed :: !Inside(s[i], w, chunks[it])
    ensures GroupUpTo(s, w, chunks[it], (if chunks[it].start in byChunk then byChunk[chunks[it].start] else []) + [n], n + 1)
  {
    var old' := if chunks[it].start in byChunk then byChunk[chunks[it].start] else [];
    forall i ensures i in old' + [n] <==> i in old' || i == n { }
  }

  lemma {:induction false} GroupSkip(s: seq<MemInit>, w: nat, chunks: seq<Chunk>, order: seq<int>,
                                     byChunk: map<int, seq<nat>>, n: nat)
    requires w > 0 && GroupedUpTo(s, w, chunks, order, byChunk, n) && n < |s| && s[n].removed
    ensures GroupedUpTo(s, w, chunks, order, byChunk, n + 1)
  {
    forall key | key in byChunk ensures GroupUpTo(s, w, ChunkAt(chunks, key), byChunk[key], n + 1) {
      assert GroupUpTo(s, w, ChunkAt(chunks, key), byChunk[key], n);
    }
  }

  /** Chunks order[..t] are still to be processed, the others are settled. */
  ghost predicate Ready(s: seq<MemInit>, w: nat, chunks: seq<Chunk>, order: seq<int>, byChunk: map<int, seq<nat>>, t: nat)
  {
    && GoodInits(s, w) && Apart(chunks) && t <= |order|
    && (forall p, q | 0 <= p < q < |order| :: order[p] != order[q])
    && (forall p | 0 <= p < |order| :: order[p] in byChunk && StartsChunk(chunks, order[p]))
    && (forall i | 0 <= i < |s| && !s[i].removed :: InsideListed(s[i], w, chunks, order))
    && (forall p | 0 <= p < t :: |byChunk[order[p]]| > 0 && Members(s, w, ChunkAt(chunks, order[p]), byChunk[order[p]]))
    && (forall p | t <= p < |order| :: HasSole(s, w, ChunkAt(chunks, order[p])))
  }

  ghost predicate InsideListed(init: MemInit, w: nat, chunks: seq<Chunk>, order: seq<int>)
    requires w > 0
  {
    exists p :: 0 <= p < |order| && Inside(init, w, ChunkAt(chunks, order[p]))
  }

  ghost predicate HasSole(s: seq<MemInit>, w: nat, c: Chunk)
    requires w > 0
  {
    exists k :: SoleLive(s, w, c, k)
  }

  /** Distinct listed chunks have nothing in common. */
  lemma {:induction false} ListedApart(chunks: seq<Chunk>, order: seq<int>, p: nat, q: nat)
    requires Apart(chunks) && p < |order| && q < |order| && order[p] != order[q]
    requires StartsChunk(chunks, order[p]) && StartsChunk(chunks, order[q])
    ensures var c, d := ChunkAt(chunks, order[p]), ChunkAt(chunks, order[q]);
            c.start <= c.end && d.start <= d.end && (c.end < d.start || d.end < c.start)
  {
    var k :| 0 <= k < |chunks| && chunks[k].start == order[p];
    var m :| 0 <= m < |chunks| && chunks[m].start == order[q];
    ChunkAtStart(chunks, k);
    ChunkAtStart(chunks, m);
  }

  lemma {:induction false} GroupIsMembers(s: seq<MemInit>, w: nat, chunks: seq<Chunk>, key: int, members: seq<nat>)
    requires GoodInits(s, w) && Apart(chunks) && StartsChunk(chunks, key)
    requires GroupUpTo(s, w, ChunkAt(chunks, key), members, |s|)
    requires forall i | 0 <= i < |s| && !s[i].removed :: InsideOne(s[i], w, chunks)
    ensures Members(s, w, ChunkAt(chunks, key), members)
  {
    var k :| 0 <= k < |chunks| && chunks[k].start == key;
    ChunkAtStart(chunks, k);
    var c := chunks[k];
    forall i: nat, a | i < |s| && i !in members && !s[i].removed && c.start <= a < c.end ensures !Covers(s[i], w, a) {
      var m :| 0 <= m < |chunks| && Inside(s[i], w, chunks[m]);
    }
  }

  lemma {:induction false} ReadyAtStart(s: seq<MemInit>, w: nat, chunks: seq<Chunk>, order: seq<int>, byChunk: map<int, seq<nat>>)
    requires GoodInits(s, w) && Apart(chunks) && GroupedUpTo(s, w, chunks, order, byChunk, |s|)
    requires forall i | 0 <= i < |s| && !s[i].removed :: InsideOne(s[i], w, chunks)
    ensures Ready(s, w, chunks, order, byChunk, |order|)
  {
    forall i | 0 <= i < |s| && !s[i].removed ensures InsideListed(s[i], w, chunks, order) {
      var k :| 0 <= k < |chunks| && Inside(s[i], w, chunks[k]);
      assert chunks[k].start in order;
      var p :| 0 <= p < |order| && order[p] == chunks[k].start;
      ChunkAtStart(chunks, k);
    }
    forall p | 0 <= p < |order|
      ensures order[p] in byChunk && |byChunk[order[p]]| > 0
      ensures Members(s, w, ChunkAt(chunks, order[p]), byChunk[order[p]])
    {
      assert order[p] in order;
      GroupIsMembers(s, w, chunks, order[p], byChunk[order[p]]);
    }
  }

  lemma {:induction false} ReadyPick(s: seq<MemInit>, w: nat, chunks: seq<Chunk>, order: seq<int>, byChunk: map<int, seq<nat>>, t: nat)
    requires t < |order| && Ready(s, w, chunks, order, byChunk, t + 1)
    ensures order[t] in byChunk && |byChunk[order[t]]| > 0
    ensures Members(s, w, ChunkAt(chunks, order[t]), byChunk[order[t]])
  {
  }

  /** Processing one chunk leaves the inits of every chunk apart from it alone. */
  lemma {:induction false} ElsewhereSame(s: seq<MemInit>, s': seq<MemInit>, w: nat, c: Chunk, members: seq<nat>, d: Chunk, i: nat)
    requires GoodInits(s, w) && Members(s, w, c, members) && Processed(s, s', w, c, members)
    requires d.start <= d.end && (c.end < d.start || d.end < c.start) && i < |s'|
    ensures !s'[i].removed && Inside(s'[i], w, d) ==> i < |s| && s'[i] == s[i]
    ensures i < |s| && !s[i].removed && Inside(s[i], w, d) ==> s'[i] == s[i]
  {
  }

  lemma {:induction false} MembersElsewhere(s: seq<MemInit>, s': seq<MemInit>, w: nat, c: Chunk, members: seq<nat>, d: Chunk, others: seq<nat>)
    requires GoodInits(s, w) && GoodInits(s', w) && Members(s, w, c, members) && Processed(s, s', w, c, members)
    requires c.end < d.start || d.end < c.start
    requires Members(s, w, d, others)
    ensures Members(s', w, d, others)
  {
    forall i: nat | i < |s'| ensures i in others <==> !s'[i].removed && Inside(s'[i], w, d) {
      ElsewhereSame(s, s', w, c, members, d, i);
    }
    forall i: nat, a | i < |s'| && i !in others && !s'[i].removed && d.start <= a < d.end ensures !Covers(s'[i], w, a) {
      if i < |s| && i !in members {
        assert s'[i] == s[i];
      } else {
        assert Inside(s'[i], w, c);
      }
    }
  }

  lemma {:induction false} SoleElsewhere(s: seq<MemInit>, s': seq<MemInit>, w: nat, c: Chunk, members: seq<nat>, d: Chunk)
    requires GoodInits(s, w) && Members(s, w, c, members) && Processed(s, s', w, c, members)
    requires d.start <= d.end && (c.end < d.start || d.end < c.start)
    requires HasSole(s, w, d)
    ensures HasSole(s', w, d)
  {
    var k :| SoleLive(s, w, d, k);
    ElsewhereSame(s, s', w, c, members, d, k);
    forall i: nat | i < |s'| && !s'[i].removed && Inside(s'[i], w, d) ensures i == k {
      ElsewhereSame(s, s', w, c, members, d, i);
    }
    assert SoleLive(s', w, d, k);
  }

  lemma {:induction false} ReadyStep(s: seq<MemInit>, s': seq<MemInit>, w: nat, chunks: seq<Chunk>, order: seq<int>,
                                     byChunk: map<int, seq<nat>>, t: nat)
    requires t < |order| && Ready(s, w, chunks, order, byChunk, t + 1) && GoodInits(s', w)
    requires Processed(s, s', w, ChunkAt(chunks, order[t]), byChunk[order[t]])
    ensures Ready(s', w, chunks, order, byChunk, t)
  {
    var c := ChunkAt(chunks, order[t]);
    forall i | 0 <= i < |s'| && !s'[i].removed ensures InsideListed(s'[i], w, chunks, order) {
      if i < |s| && i !in byChunk[order[t]] {
        assert s'[i] == s[i];
      } else {
        assert Inside(s'[i], w, c);
      }
    }
    forall p | 0 <= p < t ensures |byChunk[order[p]]| > 0 && Members(s', w, ChunkAt(chunks, order[p]), byChunk[order[p]]) {
      ListedApart(chunks, order, t, p);
      MembersElsewhere(s, s', w, c, byChunk[order[t]], ChunkAt(chunks, order[p]), byChunk[order[p]]);
    }
    forall p | t <= p < |order| ensures HasSole(s', w, ChunkAt(chunks, order[p])) {
      if p > t {
        ListedApart(chunks, order, t, p);
        SoleElsewhere(s, s', w, c, byChunk[order[t]], ChunkAt(chunks, order[p]));
      }
    }
  }

  lemma {:induction false} ReadyAtEnd(s: seq<MemInit>, w: nat, chunks: seq<Chunk>, order: seq<int>, byChunk: map<int, seq<nat>>)
    requires Ready(s, w, chunks, order, byChunk, 0)
    ensures forall i | 0 <= i < |s| && !s[i].removed :: FullyOnes(s[i].en)
    ensures forall i, k | 0 <= i < k < |s| && !s[i].removed && !s[k].removed ::
              EndAddr(s[i], w) < s[k].addr || EndAddr(s[k], w) < s[i].addr
  {
    forall i | 0 <= i < |s| && !s[i].removed ensures FullyOnes(s[i].en) {
      var p :| 0 <= p < |order| && Inside(s[i], w, ChunkAt(chunks, order[p]));
      var m :| SoleLive(s, w, ChunkAt(chunks, order[p]), m);
    }
    forall i, k | 0 <= i < k < |s| && !s[i].removed && !s[k].removed
      ensures EndAddr(s[i], w) < s[k].addr || EndAddr(s[k], w) < s[i].addr
    {
      ApartAtEnd(s, w, chunks, order, byChunk, i, k);
    }
  }

  /** Each chunk has one live init, and the chunks do not touch. */
  lemma {:induction false} ApartAtEnd(s: seq<MemInit>, w: nat, chunks: seq<Chunk>, order: seq<int>, byChunk: map<int, seq<nat>>, i: nat, k: nat)
    requires Ready(s, w, chunks, order, byChunk, 0) && i < k < |s| && !s[i].removed && !s[k].removed
    ensures EndAddr(s[i], w) < s[k].addr || EndAddr(s[k], w) < s[i].addr
  {
    var p :| 0 <= p < |order| && Inside(s[i], w, ChunkAt(chunks, order[p]));
    var q :| 0 <= q < |order| && Inside(s[k], w, ChunkAt(chunks, order[q]));
    var m :| SoleLive(s, w, ChunkAt(chunks, order[p]), m);
    assert p != q;
    ListedApart(chunks, order, p, q);
  }

  /** s' is s with the inits at the given positions marked removed. */
  ghost predicate Retired(s: seq<MemInit>, s': seq<MemInit>, idxs: seq<nat>) {
    && |s'| == |s|
    && forall i: nat | i < |s| :: s'[i] == if i in idxs then s[i].(removed := true) else s[i]
  }

  lemma {:induction false} RetireOne(s: seq<MemInit>, s': seq<MemInit>, idxs: seq<nat>, t: nat)
    requires Increasing(idxs, |s|) && t < |idxs| && Retired(s, s', idxs[..t])
    ensures s'[idxs[t]] == s[idxs[t]]
    ensures Retired(s, s'[idxs[t] := s[idxs[t]].(removed := true)], idxs[..t + 1])
    ensures Pick(s, idxs[..t + 1]) == Pick(s, idxs[..t]) + [s[idxs[t]]]
  {
    assert idxs[..t + 1] == idxs[..t] + [idxs[t]];
    assert idxs[t] !in idxs[..t];
  }

  /** The inits at the given positions are retired and their image is in `cdata`. */
  ghost predicate Gathered(s: seq<MemInit>, s': seq<MemInit>, cdata: seq<State>, w: nat, c: Chunk, idxs: seq<nat>)
    requires GoodInits(s, w) && c.start <= c.end && forall p | 0 <= p < |idxs| :: idxs[p] < |s|
  {
    Retired(s, s', idxs) && HoldsImage(cdata, w, c.start, c.end - c.start, Pick(s, idxs))
  }

  lemma {:induction false} GatherNext(s: seq<MemInit>, s': seq<MemInit>, cdata: seq<State>, w: nat, c: Chunk, idxs: seq<nat>, t: nat)
    requires GoodInits(s, w) && c.start <= c.end && Increasing(idxs, |s|) && t < |idxs|
    requires Gathered(s, s', cdata, w, c, idxs[..t])
    ensures idxs[t] < |s'| && s'[idxs[t]] == s[idxs[t]]
  {
    RetireOne(s, s', idxs, t);
  }

  lemma {:induction false} GatherOne(s: seq<MemInit>, s1: seq<MemInit>, cdata1: seq<State>, w: nat, c: Chunk, idxs: seq<nat>, t: nat,
                                     s2: seq<MemInit>, cdata2: seq<State>)
    requires GoodInits(s, w) && c.start <= c.end && Increasing(idxs, |s|) && t < |idxs| && !s[idxs[t]].removed
    requires Gathered(s, s1, cdata1, w, c, idxs[..t])
    requires idxs[t] < |s1| && s2 == s1[idxs[t] := s[idxs[t]].(removed := true)]
    requires cdata2 == Overlay(cdata1, IntTimes(s[idxs[t]].addr - c.start, w), s[idxs[t]].data, s[idxs[t]].en)
    ensures Gathered(s, s2, cdata2, w, c, idxs[..t + 1])
  {
    RetireOne(s, s1, idxs, t);
    HoldsImageStep(cdata1, w, c.start, c.end - c.start, Pick(s, idxs[..t]), s[idxs[t]]);
  }

  lemma {:induction false} EnabledImage(s: seq<MemInit>, s': seq<MemInit>, w: nat, c: Chunk, k: nat, a: int, j: nat)
    requires GoodInits(s, w) && GoodInits(s', w) && j < w && k < |s| == |s'|
    requires !s[k].removed && Inside(s[k], w, c)
    requires forall i: nat | i < |s| && i != k && !s[i].removed && c.start <= a < c.end :: !Covers(s[i], w, a)
    requires forall i | 0 <= i < |s| && i != k :: s'[i] == s[i]
    requires s'[k].addr == s[k].addr && |s'[k].data| == |s[k].data| && !s'[k].removed && FullyOnes(s'[k].en)
    requires forall f | 0 <= f < |s[k].data| :: s'[k].data[f] == if s[k].en[f % w] != S1 then Sx else s[k].data[f]
    ensures Image(s', w, a, j) == Image(s, w, a, j)
  {
    if c.start <= a < c.end {
      EnabledContrib(s[k], s'[k], w, a, j);
      OnlyContrib(s, w, a, j, k);
      OnlyContrib(s', w, a, j, k);
    } else {
      SameContribs(s, s', w, a, j);
    }
  }

  lemma {:induction false} EnabledContrib(init: MemInit, init': MemInit, w: nat, a: int, j: nat)
    requires GoodInit(init, w) && GoodInit(init', w) && j < w && !init.removed && !init'.removed
    requires init'.addr == init.addr && |init'.data| == |init.data| && FullyOnes(init'.en)
    requires forall f | 0 <= f < |init.data| :: init'.data[f] == if init.en[f % w] != S1 then Sx else init.data[f]
    ensures !Covers(init, w, a) ==> Contrib(init', w, a, j) == Contrib(init, w, a, j) == None
    ensures Covers(init, w, a) ==>
              Contrib(init', w, a, j) == Some(match Contrib(init, w, a, j) case Some(v) => v case None => Sx)
  {
    if Covers(init, w, a) {
      FlatIndex(init, w, a, j);
      ModOfTimes(a - init.addr, w, j);
    }
  }

  lemma {:induction false} MergedImage(s: seq<MemInit>, s': seq<MemInit>, w: nat, c: Chunk, members: seq<nat>, newInit: MemInit, a: int, j: nat)
    requires GoodInits(s, w) && GoodInits(s', w) && j < w && c.start <= c.end
    requires Increasing(members, |s|)
    requires Retired(s, s', members) && forall i: nat | i in members :: i < |s| && Inside(s[i], w, c)
    requires forall i: nat | i < |s| && i !in members && !s[i].removed && c.start <= a < c.end :: !Covers(s[i], w, a)
    requires HoldsImage(newInit.data, w, c.start, c.end - c.start, Pick(s, members))
    requires GoodInit(newInit, w) && newInit.addr == c.start && !newInit.removed && FullyOnes(newInit.en)
    requires Words(newInit, w) == c.end - c.start
    ensures GoodInits(s' + [newInit], w) && Image(s' + [newInit], w, a, j) == Image(s, w, a, j)
  {
    var t := s' + [newInit];
    assert t[..|s'|] == s';
    if c.start <= a < c.end {
      FlatIndex(newInit, w, a, j);
      assert BitAt(newInit.data, w, c.start, a, j) == Image(Pick(s, members), w, a, j);
      assert OthersSilent(s, members, w, a, j);
      PickKeepsImage(s, members, w, a, j);
    } else {
      SameContribs(s', s, w, a, j);
    }
  }
}
