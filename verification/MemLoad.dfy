/** Building a `MemContents` from the initial values of a `Mem`. */
module MemLoad {
  import opened Rtlil
  import opened Wrappers
  import opened Multiples
  import opened MemInits
  import MC = MemContents
  import B = Bits

  /** Bit j of the word at address a: the stored one, or that of the default. */
  ghost function BitOf(m: MC.MemContents, a: int, j: nat): State
    requires m.Valid() && j < m.dataWidth
    reads m
  {
    match m.Word(a)
    case Some(word) => word[j]
    case None => m.defaultValue[j]
  }

  /** The constructor does not look at the `removed` mark. */
  function Revived(inits: seq<MemInit>): (r: seq<MemInit>)
    ensures |r| == |inits| && forall i | 0 <= i < |inits| :: r[i] == inits[i].(removed := false)
  {
    seq(|inits|, i requires 0 <= i < |inits| => inits[i].(removed := false))
  }

  predicate FullyZero(en: seq<State>) {
    forall j :: 0 <= j < |en| ==> en[j] == S0
  }

  /** What `insert_concatenated` requires: at least one word, inside the address space. */
  predicate Insertable(init: MemInit, w: nat, limit: nat) {
    GoodInit(init, w) && |init.data| > 0 && 0 <= init.addr && EndAddr(init, w) <= limit
  }

  /** Word k of `data` with its disabled bits taken from `previous`. */
  method PatchWord(data: seq<State>, w: nat, k: nat, en: seq<State>, previous: seq<State>) returns (r: seq<State>)
    requires |en| == |previous| == w && Times(k, w) + w <= |data|
    ensures |r| == |data|
    ensures forall f | 0 <= f < |data| ::
              r[f] == if Times(k, w) <= f < Times(k, w) + w && en[f - Times(k, w)] != S1 then previous[f - Times(k, w)] else data[f]
  {
    r := data;
    for j := 0 to w
      invariant |r| == |data|
      invariant forall f | 0 <= f < |data| ::
                  r[f] == if Times(k, w) <= f < Times(k, w) + j && en[f - Times(k, w)] != S1 then previous[f - Times(k, w)] else data[f]
    {
      if en[j] != S1 {
        r := r[Times(k, w) + j := previous[j]];
      }
    }
  }

  /** Bits of one word are at other positions than bits of another. */
  lemma {:induction false} WordsApart(w: nat, k: nat, m: nat, j: nat)
    requires k != m && j < w
    ensures !(Times(k, w) <= Times(m, w) + j < Times(k, w) + w)
  {
    if k < m {
      Monotone(k + 1, m, w);
    } else {
      Monotone(m + 1, k, w);
    }
  }

  /** Words before k of `data` hold what the init writes over the memory; the others are the init's own. */
  ghost predicate Blended(m: MC.MemContents, init: MemInit, data: seq<State>, k: nat)
    requires m.Valid() && GoodInit(init, m.dataWidth)
    reads m
  {
    && |data| == |init.data|
    && forall a, j: nat {:trigger BitAt(data, m.dataWidth, init.addr, a, j)} | Covers(init, m.dataWidth, a) && j < m.dataWidth ::
         BitAt(data, m.dataWidth, init.addr, a, j) ==
         if a < init.addr + k && init.en[j] != S1 then BitOf(m, a, j) else BitAt(init.data, m.dataWidth, init.addr, a, j)
  }

  lemma {:induction false} BlendStep(m: MC.MemContents, init: MemInit, data: seq<State>, data': seq<State>, k: nat, previous: seq<State>)
    requires m.Valid() && GoodInit(init, m.dataWidth) && k < Words(init, m.dataWidth) && Blended(m, init, data, k)
    requires |previous| == m.dataWidth && forall j: nat | j < m.dataWidth :: previous[j] == BitOf(m, init.addr + k, j)
    requires |data'| == |data|
    requires var at := Times(k, m.dataWidth); forall f | 0 <= f < |data| ::
               data'[f] == if at <= f < at + m.dataWidth && init.en[f - at] != S1 then previous[f - at] else data[f]
    ensures Blended(m, init, data', k + 1)
  {
    var w := m.dataWidth;
    forall a, j: nat | Covers(init, w, a) && j < w
      ensures BitAt(data', w, init.addr, a, j) ==
              if a < init.addr + k + 1 && init.en[j] != S1 then BitOf(m, a, j) else BitAt(init.data, w, init.addr, a, j)
    {
      FlatIndex(init, w, a, j);
      assert BitAt(data, w, init.addr, a, j) == data[Times(a - init.addr, w) + j];
      if a - init.addr != k {
        WordsApart(w, k, a - init.addr, j);
      }
    }
  }

  /** The constant inserted for an init that enables only some bits. */
  method Blend(m: MC.MemContents, init: MemInit) returns (data: seq<State>)
    requires m.Valid() && Insertable(init, m.dataWidth, m.Limit())
    ensures Blended(m, init, data, Words(init, m.dataWidth))
  {
    var w := m.dataWidth;
    data := init.data;
    for k := 0 to Words(init, w)
      invariant Blended(m, init, data, k)
    {
      var previous := m.At(init.addr + k);
      FlatIndex(init, w, init.addr + k, w - 1);
      ghost var data0 := data;
      data := PatchWord(data, w, k, init.en, previous);
      BlendStep(m, init, data0, data, k, previous);
    }
  }

  /** A whole number of words needs no padding. */
  lemma {:induction false} NoPadding(vals: seq<State>, w: nat)
    requires w > 0 && Aligned(|vals|, w)
    ensures MC.WordCount(vals, w) == Quot(|vals|, w)
  {
    MC.PaddingFits(vals, w);
    Whole(|vals|, w);
    var c, q := MC.WordCount(vals, w), Quot(|vals|, w);
    if c > q {
      Monotone(q + 1, c, w);
    } else if c < q {
      Monotone(c + 1, q, w);
    }
  }

  /** The loop body of the constructor: an init overrides exactly the bits it enables. */
  method LoadInit(m: MC.MemContents, init: MemInit)
    requires m.Valid() && Insertable(init, m.dataWidth, m.Limit())
    modifies m
    ensures m.Valid()
    ensures forall a, j: nat | j < m.dataWidth :: BitOf(m, a, j) ==
              match Contrib(init.(removed := false), m.dataWidth, a, j) case Some(v) => v case None => old(BitOf(m, a, j))
  {
    var w := m.dataWidth;
    if FullyZero(init.en) {
      return;
    }
    var data := init.data;
    if !FullyOnes(init.en) {
      data := Blend(m, init);
    }
    assert Blended(m, init, data, Words(init, w));
    NoPadding(data, w);
    m.InsertConcatenated(init.addr, data);
    forall a, j: nat | j < w
      ensures BitOf(m, a, j) ==
              match Contrib(init.(removed := false), w, a, j) case Some(v) => v case None => old(BitOf(m, a, j))
    {
      if Covers(init, w, a) {
        LoadedBit(init, w, data, a, j, old(BitOf(m, a, j)));
      }
    }
  }

  lemma {:induction false} LoadedBit(init: MemInit, w: nat, data: seq<State>, a: int, j: nat, before: State)
    requires GoodInit(init, w) && |data| == |init.data| && Covers(init, w, a) && j < w
    requires BitAt(data, w, init.addr, a, j) == if init.en[j] != S1 then before else BitAt(init.data, w, init.addr, a, j)
    ensures MC.WordOf(data, w, a - init.addr)[j] ==
            match Contrib(init.(removed := false), w, a, j) case Some(v) => v case None => before
  {
    FlatIndex(init, w, a, j);
    var at := Times(a - init.addr, w) + j;
    assert MC.WordOf(data, w, a - init.addr)[j] == data[at] == BitAt(data, w, init.addr, a, j);
  }

  /**
   * `MemContents(Mem*)`: the contents are the image of all inits, removed or
   * not, at their absolute addresses.
   */
  method FromMem(mem: Mem) returns (m: MC.MemContents)
    requires mem.Valid() && 2 <= mem.size && B.CeilLog2(mem.size) < 32
    requires forall i | 0 <= i < |mem.inits| :: Insertable(mem.inits[i], mem.width, B.Pow2(B.CeilLog2(mem.size)))
    ensures fresh(m) && m.Valid() && m.dataWidth == mem.width && m.addrWidth == B.CeilLog2(mem.size)
    ensures forall a, j: nat | j < mem.width :: BitOf(m, a, j) == Image(Revived(mem.inits), mem.width, a, j)
  {
    m := new MC.MemContents(B.CeilLog2(mem.size), mem.width, seq(mem.width, _ => Sx));
    for i := 0 to |mem.inits|
      invariant fresh(m) && m.Valid() && m.dataWidth == mem.width && m.addrWidth == B.CeilLog2(mem.size)
      invariant mem.Valid() && mem.inits == old(mem.inits)
      invariant forall a, j: nat | j < mem.width :: BitOf(m, a, j) == Image(Revived(mem.inits[..i]), mem.width, a, j)
    {
      ghost var before := Revived(mem.inits[..i]);
      assert Revived(mem.inits[..i + 1])[..i] == before;
      LoadInit(m, mem.inits[i]);
    }
    assert mem.inits[..|mem.inits|] == mem.inits;
  }

  // ------------------------------------ when the contents are the init data

  /** What an init would write to bit (a, j) if it were not removed. */
  ghost function WouldWrite(init: MemInit, w: nat, a: int, j: nat): Option<State>
    requires GoodInit(init, w) && j < w
  {
    Contrib(init.(removed := false), w, a, j)
  }

  /** Removed init i shows at bit (a, j): no later init writes there, and the earlier ones leave another value. */
  ghost predicate ExposedBy(inits: seq<MemInit>, w: nat, i: nat, a: int, j: nat)
    requires GoodInits(inits, w) && j < w
  {
    && i < |inits| && inits[i].removed
    && WouldWrite(inits[i], w, a, j).Some? && WouldWrite(inits[i], w, a, j).value != Image(inits[..i], w, a, j)
    && forall k | i < k < |inits| :: WouldWrite(inits[k], w, a, j).None?
  }

  ghost predicate Exposed(inits: seq<MemInit>, w: nat, a: int, j: nat)
    requires GoodInits(inits, w) && j < w
  {
    exists i: nat :: ExposedBy(inits, w, i, a, j)
  }

  /** An init that writes to the bit hides the ones before it. */
  lemma {:induction false} ExposedAfter(front: seq<MemInit>, last: MemInit, w: nat, a: int, j: nat)
    requires GoodInits(front, w) && GoodInit(last, w) && j < w
    ensures GoodInits(front + [last], w)
    ensures WouldWrite(last, w, a, j).Some? ==>
              (Exposed(front + [last], w, a, j) <==> last.removed && WouldWrite(last, w, a, j).value != Image(front, w, a, j))
    ensures WouldWrite(last, w, a, j).None? ==> (Exposed(front + [last], w, a, j) <==> Exposed(front, w, a, j))
  {
    var inits, n := front + [last], |front|;
    assert inits[..n] == front && inits[n] == last;
    if WouldWrite(last, w, a, j).Some? {
      assert ExposedBy(inits, w, n, a, j) <==> last.removed && WouldWrite(last, w, a, j).value != Image(front, w, a, j);
      assert forall i: nat :: ExposedBy(inits, w, i, a, j) ==> i == n;
    } else {
      forall i: nat ensures ExposedBy(inits, w, i, a, j) <==> ExposedBy(front, w, i, a, j) {
        if i < n {
          assert inits[..i] == front[..i];
        }
      }
    }
  }

  /** Reviving the removed inits changes a bit of the image exactly where one of them is exposed. */
  lemma {:induction false} RevivedExactly(inits: seq<MemInit>, w: nat, a: int, j: nat)
    requires GoodInits(inits, w) && j < w
    ensures GoodInits(Revived(inits), w)
    ensures Image(Revived(inits), w, a, j) == Image(inits, w, a, j) <==> !Exposed(inits, w, a, j)
  {
    if inits != [] {
      var n := |inits| - 1;
      var front, last := inits[..n], inits[n];
      assert inits == front + [last] && Revived(inits)[..n] == Revived(front);
      ExposedAfter(front, last, w, a, j);
      RevivedExactly(front, w, a, j);
    }
  }

  /** Some removed init is exposed at word a of the memory. */
  ghost predicate ExposedAt(mem: Mem, a: nat, j: nat)
    requires mem.Valid() && j < mem.width
    reads mem
  {
    Exposed(mem.inits, mem.width, mem.startOffset + a, j)
  }

  /** No removed init is exposed at the addresses the memory has. */
  ghost predicate NoneExposed(mem: Mem)
    requires mem.Valid()
    reads mem
  {
    forall a: nat, j: nat | a < mem.size && j < mem.width :: !ExposedAt(mem, a, j)
  }

  /** The loaded image at address a is the memory's at word a. */
  ghost predicate SameShiftedAt(mem: Mem, a: nat, j: nat)
    requires mem.Valid() && j < mem.width
    reads mem
  {
    Image(Revived(mem.inits), mem.width, a, j) == Image(mem.inits, mem.width, mem.startOffset + a, j)
  }

  /** The loaded image is the memory's, moved by the start offset. */
  ghost predicate SameShifted(mem: Mem)
    requires mem.Valid()
    reads mem
  {
    forall a: nat, j: nat | a < mem.size && j < mem.width :: SameShiftedAt(mem, a, j)
  }

  /** Entry a of the init data is the contents at address a + shift. */
  ghost predicate Agree(m: MC.MemContents, initData: seq<State>, shift: int, a: nat, j: nat)
    requires m.Valid() && j < m.dataWidth
    reads m
  {
    BitOf(m, shift + a, j) == BitAt(initData, m.dataWidth, 0, a, j)
  }

  /** At offset 0 moving changes nothing. */
  lemma {:induction false} UnshiftedAt(mem: Mem, a: nat, j: nat)
    requires mem.Valid() && j < mem.width && mem.startOffset == 0
    ensures SameShiftedAt(mem, a, j) <==> !ExposedAt(mem, a, j)
  {
    RevivedExactly(mem.inits, mem.width, a, j);
  }

  lemma {:induction false} AgreeExactly(mem: Mem, m: MC.MemContents, initData: seq<State>, a: nat, j: nat)
    requires mem.Valid() && m.Valid() && m.dataWidth == mem.width && a < mem.size && j < mem.width
    requires BitOf(m, mem.startOffset + a, j) == Image(Revived(mem.inits), mem.width, mem.startOffset + a, j)
    requires BitOf(m, 0 + a, j) == Image(Revived(mem.inits), mem.width, a, j)
    requires HoldsImage(initData, mem.width, mem.startOffset, mem.size, mem.inits)
    ensures Agree(m, initData, mem.startOffset, a, j) <==> !ExposedAt(mem, a, j)
    ensures Agree(m, initData, 0, a, j) <==> SameShiftedAt(mem, a, j)
  {
    var b := mem.startOffset + a;
    assert ExposedAt(mem, a, j) <==> Image(Revived(mem.inits), mem.width, b, j) != Image(mem.inits, mem.width, b, j) by {
      RevivedExactly(mem.inits, mem.width, b, j);
    }
    assert BitAt(initData, mem.width, 0, a, j) == Image(mem.inits, mem.width, b, j) by {
      assert BitAt(initData, mem.width, mem.startOffset, b, j) == BitAt(initData, mem.width, 0, a, j);
    }
  }

  /**
   * The contents against `get_init_data`, for every start offset.  Address by
   * address they agree at a bit if and only if no removed init is exposed
   * there, and so everywhere if and only if none is exposed at all.  Index by
   * index they agree if and only if the loaded image is the memory's image
   * moved by the start offset; with offset 0 these are the same condition.
   */
  method FromMemIsInitData(mem: Mem) returns (m: MC.MemContents, initData: seq<State>)
    requires mem.Valid() && 2 <= mem.size && B.CeilLog2(mem.size) < 32
    requires forall i | 0 <= i < |mem.inits| :: Insertable(mem.inits[i], mem.width, B.Pow2(B.CeilLog2(mem.size)))
    ensures m.Valid() && m.dataWidth == mem.width && mem.size <= m.Limit()
    ensures forall a: nat, j: nat | a < mem.size && j < mem.width :: Agree(m, initData, mem.startOffset, a, j) <==> !ExposedAt(mem, a, j)
    ensures (forall a: nat, j: nat | a < mem.size && j < mem.width :: Agree(m, initData, mem.startOffset, a, j)) <==> NoneExposed(mem)
    ensures (forall a: nat, j: nat | a < mem.size && j < mem.width :: Agree(m, initData, 0, a, j)) <==> SameShifted(mem)
    ensures mem.startOffset == 0 ==> (SameShifted(mem) <==> NoneExposed(mem))
  {
    B.CeilLog2IsLeast(mem.size);
    m := FromMem(mem);
    initData := mem.GetInitData();
    forall a: nat, j: nat | a < mem.size && j < mem.width
      ensures Agree(m, initData, mem.startOffset, a, j) <==> !ExposedAt(mem, a, j)
      ensures Agree(m, initData, 0, a, j) <==> SameShiftedAt(mem, a, j)
      ensures mem.startOffset == 0 ==> (SameShiftedAt(mem, a, j) <==> !ExposedAt(mem, a, j))
    {
      AgreeExactly(mem, m, initData, a, j);
      if mem.startOffset == 0 {
        UnshiftedAt(mem, a, j);
      }
    }
  }

  /** Without removed inits none is exposed. */
  lemma {:induction false} NoneRemoved(mem: Mem)
    requires mem.Valid() && forall i | 0 <= i < |mem.inits| :: !mem.inits[i].removed
    ensures NoneExposed(mem)
  {
  }

  /** A removed init that is exposed: the contents have a word that the init data does not. */
  method RemovedInitIsLoaded() returns (m: MC.MemContents, initData: seq<State>)
    ensures m.Valid() && m.dataWidth == 1
    ensures BitOf(m, 0, 0) == S1 && BitAt(initData, 1, 0, 0, 0) == Sx
  {
    var init := MemInit(0, [S1], [S1], true);
    assert Times(0, 1) == 0 && Quot(1, 1) == 1 && Aligned(1, 1);
    assert Times(2, 1) == 2 && B.CeilLog2(2) == 1 && B.Pow2(1) == 2;
    var mem := new Mem(1, 0, 2, [init]);
    m := FromMem(mem);
    initData := mem.GetInitData();
    RemovedImage(init);
    assert BitAt(initData, 1, 0, 0, 0) == Image([init], 1, 0, 0);
  }

  lemma {:induction false} RemovedImage(init: MemInit)
    requires init == MemInit(0, [S1], [S1], true)
    ensures GoodInits([init], 1) && GoodInits(Revived([init]), 1)
    ensures Image([init], 1, 0, 0) == Sx && Image(Revived([init]), 1, 0, 0) == S1
  {
    assert Times(0, 1) == 0 && Quot(1, 1) == 1 && Aligned(1, 1);
    NoContribs([init], 1, 0, 0);
    OnlyContrib(Revived([init]), 1, 0, 0, 0);
  }

  /** A start offset that matters: `get_init_data` starts there, the contents at address 0. */
  method OffsetIsIgnored() returns (m: MC.MemContents, initData: seq<State>)
    ensures m.Valid() && m.dataWidth == 1
    ensures BitOf(m, 0, 0) == Sx && BitAt(initData, 1, 0, 0, 0) == S1
  {
    var inits := [MemInit(1, [S1], [S1], false)];
    assert Times(0, 1) == 0 && Quot(1, 1) == 1 && Aligned(1, 1);
    assert Times(2, 1) == 2 && B.CeilLog2(2) == 1 && B.Pow2(1) == 2;
    var mem := new Mem(1, 1, 2, inits);
    assert Revived(inits) == inits && inits[..0] == [];
    assert Contrib(inits[0], 1, 1, 0) == Some(S1) && Contrib(inits[0], 1, 0, 0) == None;
    m := FromMem(mem);
    initData := mem.GetInitData();
    assert BitAt(initData, 1, 1, 1, 0) == Image(inits, 1, 1, 0);
  }
}
