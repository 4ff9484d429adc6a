/**
 * `BitPatternPool`: a set of bit vectors kept as a pool of cubes, from which
 * cubes are taken away.
 *
 * `Take` inserts into and erases from the pool it iterates over.  Iteration
 * runs from the highest index down, an insertion appends, and an erasure moves
 * the last entry into the erased place, so what is still to be visited never
 * moves.
 */
module BitPattern {
  import opened Rtlil
  import opened Hashlib

  type Cube = seq<State>
  type Point = seq<bool>

  predicate Normal(c: Cube) {
    forall i :: 0 <= i < |c| ==> c[i].Defined() || c[i].Sa?
  }

  /** Point pt lies in cube c. */
  predicate Covers(c: Cube, pt: Point) {
    |pt| == |c| && forall i | 0 <= i < |c| && c[i].Defined() :: pt[i] == c[i].S1?
  }

  /** Cube d lies inside cube p. */
  predicate Within(d: Cube, p: Cube) {
    |p| == |d| && forall i | 0 <= i < |d| :: p[i].Sa? || p[i] == d[i]
  }

  predicate Conflict(a: Cube, b: Cube, i: int) {
    0 <= i < |a| && i < |b| && a[i].Defined() && b[i].Defined() && a[i] != b[i]
  }

  predicate Match(a: Cube, b: Cube) {
    forall i | 0 <= i < |a| :: !Conflict(a, b, i)
  }

  ghost predicate InPool(items: seq<(Cube, ())>, pt: Point) {
    exists k :: 0 <= k < |items| && Covers(items[k].0, pt)
  }

  ghost predicate CoveredByPool(items: seq<(Cube, ())>, d: Cube) {
    forall pt | Covers(d, pt) :: InPool(items, pt)
  }

  ghost predicate WithinOne(items: seq<(Cube, ())>, d: Cube) {
    exists k :: 0 <= k < |items| && Within(d, items[k].0)
  }

  /** Whatever cube the pool covers at all, it covers by a single member. */
  ghost predicate Complete(items: seq<(Cube, ())>, width: nat) {
    forall d: Cube | |d| == width && Normal(d) && CoveredByPool(items, d) :: WithinOne(items, d)
  }

  ghost predicate WellFormed(items: seq<(Cube, ())>, width: nat) {
    forall k | 0 <= k < |items| :: |items[k].0| == width && Normal(items[k].0)
  }

  // ---------------------------------------------------------------- cubes

  /** Some point of both cubes, when they do not conflict. */
  ghost function CommonPoint(a: Cube, b: Cube): (pt: Point)
    requires |a| == |b|
    ensures |pt| == |a| && forall i | 0 <= i < |a| :: pt[i] == (a[i].S1? || b[i].S1?)
  {
    seq(|a|, i requires 0 <= i < |a| => a[i].S1? || b[i].S1?)
  }

  lemma {:induction false} MatchIffMeet(a: Cube, b: Cube)
    requires |a| == |b|
    ensures Match(a, b) <==> exists pt :: Covers(a, pt) && Covers(b, pt)
  {
    if Match(a, b) {
      var pt := CommonPoint(a, b);
      forall i | 0 <= i < |a|
        ensures (a[i].Defined() ==> pt[i] == a[i].S1?) && (b[i].Defined() ==> pt[i] == b[i].S1?)
      {
        assert !Conflict(a, b, i);
      }
      assert Covers(a, pt) && Covers(b, pt);
    }
    if pt :| Covers(a, pt) && Covers(b, pt) {
      forall i | 0 <= i < |a| ensures !Conflict(a, b, i) { }
    }
  }

  lemma {:induction false} WithinIffPoints(d: Cube, p: Cube)
    requires |d| == |p| && Normal(d) && Normal(p)
    ensures Within(d, p) <==> forall pt | Covers(d, pt) :: Covers(p, pt)
  {
    if forall pt | Covers(d, pt) :: Covers(p, pt) {
      forall i | 0 <= i < |d| ensures p[i].Sa? || p[i] == d[i] {
        // the point of d that avoids p at bit i, were the two to differ there
        var pt := seq(|d|, j requires 0 <= j < |d| => if j == i && !d[i].Defined() then p[i].S0? else d[j].S1?);
        assert Covers(d, pt);
      }
    }
  }

  /** Bit i can be used to split cube p by cube c: p is free there and c is not. */
  predicate Splits(p: Cube, c: Cube, i: int) {
    0 <= i < |p| && i < |c| && p[i].Sa? && !c[i].Sa?
  }

  /** The part of p that differs from c at bit i. */
  function SplitCube(p: Cube, c: Cube, i: int): Cube
    requires Splits(p, c, i)
  {
    p[i := if c[i].S1? then S0 else S1]
  }

  /** The splits of p cover exactly p without c. */
  lemma {:induction false} SplitsCoverRest(p: Cube, c: Cube, pt: Point)
    requires |p| == |c| && Normal(p) && Normal(c) && Match(p, c)
    ensures Covers(p, pt) && !Covers(c, pt) <==> exists i :: Splits(p, c, i) && Covers(SplitCube(p, c, i), pt)
  {
    if Covers(p, pt) && !Covers(c, pt) {
      var i :| 0 <= i < |c| && c[i].Defined() && pt[i] != c[i].S1?;
      assert !Conflict(p, c, i);
      assert Splits(p, c, i) && Covers(SplitCube(p, c, i), pt);
    }
    if i :| Splits(p, c, i) && Covers(SplitCube(p, c, i), pt) {
      forall j | 0 <= j < |p| && p[j].Defined() ensures pt[j] == p[j].S1? {
        assert SplitCube(p, c, i)[j] == p[j];
      }
      assert SplitCube(p, c, i)[i].Defined();
    }
  }

  lemma {:induction false} SplitAvoids(p: Cube, c: Cube, i: int)
    requires |p| == |c| && Normal(p) && Normal(c) && Splits(p, c, i)
    ensures !Match(SplitCube(p, c, i), c) && Normal(SplitCube(p, c, i))
  {
    assert Conflict(SplitCube(p, c, i), c, i);
  }

  /** A cube inside p that misses c lies inside p itself or inside one of its splits. */
  lemma {:induction false} WithinSplit(p: Cube, c: Cube, d: Cube)
    requires |p| == |c| == |d| && Normal(p) && Normal(c) && Normal(d)
    requires Within(d, p) && Match(p, c) && !Match(d, c)
    ensures exists i :: Splits(p, c, i) && Within(d, SplitCube(p, c, i))
  {
    var i :| 0 <= i < |d| && Conflict(d, c, i);
    assert !Conflict(p, c, i);
    assert Splits(p, c, i) && Within(d, SplitCube(p, c, i));
  }

  lemma {:induction false} WithinByKey(items: seq<(Cube, ())>, c: Cube, d: Cube)
    requires HasKey(items, c) && Within(d, c)
    ensures WithinOne(items, d)
  {
    var k :| 0 <= k < |items| && items[k].0 == c;
    assert Within(d, items[k].0);
  }

  /** Taking c away keeps the pool complete. */
  lemma {:induction false} TakeKeepsComplete(items: seq<(Cube, ())>, items': seq<(Cube, ())>, c: Cube, width: nat)
    requires Complete(items, width) && WellFormed(items, width) && |c| == width && Normal(c)
    requires forall pt | |pt| == width :: InPool(items', pt) <==> InPool(items, pt) && !Covers(c, pt)
    requires forall k | 0 <= k < |items| && !Match(items[k].0, c) :: HasKey(items', items[k].0)
    requires forall k, i | 0 <= k < |items| && Match(items[k].0, c) && Splits(items[k].0, c, i) ::
               HasKey(items', SplitCube(items[k].0, c, i))
    ensures Complete(items', width)
  {
    forall d: Cube | |d| == width && Normal(d) && CoveredByPool(items', d)
      ensures WithinOne(items', d)
    {
      assert CoveredByPool(items, d);
      var k :| 0 <= k < |items| && Within(d, items[k].0);
      var p := items[k].0;
      if Match(p, c) {
        MatchIffMeet(d, c);
        WithinSplit(p, c, d);
        var i :| Splits(p, c, i) && Within(d, SplitCube(p, c, i));
        WithinByKey(items', SplitCube(p, c, i), d);
      } else {
        WithinByKey(items', p, d);
      }
    }
  }

  // ----------------------------------------------------------------- pool

  class BitPatternPool {
    const width: nat
    const database: HashTable<Cube, ()>

    ghost predicate Valid()
      reads this, database
    {
      && database.Valid()
      && WellFormed(Items(database.entries), width)
      && Complete(Items(database.entries), width)
    }

    ghost predicate Contains(pt: Point)
      reads this, database
    {
      InPool(Items(database.entries), pt)
    }

    /** From a signal: constant bits are kept, all others are free. */
    constructor FromSignal(sig: seq<State>, hash: Cube -> nat)
      ensures Valid() && fresh(database) && width == |sig|
      ensures forall pt :: Contains(pt) <==> |sig| > 0 && Covers(sig, pt)
    {
      width := |sig|;
      database := new HashTable(hash);
      new;
      if width > 0 {
        var pattern := SigToBits(sig);
        var i, inserted := database.Insert(pattern, ());
        SingleCube(Items(database.entries), pattern);
        forall pt ensures Covers(sig, pt) <==> Covers(pattern, pt) { }
      } else {
        NoCube(Items(database.entries), 0);
      }
    }

    /** All patterns of a width. */
    constructor AllPatterns(width: nat, hash: Cube -> nat)
      ensures Valid() && fresh(database) && this.width == width
      ensures forall pt :: Contains(pt) <==> width > 0 && |pt| == width
    {
      this.width := width;
      database := new HashTable(hash);
      new;
      if width > 0 {
        var pattern := seq(width, _ => Sa);
        var i, inserted := database.Insert(pattern, ());
        SingleCube(Items(database.entries), pattern);
      } else {
        NoCube(Items(database.entries), 0);
      }
    }

    /** Some pattern of the pool shares a point with the cube. */
    method HasAny(sig: seq<State>) returns (found: bool)
      requires Valid() && |sig| == width
      ensures found <==> exists pt :: Covers(sig, pt) && Contains(pt)
    {
      var bits := SigToBits(sig);
      found := ScanForMatch(bits);
      MatchesIffMeets(Items(database.entries), bits);
    }

    method ScanForMatch(bits: Cube) returns (found: bool)
      ensures found <==> exists k :: 0 <= k < |database.entries| && Match(Items(database.entries)[k].0, bits)
    {
      ghost var items := Items(database.entries);
      var it := |database.entries| - 1;
      while it != -1
        invariant -1 <= it < |items|
        invariant forall k | it < k < |items| :: !Match(items[k].0, bits)
      {
        if Match(database.entries[it].key, bits) {
          assert Match(items[it].0, bits);
          return true;
        }
        it := it - 1;
      }
      return false;
    }

    /**
     * The source tests for one pattern containing the cube.  On every pool
     * that can arise this is exactly coverage by the pool as a whole.
     */
    method HasAll(sig: seq<State>) returns (found: bool)
      requires Valid() && |sig| == width
      ensures found <==> forall pt | Covers(sig, pt) :: Contains(pt)
    {
      var bits := SigToBits(sig);
      found := ScanForSuperset(bits);
      WithinOneIffCovered(Items(database.entries), bits, width);
    }

    method ScanForSuperset(bits: Cube) returns (found: bool)
      requires WellFormed(Items(database.entries), width) && |bits| == width && Normal(bits)
      ensures found <==> WithinOne(Items(database.entries), bits)
    {
      ghost var items := Items(database.entries);
      var it := |database.entries| - 1;
      while it != -1
        invariant -1 <= it < |items|
        invariant forall k | it < k < |items| :: !Within(bits, items[k].0)
      {
        var key := database.entries[it].key;
        assert key == items[it].0;
        if Match(key, bits) {
          var covered := FreeNowhereFixed(key, bits);
          if covered {
            return true;
          }
        } else {
          ghost var j :| 0 <= j < |key| && Conflict(key, bits, j);
        }
        it := it - 1;
      }
      return false;
    }

    /** Removes exactly the cube's points; true iff some pattern met the cube. */
    method Take(sig: seq<State>) returns (status: bool)
      requires Valid() && |sig| == width
      modifies database
      ensures Valid()
      ensures forall pt :: Contains(pt) <==> old(Contains(pt)) && !Covers(sig, pt)
      ensures status <==> exists pt :: old(Contains(pt)) && Covers(sig, pt)
    {
      var bits := SigToBits(sig);
      ghost var orig := Items(database.entries);
      status := TakeLoop(bits);
      ghost var final := Items(database.entries);
      TakeDone(orig, final, bits, width);
      TakeKeepsComplete(orig, final, bits, width);
      forall k | 0 <= k < |orig| { MatchIffMeet(orig[k].0, bits); }
    }

    /** The loop of `Take`, over the pool it changes. */
    method TakeLoop(bits: Cube) returns (status: bool)
      requires database.Valid() && WellFormed(Items(database.entries), width)
      requires |bits| == width && Normal(bits)
      modifies database
      ensures database.Valid() && WellFormed(Items(database.entries), width)
      ensures TakeProgress(old(Items(database.entries)), Items(database.entries), bits, -1)
      ensures status <==> exists k :: 0 <= k < |old(database.entries)| && Match(old(Items(database.entries))[k].0, bits)
    {
      status := false;
      ghost var orig := Items(database.entries);
      var it := |database.entries| - 1;
      while it != -1
        invariant database.Valid() && WellFormed(Items(database.entries), width)
        invariant -1 <= it < |orig|
        invariant TakeProgress(orig, Items(database.entries), bits, it)
        invariant status <==> exists k :: it < k < |orig| && Match(orig[k].0, bits)
        decreases it + 1
      {
        var key := database.entries[it].key;
        assert key == orig[it].0;
        if Match(key, bits) {
          TakeOut(orig, bits, it);
          status := true;
        } else {
          TakeSkip(orig, Items(database.entries), bits, it);
        }
        it := it - 1;
      }
    }

    /** Replaces the matching pattern at `it` by its splits. */
    method TakeOut(ghost orig: seq<(Cube, ())>, bits: Cube, it: nat)
      requires database.Valid() && WellFormed(Items(database.entries), width)
      requires |bits| == width && Normal(bits) && it < |database.entries| && it < |orig|
      requires TakeProgress(orig, Items(database.entries), bits, it) && Match(database.entries[it].key, bits)
      modifies database
      ensures database.Valid() && WellFormed(Items(database.entries), width)
      ensures TakeProgress(orig, Items(database.entries), bits, it - 1)
    {
      ghost var before := Items(database.entries);
      InsertSplits(database.entries[it].key, bits, it);
      ghost var mid := Items(database.entries);
      EraseAtElements(mid, it);
      TakeStep(orig, before, mid, bits, it);
      var next := database.EraseIterator(it);
    }

    /** The inner loop: what is left of the matching cube, bit by bit. */
    method InsertSplits(key: Cube, bits: Cube, it: nat)
      requires database.Valid() && WellFormed(Items(database.entries), width)
      requires it < |database.entries| && key == database.entries[it].key
      requires |bits| == width && Normal(bits)
      modifies database
      ensures database.Valid() && WellFormed(Items(database.entries), width)
      ensures SplitsAdded(old(Items(database.entries)), Items(database.entries), key, bits, width)
    {
      ghost var before := Items(database.entries);
      assert key == before[it].0;
      for i := 0 to width
        invariant database.Valid() && WellFormed(Items(database.entries), width)
        invariant SplitsAdded(before, Items(database.entries), key, bits, i)
      {
        if !(key[i] != Sa || bits[i] == Sa) {
          InsertSplit(before, key, bits, i);
        } else {
          SplitsAddedSkip(before, Items(database.entries), key, bits, i);
        }
      }
    }

    method InsertSplit(ghost before: seq<(Cube, ())>, key: Cube, bits: Cube, i: nat)
      requires database.Valid() && WellFormed(Items(database.entries), width)
      requires |bits| == |key| == width && Normal(bits) && Normal(key) && Splits(key, bits, i)
      requires SplitsAdded(before, Items(database.entries), key, bits, i)
      modifies database
      ensures database.Valid() && WellFormed(Items(database.entries), width)
      ensures SplitsAdded(before, Items(database.entries), key, bits, i + 1)
    {
      var newPattern := key[i := if bits[i] == S1 then S0 else S1];
      ghost var items := Items(database.entries);
      SplitAvoids(key, bits, i);
      var index, inserted := database.Insert(newPattern, ());
      SplitsAddedStep(before, items, Items(database.entries), key, bits, i, inserted);
    }

    method TakeAll() returns (status: bool)
      requires Valid()
      modifies database
      ensures Valid() && forall pt :: !Contains(pt)
      ensures status <==> old(|database.entries|) > 0
    {
      if |database.entries| == 0 {
        return false;
      }
      database.Clear();
      NoCube(Items(database.entries), width);
      return true;
    }
  }

  method SigToBits(sig: seq<State>) returns (bits: Cube)
    ensures |bits| == |sig| && Normal(bits)
    ensures forall i | 0 <= i < |sig| :: bits[i] == if sig[i].Defined() then sig[i] else Sa
    ensures forall pt :: Covers(bits, pt) <==> Covers(sig, pt)
  {
    bits := sig;
    for i := 0 to |sig|
      invariant |bits| == |sig|
      invariant forall j | 0 <= j < i :: bits[j] == if sig[j].Defined() then sig[j] else Sa
      invariant forall j | i <= j < |sig| :: bits[j] == sig[j]
    {
      if !bits[i].Defined() {
        bits := bits[i := Sa];
      }
    }
  }

  lemma {:induction false} MatchesIffMeets(items: seq<(Cube, ())>, bits: Cube)
    requires WellFormed(items, |bits|)
    ensures (exists k :: 0 <= k < |items| && Match(items[k].0, bits)) <==>
            (exists pt :: Covers(bits, pt) && InPool(items, pt))
  {
    forall k | 0 <= k < |items| { MatchIffMeet(items[k].0, bits); }
    if k :| 0 <= k < |items| && Match(items[k].0, bits) {
      var pt :| Covers(items[k].0, pt) && Covers(bits, pt);
      assert InPool(items, pt);
    }
  }

  lemma {:induction false} WithinOneIffCovered(items: seq<(Cube, ())>, bits: Cube, width: nat)
    requires WellFormed(items, width) && Complete(items, width) && |bits| == width && Normal(bits)
    ensures WithinOne(items, bits) <==> CoveredByPool(items, bits)
  {
    if k :| 0 <= k < |items| && Within(bits, items[k].0) {
      WithinIffPoints(bits, items[k].0);
    }
  }

  /** The inner loop of `HasAll`: no free bit of the cube is fixed in the pattern. */
  method FreeNowhereFixed(key: Cube, bits: Cube) returns (covered: bool)
    requires |key| == |bits| && Normal(key) && Normal(bits) && Match(key, bits)
    ensures covered <==> Within(bits, key)
  {
    for i := 0 to |bits|
      invariant forall j | 0 <= j < i :: bits[j].Defined() || !key[j].Defined()
    {
      if !bits[i].Defined() && key[i].Defined() {
        return false;
      }
    }
    forall j | 0 <= j < |bits| ensures key[j].Sa? || key[j] == bits[j] {
      assert !Conflict(key, bits, j);
    }
    return true;
  }

  lemma {:induction false} SingleCube(items: seq<(Cube, ())>, c: Cube)
    requires Normal(c) && |items| == 1 && items[0].0 == c
    ensures Complete(items, |c|)
    ensures forall pt :: InPool(items, pt) <==> Covers(c, pt)
  {
    forall d: Cube | |d| == |c| && Normal(d) && CoveredByPool(items, d) ensures WithinOne(items, d) {
      forall pt | Covers(d, pt) ensures Covers(c, pt) { assert InPool(items, pt); }
      WithinIffPoints(d, c);
      assert Within(d, items[0].0);
    }
  }

  lemma {:induction false} NoCube(items: seq<(Cube, ())>, width: nat)
    requires items == []
    ensures Complete(items, width)
  {
    forall d: Cube | |d| == width ensures !CoveredByPool(items, d) {
      assert Covers(d, CommonPoint(d, d));
    }
  }

  // --------------------------------------------------- the loops of `Take`

  /** c is the split of `key` at some bit below n. */
  ghost predicate IsSplit(c: Cube, key: Cube, bits: Cube, n: nat) {
    exists i :: 0 <= i < n && Splits(key, bits, i) && c == SplitCube(key, bits, i)
  }

  /** After the splits at bits below n: old items in place, followed only by such splits, none missing. */
  ghost predicate SplitsAdded(before: seq<(Cube, ())>, items: seq<(Cube, ())>, key: Cube, bits: Cube, n: nat) {
    && before <= items
    && (forall k | |before| <= k < |items| :: IsSplit(items[k].0, key, bits, n))
    && (forall i | 0 <= i < n && Splits(key, bits, i) :: HasKey(items, SplitCube(key, bits, i)))
  }

  /**
   * With positions up to `it` still to visit: these are untouched, everything
   * above has been dealt with, and outside the cube no point came or went.
   */
  ghost predicate TakeProgress(orig: seq<(Cube, ())>, items: seq<(Cube, ())>, bits: Cube, it: int)
    requires -1 <= it < |orig|
  {
    && it < |items|
    && (forall k | 0 <= k <= it :: items[k] == orig[k])
    && (forall k | it < k < |items| :: !Match(items[k].0, bits))
    && (forall pt | !Covers(bits, pt) :: InPool(items, pt) <==> InPool(orig, pt))
    && (forall k | it < k < |orig| && !Match(orig[k].0, bits) :: HasKey(items, orig[k].0))
    && (forall k, i | it < k < |orig| && Match(orig[k].0, bits) && Splits(orig[k].0, bits, i) ::
          HasKey(items, SplitCube(orig[k].0, bits, i)))
  }

  lemma {:induction false} SplitsAddedStep(before: seq<(Cube, ())>, items: seq<(Cube, ())>, items': seq<(Cube, ())>,
                        key: Cube, bits: Cube, i: nat, inserted: bool)
    requires SplitsAdded(before, items, key, bits, i) && Splits(key, bits, i)
    requires items' == items + (if inserted then [(SplitCube(key, bits, i), ())] else [])
    requires !inserted ==> HasKey(items, SplitCube(key, bits, i))
    ensures SplitsAdded(before, items', key, bits, i + 1)
  {
    if inserted {
      assert items'[|items|].0 == SplitCube(key, bits, i);
    }
    forall c | HasKey(items, c) ensures HasKey(items', c) {
      var k :| 0 <= k < |items| && items[k].0 == c;
      assert items'[k].0 == c;
    }
    forall k | |before| <= k < |items'| ensures IsSplit(items'[k].0, key, bits, i + 1) {
      if k < |items| {
        assert IsSplit(items[k].0, key, bits, i);
      }
    }
  }

  lemma {:induction false} SplitsAddedSkip(before: seq<(Cube, ())>, items: seq<(Cube, ())>, key: Cube, bits: Cube, i: nat)
    requires SplitsAdded(before, items, key, bits, i) && !Splits(key, bits, i)
    ensures SplitsAdded(before, items, key, bits, i + 1)
  {
    forall k | |before| <= k < |items| ensures IsSplit(items[k].0, key, bits, i + 1) {
      assert IsSplit(items[k].0, key, bits, i);
    }
  }

  lemma {:induction false} TakeSkip(orig: seq<(Cube, ())>, items: seq<(Cube, ())>, bits: Cube, it: nat)
    requires it < |orig| && TakeProgress(orig, items, bits, it) && !Match(orig[it].0, bits)
    ensures TakeProgress(orig, items, bits, it - 1)
  {
    assert items[it].0 == orig[it].0;
  }

  lemma {:induction false} InPoolByKey(items: seq<(Cube, ())>, c: Cube, pt: Point)
    requires HasKey(items, c) && Covers(c, pt)
    ensures InPool(items, pt)
  {
    var k :| 0 <= k < |items| && items[k].0 == c;
    assert Covers(items[k].0, pt);
  }

  lemma {:induction false} TakeStepPoint(before: seq<(Cube, ())>, mid: seq<(Cube, ())>, bits: Cube, it: nat, pt: Point)
    requires it < |before| && DistinctKeys(mid) && it < |mid|
    requires WellFormed(before, |bits|) && Normal(bits) && Match(before[it].0, bits)
    requires SplitsAdded(before, mid, before[it].0, bits, |bits|)
    requires !Covers(bits, pt)
    ensures InPool(EraseAt(mid, it), pt) <==> InPool(before, pt)
  {
    var key, items := before[it].0, EraseAt(mid, it);
    EraseAtElements(mid, it);
    SplitsCoverRest(key, bits, pt);
    if InPool(items, pt) {
      var j :| 0 <= j < |items| && Covers(items[j].0, pt);
      var o := if j == it then |mid| - 1 else j;
      assert items[j] == mid[o];
      if o < |before| {
        assert mid[o] == before[o];
      } else {
        assert Covers(before[it].0, pt);
      }
    }
    if InPool(before, pt) {
      var k :| 0 <= k < |before| && Covers(before[k].0, pt);
      if k == it {
        var i :| Splits(key, bits, i) && Covers(SplitCube(key, bits, i), pt);
        EraseAtKeys(mid, it, SplitCube(key, bits, i));
        SplitAvoids(key, bits, i);
        InPoolByKey(items, SplitCube(key, bits, i), pt);
      } else {
        assert mid[k] == before[k];
        assert Covers(items[if k == |mid| - 1 then it else k].0, pt);
      }
    }
  }

  lemma {:induction false} TakeStep(orig: seq<(Cube, ())>, before: seq<(Cube, ())>, mid: seq<(Cube, ())>, bits: Cube, it: nat)
    requires it < |orig| && TakeProgress(orig, before, bits, it)
    requires WellFormed(before, |bits|) && Normal(bits) && Match(before[it].0, bits)
    requires DistinctKeys(mid) && it < |mid| && SplitsAdded(before, mid, before[it].0, bits, |bits|)
    ensures TakeProgress(orig, EraseAt(mid, it), bits, it - 1)
  {
    var key, items := before[it].0, EraseAt(mid, it);
    EraseAtElements(mid, it);
    forall k | it <= k < |items| ensures !Match(items[k].0, bits) {
      var o := if k == it then |mid| - 1 else k;
      assert items[k] == mid[o];
      if o < |before| {
        assert mid[o] == before[o];
      } else {
        var i :| 0 <= i < |bits| && Splits(key, bits, i) && mid[o].0 == SplitCube(key, bits, i);
        SplitAvoids(key, bits, i);
      }
    }
    forall pt | !Covers(bits, pt) ensures InPool(items, pt) <==> InPool(orig, pt) {
      TakeStepPoint(before, mid, bits, it, pt);
    }
    forall c | c != key && (HasKey(before, c) || HasKey(mid, c)) ensures HasKey(items, c) {
      if HasKey(before, c) {
        var k :| 0 <= k < |before| && before[k].0 == c;
        assert mid[k] == before[k];
      }
      EraseAtKeys(mid, it, c);
    }
    forall i | Splits(key, bits, i) ensures HasKey(items, SplitCube(key, bits, i)) {
      SplitAvoids(key, bits, i);
    }
    forall k, i | it < k < |orig| && Match(orig[k].0, bits) && Splits(orig[k].0, bits, i)
      ensures HasKey(items, SplitCube(orig[k].0, bits, i))
    {
      var c := SplitCube(orig[k].0, bits, i);
      assert HasKey(before, c);
      assert Conflict(c, bits, i) || c == c;
    }
  }

  lemma {:induction false} TakeDone(orig: seq<(Cube, ())>, final: seq<(Cube, ())>, bits: Cube, width: nat)
    requires WellFormed(final, width) && |bits| == width
    requires TakeProgress(orig, final, bits, -1)
    ensures forall pt :: InPool(final, pt) <==> InPool(orig, pt) && !Covers(bits, pt)
  {
    forall pt | InPool(final, pt) && Covers(bits, pt) ensures false {
      var k :| 0 <= k < |final| && Covers(final[k].0, pt);
      MatchIffMeet(final[k].0, bits);
    }
  }
}
