/**
 * The index-linked hash table behind `dict` and `pool`.
 *
 * Entries live in a dense vector.  Every bucket of the hash table holds the
 * index of the first entry of its chain, and every entry holds the index of
 * the next one, -1 ending the chain.  An entry is erased by moving the last
 * entry into its place, so chains lose any order of indices they once had.
 *
 * `pool<K>` is the instance whose values are `()`; `idict` is a pool that
 * only grows.  The hash is an arbitrary function of the key.
 */
module Hashlib {
  import opened Wrappers

  datatype Entry<K, T> = Entry(key: K, value: T, next: int)

  // ---------------------------------------------------------------- chains

  ghost predicate NoDup(c: seq<int>) {
    forall p, q :: 0 <= p < q < |c| ==> c[p] != c[q]
  }

  /** Following `next` from `head` visits exactly the indices `c`, in order. */
  ghost predicate Linked<K, T>(es: seq<Entry<K, T>>, head: int, c: seq<int>) {
    && head == (if |c| > 0 then c[0] else -1)
    && (forall p | 0 <= p < |c| :: 0 <= c[p] < |es|)
    && (forall p {:trigger es[c[p]]} | 0 <= p < |c| :: es[c[p]].next == (if p + 1 < |c| then c[p + 1] else -1))
  }

  function Bucket<K>(hash: K -> nat, size: nat, key: K): (b: nat)
    requires size > 0
    ensures b < size
  {
    hash(key) % size
  }

  /** The chain `c` lists, without repeats, exactly the live entries of bucket `b`. */
  ghost predicate Lists<K(!new), T(!new)>(hash: K -> nat, es: seq<Entry<K, T>>, size: nat, live: set<int>,
                                          b: nat, head: int, c: seq<int>)
    requires size > 0
  {
    && Linked(es, head, c)
    && NoDup(c)
    && (forall e {:trigger e in c} {:trigger e in live} ::
          e in c <==> e in live && 0 <= e < |es| && Bucket(hash, size, es[e].key) == b)
  }

  /** Every bucket lists exactly its live entries. */
  ghost predicate Wired<K(!new), T(!new)>(hash: K -> nat, es: seq<Entry<K, T>>, ht: seq<int>,
                                          chains: seq<seq<int>>, live: set<int>)
  {
    && |chains| == |ht|
    && (forall e | e in live :: 0 <= e < |es|)
    && (forall b | 0 <= b < |ht| :: Lists(hash, es, |ht|, live, b, ht[b], chains[b]))
  }

  ghost function Indices(n: nat): (s: set<int>)
    ensures forall i :: i in s <==> 0 <= i < n
  {
    set i: int {:trigger InRange(i, n)} | 0 <= i < n && InRange(i, n)
  }

  predicate InRange(i: int, n: nat) { 0 <= i < n }

  /** A key that is not on its chain is nowhere. */
  lemma {:induction false} AbsentFromChain<K(!new), T(!new)>(hash: K -> nat, es: seq<Entry<K, T>>, m: nat, h: nat, head: int, c: seq<int>, key: K)
    requires m > 0 && h == hash(key) % m && Lists(hash, es, m, Indices(|es|), h, head, c)
    requires forall q | 0 <= q < |c| :: es[c[q]].key != key
    ensures !HasKey(Items(es), key)
  {
    forall i | 0 <= i < |es| ensures es[i].key != key {
      if Bucket(hash, m, es[i].key) == h {
        assert i in c;
      }
    }
  }

  // A walk never has to take more steps than there are entries.
  lemma {:induction false} NoDupBound(c: seq<int>, n: nat)
    requires NoDup(c) && forall e | e in c :: 0 <= e < n
    ensures |c| <= n
    decreases n
  {
    if |c| > 0 {
      assert c[0] in c;
      if n - 1 in c {
        var p :| 0 <= p < |c| && c[p] == n - 1;
        var d := Without(c, p);
        forall e | e in d ensures 0 <= e < n - 1 {
          assert e in c;
        }
        NoDupBound(d, n - 1);
      } else {
        NoDupBound(c, n - 1);
      }
    }
  }

  ghost function Without(c: seq<int>, p: nat): seq<int>
    requires p < |c|
  {
    c[..p] + c[p + 1..]
  }

  lemma {:induction false} WithoutContents(c: seq<int>, p: nat)
    requires p < |c| && NoDup(c)
    ensures NoDup(Without(c, p))
    ensures forall e :: e in Without(c, p) <==> e in c && e != c[p]
  {
    var d := Without(c, p);
    forall e | e in c && e != c[p] ensures e in d {
      var q :| 0 <= q < |c| && c[q] == e;
      assert e == d[if q < p then q else q - 1];
    }
  }

  lemma {:induction false} LinkedFrame<K, T>(es: seq<Entry<K, T>>, es': seq<Entry<K, T>>, head: int, c: seq<int>)
    requires Linked(es, head, c)
    requires forall e | e in c :: 0 <= e < |es'| && (0 <= e < |es| ==> es'[e].next == es[e].next)
    ensures Linked(es', head, c)
  {
    forall p | 0 <= p < |c| ensures 0 <= c[p] < |es'| {
      assert c[p] in c;
    }
    forall p {:trigger es'[c[p]]} | 0 <= p < |c|
      ensures es'[c[p]].next == (if p + 1 < |c| then c[p + 1] else -1)
    {
      assert c[p] in c && es[c[p]].next == (if p + 1 < |c| then c[p + 1] else -1);
    }
  }

  /** The entry vector and bucket head after unlinking position p of chain c. */
  ghost function Unlinked<K, T>(es: seq<Entry<K, T>>, c: seq<int>, p: nat): seq<Entry<K, T>>
    requires p < |c| && forall q | 0 <= q < |c| :: 0 <= c[q] < |es|
  {
    if p == 0 then es else es[c[p - 1] := es[c[p - 1]].(next := es[c[p]].next)]
  }

  lemma {:induction false} UnlinkChain<K, T>(es: seq<Entry<K, T>>, head: int, c: seq<int>, p: nat)
    requires p < |c| && NoDup(c) && Linked(es, head, c)
    ensures Linked(Unlinked(es, c, p), if p == 0 then es[c[0]].next else head, Without(c, p))
  {
    var d := Without(c, p);
    var es' := Unlinked(es, c, p);
    forall q {:trigger es'[d[q]]} | 0 <= q < |d|
      ensures es'[d[q]].next == (if q + 1 < |d| then d[q + 1] else -1)
    {
      var o := if q < p then q else q + 1;
      assert d[q] == c[o] && es[c[o]].next == (if o + 1 < |c| then c[o + 1] else -1);
      assert es[c[p]].next == (if p + 1 < |c| then c[p + 1] else -1);
    }
  }

  lemma {:induction false} UnlinkHere<K(!new), T(!new)>(hash: K -> nat, es: seq<Entry<K, T>>, size: nat, live: set<int>,
                                     b: nat, head: int, c: seq<int>, p: nat)
    requires size > 0 && Lists(hash, es, size, live, b, head, c) && p < |c|
    ensures Lists(hash, Unlinked(es, c, p), size, live - {c[p]}, b,
                  if p == 0 then es[c[0]].next else head, Without(c, p))
  {
    WithoutContents(c, p);
    UnlinkChain(es, head, c, p);
    var es' := Unlinked(es, c, p);
    assert forall e | 0 <= e < |es| :: es'[e].key == es[e].key;
  }

  lemma {:induction false} UnlinkElsewhere<K(!new), T(!new)>(hash: K -> nat, es: seq<Entry<K, T>>, size: nat, live: set<int>,
                                          a: nat, head: int, d: seq<int>, b: nat, c: seq<int>, p: nat)
    requires size > 0 && a != b && Lists(hash, es, size, live, a, head, d)
    requires forall o | 0 <= o < |c| :: 0 <= c[o] < |es| && c[o] in live && Bucket(hash, size, es[c[o]].key) == b
    requires p < |c|
    ensures Lists(hash, Unlinked(es, c, p), size, live - {c[p]}, a, head, d)
  {
    var es' := Unlinked(es, c, p);
    assert forall e | 0 <= e < |es| :: es'[e].key == es[e].key;
    LinkedFrame(es, es', head, d);
  }

  /** Dropping position p of bucket b's chain by relinking its predecessor. */
  lemma {:induction false} UnlinkKeepsWired<K(!new), T(!new)>(hash: K -> nat, es: seq<Entry<K, T>>, ht: seq<int>,
                                           chains: seq<seq<int>>, live: set<int>, b: nat, p: nat)
    requires Wired(hash, es, ht, chains, live)
    requires b < |ht| && p < |chains[b]|
    ensures forall q | 0 <= q < |chains[b]| :: 0 <= chains[b][q] < |es|
    ensures var c := chains[b];
            Wired(hash, Unlinked(es, c, p), if p == 0 then ht[b := es[c[0]].next] else ht,
                  chains[b := Without(c, p)], live - {c[p]})
  {
    var c := chains[b];
    assert Lists(hash, es, |ht|, live, b, ht[b], c);
    var es' := Unlinked(es, c, p);
    var ht' := if p == 0 then ht[b := es[c[0]].next] else ht;
    var chains' := chains[b := Without(c, p)];
    forall a | 0 <= a < |ht'| ensures Lists(hash, es', |ht'|, live - {c[p]}, a, ht'[a], chains'[a]) {
      if a == b {
        UnlinkHere(hash, es, |ht|, live, b, ht[b], c, p);
      } else {
        assert Lists(hash, es, |ht|, live, a, ht[a], chains[a]);
        forall o | 0 <= o < |c| ensures c[o] in live && Bucket(hash, |ht|, es[c[o]].key) == b { assert c[o] in c; }
        UnlinkElsewhere(hash, es, |ht|, live, a, ht[a], chains[a], b, c, p);
      }
    }
  }

  /** The entry vector after redirecting the link to position q of chain c, and copying that entry, to `index`. */
  ghost function Moved<K, T>(es: seq<Entry<K, T>>, c: seq<int>, q: nat, index: int): seq<Entry<K, T>>
    requires q < |c| && 0 <= index < |es| && forall o | 0 <= o < |c| :: 0 <= c[o] < |es|
  {
    (if q == 0 then es else es[c[q - 1] := es[c[q - 1]].(next := index)])[index := es[c[q]]]
  }

  lemma {:induction false} MoveChain<K, T>(es: seq<Entry<K, T>>, head: int, c: seq<int>, q: nat, index: int)
    requires q < |c| && NoDup(c) && Linked(es, head, c) && 0 <= index < |es| && index !in c
    ensures Linked(Moved(es, c, q, index), if q == 0 then index else head, c[q := index])
  {
    var d := c[q := index];
    var es' := Moved(es, c, q, index);
    forall p {:trigger es'[d[p]]} | 0 <= p < |d|
      ensures es'[d[p]].next == (if p + 1 < |d| then d[p + 1] else -1)
    {
      assert c[p] in c;
      assert es[c[p]].next == (if p + 1 < |c| then c[p + 1] else -1);
    }
  }

  lemma {:induction false} ReplaceContents(c: seq<int>, q: nat, index: int)
    requires q < |c| && NoDup(c) && index !in c
    ensures NoDup(c[q := index])
    ensures forall e :: e in c[q := index] <==> e == index || (e in c && e != c[q])
  {
    var d := c[q := index];
    forall e | e == index || (e in c && e != c[q]) ensures e in d {
      if e != index {
        var p :| 0 <= p < |c| && c[p] == e;
        assert d[p] == e;
      } else {
        assert d[q] == e;
      }
    }
    forall e | e in d ensures e == index || (e in c && e != c[q]) {
      var p :| 0 <= p < |d| && d[p] == e;
    }
    forall i, j | 0 <= i < j < |d| ensures d[i] != d[j] {
      assert c[i] in c && c[j] in c;
    }
  }

  lemma {:induction false} MoveElsewhere<K(!new), T(!new)>(hash: K -> nat, es: seq<Entry<K, T>>, size: nat, live: set<int>,
                                        a: nat, head: int, d: seq<int>, b: nat, c: seq<int>, q: nat, index: int)
    requires size > 0 && a != b && Lists(hash, es, size, live, a, head, d)
    requires forall o | 0 <= o < |c| :: 0 <= c[o] < |es| && c[o] in live && Bucket(hash, size, es[c[o]].key) == b
    requires q < |c| && 0 <= index < |es| && index !in live
    ensures Lists(hash, Moved(es, c, q, index), size, live - {c[q]} + {index}, a, head, d)
  {
    var es' := Moved(es, c, q, index);
    assert index !in d;
    assert forall e | 0 <= e < |es| && e != index :: es'[e].key == es[e].key;
    assert es'[index].key == es[c[q]].key;
    LinkedFrame(es, es', head, d);
  }

  lemma {:induction false} MoveHere<K(!new), T(!new)>(hash: K -> nat, es: seq<Entry<K, T>>, size: nat, live: set<int>,
                                   b: nat, head: int, c: seq<int>, q: nat, index: int)
    requires size > 0 && Lists(hash, es, size, live, b, head, c)
    requires q < |c| && 0 <= index < |es| && index !in live
    ensures Lists(hash, Moved(es, c, q, index), size, live - {c[q]} + {index}, b,
                  if q == 0 then index else head, c[q := index])
  {
    assert c[q] in c && index !in c;
    ReplaceContents(c, q, index);
    MoveChain(es, head, c, q, index);
    var es' := Moved(es, c, q, index);
    assert forall e | 0 <= e < |es| && e != index :: es'[e].key == es[e].key;
    assert es'[index].key == es[c[q]].key;
  }

  /** Moving a live entry, found at position q of bucket b's chain, to the free slot `index`. */
  lemma {:induction false} MoveKeepsWired<K(!new), T(!new)>(hash: K -> nat, es: seq<Entry<K, T>>, ht: seq<int>,
                                         chains: seq<seq<int>>, live: set<int>, b: nat, q: nat, index: int)
    requires Wired(hash, es, ht, chains, live)
    requires b < |ht| && q < |chains[b]|
    requires 0 <= index < |es| && index !in live
    ensures forall o | 0 <= o < |chains[b]| :: 0 <= chains[b][o] < |es|
    ensures var c := chains[b];
            Wired(hash, Moved(es, c, q, index), if q == 0 then ht[b := index] else ht,
                  chains[b := c[q := index]], live - {c[q]} + {index})
  {
    var c := chains[b];
    assert Lists(hash, es, |ht|, live, b, ht[b], c);
    var es' := Moved(es, c, q, index);
    var ht' := if q == 0 then ht[b := index] else ht;
    var chains' := chains[b := c[q := index]];
    var live' := live - {c[q]} + {index};
    forall a | 0 <= a < |ht'| ensures Lists(hash, es', |ht'|, live', a, ht'[a], chains'[a]) {
      if a == b {
        MoveHere(hash, es, |ht|, live, b, ht[b], c, q, index);
      } else {
        assert Lists(hash, es, |ht|, live, a, ht[a], chains[a]);
        forall o | 0 <= o < |c| ensures c[o] in live && Bucket(hash, |ht|, es[c[o]].key) == b { assert c[o] in c; }
        MoveElsewhere(hash, es, |ht|, live, a, ht[a], chains[a], b, c, q, index);
      }
    }
  }

  /** Pushing the next entry onto the front of its bucket's chain. */
  lemma {:induction false} LinkKeepsWired<K(!new), T(!new)>(hash: K -> nat, es: seq<Entry<K, T>>, ht: seq<int>,
                                         chains: seq<seq<int>>, n: nat, e: Entry<K, T>)
    requires Wired(hash, es, ht, chains, Indices(n)) && n < |es| && |ht| > 0
    requires e.key == es[n].key && e.next == ht[Bucket(hash, |ht|, e.key)]
    ensures var h := Bucket(hash, |ht|, e.key);
            Wired(hash, es[n := e], ht[h := n], chains[h := [n] + chains[h]], Indices(n + 1))
  {
    var h := Bucket(hash, |ht|, e.key);
    var es', ht', chains' := es[n := e], ht[h := n], chains[h := [n] + chains[h]];
    forall a | 0 <= a < |ht'| ensures Lists(hash, es', |ht'|, Indices(n + 1), a, ht'[a], chains'[a]) {
      var c := chains[a];
      assert Lists(hash, es, |ht|, Indices(n), a, ht[a], c);
      assert n !in c;
      LinkedFrame(es, es', ht[a], c);
      if a == h {
        var d := [n] + c;
        forall p {:trigger es'[d[p]]} | 0 <= p < |d|
          ensures es'[d[p]].next == (if p + 1 < |d| then d[p + 1] else -1)
        {
          if p > 0 { assert es'[c[p - 1]].next == (if p < |c| then c[p] else -1); }
        }
      }
    }
  }

  lemma {:induction false} ExtendKeepsWired<K(!new), T(!new)>(hash: K -> nat, es: seq<Entry<K, T>>, ht: seq<int>,
                                           chains: seq<seq<int>>, e: Entry<K, T>)
    requires Wired(hash, es, ht, chains, Indices(|es|))
    ensures Wired(hash, es + [e], ht, chains, Indices(|es|))
  {
    forall a | 0 <= a < |ht| ensures Lists(hash, es + [e], |ht|, Indices(|es|), a, ht[a], chains[a]) {
      assert Lists(hash, es, |ht|, Indices(|es|), a, ht[a], chains[a]);
      LinkedFrame(es, es + [e], ht[a], chains[a]);
    }
  }

  lemma {:induction false} AppendKeepsWired<K(!new), T(!new)>(hash: K -> nat, es: seq<Entry<K, T>>, ht: seq<int>,
                                           chains: seq<seq<int>>, e: Entry<K, T>)
    requires Wired(hash, es, ht, chains, Indices(|es|)) && |ht| > 0
    requires e.next == ht[Bucket(hash, |ht|, e.key)]
    ensures var h := Bucket(hash, |ht|, e.key);
            Wired(hash, es + [e], ht[h := |es|], chains[h := [|es|] + chains[h]], Indices(|es| + 1))
  {
    ExtendKeepsWired(hash, es, ht, chains, e);
    LinkKeepsWired(hash, es + [e], ht, chains, |es|, e);
    assert (es + [e])[|es| := e] == es + [e];
  }

  lemma {:induction false} ShrinkKeepsWired<K(!new), T(!new)>(hash: K -> nat, es: seq<Entry<K, T>>, ht: seq<int>, chains: seq<seq<int>>)
    requires |es| > 0 && Wired(hash, es, ht, chains, Indices(|es| - 1))
    ensures Wired(hash, es[..|es| - 1], ht, chains, Indices(|es| - 1))
  {
    var es' := es[..|es| - 1];
    forall a | 0 <= a < |ht| ensures Lists(hash, es', |ht|, Indices(|es'|), a, ht[a], chains[a]) {
      assert Lists(hash, es, |ht|, Indices(|es'|), a, ht[a], chains[a]);
      LinkedFrame(es, es', ht[a], chains[a]);
    }
  }

  // ------------------------------------------------- what the table means

  /** The entries in storage order, without their links: what iteration sees, last one first. */
  ghost function Items<K, T>(es: seq<Entry<K, T>>): (r: seq<(K, T)>)
    ensures |r| == |es| && forall i | 0 <= i < |es| :: r[i] == (es[i].key, es[i].value)
  {
    seq(|es|, i requires 0 <= i < |es| => (es[i].key, es[i].value))
  }

  ghost predicate DistinctKeys<K, T>(items: seq<(K, T)>) {
    forall i, j :: 0 <= i < j < |items| ==> items[i].0 != items[j].0
  }

  ghost predicate HasKey<K, T>(items: seq<(K, T)>, key: K) {
    exists i :: 0 <= i < |items| && items[i].0 == key
  }

  /** The mathematical map that a list of items with distinct keys stands for. */
  ghost function MapOf<K(!new), T>(items: seq<(K, T)>): (m: map<K, T>)
    ensures forall k :: k in m <==> HasKey(items, k)
    ensures DistinctKeys(items) ==> forall i | 0 <= i < |items| :: items[i].0 in m && m[items[i].0] == items[i].1
  {
    if items == [] then map[]
    else
      var m := MapOf(items[..|items| - 1]);
      var last := items[|items| - 1];
      assert forall k :: HasKey(items, k) <==> HasKey(items[..|items| - 1], k) || k == last.0;
      m[last.0 := last.1]
  }

  /** Erasing position i moves the last item into it. */
  ghost function EraseAt<K, T>(items: seq<(K, T)>, i: nat): seq<(K, T)>
    requires i < |items|
  {
    var n := |items| - 1;
    if i == n then items[..n] else items[i := items[n]][..n]
  }

  lemma {:induction false} EraseAtElements<K, T>(items: seq<(K, T)>, i: nat)
    requires i < |items| && DistinctKeys(items)
    ensures |EraseAt(items, i)| == |items| - 1 && DistinctKeys(EraseAt(items, i))
    ensures forall j | 0 <= j < |items| - 1 :: EraseAt(items, i)[j] == items[if j == i then |items| - 1 else j]
  {
  }

  lemma {:induction false} EraseAtKeys<K(!new), T>(items: seq<(K, T)>, i: nat, k: K)
    requires i < |items| && DistinctKeys(items)
    ensures HasKey(EraseAt(items, i), k) <==> HasKey(items, k) && k != items[i].0
  {
    EraseAtElements(items, i);
    var n, r := |items| - 1, EraseAt(items, i);
    if HasKey(r, k) {
      var j :| 0 <= j < |r| && r[j].0 == k;
      assert items[if j == i then n else j].0 == k;
    }
    if HasKey(items, k) && k != items[i].0 {
      var o :| 0 <= o < |items| && items[o].0 == k;
      assert r[if o == n then i else o].0 == k;
    }
  }

  lemma {:induction false} EraseAtValue<K(!new), T>(items: seq<(K, T)>, i: nat, j: nat)
    requires i < |items| && DistinctKeys(items) && j < |EraseAt(items, i)|
    ensures var k := EraseAt(items, i)[j].0;
            HasKey(items, k) && MapOf(EraseAt(items, i))[k] == MapOf(items)[k]
  {
    EraseAtElements(items, i);
    var o := if j == i then |items| - 1 else j;
    assert items[o] == EraseAt(items, i)[j];
  }

  lemma {:induction false} EraseAtKeySet<K(!new), T>(items: seq<(K, T)>, i: nat)
    requires i < |items| && DistinctKeys(items)
    ensures MapOf(EraseAt(items, i)).Keys == MapOf(items).Keys - {items[i].0}
  {
    forall k ensures k in MapOf(EraseAt(items, i)).Keys <==> k in MapOf(items).Keys && k != items[i].0 {
      EraseAtKeys(items, i, k);
    }
  }

  lemma {:induction false} SameMap<K, T>(m: map<K, T>, m': map<K, T>)
    requires m.Keys == m'.Keys && forall k | k in m :: m[k] == m'[k]
    ensures m == m'
  {
  }

  lemma {:induction false} EraseAtIsMapRemoval<K(!new), T>(items: seq<(K, T)>, i: nat)
    requires i < |items| && DistinctKeys(items)
    ensures DistinctKeys(EraseAt(items, i))
    ensures MapOf(EraseAt(items, i)) == MapOf(items) - {items[i].0}
  {
    EraseAtElements(items, i);
    EraseAtKeySet(items, i);
    var r := EraseAt(items, i);
    var m, m' := MapOf(items) - {items[i].0}, MapOf(r);
    forall k | k in m' ensures m'[k] == m[k] {
      var j :| 0 <= j < |r| && r[j].0 == k;
      EraseAtValue(items, i, j);
    }
    SameMap(m', m);
  }

  lemma {:induction false} AppendIsMapInsertion<K(!new), T>(items: seq<(K, T)>, key: K, value: T)
    requires DistinctKeys(items) && !HasKey(items, key)
    ensures DistinctKeys(items + [(key, value)])
    ensures MapOf(items + [(key, value)]) == MapOf(items)[key := value]
  {
    assert (items + [(key, value)])[..|items|] == items;
  }

  // ------------------------------------------------------------ the table

  lemma {:induction false} AppendIsMapInsertionIfNew<K(!new), T>(items: seq<(K, T)>, key: K, value: T)
    requires DistinctKeys(items)
    ensures !HasKey(items, key) ==> MapOf(items + [(key, value)]) == MapOf(items)[key := value]
    ensures items + [] == items
  {
    if !HasKey(items, key) {
      AppendIsMapInsertion(items, key, value);
    }
  }

  lemma {:induction false} ItemsAppend<K, T>(es: seq<Entry<K, T>>, e: Entry<K, T>)
    ensures Items(es + [e]) == Items(es) + [(e.key, e.value)]
  {
  }

  lemma {:induction false} ItemsMoved<K, T>(es: seq<Entry<K, T>>, c: seq<int>, q: nat, index: int)
    requires q < |c| && 0 <= index < |es| && forall o | 0 <= o < |c| :: 0 <= c[o] < |es|
    ensures Items(Moved(es, c, q, index)) == Items(es)[index := Items(es)[c[q]]]
  {
  }

  lemma {:induction false} LinkInRange<K(!new), T(!new)>(hash: K -> nat, es: seq<Entry<K, T>>, ht: seq<int>, chains: seq<seq<int>>,
                                                          live: set<int>, b: nat, q: nat)
    requires Wired(hash, es, ht, chains, live) && b < |ht| && q < |chains[b]|
    ensures forall o | 0 <= o < |chains[b]| :: 0 <= chains[b][o] < |es|
    ensures forall o, o' | 0 <= o < o' < |chains[b]| :: chains[b][o] != chains[b][o']
  {
    assert Lists(hash, es, |ht|, live, b, ht[b], chains[b]);
  }

  /** What redirecting the link k to the last entry does to the chains and the items. */
  lemma {:induction false} RelinkKeepsWired<K(!new), T(!new)>(hash: K -> nat, es: seq<Entry<K, T>>, ht: seq<int>, chains: seq<seq<int>>,
                                                               live: set<int>, b: nat, q: nat, index: nat, k: int,
                                                               es': seq<Entry<K, T>>, ht': seq<int>)
    requires Wired(hash, es, ht, chains, live) && b < |ht| && index < |es| - 1 && index !in live
    requires q < |chains[b]| && chains[b][q] == |es| - 1 && k == if q == 0 then |es| - 1 else chains[b][q - 1]
    requires 0 <= k < |es| && ht' == if k == |es| - 1 then ht[b := index] else ht
    requires es' == (if k == |es| - 1 then es else es[k := es[k].(next := index)])[index := es[|es| - 1]]
    ensures |es'| == |es| && Items(es') == Items(es)[index := Items(es)[|es| - 1]]
    ensures Wired(hash, es', ht', chains[b := chains[b][q := index]], live - {|es| - 1} + {index})
  {
    LinkInRange(hash, es, ht, chains, live, b, q);
    MoveKeepsWired(hash, es, ht, chains, live, b, q, index);
    ItemsMoved(es, chains[b], q, index);
    assert es' == Moved(es, chains[b], q, index);
  }

  lemma {:induction false} ItemsPop<K, T>(es: seq<Entry<K, T>>)
    requires |es| > 0
    ensures Items(es[..|es| - 1]) == Items(es)[..|es| - 1]
  {
  }

  class HashTable<K(==, !new), T(!new)> {
    const hash: K -> nat
    var hashtable: seq<int>
    var entries: seq<Entry<K, T>>
    ghost var chains: seq<seq<int>>

    ghost predicate Valid()
      reads this
    {
      && Wired(hash, entries, hashtable, chains, Indices(|entries|))
      && (|entries| > 0 ==> |hashtable| > 0)
      && DistinctKeys(Items(entries))
    }

    ghost function Contents(): map<K, T>
      reads this
    {
      MapOf(Items(entries))
    }

    constructor (hash: K -> nat)
      ensures Valid() && Items(entries) == [] && this.hash == hash
    {
      this.hash := hash;
      hashtable, entries, chains := [], [], [];
    }

    function DoHash(key: K): (h: nat)
      reads this
    {
      if |hashtable| == 0 then 0 else Bucket(hash, |hashtable|, key)
    }

    /** Rebuilds every chain; the entries keep their places. */
    method DoRehash()
      requires DistinctKeys(Items(entries))
      modifies this
      ensures Valid() && Items(entries) == old(Items(entries))
    {
      // the vector's capacity, and the first prime of a fixed table that is large enough
      var capacity: nat :| |entries| <= capacity;
      var size: nat :| 3 * capacity <= size && (capacity == 0 ==> size == 0);
      hashtable := seq(size, _ => -1);
      chains := seq(size, _ => []);
      var i := 0;
      while i < |entries|
        invariant 0 <= i <= |entries| && |hashtable| == size
        invariant Wired(hash, entries, hashtable, chains, Indices(i))
        invariant Items(entries) == old(Items(entries))
      {
        var h := DoHash(entries[i].key);
        assert Lists(hash, entries, size, Indices(i), h, hashtable[h], chains[h]);
        LinkKeepsWired(hash, entries, hashtable, chains, i, entries[i].(next := hashtable[h]));
        entries := entries[i := entries[i].(next := hashtable[h])];
        hashtable := hashtable[h := i];
        chains := chains[h := [i] + chains[h]];
        i := i + 1;
      }
    }

    /** The walk along one chain. */
    method DoLookupInternal(key: K, h: nat) returns (index: int)
      requires Valid() && |hashtable| > 0 && h == DoHash(key)
      ensures -1 <= index < |entries|
      ensures index >= 0 ==> entries[index].key == key
      ensures index == -1 ==> !HasKey(Items(entries), key)
    {
      ghost var c := chains[h];
      assert Lists(hash, entries, |hashtable|, Indices(|entries|), h, hashtable[h], c);
      ghost var p := 0;
      index := hashtable[h];
      while index >= 0 && entries[index].key != key
        invariant 0 <= p <= |c|
        invariant index == (if p < |c| then c[p] else -1)
        invariant -1 <= index < |entries|
        invariant forall q | 0 <= q < p :: entries[c[q]].key != key
        decreases |c| - p
      {
        assert entries[c[p]].next == if p + 1 < |c| then c[p + 1] else -1;
        index := entries[index].next;
        p := p + 1;
      }
      if index < 0 {
        AbsentFromChain(hash, entries, |hashtable|, h, hashtable[h], c, key);
      }
    }

    method DoLookup(key: K) returns (index: int, h: nat)
      requires Valid()
      modifies this
      ensures Valid() && Items(entries) == old(Items(entries)) && h == DoHash(key)
      ensures -1 <= index < |entries|
      ensures index >= 0 ==> entries[index].key == key
      ensures index == -1 <==> !HasKey(Items(entries), key)
    {
      h := DoHash(key);
      if |hashtable| == 0 {
        return -1, h;
      }
      if |entries| * 2 > |hashtable| {
        DoRehash();
        h := DoHash(key);
      }
      index := DoLookupInternal(key, h);
      assert index >= 0 ==> Items(entries)[index].0 == key;
    }

    method DoLookupNoRehash(key: K) returns (index: int)
      requires Valid()
      ensures -1 <= index < |entries|
      ensures index >= 0 ==> entries[index].key == key
      ensures index == -1 <==> !HasKey(Items(entries), key)
    {
      if |hashtable| == 0 {
        return -1;
      }
      index := DoLookupInternal(key, DoHash(key));
      assert index >= 0 ==> Items(entries)[index].0 == key;
    }

    method DoInsert(key: K, value: T, h: nat) returns (index: int)
      requires Valid() && !HasKey(Items(entries), key) && h == DoHash(key)
      modifies this
      ensures Valid() && Items(entries) == old(Items(entries)) + [(key, value)]
      ensures index == |entries| - 1
    {
      AppendIsMapInsertion(Items(entries), key, value);
      if |hashtable| == 0 {
        ItemsAppend(entries, Entry(key, value, -1));
        entries := entries + [Entry(key, value, -1)];
        DoRehash();
      } else {
        PushFront(key, value, h);
      }
      return |entries| - 1;
    }

    method PushFront(key: K, value: T, h: nat)
      requires Wired(hash, entries, hashtable, chains, Indices(|entries|))
      requires |hashtable| > 0 && h == Bucket(hash, |hashtable|, key)
      modifies this
      ensures Wired(hash, entries, hashtable, chains, Indices(|entries|)) && |hashtable| > 0
      ensures Items(entries) == old(Items(entries)) + [(key, value)]
    {
      var e := Entry(key, value, hashtable[h]);
      AppendKeepsWired(hash, entries, hashtable, chains, e);
      ItemsAppend(entries, e);
      chains := chains[h := [|entries|] + chains[h]];
      entries := entries + [e];
      hashtable := hashtable[h := |entries| - 1];
    }

    /** Finds the chain position of `index` by walking; the source keeps only the predecessor k. */
    method FindPredecessor(index: int, h: nat, ghost live: set<int>) returns (k: int, ghost p: nat)
      requires Wired(hash, entries, hashtable, chains, live)
      requires h < |hashtable| && index in live && h == Bucket(hash, |hashtable|, entries[index].key)
      ensures p < |chains[h]| && chains[h][p] == index
      ensures k == if p == 0 then index else chains[h][p - 1]
    {
      ghost var c := chains[h];
      assert Lists(hash, entries, |hashtable|, live, h, hashtable[h], c);
      assert index in c;
      ghost var o :| 0 <= o < |c| && c[o] == index;
      k := hashtable[h];
      p := 0;
      if k != index {
        p := 1;
        while entries[k].next != index
          invariant 1 <= p <= o && k == c[p - 1] && 0 <= k < |entries|
          decreases o - p
        {
          assert entries[c[p - 1]].next == c[p];
          k := entries[k].next;
          p := p + 1;
        }
        assert entries[c[p - 1]].next == c[p];
      }
    }

    /** First half of an erasure: takes `index` out of its chain. */
    method UnlinkEntry(index: nat, h: nat)
      requires Valid() && index < |entries| && h == DoHash(entries[index].key)
      modifies this
      ensures Wired(hash, entries, hashtable, chains, Indices(|entries|) - {index})
      ensures Items(entries) == old(Items(entries)) && |hashtable| == old(|hashtable|)
    {
      var k; ghost var p;
      k, p := FindPredecessor(index, h, Indices(|entries|));
      UnlinkKeepsWired(hash, entries, hashtable, chains, Indices(|entries|), h, p);
      if k == index {
        hashtable := hashtable[h := entries[index].next];
      } else {
        entries := entries[k := entries[k].(next := entries[index].next)];
      }
      chains := chains[h := Without(chains[h], p)];
    }

    /** Second half: the last entry takes the place of the unlinked one. */
    method MoveBackTo(index: nat)
      requires index < |entries| - 1 && |hashtable| > 0
      requires Wired(hash, entries, hashtable, chains, Indices(|entries|) - {index})
      modifies this
      ensures |entries| > 0 && Wired(hash, entries, hashtable, chains, Indices(|entries| - 1))
      ensures |entries| == old(|entries|) && |hashtable| == old(|hashtable|)
      ensures var items := old(Items(entries)); Items(entries) == items[index := items[|items| - 1]]
    {
      var backIdx := |entries| - 1;
      ghost var live := Indices(|entries|) - {index};
      var backHash := DoHash(entries[backIdx].key);
      var k; ghost var q;
      k, q := FindPredecessor(backIdx, backHash, live);
      RelinkBack(index, k, backHash, q, live);
      assert live - {backIdx} + {index} == Indices(backIdx);
    }

    method RelinkBack(index: nat, k: int, backHash: nat, ghost q: nat, ghost live: set<int>)
      requires index < |entries| - 1 && backHash < |hashtable|
      requires Wired(hash, entries, hashtable, chains, live) && index !in live
      requires q < |chains[backHash]| && chains[backHash][q] == |entries| - 1
      requires k == if q == 0 then |entries| - 1 else chains[backHash][q - 1]
      modifies this
      ensures |entries| == old(|entries|) && |hashtable| == old(|hashtable|)
      ensures Wired(hash, entries, hashtable, chains, live - {|entries| - 1} + {index})
      ensures var items := old(Items(entries)); Items(entries) == items[index := items[|items| - 1]]
    {
      var backIdx := |entries| - 1;
      var es, ht := entries, hashtable;
      LinkInRange(hash, es, ht, chains, live, backHash, q);
      if k == backIdx {
        ht := ht[backHash := index];
      } else {
        es := es[k := es[k].(next := index)];
      }
      es := es[index := es[backIdx]];
      RelinkKeepsWired(hash, entries, hashtable, chains, live, backHash, q, index, k, es, ht);
      entries, hashtable := es, ht;
      chains := chains[backHash := chains[backHash][q := index]];
    }

    method PopBack()
      requires |entries| > 0 && |hashtable| > 0
      requires Wired(hash, entries, hashtable, chains, Indices(|entries| - 1))
      modifies this
      ensures Wired(hash, entries, hashtable, chains, Indices(|entries|))
      ensures |entries| > 0 ==> |hashtable| > 0
      ensures Items(entries) == old(Items(entries)[..|entries| - 1])
    {
      ShrinkKeepsWired(hash, entries, hashtable, chains);
      ItemsPop(entries);
      entries := entries[..|entries| - 1];
      if |entries| == 0 {
        hashtable, chains := [], [];
      }
    }

    method DoErase(index: int, h: nat) returns (erased: int)
      requires Valid() && index < |entries|
      requires index >= 0 ==> h == DoHash(entries[index].key)
      modifies this
      ensures Valid()
      ensures index < 0 ==> erased == 0 && Items(entries) == old(Items(entries))
      ensures index >= 0 ==> erased == 1 && Items(entries) == EraseAt(old(Items(entries)), index)
    {
      if |hashtable| == 0 || index < 0 {
        return 0;
      }
      ghost var items := Items(entries);
      EraseAtElements(items, index);
      UnlinkEntry(index, h);
      if index != |entries| - 1 {
        MoveBackTo(index);
      } else {
        assert Indices(|entries|) - {index} == Indices(|entries| - 1);
      }
      PopBack();
      return 1;
    }

    // ------------------------------------------------- public operations

    /** Keeps an existing entry for the key; otherwise appends one. */
    method Insert(key: K, value: T) returns (index: int, inserted: bool)
      requires Valid()
      modifies this
      ensures Valid() && 0 <= index < |entries| && entries[index].key == key
      ensures inserted <==> key !in old(Contents())
      ensures Items(entries) == old(Items(entries)) + (if inserted then [(key, value)] else [])
      ensures Contents() == if inserted then old(Contents())[key := value] else old(Contents())
    {
      AppendIsMapInsertionIfNew(Items(entries), key, value);
      var h;
      index, h := DoLookup(key);
      inserted := index < 0;
      if inserted {
        index := DoInsert(key, value, h);
        assert Items(entries)[index] == (key, value);
      }
    }

    method Erase(key: K) returns (erased: int)
      requires Valid()
      modifies this
      ensures Valid() && Contents() == old(Contents()) - {key}
      ensures erased == if key in old(Contents()) then 1 else 0
    {
      var index, h := DoLookup(key);
      if index >= 0 {
        assert Items(entries)[index].0 == key;
        EraseAtIsMapRemoval(Items(entries), index);
      }
      erased := DoErase(index, h);
    }

    /** Erasing through an iterator: iteration runs downwards, so it goes on at the next lower index. */
    method EraseIterator(index: nat) returns (next: int)
      requires Valid() && index < |entries|
      modifies this
      ensures Valid() && next == index - 1
      ensures Items(entries) == EraseAt(old(Items(entries)), index)
      ensures Contents() == old(Contents()) - {old(entries)[index].key}
    {
      EraseAtIsMapRemoval(Items(entries), index);
      var h := DoHash(entries[index].key);
      var erased := DoErase(index, h);
      return index - 1;
    }

    method Count(key: K) returns (count: int)
      requires Valid()
      ensures count == if key in Contents() then 1 else 0
    {
      var i := DoLookupNoRehash(key);
      return if i < 0 then 0 else 1;
    }

    /** `at` without a default throws on a missing key; here that is None. */
    method At(key: K) returns (value: Option<T>)
      requires Valid()
      ensures value == if key in Contents() then Some(Contents()[key]) else None
    {
      var i := DoLookupNoRehash(key);
      if i < 0 {
        return None;
      }
      assert Items(entries)[i] == (key, entries[i].value);
      return Some(entries[i].value);
    }

    /** `find`, which may rehash. */
    method Find(key: K) returns (value: Option<T>)
      requires Valid()
      modifies this
      ensures Valid() && Items(entries) == old(Items(entries))
      ensures value == if key in Contents() then Some(Contents()[key]) else None
    {
      var i, h := DoLookup(key);
      if i < 0 {
        return None;
      }
      assert Items(entries)[i] == (key, entries[i].value);
      return Some(entries[i].value);
    }

    method Clear()
      modifies this
      ensures Valid() && Items(entries) == []
    {
      hashtable, entries, chains := [], [], [];
    }

    // ----------------------------------------------------- whole histories

    /**
     * Any history of operations answers, and ends, as the mathematical map
     * does; `maps` lists its values from before the first operation to after
     * the last.
     */
    method Run(ops: seq<Op<K, T>>) returns (answers: seq<Option<T>>, ghost maps: seq<map<K, T>>)
      requires Valid()
      modifies this
      ensures Valid() && |answers| == |ops| && |maps| == |ops| + 1
      ensures maps[0] == old(Contents()) && maps[|ops|] == Contents()
      ensures forall i, next | 0 <= i < |ops| && next == i + 1 && ops[i].InsertOp? ::
                maps[next] == (if ops[i].key in maps[i] then maps[i] else maps[i][ops[i].key := ops[i].value]) && answers[i] == None
      ensures forall i, next | 0 <= i < |ops| && next == i + 1 && ops[i].EraseOp? :: maps[next] == maps[i] - {ops[i].key} && answers[i] == None
      ensures forall i, next | 0 <= i < |ops| && next == i + 1 && ops[i].LookupOp? ::
                maps[next] == maps[i] && answers[i] == if ops[i].key in maps[i] then Some(maps[i][ops[i].key]) else None
      ensures forall i, next | 0 <= i < |ops| && next == i + 1 && ops[i].RehashOp? :: maps[next] == maps[i] && answers[i] == None
    {
      answers, maps := ApplyAll(ops);
      forall i, next | 0 <= i < |ops| && next == i + 1 ensures Applied(ops[i], maps[i], maps[next], answers[i]) { }
    }

    method ApplyAll(ops: seq<Op<K, T>>) returns (answers: seq<Option<T>>, ghost maps: seq<map<K, T>>)
      requires Valid()
      modifies this
      ensures Valid() && |answers| == |ops| && |maps| == |ops| + 1
      ensures maps[0] == old(Contents()) && maps[|ops|] == Contents()
      ensures forall i, next | 0 <= i < |ops| && next == i + 1 :: Applied(ops[i], maps[i], maps[next], answers[i])
    {
      answers, maps := [], [Contents()];
      for n := 0 to |ops|
        invariant Valid() && |answers| == n && |maps| == n + 1 && maps[0] == old(Contents()) && maps[n] == Contents()
        invariant forall i, next | 0 <= i < n && next == i + 1 :: Applied(ops[i], maps[i], maps[next], answers[i])
      {
        ghost var before := Contents();
        var answer := None;
        match ops[n] {
          case InsertOp(key, value) =>
            var i, inserted := Insert(key, value);
          case EraseOp(key) =>
            var erased := Erase(key);
          case LookupOp(key) =>
            answer := Find(key);
          case RehashOp =>
            DoRehash();
        }
        assert Applied(ops[n], before, Contents(), answer);
        answers, maps := answers + [answer], maps + [Contents()];
      }
    }
  }

  datatype Op<K, T> = InsertOp(key: K, value: T) | EraseOp(key: K) | LookupOp(key: K) | RehashOp

  /** One operation on the map m. */
  ghost predicate Applied<K, T>(op: Op<K, T>, m: map<K, T>, m': map<K, T>, answer: Option<T>) {
    match op
    case InsertOp(key, value) => m' == (if key in m then m else m[key := value]) && answer == None
    case EraseOp(key) => m' == m - {key} && answer == None
    case LookupOp(key) => m' == m && answer == (if key in m then Some(m[key]) else None)
    case RehashOp => m' == m && answer == None
  }

  // ---------------------------------------------------------------- idict

  ghost function KeysOf<K, T>(items: seq<(K, T)>): (r: seq<K>)
    ensures |r| == |items| && forall i | 0 <= i < |items| :: r[i] == items[i].0
  {
    seq(|items|, i requires 0 <= i < |items| => items[i].0)
  }

  lemma {:induction false} KeysHave<K, T>(items: seq<(K, T)>, key: K)
    ensures key in KeysOf(items) <==> HasKey(items, key)
  {
    if HasKey(items, key) {
      var i :| 0 <= i < |items| && items[i].0 == key;
      assert KeysOf(items)[i] == key;
    }
  }

  lemma {:induction false} KeysAppend<K, T>(items: seq<(K, T)>, key: K, value: T)
    ensures KeysOf(items + [(key, value)]) == KeysOf(items) + [key]
    ensures items + [] == items
  {
  }

  /** `idict`: gives every key the index at which it was first inserted. */
  class IndexTable<K(==, !new)> {
    const offset: int
    const database: HashTable<K, ()>

    ghost predicate Valid()
      reads this, database
    {
      database.Valid()
    }

    /** The keys in order of first use; key number i has index offset + i. */
    ghost function Keys(): (r: seq<K>)
      reads this, database
    {
      KeysOf(Items(database.entries))
    }

    constructor (hash: K -> nat, offset: int)
      ensures Valid() && fresh(database) && Keys() == [] && this.offset == offset
    {
      this.offset := offset;
      database := new HashTable(hash);
    }

    /** `operator()`: looks the key up, adding it if it is new.  No other key's index changes. */
    method IndexOf(key: K) returns (index: int)
      requires Valid()
      modifies database
      ensures Valid() && Keys() == (if key in old(Keys()) then old(Keys()) else old(Keys()) + [key])
      ensures 0 <= index - offset < |Keys()| && Keys()[index - offset] == key
    {
      KeysHave(Items(database.entries), key);
      KeysAppend(Items(database.entries), key, ());
      var i, inserted := database.Insert(key, ());
      return i + offset;
    }

    /** `at`: the index of a known key, and None where the source throws. */
    method IndexAt(key: K) returns (index: Option<int>)
      requires Valid()
      ensures index.None? <==> key !in Keys()
      ensures index.Some? ==> 0 <= index.value - offset < |Keys()| && Keys()[index.value - offset] == key
    {
      KeysHave(Items(database.entries), key);
      var i := database.DoLookupNoRehash(key);
      if i < 0 {
        return None;
      }
      assert Keys()[i] == key;
      return Some(i + offset);
    }

    /** `operator[]`: the key with a given index. */
    method KeyAt(index: int) returns (key: K)
      requires Valid() && 0 <= index - offset < |Keys()|
      ensures key == Keys()[index - offset]
    {
      return database.entries[index - offset].key;
    }

    lemma {:induction false} KeysDistinct()
      requires Valid()
      ensures forall i, j | 0 <= i < j < |Keys()| :: Keys()[i] != Keys()[j]
    {
    }
  }
}
