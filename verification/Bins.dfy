/** All bins of an mspace: 32 small bins of one size each and 32 tries, the bin
    maps that summarise them, and the set of chunks they hold between them. */
module Bins {
  import opened Memory
  import opened Powers
  import opened Bitmap
  import opened TreeIndex
  import R = Ring
  import opened Trie
  import opened TrieHeap
  import opened TrieWalk

  const NSMALLBINS: nat := 32
  const MIN_LARGE_SIZE: nat := 256

  // Offsets from the start of the segment: the header of small bin 0 seen as a
  // chunk, the slot of tree bin 0, and the first chunk behind the malloc_state.
  const HEADER_OFFSET: nat := 88
  const SLOT_OFFSET: nat := 616
  const FIRST_OFFSET: nat := 936

  /** smallbin_at(M, i) */
  function Header(base: nat, i: nat): nat { base + HEADER_OFFSET + 16 * i }

  /** treebin_at(M, i) */
  function Slot(base: nat, i: nat): nat { base + SLOT_OFFSET + 8 * i }

  function First(base: nat): nat { base + FIRST_OFFSET }

  /** The contents of the bins: each small bin in fd order from its header, each trie. */
  datatype Bins = Bins(small: seq<seq<nat>>, tries: seq<Trie>)

  ghost predicate SmallOk(s: seq<nat>, i: nat, base: nat, m: Links, h: Heads) {
    (s != [] ==> R.IsRing([Header(base, i)] + s, m)) &&
    forall p :: p in s ==> First(base) <= p && Size(h, p) == 8 * i
  }

  ghost predicate LargeIn(p: nat, i: nat, base: nat, h: Heads) {
    First(base) <= p && MIN_LARGE_SIZE <= Size(h, p) < SIZE_T && ComputeTreeIndex(Size(h, p)) == i
  }

  ghost predicate TreeOk(t: Trie, i: nat, root: nat, base: nat, m: Links, h: Heads) {
    Ok(t, BinLo(i), BinDepth(i), h) && Rep(t, root, Slot(base, i), i, m) &&
    forall p :: p in Members(t) ==> LargeIn(p, i, base, h)
  }

  /** p sits in the one bin its size selects. */
  ghost predicate InItsBin(b: Bins, p: nat, h: Heads)
    requires |b.small| == NSMALLBINS && |b.tries| == NTREEBINS
  {
    var s := Size(h, p);
    if s < MIN_LARGE_SIZE then p in b.small[s / 8]
    else 0 <= ComputeTreeIndex(s) < NTREEBINS && p in Members(b.tries[ComputeTreeIndex(s)])
  }

  ghost predicate Shape(b: Bins, roots: seq<nat>) {
    |b.small| == NSMALLBINS && |b.tries| == NTREEBINS && |roots| == NTREEBINS
  }

  ghost predicate SmallsOk(b: Bins, smallmap: Word, base: nat, m: Links, h: Heads)
    requires |b.small| == NSMALLBINS
  {
    forall i :: 0 <= i < NSMALLBINS ==> SmallOk(b.small[i], i, base, m, h) && (smallmap[i] <==> b.small[i] != [])
  }

  ghost predicate TreesOk(b: Bins, treemap: Word, roots: seq<nat>, base: nat, m: Links, h: Heads)
    requires |b.tries| == NTREEBINS && |roots| == NTREEBINS
  {
    forall i :: 0 <= i < NTREEBINS ==>
      TreeOk(b.tries[i], i, roots[i], base, m, h) && (treemap[i] <==> b.tries[i].Node?)
  }

  /** The bins hold exactly the chunks in binned. */
  ghost predicate Holds(b: Bins, h: Heads, binned: set<nat>)
    requires |b.small| == NSMALLBINS && |b.tries| == NTREEBINS
  {
    (forall i, p :: 0 <= i < NSMALLBINS && p in b.small[i] ==> p in binned) &&
    (forall i, p :: 0 <= i < NTREEBINS && p in Members(b.tries[i]) ==> p in binned) &&
    (forall p :: p in binned ==> InItsBin(b, p, h))
  }

  ghost predicate BinsOk(b: Bins, smallmap: Word, treemap: Word, roots: seq<nat>, base: nat, m: Links, h: Heads,
        binned: set<nat>) {
    Shape(b, roots) && SmallsOk(b, smallmap, base, m, h) && TreesOk(b, treemap, roots, base, m, h) &&
    Holds(b, h, binned)
  }

  // ----- what a change inside one bin leaves alone

  /** m and n differ only at the header of small bin i and at chunks of its size. */
  ghost predicate OnlySmall(m: Links, n: Links, i: nat, base: nat, h: Heads) {
    forall p :: At(m, p) == At(n, p) || p == Header(base, i) || (First(base) <= p && Size(h, p) == 8 * i)
  }

  /** m and n differ only at chunks of sizes kept in tree bin i. */
  ghost predicate OnlyTree(m: Links, n: Links, i: nat, base: nat, h: Heads) {
    forall p :: At(m, p) == At(n, p) || LargeIn(p, i, base, h)
  }

  lemma SmallElsewhere(s: seq<nat>, j: nat, i: nat, base: nat, m: Links, n: Links, h: Heads)
    requires SmallOk(s, j, base, m, h) && OnlySmall(m, n, i, base, h) && i != j && i < NSMALLBINS && j < NSMALLBINS
    ensures SmallOk(s, j, base, n, h)
  {
    if s != [] {
      var ring := [Header(base, j)] + s;
      forall p | p in ring ensures R.SameRing(m, n, p) { assert p == Header(base, j) || p in s; }
      R.Frame(ring, m, n);
    }
  }

  lemma SmallBesideTree(s: seq<nat>, j: nat, i: nat, base: nat, m: Links, n: Links, h: Heads)
    requires SmallOk(s, j, base, m, h) && OnlyTree(m, n, i, base, h) && j < NSMALLBINS
    ensures SmallOk(s, j, base, n, h)
  {
    if s != [] {
      var ring := [Header(base, j)] + s;
      forall p | p in ring ensures R.SameRing(m, n, p) { assert p == Header(base, j) || p in s; }
      R.Frame(ring, m, n);
    }
  }

  lemma TreeBesideSmall(t: Trie, j: nat, root: nat, i: nat, base: nat, m: Links, n: Links, h: Heads)
    requires TreeOk(t, j, root, base, m, h) && OnlySmall(m, n, i, base, h) && i < NSMALLBINS
    ensures TreeOk(t, j, root, base, n, h)
  {
    forall p | p in Members(t) ensures At(m, p) == At(n, p) { assert LargeIn(p, j, base, h); }
    RepFrame(t, root, Slot(base, j), j, m, n);
  }

  lemma TreeElsewhere(t: Trie, j: nat, root: nat, i: nat, base: nat, m: Links, n: Links, h: Heads)
    requires TreeOk(t, j, root, base, m, h) && OnlyTree(m, n, i, base, h) && i != j
    ensures TreeOk(t, j, root, base, n, h)
  {
    forall p | p in Members(t) ensures At(m, p) == At(n, p) { assert LargeIn(p, j, base, h); }
    RepFrame(t, root, Slot(base, j), j, m, n);
  }

  /** One small bin changed: the other small bins and all tries stand. */
  lemma SmallChanged(b: Bins, smallmap: Word, treemap: Word, roots: seq<nat>, base: nat, m: Links, h: Heads, i: nat,
        s: seq<nat>, n: Links)
    requires Shape(b, roots) && i < NSMALLBINS
    requires SmallsOk(b, smallmap, base, m, h) == true && TreesOk(b, treemap, roots, base, m, h) == true
    requires OnlySmall(m, n, i, base, h) == true && SmallOk(s, i, base, n, h) == true
    ensures SmallsOk(b.(small := b.small[i := s]), smallmap[i := s != []], base, n, h)
    ensures TreesOk(b, treemap, roots, base, n, h)
  {
    var b' := b.(small := b.small[i := s]);
    forall j | 0 <= j < NSMALLBINS
      ensures SmallOk(b'.small[j], j, base, n, h) && (smallmap[i := s != []][j] <==> b'.small[j] != [])
    {
      if j != i { SmallElsewhere(b.small[j], j, i, base, m, n, h); }
    }
    forall j | 0 <= j < NTREEBINS ensures TreeOk(b.tries[j], j, roots[j], base, n, h) {
      TreeBesideSmall(b.tries[j], j, roots[j], i, base, m, n, h);
    }
  }

  /** One trie changed: the other tries and all small bins stand. */
  lemma TreeChanged(b: Bins, smallmap: Word, treemap: Word, roots: seq<nat>, base: nat, m: Links, h: Heads, i: nat,
        t: Trie, root: nat, n: Links)
    requires Shape(b, roots) && i < NTREEBINS
    requires SmallsOk(b, smallmap, base, m, h) == true && TreesOk(b, treemap, roots, base, m, h) == true
    requires OnlyTree(m, n, i, base, h) == true && TreeOk(t, i, root, base, n, h) == true
    ensures SmallsOk(b, smallmap, base, n, h)
    ensures TreesOk(b.(tries := b.tries[i := t]), treemap[i := t.Node?], roots[i := root], base, n, h)
  {
    var b' := b.(tries := b.tries[i := t]);
    forall j | 0 <= j < NTREEBINS
      ensures TreeOk(b'.tries[j], j, roots[i := root][j], base, n, h) &&
        (treemap[i := t.Node?][j] <==> b'.tries[j].Node?)
    {
      if j != i { TreeElsewhere(b.tries[j], j, roots[j], i, base, m, n, h); }
    }
    forall j | 0 <= j < NSMALLBINS ensures SmallOk(b.small[j], j, base, n, h) {
      SmallBesideTree(b.small[j], j, i, base, m, n, h);
    }
  }

  // ----- which chunks the bins hold after a change

  lemma HoldsSmallChange(b: Bins, h: Heads, binned: set<nat>, i: nat, s: seq<nat>, x: nat, added: bool)
    requires |b.small| == NSMALLBINS && |b.tries| == NTREEBINS && i < NSMALLBINS
    requires Holds(b, h, binned) && Size(h, x) == 8 * i
    requires added ==> forall p :: p in s <==> p in b.small[i] || p == x
    requires !added ==> forall p :: p in s <==> p in b.small[i] && p != x
    requires !added ==> forall j :: 0 <= j < NSMALLBINS && x in b.small[j] ==> j == i
    requires !added ==> forall j :: 0 <= j < NTREEBINS ==> x !in Members(b.tries[j])
    ensures Holds(b.(small := b.small[i := s]), h, if added then binned + {x} else binned - {x})
  {
    var b' := b.(small := b.small[i := s]);
    var binned' := if added then binned + {x} else binned - {x};
    forall p | p in binned' ensures InItsBin(b', p, h) {
      if p in binned { assert InItsBin(b, p, h); }
    }
  }

  lemma HoldsTreeChange(b: Bins, h: Heads, binned: set<nat>, i: nat, t: Trie, x: nat, added: bool)
    requires |b.small| == NSMALLBINS && |b.tries| == NTREEBINS && i < NTREEBINS
    requires Holds(b, h, binned) == true && Size(h, x) >= MIN_LARGE_SIZE && ComputeTreeIndex(Size(h, x)) == i
    requires added ==> Members(t) == Members(b.tries[i]) + {x}
    requires !added ==> Members(t) == Members(b.tries[i]) - {x}
    requires !added ==> forall j :: 0 <= j < NTREEBINS && x in Members(b.tries[j]) ==> j == i
    requires !added ==> forall j :: 0 <= j < NSMALLBINS ==> x !in b.small[j]
    ensures Holds(b.(tries := b.tries[i := t]), h, if added then binned + {x} else binned - {x})
  {
    var b' := b.(tries := b.tries[i := t]);
    var binned' := if added then binned + {x} else binned - {x};
    forall p | p in binned' ensures InItsBin(b', p, h) {
      if p in binned { assert InItsBin(b, p, h); }
    }
  }

  /** A chunk of small bin i is in no other bin. */
  lemma OnlyInSmall(b: Bins, smallmap: Word, treemap: Word, roots: seq<nat>, base: nat, m: Links, h: Heads, i: nat,
        x: nat)
    requires Shape(b, roots) && i < NSMALLBINS && Size(h, x) == 8 * i
    requires SmallsOk(b, smallmap, base, m, h) && TreesOk(b, treemap, roots, base, m, h)
    ensures forall j :: 0 <= j < NSMALLBINS && x in b.small[j] ==> j == i
    ensures forall j :: 0 <= j < NTREEBINS ==> x !in Members(b.tries[j])
  {
    forall j | 0 <= j < NSMALLBINS && x in b.small[j] ensures j == i { assert SmallOk(b.small[j], j, base, m, h); }
    forall j | 0 <= j < NTREEBINS ensures x !in Members(b.tries[j]) {
      assert TreeOk(b.tries[j], j, roots[j], base, m, h);
      assert x in Members(b.tries[j]) ==> LargeIn(x, j, base, h);
    }
  }

  lemma OnlyInTree(b: Bins, smallmap: Word, treemap: Word, roots: seq<nat>, base: nat, m: Links, h: Heads, i: nat,
        x: nat)
    requires Shape(b, roots) && i < NTREEBINS && Size(h, x) >= MIN_LARGE_SIZE && ComputeTreeIndex(Size(h, x)) == i
    requires SmallsOk(b, smallmap, base, m, h) && TreesOk(b, treemap, roots, base, m, h)
    ensures forall j :: 0 <= j < NTREEBINS && x in Members(b.tries[j]) ==> j == i
    ensures forall j :: 0 <= j < NSMALLBINS ==> x !in b.small[j]
  {
    forall j | 0 <= j < NTREEBINS && x in Members(b.tries[j]) ensures j == i {
      assert TreeOk(b.tries[j], j, roots[j], base, m, h);
      assert LargeIn(x, j, base, h);
    }
    forall j | 0 <= j < NSMALLBINS ensures x !in b.small[j] { assert SmallOk(b.small[j], j, base, m, h); }
  }

  // ----- small bins

  /** insert_small_chunk: x enters its bin at the front. F is what the code picks as
      the chunk behind it: the header when the bin is unmarked, else the old first. */
  lemma SmallInserted(b: Bins, smallmap: Word, treemap: Word, roots: seq<nat>, base: nat, m: Links, h: Heads,
        binned: set<nat>, x: nat, i: nat, F: nat)
    requires BinsOk(b, smallmap, treemap, roots, base, m, h, binned)
    requires i < NSMALLBINS && x !in binned && First(base) <= x && Size(h, x) == 8 * i
    requires F == if smallmap[i] then At(m, Header(base, i)).fd else Header(base, i)
    ensures BinsOk(b.(small := b.small[i := [x] + b.small[i]]), smallmap[i := true], treemap, roots, base,
                   R.Linked(m, Header(base, i), x, F), h, binned + {x})
  {
    var s, H := b.small[i], Header(base, i);
    var n := R.Linked(m, H, x, F);
    assert SmallOk(s, i, base, m, h) && (smallmap[i] <==> s != []);
    assert x !in s;
    SmallRingInserted(s, i, base, m, h, x, F, n);
    SmallChanged(b, smallmap, treemap, roots, base, m, h, i, [x] + s, n);
    HoldsSmallChange(b, h, binned, i, [x] + s, x, true);
  }

  lemma SmallRingInserted(s: seq<nat>, i: nat, base: nat, m: Links, h: Heads, x: nat, F: nat, n: Links)
    requires SmallOk(s, i, base, m, h) && i < NSMALLBINS && x !in s && First(base) <= x && Size(h, x) == 8 * i
    requires F == (if s != [] then At(m, Header(base, i)).fd else Header(base, i)) &&
      n == R.Linked(m, Header(base, i), x, F)
    ensures SmallOk([x] + s, i, base, n, h) == true && OnlySmall(m, n, i, base, h) == true
  {
    var H := Header(base, i);
    if s == [] {
      R.InsertEmpty(H, m, x);
    } else {
      var ring := [H] + s;
      assert At(m, H).fd == s[0] by { assert At(m, ring[0]).fd == R.After(ring, 0); }
      R.Insert(ring, m, x, n);
      assert R.Inserted(ring, x) == [H] + ([x] + s);
    }
    assert [H] + ([x] + s) == [H, x] + s;
    assert F == H || F in s;
    R.LinkedWords(m, H, x, F);
  }

  /** The neighbours of the k-th chunk of a small bin, and when they coincide. */
  lemma SmallNeighbours(s: seq<nat>, k: nat, i: nat, base: nat, m: Links, h: Heads)
    requires SmallOk(s, i, base, m, h) && k < |s| && i < NSMALLBINS
    ensures var H, x := Header(base, i), s[k];
      At(m, x).bk == (if k == 0 then H else s[k - 1]) &&
      At(m, x).fd == (if k + 1 == |s| then H else s[k + 1]) &&
      (At(m, x).fd == At(m, x).bk <==> |s| == 1) && At(m, H).fd == s[0] && R.Distinct(s) && H !in s
  {
    var ring := [Header(base, i)] + s;
    R.Neighbours(ring, m, k + 1);
    R.Neighbours(ring, m, 0);
    assert ring[k + 1] == s[k];
    forall a, b | 0 <= a < b < |s| ensures s[a] != s[b] { assert ring[a + 1] != ring[b + 1]; }
  }

  /** unlink_small_chunk and unlink_first_small_chunk: the k-th chunk leaves its bin. */
  lemma SmallRemoved(b: Bins, smallmap: Word, treemap: Word, roots: seq<nat>, base: nat, m: Links, h: Heads,
        binned: set<nat>, i: nat, k: nat)
    requires BinsOk(b, smallmap, treemap, roots, base, m, h, binned)
    requires i < NSMALLBINS && k < |b.small[i]|
    ensures var s, x := b.small[i], b.small[i][k];
      var B, F := At(m, x).bk, At(m, x).fd;
      BinsOk(b.(small := b.small[i := R.Removed(s, k)]), smallmap[i := |s| != 1], treemap, roots, base,
             if |s| == 1 then m else R.Joined(m, B, F), h, binned - {x})
  {
    var s, x, H := b.small[i], b.small[i][k], Header(base, i);
    var B, F := At(m, x).bk, At(m, x).fd;
    assert SmallOk(s, i, base, m, h);
    SmallNeighbours(s, k, i, base, m, h);
    var s' := R.Removed(s, k);
    var n := if |s| == 1 then m else R.Joined(m, B, F);
    SmallRingRemoved(s, k, i, base, m, h, n);
    SmallChanged(b, smallmap, treemap, roots, base, m, h, i, s', n);
    R.RemovedDistinct(s, k);
    OnlyInSmall(b, smallmap, treemap, roots, base, m, h, i, x);
    HoldsSmallChange(b, h, binned, i, s', x, false);
  }

  lemma SmallRingRemoved(s: seq<nat>, k: nat, i: nat, base: nat, m: Links, h: Heads, n: Links)
    requires SmallOk(s, i, base, m, h) && k < |s| && i < NSMALLBINS
    requires n == if |s| == 1 then m else R.Joined(m, At(m, s[k]).bk, At(m, s[k]).fd)
    ensures SmallOk(R.Removed(s, k), i, base, n, h) && OnlySmall(m, n, i, base, h)
  {
    SmallNeighbours(s, k, i, base, m, h);
    R.RemovedDistinct(s, k);
    if |s| != 1 {
      var ring := [Header(base, i)] + s;
      R.Neighbours(ring, m, k + 1);
      R.Remove(ring, m, k + 1, n);
      assert R.Removed(ring, k + 1) == [Header(base, i)] + R.Removed(s, k);
      JoinedOnlySmall(s, i, base, m, h, At(m, s[k]).bk, At(m, s[k]).fd);
    }
  }

  lemma JoinedOnlySmall(s: seq<nat>, i: nat, base: nat, m: Links, h: Heads, B: nat, F: nat)
    requires SmallOk(s, i, base, m, h) && (B == Header(base, i) || B in s) && (F == Header(base, i) || F in s)
    ensures OnlySmall(m, R.Joined(m, B, F), i, base, h)
  {
    R.JoinedWords(m, B, F);
  }

  // ----- large bins

  /** Bin i takes the trie t, which holds x as well. */
  lemma TreeGrown(b: Bins, smallmap: Word, treemap: Word, roots: seq<nat>, base: nat, m: Links, h: Heads,
        binned: set<nat>, i: nat, t: Trie, root: nat, x: nat, n: Links)
    requires BinsOk(b, smallmap, treemap, roots, base, m, h, binned)
    requires i < NTREEBINS && LargeIn(x, i, base, h) && t.Node?
    requires OnlyTree(m, n, i, base, h) == true && Members(t) == Members(b.tries[i]) + {x}
    requires Ok(t, BinLo(i), BinDepth(i), h) && Rep(t, root, Slot(base, i), i, n)
    ensures BinsOk(b.(tries := b.tries[i := t]), smallmap, treemap[i := true], roots[i := root], base, n, h,
      binned + {x})
  {
    assert TreeOk(b.tries[i], i, roots[i], base, m, h);
    assert TreeOk(t, i, root, base, n, h);
    TreeChanged(b, smallmap, treemap, roots, base, m, h, i, t, root, n);
    HoldsTreeChange(b, h, binned, i, t, x, true);
  }

  /** Bin i takes the trie t, which lost x. */
  lemma TreeShrunk(b: Bins, smallmap: Word, treemap: Word, roots: seq<nat>, base: nat, m: Links, h: Heads,
        binned: set<nat>, i: nat, t: Trie, root: nat, x: nat, n: Links)
    requires BinsOk(b, smallmap, treemap, roots, base, m, h, binned)
    requires i < NTREEBINS && LargeIn(x, i, base, h)
    requires OnlyTree(m, n, i, base, h) && Members(t) == Members(b.tries[i]) - {x}
    requires Ok(t, BinLo(i), BinDepth(i), h) && Rep(t, root, Slot(base, i), i, n)
    ensures BinsOk(b.(tries := b.tries[i := t]), smallmap, treemap[i := t.Node?], roots[i := root], base, n, h,
      binned - {x})
  {
    assert TreeOk(b.tries[i], i, roots[i], base, m, h);
    assert TreeOk(t, i, root, base, n, h);
    TreeChanged(b, smallmap, treemap, roots, base, m, h, i, t, root, n);
    TreeShrunkHolds(b, smallmap, treemap, roots, base, m, h, binned, i, t, x);
  }

  lemma TreeShrunkHolds(b: Bins, smallmap: Word, treemap: Word, roots: seq<nat>, base: nat, m: Links, h: Heads,
        binned: set<nat>, i: nat, t: Trie, x: nat)
    requires BinsOk(b, smallmap, treemap, roots, base, m, h, binned)
    requires i < NTREEBINS && LargeIn(x, i, base, h) && Members(t) == Members(b.tries[i]) - {x}
    ensures Holds(b.(tries := b.tries[i := t]), h, binned - {x})
  {
    OnlyInTree(b, smallmap, treemap, roots, base, m, h, i, x);
    HoldsTreeChange(b, h, binned, i, t, x, false);
  }

  /** Only the sizes of binned chunks matter: heads elsewhere may change freely. */
  lemma HeadsElsewhere(b: Bins, smallmap: Word, treemap: Word, roots: seq<nat>, base: nat, m: Links, h: Heads,
        h': Heads, binned: set<nat>)
    requires BinsOk(b, smallmap, treemap, roots, base, m, h, binned)
    requires forall p :: p in binned ==> Size(h, p) == Size(h', p)
    ensures BinsOk(b, smallmap, treemap, roots, base, m, h', binned)
  {
    forall i | 0 <= i < NSMALLBINS ensures SmallOk(b.small[i], i, base, m, h') {
      assert SmallOk(b.small[i], i, base, m, h);
    }
    forall i | 0 <= i < NTREEBINS ensures TreeOk(b.tries[i], i, roots[i], base, m, h') {
      assert TreeOk(b.tries[i], i, roots[i], base, m, h);
      OkFrame(b.tries[i], BinLo(i), BinDepth(i), h, h');
      forall p | p in Members(b.tries[i]) ensures LargeIn(p, i, base, h') { assert LargeIn(p, i, base, h); }
    }
    forall p | p in binned ensures InItsBin(b, p, h') { assert InItsBin(b, p, h); }
  }

  /** The walk's view of tree bin i. */
  ghost predicate IsTree(b: Tree, i: nat, base: nat) {
    i < NTREEBINS && b.lo == BinLo(i) && b.d == BinDepth(i) && b.slot == Slot(base, i) && b.i == i
  }

  /** What an insertion into its bin may rely on. */
  lemma LargeReady(b: Tree, i: nat, base: nat, X: nat, S: nat)
    requires IsTree(b, i, base) && TreeOk(b.t, i, b.root, base, b.m, b.h)
    requires MIN_LARGE_SIZE <= S < SIZE_T && S % 8 == 0 && i == ComputeTreeIndex(S) && Size(b.h, X) == S
    ensures TreeRep(b) && b.lo % 8 == 0 && b.lo <= S < b.lo + Width(b.d) && Steers(StartBits(S, i), S, b.lo, b.d)
    ensures Separate(b.t) && Ok(Insert(b.t, X, S, b.lo, b.d), b.lo, b.d, b.h)
    ensures Members(Insert(b.t, X, S, b.lo, b.d)) == Members(b.t) + {X}
  {
    BinSpan(S);
    StartSteers(S);
    DescentEnd(b, S, X);
  }

  /** insert_large_chunk: X has entered its trie. */
  lemma LargeEntered(b: Tree, bn: Bins, smallmap: Word, treemap: Word, roots: seq<nat>, base: nat, binned: set<nat>,
        i: nat, X: nat, S: nat, root: nat, n: Links)
    requires BinsOk(bn, smallmap, treemap, roots, base, b.m, b.h, binned)
    requires IsTree(b, i, base) && b.t == bn.tries[i] && b.root == roots[i]
    requires First(base) <= X && MIN_LARGE_SIZE <= S < SIZE_T && S % 8 == 0 && i == ComputeTreeIndex(S) &&
      Size(b.h, X) == S
    requires Entered(b, S, X, n, root)
    ensures BinsOk(bn.(tries := bn.tries[i := Insert(b.t, X, S, b.lo, b.d)]), smallmap, treemap[i := true],
      roots[i := root],
                   base, n, b.h, binned + {X})
  {
    assert TreeOk(b.t, i, b.root, base, b.m, b.h);
    LargeReady(b, i, base, X, S);
    assert OnlyTree(b.m, n, i, base, b.h);
    TreeGrown(bn, smallmap, treemap, roots, base, b.m, b.h, binned, i, Insert(b.t, X, S, b.lo, b.d), root, X, n);
  }

  /** unlink_large_chunk: X has left its trie. */
  lemma LargeDeparted(b: Tree, bn: Bins, smallmap: Word, treemap: Word, roots: seq<nat>, base: nat, binned: set<nat>,
        i: nat, X: nat, u: Trie, root: nat, n: Links)
    requires BinsOk(bn, smallmap, treemap, roots, base, b.m, b.h, binned)
    requires IsTree(b, i, base) && b.t == bn.tries[i] && b.root == roots[i] && LargeIn(X, i, base, b.h)
    requires Departed(b, X, u, n, root)
    ensures BinsOk(bn.(tries := bn.tries[i := u]), smallmap, treemap[i := u.Node?], roots[i := root],
                   base, n, b.h, binned - {X})
  {
    assert TreeOk(b.t, i, b.root, base, b.m, b.h);
    assert OnlyTree(b.m, n, i, base, b.h);
    TreeShrunk(bn, smallmap, treemap, roots, base, b.m, b.h, binned, i, u, root, X, n);
  }

  /** The tree bin of a binned large chunk, opened at its node. */
  lemma OpenLarge(b: Tree, bn: Bins, smallmap: Word, treemap: Word, roots: seq<nat>, base: nat, binned: set<nat>,
        i: nat, X: nat) returns (c: Ctx, sub: Trie, q: nat, k: nat)
    requires BinsOk(bn, smallmap, treemap, roots, base, b.m, b.h, binned)
    requires IsTree(b, i, base) && b.t == bn.tries[i] && b.root == roots[i]
    requires X in binned && Size(b.h, X) >= MIN_LARGE_SIZE && ComputeTreeIndex(Size(b.h, X)) == i
    ensures LargeIn(X, i, base, b.h) && Opened(b, X, c, sub, q, k) && Separate(b.t) && X != 0
    ensures At(b.m, X).index == i
  {
    assert TreeOk(b.t, i, b.root, base, b.m, b.h);
    assert InItsBin(bn, X, b.h);
    assert LargeIn(X, i, base, b.h);
    OkSeparate(b.t, b.lo, b.d, b.h);
    c, sub, q := OpenAt(Top, b.t, b.root, b.root, b.slot, b.i, b.m, X);
    k :| 0 <= k < |sub.ring| && sub.ring[k] == X;
  }
}
