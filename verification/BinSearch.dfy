/** The best fit over all large bins, from the searches of single bins. */
module BinSearch {
  import opened Memory
  import opened Powers
  import opened Bitmap
  import opened TreeIndex
  import opened Trie
  import opened TrieHeap
  import opened TrieWalk
  import opened Bins
  import opened BestFit

  /** The binned chunks too large for the small bins. */
  ghost function LargeOf(binned: set<nat>, h: Heads): set<nat> {
    set p | p in binned && MIN_LARGE_SIZE <= Size(h, p)
  }

  /** No chunk in the bins before bin i fits. */
  ghost predicate NoneBelow(b: Bins, h: Heads, nb: nat, i: nat)
    requires i <= |b.tries|
  {
    forall j, p :: 0 <= j < i && p in Members(b.tries[j]) ==> Size(h, p) < nb
  }

  /** The bins before the one nb selects hold smaller sizes. */
  lemma NoneBelowOwn(b: Bins, treemap: Word, roots: seq<nat>, base: nat, m: Links, h: Heads, nb: nat)
    requires Shape(b, roots) && TreesOk(b, treemap, roots, base, m, h) && MIN_LARGE_SIZE <= nb
    requires 0 <= ComputeTreeIndex(nb) < NTREEBINS
    ensures NoneBelow(b, h, nb, ComputeTreeIndex(nb))
  {
    forall j, p | 0 <= j < ComputeTreeIndex(nb) && p in Members(b.tries[j]) ensures Size(h, p) < nb {
      assert TreeOk(b.tries[j], j, roots[j], base, m, h);
      assert LargeIn(p, j, base, h);
      TreeIndexMonotone(Size(h, p), nb);
    }
  }

  lemma UnmarkedEmpty(b: Bins, treemap: Word, roots: seq<nat>, base: nat, m: Links, h: Heads, j: nat)
    requires Shape(b, roots) && TreesOk(b, treemap, roots, base, m, h) && j < NTREEBINS && !treemap[j]
    ensures Members(b.tries[j]) == {}
  {
  }

  /** Unmarked bins are empty: nothing fits below the least marked bin above idx. */
  lemma NoneBelowNext(b: Bins, treemap: Word, roots: seq<nat>, base: nat, m: Links, h: Heads, nb: nat, idx: nat, i: nat)
    requires Shape(b, roots) && TreesOk(b, treemap, roots, base, m, h) && idx < i <= NTREEBINS
    requires NoneBelow(b, h, nb, idx)
    requires forall p :: p in Members(b.tries[idx]) ==> Size(h, p) < nb
    requires forall j :: idx < j < i ==> !treemap[j]
    ensures NoneBelow(b, h, nb, i)
  {
    forall j | 0 <= j < i ensures forall p :: p in Members(b.tries[j]) ==> Size(h, p) < nb {
      if idx < j { UnmarkedEmpty(b, treemap, roots, base, m, h, j); }
    }
  }

  /** Everything in a bin above the one nb selects fits. */
  lemma AboveFits(t: Trie, i: nat, root: nat, base: nat, m: Links, h: Heads, nb: nat)
    requires TreeOk(t, i, root, base, m, h) && MIN_LARGE_SIZE <= nb && ComputeTreeIndex(nb) < i
    ensures AllFit(t, h, nb)
  {
    forall p | p in Members(t) ensures nb <= Size(h, p) {
      assert LargeIn(p, i, base, h);
      TreeIndexMonotone(nb, Size(h, p));
    }
  }

  lemma SizesKept(t: Trie, i: nat, root: nat, base: nat, m: Links, h: Heads)
    requires TreeOk(t, i, root, base, m, h)
    ensures SizesBelow(t, h)
  {
    forall p | p in Members(t) ensures 0 < p && Size(h, p) < SIZE_T { assert LargeIn(p, i, base, h); }
  }

  /** The bin of a large chunk. */
  lemma LargeInTrie(b: Bins, h: Heads, binned: set<nat>, p: nat) returns (j: nat)
    requires |b.small| == NSMALLBINS && |b.tries| == NTREEBINS && Holds(b, h, binned) && p in LargeOf(binned, h)
    ensures j < NTREEBINS && p in Members(b.tries[j]) && j == ComputeTreeIndex(Size(h, p))
  {
    assert InItsBin(b, p, h);
    j := ComputeTreeIndex(Size(h, p));
  }

  lemma InLarge(b: Bins, treemap: Word, roots: seq<nat>, base: nat, m: Links, h: Heads, binned: set<nat>, i: nat,
        v: nat)
    requires Shape(b, roots) && TreesOk(b, treemap, roots, base, m, h) && Holds(b, h, binned)
    requires i < NTREEBINS && v in Members(b.tries[i])
    ensures v in LargeOf(binned, h) && LargeIn(v, i, base, h)
  {
    assert TreeOk(b.tries[i], i, roots[i], base, m, h);
  }

  /** The best of the first bin with a fit is the best of all. */
  lemma BestOfAll(b: Bins, treemap: Word, roots: seq<nat>, base: nat, m: Links, h: Heads, binned: set<nat>, nb: nat,
        i: nat, v: nat, rsize: nat)
    requires Shape(b, roots) && TreesOk(b, treemap, roots, base, m, h) && Holds(b, h, binned)
    requires i < NTREEBINS && NoneBelow(b, h, nb, i) && v != 0 && BestOf(Members(b.tries[i]), h, nb, v, rsize)
    ensures BestOf(LargeOf(binned, h), h, nb, v, rsize)
  {
    InLarge(b, treemap, roots, base, m, h, binned, i, v);
    forall p | p in LargeOf(binned, h) && nb <= Size(h, p) ensures Beats(h, v, p) {
      BeatsElsewhere(b, base, h, binned, nb, i, v, rsize, p);
    }
  }

  lemma BeatsElsewhere(b: Bins, base: nat, h: Heads, binned: set<nat>, nb: nat, i: nat, v: nat, rsize: nat, p: nat)
    requires |b.small| == NSMALLBINS && |b.tries| == NTREEBINS && Holds(b, h, binned)
    requires i < NTREEBINS && NoneBelow(b, h, nb, i) && v != 0 && BestOf(Members(b.tries[i]), h, nb, v, rsize)
    requires LargeIn(v, i, base, h) && p in LargeOf(binned, h) && nb <= Size(h, p)
    ensures Beats(h, v, p)
  {
    var j := LargeInTrie(b, h, binned, p);
    if i < j { TreeIndexMonotone(Size(h, v), Size(h, p)); }
  }

  lemma BestOfNone(b: Bins, h: Heads, binned: set<nat>, nb: nat)
    requires |b.small| == NSMALLBINS && |b.tries| == NTREEBINS && Holds(b, h, binned) && 0 < nb < SIZE_T
    requires NoneBelow(b, h, nb, NTREEBINS)
    ensures BestOf(LargeOf(binned, h), h, nb, 0, SIZE_T - nb)
  {
    forall p | p in LargeOf(binned, h) ensures Size(h, p) < nb {
      var j := LargeInTrie(b, h, binned, p);
    }
  }

  /** A search of all bins: at t below tree bin i, v being the candidate so far. */
  ghost predicate Searching(b: Bins, roots: seq<nat>, base: nat, m: Links, h: Heads, nb: nat, i: nat, v: nat,
        rsize: nat, t: Trie, T: nat, par: nat, lo: nat, d: nat)
    requires Shape(b, roots) && i < NTREEBINS
  {
    NoneBelow(b, h, nb, i) && MinSearch(TreeOf(b, roots, base, m, h, i), nb, v, rsize, t, T, par, lo, d) &&
    (v == 0 && T == 0 ==> NoneBelow(b, h, nb, NTREEBINS) && rsize == SIZE_T - nb)
  }

  /** Tree bin i as a walk sees it. */
  ghost function TreeOf(b: Bins, roots: seq<nat>, base: nat, m: Links, h: Heads, i: nat): Tree
    requires Shape(b, roots) && i < NTREEBINS
  {
    Tree(b.tries[i], BinLo(i), BinDepth(i), roots[i], Slot(base, i), i, m, h)
  }

  lemma TreeOfOk(b: Bins, treemap: Word, roots: seq<nat>, base: nat, m: Links, h: Heads, i: nat)
    requires Shape(b, roots) && TreesOk(b, treemap, roots, base, m, h) && i < NTREEBINS
    ensures var u := TreeOf(b, roots, base, m, h, i);
      TreeRep(u) && SizesBelow(u.t, h) && (treemap[i] <==> u.t.Node?) && (u.t.Nil? <==> roots[i] == 0)
  {
    SizesKept(b.tries[i], i, roots[i], base, m, h);
  }

  lemma SearchEnds(b: Bins, treemap: Word, roots: seq<nat>, base: nat, m: Links, h: Heads, binned: set<nat>, nb: nat,
        i: nat, v: nat, rsize: nat, t: Trie, T: nat, par: nat, lo: nat, d: nat, v': nat, r': nat)
    requires BinsShapeOk(b, treemap, roots, base, m, h, binned) && i < NTREEBINS && 0 < nb < SIZE_T
    requires Searching(b, roots, base, m, h, nb, i, v, rsize, t, T, par, lo, d)
    requires BestOf(Members(b.tries[i]), h, nb, v', r') && (v == 0 && T == 0 ==> v' == 0)
    ensures BestOf(LargeOf(binned, h), h, nb, v', r') && (v != 0 || T != 0 ==> v' != 0)
  {
    if v == 0 && T == 0 {
      BestOfNone(b, h, binned, nb);
    } else {
      MinSearchFinds(TreeOf(b, roots, base, m, h, i), nb, v, rsize, t, T, par, lo, d, v', r');
      BestOfAll(b, treemap, roots, base, m, h, binned, nb, i, v', r');
    }
  }

  ghost predicate BinsShapeOk(b: Bins, treemap: Word, roots: seq<nat>, base: nat, m: Links, h: Heads,
        binned: set<nat>) {
    Shape(b, roots) && TreesOk(b, treemap, roots, base, m, h) && Holds(b, h, binned)
  }

  /** Nothing found where nb belongs: the marks above it say where to go on, if anywhere. */
  lemma NextBin(b: Bins, treemap: Word, roots: seq<nat>, base: nat, m: Links, h: Heads, nb: nat, idx: nat, v: nat,
        rsize: nat, t: Trie, T: nat, par: nat, lo: nat, d: nat)
    requires Shape(b, roots) && TreesOk(b, treemap, roots, base, m, h) && MIN_LARGE_SIZE <= nb < SIZE_T
    requires idx < NTREEBINS && idx == ComputeTreeIndex(nb)
    requires MinSearch(TreeOf(b, roots, base, m, h, idx), nb, 0, rsize, t, 0, par, lo, d)
    ensures var left := And(LeftBits(Idx2Bit(idx)), treemap);
      if left == Zero() then NoneBelow(b, h, nb, idx) && NoneBelow(b, h, nb, NTREEBINS)
      else
        (var i := Bit2Idx(LeastBit(left), 0);
        i < NTREEBINS && roots[i] != 0 && var u := TreeOf(b, roots, base, m, h, i);
        NoneBelow(b, h, nb, i) && MinSearch(u, nb, 0, SIZE_T - nb, u.t, u.root, u.slot, u.lo, u.d))
  {
    var left := And(LeftBits(Idx2Bit(idx)), treemap);
    NoneBelowOwn(b, treemap, roots, base, m, h, nb);
    MinSearchEnd(TreeOf(b, roots, base, m, h, idx), nb, 0, rsize, t, par, lo, d);
    assert forall p :: p in Members(b.tries[idx]) ==> Size(h, p) < nb;
    MarksAbove(treemap, idx);
    if left == Zero() {
      forall j | idx < j < NTREEBINS ensures !treemap[j] { assert !left[j]; }
      NoneBelowNext(b, treemap, roots, base, m, h, nb, idx, NTREEBINS);
    } else {
      LeastMarked(left);
      var i := Bit2Idx(LeastBit(left), 0);
      forall j | idx < j < i ensures !treemap[j] { assert !left[j]; }
      NoneBelowNext(b, treemap, roots, base, m, h, nb, idx, i);
      NextBinStart(b, treemap, roots, base, m, h, nb, i);
    }
  }

  lemma NextBinStart(b: Bins, treemap: Word, roots: seq<nat>, base: nat, m: Links, h: Heads, nb: nat, i: nat)
    requires Shape(b, roots) && TreesOk(b, treemap, roots, base, m, h) && MIN_LARGE_SIZE <= nb < SIZE_T
    requires i < NTREEBINS && ComputeTreeIndex(nb) < i && treemap[i]
    ensures var u := TreeOf(b, roots, base, m, h, i);
      roots[i] != 0 && MinSearch(u, nb, 0, SIZE_T - nb, u.t, u.root, u.slot, u.lo, u.d)
  {
    TreeOfOk(b, treemap, roots, base, m, h, i);
    AboveFits(b.tries[i], i, roots[i], base, m, h, nb);
    MinSearchStart(TreeOf(b, roots, base, m, h, i), nb);
  }

  /** The first marked bin is where a request too small for any tree bin looks. */
  lemma FirstBin(b: Bins, treemap: Word, roots: seq<nat>, base: nat, m: Links, h: Heads, nb: nat)
    requires Shape(b, roots) && TreesOk(b, treemap, roots, base, m, h) && 0 < nb <= MIN_LARGE_SIZE && treemap != Zero()
    ensures var i := Bit2Idx(LeastBit(treemap), 0);
      i < NTREEBINS && roots[i] != 0 && NoneBelow(b, h, nb, i) && var u := TreeOf(b, roots, base, m, h, i);
      MinSearch(u, nb, 0, SIZE_T - nb, u.t, u.root, u.slot, u.lo, u.d) && AllFit(u.t, h, nb)
  {
    var i := Bit2Idx(LeastBit(treemap), 0);
    LeastMarked(treemap);
    forall j | 0 <= j < i ensures forall p :: p in Members(b.tries[j]) ==> Size(h, p) < nb {
      UnmarkedEmpty(b, treemap, roots, base, m, h, j);
    }
    TreeOfOk(b, treemap, roots, base, m, h, i);
    forall p | p in Members(b.tries[i]) ensures nb <= Size(h, p) { assert LargeIn(p, i, base, h); }
    MinSearchStart(TreeOf(b, roots, base, m, h, i), nb);
  }

  /** There the root is the first candidate. */
  lemma FirstCandidate(b: Bins, treemap: Word, roots: seq<nat>, base: nat, m: Links, h: Heads, nb: nat)
    requires Shape(b, roots) && TreesOk(b, treemap, roots, base, m, h) && 0 < nb <= MIN_LARGE_SIZE && treemap != Zero()
    ensures var i := Bit2Idx(LeastBit(treemap), 0);
      i < NTREEBINS && roots[i] != 0 && b.tries[i].Node? && var u := TreeOf(b, roots, base, m, h, i);
      Searching(b, roots, base, m, h, nb, i, u.root, Sub64(Size(h, u.root), nb), LmTrie(u.t, u.d),
        LeftmostChild(m, u.root),
                u.root, LmLo(u.t, u.lo, u.d), LmDepth(u.d))
  {
    FirstBin(b, treemap, roots, base, m, h, nb);
    var u := TreeOf(b, roots, base, m, h, Bit2Idx(LeastBit(treemap), 0));
    MinSearchStep(u, nb, 0, SIZE_T - nb, u.t, u.root, u.slot, u.lo, u.d);
    assert u.root in Elements(u.t.ring);
    WrapTest(Members(u.t), h, nb, 0, SIZE_T - nb, u.root);
  }
}
