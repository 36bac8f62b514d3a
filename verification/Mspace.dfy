/** The mspace allocator: malloc and free over boundary tags and bins. */
module Mspace {
  import opened Memory
  import opened Powers
  import Bitmap
  import opened TreeIndex
  import Ring
  import opened Trie
  import opened TrieHeap
  import opened TrieWalk
  import opened Bins
  import opened Chunks
  import opened Space
  import opened Choice
  import opened Freeing
  import opened BestFit
  import opened BinSearch

  /** align_as_chunk */
  function AlignUp(a: nat): nat { (a + 7) / 8 * 8 }

  lemma AlignedUp(a: nat)
    ensures a <= AlignUp(a) < a + 8 && AlignUp(a) % 8 == 0
  {
  }

  /** create_mspace_with_base: null when the capacity leaves no room or comes near the end of the address space. */
  method CreateMspaceWithBase(tbase: nat, capacity: nat, page_size: nat) returns (m: Mspace?)
    requires 0 < tbase && (tbase + capacity) % 8 == 0 && tbase + capacity < SIZE_T
    requires FIRST_OFFSET + TOP_FOOT_SIZE < capacity ==> First(AlignUp(tbase)) + TOP_FOOT_SIZE < tbase + capacity
    ensures m == null <==>
      !(FIRST_OFFSET + TOP_FOOT_SIZE < capacity < SIZE_T - (FIRST_OFFSET + TOP_FOOT_SIZE + page_size))
    ensures m != null ==> fresh(m) && m.Valid() && m.chunks == {} && m.end == tbase + capacity - TOP_FOOT_SIZE
  {
    m := null;
    if FIRST_OFFSET + TOP_FOOT_SIZE < capacity < SIZE_T - (FIRST_OFFSET + TOP_FOOT_SIZE + page_size) {
      m := new Mspace(tbase, capacity);
    }
  }

  class Mspace {
    const base: nat
    const end: nat

    // words of the segment
    var head: Heads
    var foot: map<nat, nat>
    var links: Links

    // fields of malloc_state; the small bin headers live in links
    var smallmap: Bitmap.Word
    var treemap: Bitmap.Word
    var treebins: seq<nat>
    var dv: nat
    var dvsize: nat
    var top: nat
    var topsize: nat

    // what the words mean
    ghost var chunks: set<nat>
    ghost var prv: map<nat, nat>
    ghost var bins: Bins
    ghost var binned: set<nat>

    ghost function T(): Tags
      reads this
    {
      Tags(chunks, prv, head, foot, top, topsize)
    }

    ghost predicate BinsInv()
      reads this
    {
      BinsOk(bins, smallmap, treemap, treebins, base, links, head, binned)
    }

    ghost function X(): Index
      reads this
    {
      Index(bins, smallmap, treemap, treebins, links, binned, dv, dvsize)
    }

    /** All is well but for these loose chunks: free, yet neither dv nor in a bin. */
    ghost predicate Inv(loose: set<nat>)
      reads this
    {
      SpaceOk(T(), X(), base, end, loose)
    }

    ghost predicate Valid()
      reads this
    {
      Inv({})
    }

    /** create_mspace_with_base with init_user_mstate: the malloc_state takes the first chunk, the
        rest up to the padding for the segment record is top. */
    constructor (tbase: nat, capacity: nat)
      requires 0 < tbase && (tbase + capacity) % 8 == 0 && tbase + capacity < SIZE_T
      requires First(AlignUp(tbase)) + TOP_FOOT_SIZE < tbase + capacity
      ensures Valid() && base == AlignUp(tbase) && end == tbase + capacity - TOP_FOOT_SIZE
      ensures chunks == {} && top == First(base) && dvsize == 0 && binned == {}
    {
      AlignedUp(tbase);
      base := AlignUp(tbase);
      end := tbase + capacity - TOP_FOOT_SIZE;
      var mn := First(AlignUp(tbase));
      var psize := tbase + capacity - mn - TOP_FOOT_SIZE;
      foot := map[];
      links := map[];
      smallmap, treemap := Bitmap.Zero(), Bitmap.Zero();
      treebins := seq(NTREEBINS, i requires 0 <= i < NTREEBINS => 0);
      dv, dvsize := 0, 0;
      top, topsize := mn, psize;
      head := map[mn := Head(psize, false, true)][mn + psize := Head(TOP_FOOT_SIZE, false, false)];
      chunks, prv, binned := {}, map[], {};
      bins := NoBins();
      new;
      InitBins();
      FreshOk(T(), X(), base, end);
    }

    /** init_bins(m) */
    method InitBins()
      modifies this`links
    {
      for i := 0 to NSMALLBINS {
        var bin := Header(base, i);
        links := SetBk(SetFd(links, bin, bin), bin, bin);
      }
    }

    // ----- small bins

    /** insert_small_chunk(M, P, S) */
    method InsertSmallChunk(P: nat, S: nat)
      requires BinsInv() == true && P !in binned && First(base) <= P
      requires Size(head, P) == S && S % 8 == 0 && S < MIN_LARGE_SIZE
      modifies this`links, this`smallmap, this`bins, this`binned
      ensures BinsInv() && binned == old(binned) + {P}
      ensures bins == old(bins).(small := old(bins).small[S / 8 := [P] + old(bins).small[S / 8]])
    {
      var I := S / 8;
      var B := Header(base, I);
      var F := B;
      SmallInserted(bins, smallmap, treemap, treebins, base, links, head, binned, P, I,
                    if smallmap[I] then At(links, B).fd else B);
      if !smallmap[I] {
        Bitmap.MarkClear(smallmap, I);
        smallmap := Bitmap.Mark(smallmap, I);
      } else {
        F := At(links, B).fd;
        assert smallmap[I := true] == smallmap;
      }
      links := SetFd(links, B, P);
      links := SetBk(links, F, P);
      links := SetFd(links, P, F);
      links := SetBk(links, P, B);
      bins := bins.(small := bins.small[I := [P] + bins.small[I]]);
      binned := binned + {P};
    }

    /** unlink_small_chunk(M, P, S) */
    method UnlinkSmallChunk(P: nat, S: nat)
      requires BinsInv() == true && P in binned && Size(head, P) == S && S < MIN_LARGE_SIZE
      modifies this`links, this`smallmap, this`bins, this`binned
      ensures BinsInv() && binned == old(binned) - {P}
      ensures bins.tries == old(bins.tries)
    {
      var F := At(links, P).fd;
      var B := At(links, P).bk;
      var I := S / 8;
      assert InItsBin(bins, P, head);
      ghost var k :| 0 <= k < |bins.small[I]| && bins.small[I][k] == P;
      assert SmallOk(bins.small[I], I, base, links, head);
      SmallNeighbours(bins.small[I], k, I, base, links, head);
      SmallRemoved(bins, smallmap, treemap, treebins, base, links, head, binned, I, k);
      if F == B {
        Bitmap.MarkClear(smallmap, I);
        smallmap := Bitmap.Clear(smallmap, I);
      } else {
        links := SetBk(links, F, B);
        links := SetFd(links, B, F);
        assert smallmap[I := true] == smallmap;
      }
      bins := bins.(small := bins.small[I := Ring.Removed(bins.small[I], k)]);
      binned := binned - {P};
    }

    /** b->fd and unlink_first_small_chunk(M, B, P, I) for a marked bin: the chunk at its front. */
    method UnlinkFirstSmallChunk(I: nat) returns (P: nat)
      requires BinsInv() == true && I < NSMALLBINS && smallmap[I]
      modifies this`links, this`smallmap, this`bins, this`binned
      ensures BinsInv() && P in old(binned) && binned == old(binned) - {P} && Size(head, P) == 8 * I
      ensures P == old(bins).small[I][0]
    {
      var B := Header(base, I);
      P := At(links, B).fd;
      assert SmallOk(bins.small[I], I, base, links, head);
      SmallNeighbours(bins.small[I], 0, I, base, links, head);
      SmallRemoved(bins, smallmap, treemap, treebins, base, links, head, binned, I, 0);
      var F := At(links, P).fd;
      if B == F {
        Bitmap.MarkClear(smallmap, I);
        smallmap := Bitmap.Clear(smallmap, I);
      } else {
        links := SetFd(links, B, F);
        links := SetBk(links, F, B);
        assert smallmap[I := true] == smallmap;
        assert links == Ring.Joined(old(links), B, F);
      }
      bins := bins.(small := bins.small[I := Ring.Removed(bins.small[I], 0)]);
      binned := binned - {P};
    }

    // ----- large bins

    /** The descent of insert_large_chunk: down the bits of S to a node of that size, or
        to the node T whose child on the side of the next bit is missing. */
    method FindInsertionPoint(S: nat, I: nat, ghost X: nat, ghost b: Tree)
      returns (T: nat, bit: nat, same: bool, ghost c: Ctx, ghost sub: Trie)
      requires I < NTREEBINS && |treebins| == NTREEBINS && b.root == treebins[I] && b.m == links && b.h == head
      requires TreeRep(b) && b.t.Node? && b.lo % 8 == 0 && S % 8 == 0 && Steers(StartBits(S, I), S, b.lo, b.d)
      ensures InsertionPoint(b, S, X, c, sub, T, bit, same)
    {
      T := treebins[I];
      var K := StartBits(S, I);
      c, sub, bit := Top, b.t, 0;
      ghost var lo, d := b.lo, b.d;
      while true
        invariant Descending(b, c, sub, T, K, S, X, lo, d)
        decreases d
      {
        DescentTurn(b, c, sub, T, K, S, X, lo, d);
        if Size(head, T) == S {
          return T, 0, true, c, sub;
        }
        bit := TopBit(K);
        var C := Child(links, T, bit);
        K := NextBits(K);
        if C == 0 {
          return T, bit, false, c, sub;
        }
        T := C;
        lo := StepLo(lo, d, bit);
        c, sub, d := StepCtx(c, sub, bit), StepTrie(sub, bit), d - 1;
      }
    }

    /** insert_large_chunk(M, X, S) */
    method InsertLargeChunk(X: nat, S: nat)
      requires BinsInv() == true && X !in binned && First(base) <= X
      requires Size(head, X) == S && S % 8 == 0 && MIN_LARGE_SIZE <= S < SIZE_T
      modifies this`links, this`treemap, this`treebins, this`bins, this`binned
      ensures BinsInv() && binned == old(binned) + {X}
      ensures bins.small == old(bins.small)
    {
      var I := ComputeTreeIndex(S);
      TreeIndexRange(S);
      ghost var b := TreeOf(bins, treebins, base, links, head, I);
      assert TreeOk(b.t, I, b.root, base, b.m, b.h) && X !in Members(b.t) && (treemap[I] <==> b.t.Node?);
      LargeReady(b, I, base, X, S);
      LinkIntoTree(X, S, I, b);
      LargeEntered(b, bins, smallmap, old(treemap), old(treebins), base, binned, I, X, S, treebins[I], links);
      bins := bins.(tries := bins.tries[I := Insert(b.t, X, S, b.lo, b.d)]);
      binned := binned + {X};
    }

    /** The marking of the bin and the linking of X into its tree. */
    method LinkIntoTree(X: nat, S: nat, I: nat, ghost b: Tree)
      requires I < NTREEBINS && |treebins| == NTREEBINS && b.root == treebins[I] && b.m == links && b.h == head
      requires IsTree(b, I, base) && (treemap[I] <==> b.t.Node?) && X !in Members(b.t) && X != 0 && Separate(b.t)
      requires TreeRep(b) && b.lo % 8 == 0 && S % 8 == 0 && Steers(StartBits(S, I), S, b.lo, b.d)
      modifies this`links, this`treemap, this`treebins
      ensures |treebins| == NTREEBINS && treebins == old(treebins)[I := treebins[I]]
      ensures treemap == old(treemap)[I := true]
      ensures Entered(b, S, X, links, treebins[I])
    {
      if !treemap[I] {
        Bitmap.MarkClear(treemap, I);
        treemap := Bitmap.Mark(treemap, I);
        treebins := treebins[I := X];
        links := links[X := Link(X, X, 0, 0, Slot(base, I), I)];
        EnterEmpty(b, S, X);
      } else {
        var T, bit, same;
        ghost var c, sub;
        T, bit, same, c, sub := FindInsertionPoint(S, I, X, b);
        if same {
          ChainIn(X, T, I);
          EnterChain(b, S, X, c, sub, T, bit);
        } else {
          HangIn(X, T, bit, I);
          EnterLeaf(b, S, X, c, sub, T, bit);
        }
      }
    }

    /** X joins the ring of T. */
    method ChainIn(X: nat, T: nat, I: nat)
      modifies this`links
      ensures links == Chained(old(links), T, X, I)
    {
      links := SetIndex(links, X, I);
      links := SetChild1(SetChild0(links, X, 0), X, 0);
      var F := At(links, T).fd;
      links := SetBk(links, F, X);
      links := SetFd(links, T, X);
      links := SetFd(links, X, F);
      links := SetBk(links, X, T);
      links := SetParent(links, X, 0);
    }

    /** X becomes the missing child of T on the side bit. */
    method HangIn(X: nat, T: nat, bit: nat, I: nat)
      modifies this`links
      ensures links == Hung(old(links), T, bit, X, I)
    {
      links := SetIndex(links, X, I);
      links := SetChild1(SetChild0(links, X, 0), X, 0);
      links := SetChild(links, T, bit, X);
      links := SetParent(links, X, T);
      links := SetFd(SetBk(links, X, X), X, X);
    }

    /** unlink_large_chunk(M, X) */
    method UnlinkLargeChunk(X: nat)
      requires BinsInv() == true && X in binned && Size(head, X) >= MIN_LARGE_SIZE
      modifies this`links, this`treemap, this`treebins, this`bins, this`binned
      ensures BinsInv() && binned == old(binned) - {X}
      ensures bins.small == old(bins.small)
    {
      ghost var I := ComputeTreeIndex(Size(head, X));
      TreeIndexRange(Size(head, X));
      ghost var b := TreeOf(bins, treebins, base, links, head, I);
      ghost var c, sub, q, k := OpenLarge(b, bins, smallmap, treemap, treebins, base, binned, I, X);
      ghost var u := UnlinkFromTree(X, b, c, sub, q, k, I);
      LargeDeparted(b, bins, smallmap, old(treemap), old(treebins), base, binned, I, X, u, treebins[I], links);
      bins := bins.(tries := bins.tries[I := u]);
      binned := binned - {X};
    }

    /** The words of unlink_large_chunk. */
    method UnlinkFromTree(X: nat, ghost b: Tree, ghost c: Ctx, ghost sub: Trie, ghost q: nat, ghost k: nat,
          ghost I: nat)
      returns (ghost u: Trie)
      requires I < NTREEBINS && |treebins| == NTREEBINS && b.root == treebins[I] && b.m == links
      requires IsTree(b, I, base) && Opened(b, X, c, sub, q, k) && Separate(b.t) && X != 0
      requires At(links, X).index == I && treemap[I]
      modifies this`links, this`treemap, this`treebins
      ensures |treebins| == NTREEBINS && treebins == old(treebins)[I := treebins[I]]
      ensures treemap == old(treemap)[I := u.Node?]
      ensures Departed(b, X, u, links, treebins[I])
    {
      UnlinkTests(b, X, c, sub, q, k);
      var XP := At(links, X).parent;
      var R;
      R, u := UnlinkFromRing(X, b, c, sub, q, k, I);
      if XP != 0 {
        RefillHole(X, XP, R, c, I);
      }
      DepartedRoot(b, X, u, links, treebins[I]);
      assert treemap == old(treemap)[I := u.Node?];
    }

    /** X leaves its ring, or, alone in it, a leaf below X is cut out: R is to take X's place. */
    method UnlinkFromRing(X: nat, ghost b: Tree, ghost c: Ctx, ghost sub: Trie, ghost q: nat, ghost k: nat,
          ghost I: nat)
      returns (R: nat, ghost u: Trie)
      requires b.m == links && b.slot != 0 && Opened(b, X, c, sub, q, k) && Separate(b.t)
      modifies this`links
      ensures if k == 0 then ReadyToRefill(b, X, c, links, R, u) else Departed(b, X, u, links, b.root)
    {
      UnlinkTests(b, X, c, sub, q, k);
      if At(links, X).bk != X {
        if k == 0 {
          u := ReadyAfterJoin(b, X, c, sub);
        } else {
          u := Plug(c, Node(Ring.Removed(sub.ring, k), sub.size, sub.left, sub.right));
          ChainedDeparts(b, X, c, sub, q, k);
        }
        var F := At(links, X).fd;
        R := At(links, X).bk;
        links := SetBk(links, F, R);
        links := SetFd(links, R, F);
      } else {
        ghost var lc, leaf;
        R, lc, leaf := CutRightmostLeaf(X, sub, HoleParent(c, b.slot), b.i);
        if R == 0 {
          u := ReadyAtLeaf(b, X, c, sub);
        } else {
          u := ReadyAfterCut(b, X, c, sub, lc, leaf, R, links);
        }
      }
    }

    /** R = rightmost leaf below X, cut off from its parent; 0 when X has no children. */
    method CutRightmostLeaf(X: nat, ghost sub: Trie, ghost par: nat, ghost i: nat)
      returns (R: nat, ghost lc: Ctx, ghost leaf: Trie)
      requires sub.Node? && Rep(sub, X, par, i, links) && Separate(sub)
      modifies this`links
      ensures if R == 0 then Leaf(sub) && links == old(links)
        else Detached(sub, X, par, i, old(links), lc, leaf, R, links)
    {
      LeafSearchStart(sub, X, par, i, links);
      lc, leaf := Top, sub;
      var owner, side := X, NextSide(links, X);
      R := Child(links, X, side);
      if R != 0 {
        lc, leaf := StepCtx(Top, sub, side), StepTrie(sub, side);
        while Child(links, R, NextSide(links, R)) != 0
          invariant links == old(links) && LeafSearch(sub, X, par, i, links, lc, leaf, R, owner, side)
          decreases leaf
        {
          LeafSearchStep(sub, X, par, i, links, lc, leaf, R, owner, side);
          side := NextSide(links, R);
          lc, leaf := StepCtx(lc, leaf, side), StepTrie(leaf, side);
          owner := R;
          R := Child(links, R, side);
        }
        LeafSearchStep(sub, X, par, i, links, lc, leaf, R, owner, side);
        LeafCut(sub, X, par, i, links, lc, leaf, R, owner, side);
        links := SetChild(links, owner, side, 0);
      }
    }

    /** The word that points at X now points at R, and R takes X's place. */
    method RefillHole(X: nat, XP: nat, R: nat, ghost c: Ctx, ghost I: nat)
      requires I < NTREEBINS && |treebins| == NTREEBINS && At(links, X).index == I
      requires Pointed(c, X, treebins[I], Slot(base, I), links) && XP == HoleParent(c, Slot(base, I))
      modifies this`links, this`treemap, this`treebins
      ensures |treebins| == NTREEBINS && treebins == old(treebins)[I := RootAfter(c, old(treebins)[I], R)]
      ensures treemap == if c == Top && R == 0 then old(treemap)[I := false] else old(treemap)
      ensures links == Refilled(old(links), c, X, R, XP)
    {
      var H := At(links, X).index;
      if X == treebins[H] {
        treebins := treebins[H := R];
        if R == 0 {
          Bitmap.MarkClear(treemap, H);
          treemap := Bitmap.Clear(treemap, H);
        }
      } else if At(links, XP).child0 == X {
        links := SetChild0(links, XP, R);
      } else {
        links := SetChild1(links, XP, R);
      }
      if R != 0 {
        TakeRelatives(X, XP, R);
      }
    }

    /** R takes over X's parent and children. */
    method TakeRelatives(X: nat, XP: nat, R: nat)
      modifies this`links
      ensures links == TakeOver(old(links), X, R, XP)
    {
      links := SetParent(links, R, XP);
      var C0 := At(links, X).child0;
      if C0 != 0 {
        links := SetChild0(links, R, C0);
        links := SetParent(links, C0, R);
      }
      var C1 := At(links, X).child1;
      if C1 != 0 {
        links := SetChild1(links, R, C1);
        links := SetParent(links, C1, R);
      }
    }

    // ----- best fit

    /** The loop of tmalloc_large along the bits of nb in a non-empty bin: ends at an exact
        fit, or at the deepest right subtree passed by. */
    method SearchPath(nb: nat, idx: nat, ghost b: Tree)
      returns (t: nat, v: nat, rsize: nat, ghost sub: Trie, ghost par: nat, ghost lo: nat, ghost d: nat)
      requires idx < NTREEBINS && |treebins| == NTREEBINS && b.root == treebins[idx] && b.m == links && b.h == head
      requires TreeRep(b) && b.t.Node? && SizesBelow(b.t, b.h) && 0 < nb < SIZE_T
      requires Steers(StartBits(nb, idx), nb, b.lo, b.d)
      ensures MinSearch(b, nb, v, rsize, sub, t, par, lo, d) == true
    {
      t, v, rsize := treebins[idx], 0, SIZE_T - nb;
      var sizebits, rst: nat := StartBits(nb, idx), 0;
      ghost var w := WalkFrom(b, nb, sizebits);
      PathTurnBegins(b, nb, sizebits);
      while true
        invariant Walking(b, nb, w) == true
        invariant t == w.t && v == w.v && rsize == w.rsize && rst == w.rst && sizebits == w.bits
        decreases w.d
      {
        WalkTurns(b, nb, w);
        var trem := Sub64(Size(head, t), nb);
        if trem < rsize {
          if trem == 0 {
            WalkExact(b, nb, w);
            return t, t, 0, w.sub, w.par, w.lo, w.d;
          }
          v, rsize := t, trem;
        }
        var bit := TopBit(sizebits);
        rst := Remembered(links, t, bit, rst);
        t := Child(links, t, bit);
        w := Walked(b, nb, w);
        if t == 0 {
          return rst, v, rsize, w.r, w.rpar, w.rlo, w.rd;
        }
        sizebits := NextBits(sizebits);
      }
    }

    /** The loop of tmalloc_large and tmalloc_small down the leftmost path: v becomes the best fit of its bin. */
    method SearchLeftmost(nb: nat, t0: nat, v0: nat, rsize0: nat, ghost b: Tree, ghost sub0: Trie, ghost par0: nat,
          ghost lo0: nat, ghost d0: nat)
      returns (v: nat, rsize: nat)
      requires 0 < nb < SIZE_T && b.m == links && b.h == head
      requires MinSearch(b, nb, v0, rsize0, sub0, t0, par0, lo0, d0)
      ensures BestOf(Members(b.t), head, nb, v, rsize)
    {
      var t := t0;
      v, rsize := v0, rsize0;
      ghost var sub, par, lo, d := sub0, par0, lo0, d0;
      while t != 0
        invariant MinSearch(b, nb, v, rsize, sub, t, par, lo, d) == true
        decreases sub
      {
        MinSearchStep(b, nb, v, rsize, sub, t, par, lo, d);
        var trem := Sub64(Size(head, t), nb);
        if trem < rsize {
          rsize := trem;
          v := t;
        }
        sub, lo, d, par := LmTrie(sub, d), LmLo(sub, lo, d), LmDepth(d), t;
        t := LeftmostChild(links, t);
      }
      MinSearchEnd(b, nb, v, rsize, sub, par, lo, d);
    }

    /** The first half of tmalloc_large: along the path in the bin nb selects, then to the next
        marked bin if that bin holds nothing that fits. */
    method StartLarge(nb: nat)
      returns (t: nat, v: nat, rsize: nat, ghost i: nat, ghost sub: Trie, ghost par: nat, ghost lo: nat, ghost d: nat)
      requires BinsInv() == true && MIN_LARGE_SIZE <= nb < SIZE_T
      ensures i < NTREEBINS && Searching(bins, treebins, base, links, head, nb, i, v, rsize, sub, t, par, lo, d)
    {
      var idx := ComputeTreeIndex(nb);
      BinSpan(nb);
      i := idx;
      t, v, rsize := treebins[idx], 0, SIZE_T - nb;
      ghost var b := TreeOf(bins, treebins, base, links, head, idx);
      TreeOfOk(bins, treemap, treebins, base, links, head, idx);
      NoneBelowOwn(bins, treemap, treebins, base, links, head, nb);
      if t != 0 {
        StartSteers(nb);
        t, v, rsize, sub, par, lo, d := SearchPath(nb, idx, b);
      } else {
        MinSearchStart(b, nb);
        sub, par, lo, d := b.t, b.slot, b.lo, b.d;
      }
      if t == 0 && v == 0 {
        NextBin(bins, treemap, treebins, base, links, head, nb, idx, v, rsize, sub, t, par, lo, d);
        var leftbits := Bitmap.And(Bitmap.LeftBits(Bitmap.Idx2Bit(idx)), treemap);
        if leftbits != Bitmap.Zero() {
          var next := Bitmap.Bit2Idx(Bitmap.LeastBit(leftbits), 0);
          t := treebins[next];
          i := next;
          b := TreeOf(bins, treebins, base, links, head, i);
          sub, par, lo, d := b.t, b.slot, b.lo, b.d;
        }
      }
    }

    /** The search of tmalloc_large: the smallest large chunk that fits. */
    method FindLarge(nb: nat) returns (v: nat, rsize: nat)
      requires BinsInv() == true && MIN_LARGE_SIZE <= nb < SIZE_T
      ensures BestOf(LargeOf(binned, head), head, nb, v, rsize)
    {
      var t;
      ghost var i, sub, par, lo, d;
      t, v, rsize, i, sub, par, lo, d := StartLarge(nb);
      ghost var b := TreeOf(bins, treebins, base, links, head, i);
      ghost var v0, rsize0 := v, rsize;
      v, rsize := SearchLeftmost(nb, t, v, rsize, b, sub, par, lo, d);
      SearchEnds(bins, treemap, treebins, base, links, head, binned, nb, i, v0, rsize0, sub, t, par, lo, d, v, rsize);
    }

    // ----- boundary tags

    /** set_inuse_and_pinuse(M, p, s) */
    method SetInuseAndPinuse(p: nat, s: nat)
      requires s == Size(head, p)
      modifies this`head
      ensures T() == TakeWhole(old(T()), p)
    {
      head := head[p := Head(s, true, true)];
      head := head[p + s := Hd(head, p + s).(pinuse := true)];
    }

    /** A loose chunk is handed out whole. */
    method TakeLoose(p: nat, s: nat)
      requires Inv({p}) == true && Loose(T(), X(), p) && s == Size(head, p)
      modifies this`head
      ensures Inv({}) == true && T() == TakeWhole(old(T()), p)
    {
      TakenOk(T(), X(), base, end, p);
      SetInuseAndPinuse(p, s);
    }

    /** set_size_and_pinuse_of_inuse_chunk(M, p, nb) and set_size_and_pinuse_of_free_chunk(r, rs) */
    method WriteSplit(p: nat, nb: nat, r: nat, rs: nat)
      requires r == p + nb && nb + rs == Size(head, p) && 0 < nb
      modifies this`head, this`foot, this`chunks, this`prv
      ensures T() == SplitFree(old(T()), p, nb)
    {
      ghost var u := SplitFree(T(), p, nb);
      head := head[p := Head(nb, true, true)];
      head := head[r := Head(rs, false, true)];
      foot := foot[r + rs := rs];
      chunks, prv := u.chunks, u.prv;
    }

    /** A loose chunk is handed out but for its last rs bytes, which are loose now. */
    method SplitLoose(p: nat, nb: nat, rs: nat) returns (r: nat)
      requires Inv({p}) == true && Loose(T(), X(), p) && nb + rs == Size(head, p)
      requires nb % 8 == 0 && MIN_CHUNK_SIZE <= nb && MIN_CHUNK_SIZE <= rs
      modifies this`head, this`foot, this`chunks, this`prv
      ensures Inv({r}) == true && r == p + nb && T() == SplitFree(old(T()), p, nb) && r !in old(chunks)
      ensures Loose(T(), X(), r) == true && Size(head, r) == rs
    {
      SplitOk(T(), X(), base, end, p, nb);
      r := p + nb;
      WriteSplit(p, nb, r, rs);
    }

    /** unlink_large_chunk(M, X): X is loose then. */
    method LoosenLarge(P: nat)
      requires Inv({}) == true && P in binned && MIN_LARGE_SIZE <= Size(head, P)
      modifies this`links, this`treemap, this`treebins, this`bins, this`binned
      ensures Inv({P}) == true && Loose(T(), X(), P) == true
    {
      ghost var x := X();
      UnlinkLargeChunk(P);
      UnlinkedOk(T(), x, X(), base, end, {}, P);
      assert {} + {P} == {P};
    }

    /** unlink_chunk(M, P, S) */
    method UnlinkChunk(P: nat, S: nat, ghost loose: set<nat>)
      requires Inv(loose) == true && P in binned && Size(head, P) == S
      modifies this`links, this`smallmap, this`treemap, this`treebins, this`bins, this`binned
      ensures Inv(loose + {P}) == true && Loose(T(), X(), P) == true && binned == old(binned) - {P}
    {
      ghost var x := X();
      if S < MIN_LARGE_SIZE {
        UnlinkSmallChunk(P, S);
      } else {
        UnlinkLargeChunk(P);
      }
      UnlinkedOk(T(), x, X(), base, end, loose, P);
    }

    /** insert_chunk(M, P, S) */
    method InsertChunk(P: nat, S: nat)
      requires Inv({P}) == true && Loose(T(), X(), P) && Size(head, P) == S
      modifies this`links, this`smallmap, this`treemap, this`treebins, this`bins, this`binned
      ensures Inv({}) == true
    {
      ghost var x := X();
      assert {P} - {P} == {};
      LooseFacts(T(), x, base, end, {P}, P);
      if S < MIN_LARGE_SIZE {
        InsertSmallChunk(P, S);
      } else {
        InsertLargeChunk(P, S);
      }
      InsertedOk(T(), x, X(), base, end, {P}, P);
    }

    /** replace_dv(M, P, S) */
    method ReplaceDv(P: nat, S: nat)
      requires Inv({P}) == true && Loose(T(), X(), P) && Size(head, P) == S && dvsize < MIN_LARGE_SIZE
      modifies this`links, this`smallmap, this`bins, this`binned, this`dv, this`dvsize
      ensures Inv({}) == true && dv == P && dvsize == S
    {
      var DVS := dvsize;
      if DVS != 0 {
        var DV := dv;
        ghost var x := X();
        DvLoosened(T(), x, base, end, {P});
        LooseFacts(T(), NoDv(x), base, end, {P} + {DV}, DV);
        InsertSmallChunk(DV, DVS);
        InsertedOk(T(), NoDv(x), NoDv(X()), base, end, {P} + {DV}, DV);
        assert {P} + {DV} - {DV} == {P};
      }
      assert SpaceOk(T(), NoDv(X()), base, end, {P}) == true;
      DvDesignated(T(), NoDv(X()), base, end, P);
      dvsize := S;
      dv := P;
    }

    /** The search of tmalloc_small: the smallest of all large chunks. */
    method FindFirst(nb: nat) returns (v: nat, rsize: nat)
      requires BinsInv() == true && 0 < nb <= MIN_LARGE_SIZE && treemap != Bitmap.Zero()
      ensures v != 0 && BestOf(LargeOf(binned, head), head, nb, v, rsize)
    {
      var i := Bitmap.Bit2Idx(Bitmap.LeastBit(treemap), 0);
      FirstCandidate(bins, treemap, treebins, base, links, head, nb);
      var t := treebins[i];
      ghost var b := TreeOf(bins, treebins, base, links, head, i);
      ghost var sub, lo, d := LmTrie(b.t, b.d), LmLo(b.t, b.lo, b.d), LmDepth(b.d);
      ghost var rest := Sub64(Size(head, t), nb);
      v, rsize := SearchLeftmost(nb, LeftmostChild(links, t), t, Sub64(Size(head, t), nb), b, sub, t, lo, d);
      SearchEnds(bins, treemap, treebins, base, links, head, binned, nb, i, t, rest, sub, LeftmostChild(links, t), t,
        lo, d, v, rsize);
    }

    // ----- the branches of malloc

    /** A loose chunk serves nb; a remainder worth a chunk becomes dv. */
    method CarveToDv(p: nat, nb: nat, rsize: nat)
      requires Inv({p}) == true && Loose(T(), X(), p) && Size(head, p) == nb + rsize
      requires nb % 8 == 0 && MIN_CHUNK_SIZE <= nb < MIN_LARGE_SIZE && dvsize < MIN_LARGE_SIZE
      modifies this`head, this`foot, this`chunks, this`prv, this`links, this`smallmap, this`bins, this`binned, this`dv,
        this`dvsize
      ensures Inv({}) == true && HandedOut(old(T()), old(dv), old(dvsize), p, nb, T(), dv, dvsize) == true
    {
      TopNotChunk(T(), First(base));
      if rsize < MIN_CHUNK_SIZE {
        TakeHandsOut(T(), dv, dvsize, p, nb);
        TakeLoose(p, nb + rsize);
      } else {
        ghost var t := T();
        var r := SplitLoose(p, nb, rsize);
        SplitHandsOut(t, dv, dvsize, p, nb, r, rsize);
        ReplaceDv(r, rsize);
      }
    }

    /** A loose chunk serves nb; a remainder worth a chunk goes to its bin. */
    method CarveToBin(p: nat, nb: nat, rsize: nat)
      requires Inv({p}) == true && Loose(T(), X(), p) && Size(head, p) == nb + rsize
      requires nb % 8 == 0 && MIN_LARGE_SIZE <= nb
      modifies this`head, this`foot, this`chunks, this`prv, this`links, this`smallmap, this`treemap, this`treebins,
        this`bins, this`binned
      ensures Inv({}) == true && HandedOut(old(T()), old(dv), old(dvsize), p, nb, T(), dv, dvsize) == true
    {
      TopNotChunk(T(), First(base));
      if rsize < MIN_CHUNK_SIZE {
        TakeHandsOut(T(), dv, dvsize, p, nb);
        TakeLoose(p, nb + rsize);
      } else {
        ghost var t := T();
        var r := SplitLoose(p, nb, rsize);
        SplitHandsOut(t, dv, dvsize, p, nb, dv, dvsize);
        InsertChunk(r, rsize);
      }
    }

    /** Remainderless fit to a smallbin. */
    method TakeSmallExact(nb: nat, idx: nat) returns (p: nat)
      requires Inv({}) == true && idx < NSMALLBINS && smallmap[idx] && 0 < nb <= 8 * idx < nb + MIN_CHUNK_SIZE
      modifies this`head, this`links, this`smallmap, this`bins, this`binned
      ensures Inv({}) == true && HandedOut(old(T()), old(dv), old(dvsize), p, nb, T(), dv, dvsize) == true
      ensures |old(bins).small| == NSMALLBINS && [p] <= old(bins).small[idx]
    {
      ghost var x := X();
      p := UnlinkFirstSmallChunk(idx);
      UnlinkedOk(T(), x, X(), base, end, {}, p);
      assert {} + {p} == {p};
      TopNotChunk(T(), First(base));
      TakeHandsOut(T(), dv, dvsize, p, nb);
      TakeLoose(p, 8 * idx);
    }

    /** Use chunk in next nonempty smallbin. */
    method TakeSmallNext(nb: nat, i: nat) returns (p: nat)
      requires Inv({}) == true && i < NSMALLBINS && smallmap[i] && nb <= 8 * i
      requires nb % 8 == 0 && MIN_CHUNK_SIZE <= nb && dvsize < MIN_LARGE_SIZE
      modifies this`head, this`foot, this`chunks, this`prv, this`links, this`smallmap, this`bins, this`binned, this`dv,
        this`dvsize
      ensures Inv({}) == true && HandedOut(old(T()), old(dv), old(dvsize), p, nb, T(), dv, dvsize) == true
      ensures |old(bins).small| == NSMALLBINS && [p] <= old(bins).small[i]
    {
      ghost var x := X();
      p := UnlinkFirstSmallChunk(i);
      UnlinkedOk(T(), x, X(), base, end, {}, p);
      assert {} + {p} == {p};
      CarveToDv(p, nb, 8 * i - nb);
    }

    /** tmalloc_small: the smallest large chunk, no small bin having anything for nb. */
    method TmallocSmall(nb: nat, ghost idx: nat) returns (v: nat)
      requires Inv({}) == true && treemap != Bitmap.Zero() && dvsize < nb && nb == 8 * idx && idx < NSMALLBINS &&
        nb % 8 == 0 && MIN_CHUNK_SIZE <= nb
      requires forall j :: idx <= j < NSMALLBINS ==> !smallmap[j]
      modifies this`head, this`foot, this`chunks, this`prv, this`links, this`smallmap, this`treemap, this`treebins,
        this`bins, this`binned, this`dv, this`dvsize
      ensures Inv({}) == true && HandedOut(old(T()), old(dv), old(dvsize), v, nb, T(), dv, dvsize) == true
      ensures v != 0 && Picks(old(T()), old(X()), nb, v) == true
    {
      var rsize;
      v, rsize := PickSmallest(nb, idx);
      TakeToDv(v, nb, rsize);
    }

    method TakeToDv(v: nat, nb: nat, rsize: nat)
      requires Inv({}) == true && v in binned && MIN_LARGE_SIZE <= Size(head, v) == nb + rsize
      requires nb % 8 == 0 && MIN_CHUNK_SIZE <= nb < MIN_LARGE_SIZE && dvsize < MIN_LARGE_SIZE
      modifies this`head, this`foot, this`chunks, this`prv, this`links, this`smallmap, this`treemap, this`treebins,
        this`bins, this`binned, this`dv, this`dvsize
      ensures Inv({}) == true && HandedOut(old(T()), old(dv), old(dvsize), v, nb, T(), dv, dvsize) == true
    {
      LoosenLarge(v);
      CarveToDv(v, nb, rsize);
    }

    method PickSmallest(nb: nat, ghost idx: nat) returns (v: nat, rsize: nat)
      requires Inv({}) == true && treemap != Bitmap.Zero() && dvsize < nb && nb == 8 * idx && 0 < idx < NSMALLBINS
      requires forall j :: idx <= j < NSMALLBINS ==> !smallmap[j]
      ensures v != 0 && v in binned && MIN_LARGE_SIZE <= Size(head, v) == nb + rsize && Picks(T(), X(), nb, v) == true
    {
      v, rsize := FindFirst(nb);
      PickFirst(T(), X(), base, end, idx, v, rsize);
    }

    /** tmalloc_large: the smallest large chunk that fits, if it beats dv; null exactly when dv
        is as good or nothing fits. */
    method TmallocLarge(nb: nat) returns (p: nat)
      requires Inv({}) == true && MIN_LARGE_SIZE <= nb < SIZE_T && nb % 8 == 0
      modifies this`head, this`foot, this`chunks, this`prv, this`links, this`smallmap, this`treemap, this`treebins,
        this`bins, this`binned
      ensures Inv({}) == true
      ensures p != 0 ==>
        p in old(binned) && Picks(old(T()), old(X()), nb, p) == true &&
        HandedOut(old(T()), old(dv), old(dvsize), p, nb, T(), dv, dvsize) == true
      ensures p == 0 ==> T() == old(T()) && X() == old(X())
      ensures p == 0 ==> if nb <= dvsize then Picks(T(), X(), nb, dv) == true else NothingFits(T(), nb) == true
    {
      var v, rsize := PickBest(nb);
      if v != 0 && rsize < Sub64(dvsize, nb) {
        TakeToBin(v, nb, rsize);
        p := v;
      } else {
        p := 0;
      }
    }

    method PickBest(nb: nat) returns (v: nat, rsize: nat)
      requires Inv({}) == true && MIN_LARGE_SIZE <= nb < SIZE_T
      ensures v != 0 ==> v in binned && Size(head, v) == nb + rsize
      ensures v != 0 && rsize < Sub64(dvsize, nb) ==> Picks(T(), X(), nb, v) == true
      ensures v == 0 || rsize >= Sub64(dvsize, nb) ==>
        if nb <= dvsize then Picks(T(), X(), nb, dv) == true else NothingFits(T(), nb) == true
    {
      v, rsize := FindLarge(nb);
      BestIsBestBinned(T(), X(), base, end, nb, v, rsize);
      PickLarge(T(), X(), nb, v, rsize);
    }

    method TakeToBin(v: nat, nb: nat, rsize: nat)
      requires Inv({}) == true && v in binned && Size(head, v) == nb + rsize && nb % 8 == 0 && MIN_LARGE_SIZE <= nb
      modifies this`head, this`foot, this`chunks, this`prv, this`links, this`smallmap, this`treemap, this`treebins,
        this`bins, this`binned
      ensures Inv({}) == true && HandedOut(old(T()), old(dv), old(dvsize), v, nb, T(), dv, dvsize) == true
    {
      LoosenLarge(v);
      CarveToBin(v, nb, rsize);
    }

    /** Split dv. */
    method SplitDv(nb: nat, rsize: nat) returns (p: nat)
      requires Inv({}) == true && dvsize == nb + rsize && nb % 8 == 0 && MIN_CHUNK_SIZE <= nb && MIN_CHUNK_SIZE <= rsize
      modifies this`head, this`foot, this`chunks, this`prv, this`dv, this`dvsize
      ensures Inv({}) == true && p == old(dv) &&
        HandedOut(old(T()), old(dv), old(dvsize), p, nb, T(), dv, dvsize) == true
    {
      DvSplitOk(T(), X(), base, end, nb);
      p := ShiftDv(nb, rsize);
    }

    method ShiftDv(nb: nat, rsize: nat) returns (p: nat)
      requires nb + rsize == Size(head, dv) && 0 < nb
      modifies this`head, this`foot, this`chunks, this`prv, this`dv, this`dvsize
      ensures p == old(dv) && T() == SplitFree(old(T()), p, nb) && X() == old(X()).(dv := p + nb, dvsize := rsize)
    {
      p := dv;
      dv := p + nb;
      dvsize := rsize;
      WriteSplit(p, nb, dv, rsize);
    }

    /** Exhaust dv. */
    method ExhaustDv(nb: nat) returns (p: nat)
      requires Inv({}) == true && 0 < nb <= dvsize < nb + MIN_CHUNK_SIZE
      modifies this`head, this`dv, this`dvsize
      ensures Inv({}) == true && p == old(dv) &&
        HandedOut(old(T()), old(dv), old(dvsize), p, nb, T(), dv, dvsize) == true
    {
      DvExhaustOk(T(), X(), base, end, nb);
      p := dv;
      var dvs := dvsize;
      dvsize := 0;
      dv := 0;
      SetInuseAndPinuse(p, dvs);
    }

    /** Split top. */
    method TakeTop(nb: nat) returns (p: nat)
      requires Inv({}) == true && nb < topsize && nb % 8 == 0 && MIN_CHUNK_SIZE <= nb
      modifies this`head, this`chunks, this`prv, this`top, this`topsize
      ensures Inv({}) == true && p == old(top) &&
        HandedOut(old(T()), old(dv), old(dvsize), p, nb, T(), dv, dvsize) == true
    {
      TopSplitOk(T(), X(), base, end, nb);
      SplitTopAllocates(T(), First(base), nb);
      p := WriteTop(nb);
    }

    method WriteTop(nb: nat) returns (p: nat)
      requires nb < topsize
      modifies this`head, this`chunks, this`prv, this`top, this`topsize
      ensures p == old(top) && T() == SplitTop(old(T()), nb)
    {
      ghost var u := SplitTop(T(), nb);
      topsize := topsize - nb;
      var rsize := topsize;
      p := top;
      var r := p + nb;
      top := r;
      head := head[r := Head(rsize, false, true)];
      head := head[p := Head(nb, true, true)];
      chunks, prv := u.chunks, u.prv;
    }

    /** The branch of a small request that looks into the bins; null when dv serves it or nothing fits. */
    method FromSmallBins(nb: nat) returns (p: nat)
      requires Inv({}) == true && nb % 8 == 0 && MIN_CHUNK_SIZE <= nb < MIN_LARGE_SIZE
      modifies this`head, this`foot, this`chunks, this`prv, this`links, this`smallmap, this`treemap, this`treebins,
        this`bins, this`binned, this`dv, this`dvsize
      ensures Inv({}) == true
      ensures p != 0 ==>
        Picks(old(T()), old(X()), nb, p) == true &&
        HandedOut(old(T()), old(dv), old(dvsize), p, nb, T(), dv, dvsize) == true
      ensures p == 0 ==> T() == old(T()) && X() == old(X())
      ensures p == 0 ==> if nb <= dvsize then Picks(T(), X(), nb, dv) == true else NothingFits(T(), nb) == true
    {
      var idx := nb / 8;
      Bitmap.ShiftedMarks(smallmap, idx);
      var smallbits := Bitmap.Shr(smallmap, idx);
      if smallbits[0] || smallbits[1] {
        var i := if smallbits[0] then idx else idx + 1;
        p := FromExactBin(nb, idx, i);
      } else if nb > dvsize {
        if smallbits != Bitmap.Zero() {
          Bitmap.NextMarked(smallmap, idx);
          var leftbits := Bitmap.And(Bitmap.Shl(smallbits, idx), Bitmap.LeftBits(Bitmap.Idx2Bit(idx)));
          var i := Bitmap.Bit2Idx(Bitmap.LeastBit(leftbits), 0);
          p := FromNextBin(nb, idx, i);
        } else if treemap != Bitmap.Zero() {
          p := TmallocSmall(nb, idx);
        } else {
          NothingSmallFits(T(), X(), base, end, idx);
          p := 0;
        }
      } else {
        PickDv(T(), X(), base, end, idx);
        p := 0;
      }
    }

    method FromExactBin(nb: nat, ghost idx: nat, i: nat) returns (p: nat)
      requires Inv({}) == true && nb == 8 * idx && MIN_CHUNK_SIZE <= nb && idx <= i < NSMALLBINS && smallmap[i] &&
        i <= idx + 1
      requires forall j :: idx <= j < i ==> !smallmap[j]
      modifies this`head, this`links, this`smallmap, this`bins, this`binned
      ensures Inv({}) == true && HandedOut(old(T()), old(dv), old(dvsize), p, nb, T(), dv, dvsize) == true
      ensures p != 0 && Picks(old(T()), old(X()), nb, p) == true
    {
      PickFront(T(), X(), base, end, idx, i);
      p := TakeSmallExact(nb, i);
      LiveNotNull(T(), First(base), end, p);
    }

    method FromNextBin(nb: nat, ghost idx: nat, i: nat) returns (p: nat)
      requires Inv({}) == true && nb == 8 * idx && nb % 8 == 0 && MIN_CHUNK_SIZE <= nb && idx <= i < NSMALLBINS &&
        smallmap[i] && dvsize < nb
      requires forall j :: idx <= j < i ==> !smallmap[j]
      modifies this`head, this`foot, this`chunks, this`prv, this`links, this`smallmap, this`bins, this`binned, this`dv,
        this`dvsize
      ensures Inv({}) == true && HandedOut(old(T()), old(dv), old(dvsize), p, nb, T(), dv, dvsize) == true
      ensures p != 0 && Picks(old(T()), old(X()), nb, p) == true
    {
      PickFront(T(), X(), base, end, idx, i);
      p := TakeSmallNext(nb, i);
      LiveNotNull(T(), First(base), end, p);
    }

    /** What is left of malloc after the bins: dv, then top, then failure. */
    method FromDvOrTop(nb: nat) returns (p: nat)
      requires Inv({}) == true && nb % 8 == 0 && MIN_CHUNK_SIZE <= nb
      requires if nb <= dvsize then Picks(T(), X(), nb, dv) == true else NothingFits(T(), nb) == true
      modifies this`head, this`foot, this`chunks, this`prv, this`dv, this`dvsize, this`top, this`topsize
      ensures Inv({}) == true
      ensures p != 0 ==>
        Picks(old(T()), old(X()), nb, p) == true &&
        HandedOut(old(T()), old(dv), old(dvsize), p, nb, T(), dv, dvsize) == true
      ensures p == 0 ==> T() == old(T()) && X() == old(X()) && NothingFits(T(), nb) == true && topsize <= nb
    {
      if nb <= dvsize {
        var rsize := dvsize - nb;
        if rsize >= MIN_CHUNK_SIZE {
          p := SplitDv(nb, rsize);
        } else {
          p := ExhaustDv(nb);
        }
        LiveNotNull(T(), First(base), end, p);
      } else if nb < topsize {
        p := TakeTop(nb);
        LiveNotNull(T(), First(base), end, p);
      } else {
        p := 0;
      }
    }

    /** The branch of a large request that looks into the bins; null when dv serves it or nothing binned fits. */
    method FromTreeBins(nb: nat) returns (p: nat)
      requires Inv({}) == true && nb % 8 == 0 && MIN_LARGE_SIZE <= nb < SIZE_T
      modifies this`head, this`foot, this`chunks, this`prv, this`links, this`smallmap, this`treemap, this`treebins,
        this`bins, this`binned
      ensures Inv({}) == true
      ensures p != 0 ==>
        Picks(old(T()), old(X()), nb, p) == true &&
        HandedOut(old(T()), old(dv), old(dvsize), p, nb, T(), dv, dvsize) == true
      ensures p == 0 ==> T() == old(T()) && X() == old(X())
      ensures p == 0 ==> if nb <= dvsize then Picks(T(), X(), nb, dv) == true else NothingFits(T(), nb) == true
    {
      if treemap != Bitmap.Zero() {
        p := TmallocLarge(nb);
      } else {
        NothingLarge(T(), X(), base, end, nb);
        p := 0;
      }
    }

    /** The branches of malloc in turn: bins, dv, top. */
    method TakeChunk(bytes: nat) returns (p: nat)
      requires Inv({}) == true && bytes < MAX_REQUEST
      modifies this
      ensures Inv({}) == true
      ensures var nb := RequestSize(bytes);
        if p == 0 then T() == old(T()) && X() == old(X()) && NothingFits(T(), nb) == true && topsize <= nb
        else
          Picks(old(T()), old(X()), nb, p) == true &&
          HandedOut(old(T()), old(dv), old(dvsize), p, nb, T(), dv, dvsize) == true
    {
      RequestSizeRange(bytes);
      var nb := RequestSize(bytes);
      if bytes <= MAX_SMALL_REQUEST {
        p := FromSmallBins(nb);
      } else {
        p := FromTreeBins(nb);
      }
      if p == 0 {
        p := FromDvOrTop(nb);
      }
    }

    /** mspace_malloc without flags, in a segment that cannot grow: a request of MAX_REQUEST or more fails. */
    method Malloc(bytes: nat) returns (mem: nat)
      requires Valid() == true && bytes < SIZE_T
      modifies this
      ensures Valid() == true && Served(old(T()), old(X()), T(), X(), bytes, mem) == true
    {
      if bytes >= MAX_REQUEST {
        return 0;
      }
      var p := TakeChunk(bytes);
      mem := if p == 0 then 0 else p + 16;
    }

    // ----- free

    /** set_free_with_pinuse(p, s, n) */
    method SetFreeWithPinuse(p: nat, s: nat, n: nat)
      requires n == p + s
      modifies this`head, this`foot, this`chunks, this`prv
      ensures T() == Merge(old(T()), p, n)
    {
      ghost var u := Merge(T(), p, n);
      head := head[n := Hd(head, n).(pinuse := false)];
      head := head[p := Head(s, false, true)];
      foot := foot[p + s := s];
      chunks, prv := u.chunks, u.prv;
    }

    /** set_size_and_pinuse_of_free_chunk(p, s), where the chunk behind was known to follow a free one */
    method SetFree(p: nat, s: nat)
      requires p + s in head && !Hd(head, p + s).pinuse
      modifies this`head, this`foot, this`chunks, this`prv
      ensures T() == Merge(old(T()), p, p + s)
    {
      ghost var u := Merge(T(), p, p + s);
      assert head[p + s := Hd(head, p + s).(pinuse := false)] == head;
      head := head[p := Head(s, false, true)];
      foot := foot[p + s := s];
      chunks, prv := u.chunks, u.prv;
    }

    /** Consolidate backward, with a binned chunk. */
    method UnlinkPrev(p: nat, prevsize: nat, ghost psize: nat, ghost f: nat)
      requires Inv({}) == true && Live(T(), f) && FreePrev(T(), X(), base, end, f, p, psize) && p != dv &&
        prevsize == Size(head, p)
      modifies this`links, this`smallmap, this`treemap, this`treebins, this`bins, this`binned
      ensures FreeingAt(T(), X(), base, end, f, p, psize, f + Size(head, f), {p}) == true
    {
      UnlinkChunk(p, prevsize, {});
      assert {} + {p} == {p};
    }

    /** Extend dv, which lies before the freed chunk f, over it. */
    method FreeIntoDv(p: nat, psize: nat, next: nat, ghost f: nat)
      requires FreeingAt(T(), X(), base, end, f, p, psize, next, {}) == true && p == dv && Hd(head, next).cinuse
      modifies this`head, this`foot, this`chunks, this`prv, this`dvsize
      ensures Inv({}) == true && Released(old(T()), old(dv), old(dvsize), f, T(), dv, dvsize) == true
    {
      IntoDv(T(), X(), base, end, f, p, psize, next);
      dvsize := psize;
      SetFreeWithPinuse(p, psize, next);
    }

    /** Consolidate with top. */
    method FreeIntoTop(p: nat, psize: nat, next: nat, ghost f: nat, ghost loose: set<nat>)
      requires FreeingAt(T(), X(), base, end, f, p, psize, next, loose) == true && next == top
      modifies this`head, this`chunks, this`top, this`topsize, this`dv, this`dvsize
      ensures Inv({}) == true && Released(old(T()), old(dv), old(dvsize), f, T(), dv, dvsize) == true
    {
      IntoTop(T(), X(), base, end, f, p, psize, next, loose);
      GrowTopBy(p, psize);
      if p == dv {
        dv := 0;
        dvsize := 0;
      }
    }

    method GrowTopBy(p: nat, psize: nat)
      requires p + psize == top
      modifies this`head, this`chunks, this`top, this`topsize
      ensures T() == GrowTop(old(T()), p)
    {
      ghost var u := GrowTop(T(), p);
      topsize := topsize + psize;
      var tsize := topsize;
      top := p;
      head := head[p := Head(tsize, false, true)];
      chunks := u.chunks;
    }

    /** Consolidate with dv behind. */
    method FreeOntoDv(p: nat, psize: nat, next: nat, ghost f: nat, ghost loose: set<nat>)
      requires FreeingAt(T(), X(), base, end, f, p, psize, next, loose) == true && next == dv && next != top &&
        !Hd(head, next).cinuse
      modifies this`head, this`foot, this`chunks, this`prv, this`dv, this`dvsize
      ensures Inv({}) == true && Released(old(T()), old(dv), old(dvsize), f, T(), dv, dvsize) == true
    {
      OntoDv(T(), X(), base, end, f, p, psize, next, loose);
      ExtendDvDown(p, psize);
    }

    method ExtendDvDown(p: nat, psize: nat)
      requires p + psize == dv && dv + dvsize in head && !Hd(head, dv + dvsize).pinuse
      modifies this`head, this`foot, this`chunks, this`prv, this`dv, this`dvsize
      ensures T() == Merge(old(T()), p, old(dv) + old(dvsize)) &&
        X() == old(X()).(dv := p, dvsize := psize + old(dvsize))
    {
      dvsize := dvsize + psize;
      var dsize := dvsize;
      dv := p;
      SetFree(p, dsize);
    }

    /** Consolidate with a binned chunk behind; the result is dv or goes to its bin. */
    method FreeWithNext(p: nat, psize: nat, next: nat, ghost f: nat, ghost loose: set<nat>)
      requires FreeingAt(T(), X(), base, end, f, p, psize, next, loose) == true && next != dv && next != top &&
        !Hd(head, next).cinuse
      modifies this`head, this`foot, this`chunks, this`prv, this`links, this`smallmap, this`treemap, this`treebins,
        this`bins, this`binned, this`dvsize
      ensures Inv({}) == true && Released(old(T()), old(dv), old(dvsize), f, T(), dv, dvsize) == true
    {
      var nsize := Size(head, next);
      UnlinkNext(p, psize, next, nsize, f, loose);
      MergeWithNext(p, psize + nsize, f);
    }

    method MergeWithNext(p: nat, size: nat, ghost f: nat)
      requires NextMerges(T(), X(), base, end, f, p, size) == true
      modifies this`head, this`foot, this`chunks, this`prv, this`links, this`smallmap, this`treemap, this`treebins,
        this`bins, this`binned, this`dvsize
      ensures Inv({}) == true && Released(old(T()), old(dv), old(dvsize), f, T(), dv, dvsize) == true
    {
      SetFree(p, size);
      if p == dv {
        dvsize := size;
      } else {
        InsertChunk(p, size);
      }
    }

    method UnlinkNext(p: nat, psize: nat, next: nat, nsize: nat, ghost f: nat, ghost loose: set<nat>)
      requires FreeingAt(T(), X(), base, end, f, p, psize, next, loose) == true && next != dv && next != top &&
        !Hd(head, next).cinuse
      requires nsize == Size(head, next)
      modifies this`links, this`smallmap, this`treemap, this`treebins, this`bins, this`binned
      ensures NextMerges(T(), X(), base, end, f, p, psize + nsize) == true
      ensures T() == old(T()) && dv == old(dv) && dvsize == old(dvsize)
    {
      WithNextFacts(T(), X(), base, end, f, p, psize, next, loose);
      UnlinkChunk(next, nsize, loose);
      WithNext(T(), X(), base, end, f, p, psize, next, nsize, loose);
    }

    /** The chunk behind is in use: the freed one goes to its bin. */
    method FreeAlone(p: nat, psize: nat, next: nat, ghost f: nat, ghost loose: set<nat>)
      requires FreeingAt(T(), X(), base, end, f, p, psize, next, loose) == true && p != dv && Hd(head, next).cinuse
      modifies this`head, this`foot, this`chunks, this`prv, this`links, this`smallmap, this`treemap, this`treebins,
        this`bins, this`binned
      ensures Inv({}) == true && Released(old(T()), old(dv), old(dvsize), f, T(), dv, dvsize) == true
    {
      Alone(T(), X(), base, end, f, p, psize, next, loose);
      SetFreeWithPinuse(p, psize, next);
      InsertChunk(p, psize);
    }

    /** Consolidate forward. */
    method FreeForward(p: nat, psize: nat, next: nat, ghost f: nat, ghost loose: set<nat>)
      requires FreeingAt(T(), X(), base, end, f, p, psize, next, loose) == true && (p == dv ==> !Hd(head, next).cinuse)
      modifies this
      ensures Inv({}) == true && Released(old(T()), old(dv), old(dvsize), f, T(), dv, dvsize) == true
    {
      if !Hd(head, next).cinuse {
        if next == top {
          FreeIntoTop(p, psize, next, f, loose);
        } else if next == dv {
          FreeOntoDv(p, psize, next, f, loose);
        } else {
          FreeWithNext(p, psize, next, f, loose);
        }
      } else {
        FreeAlone(p, psize, next, f, loose);
      }
    }

    /** mspace_free(mem) */
    method Free(mem: nat)
      requires Valid() == true && (mem == 0 || (16 <= mem && Live(T(), mem - 16)))
      modifies this
      ensures Valid() == true
      ensures mem == 0 ==> T() == old(T()) && X() == old(X())
      ensures mem != 0 ==> Released(old(T()), old(dv), old(dvsize), mem - 16, T(), dv, dvsize) == true
    {
      if mem != 0 {
        FreeChunk(mem - 16);
      }
    }

    method FreeChunk(f: nat)
      requires Inv({}) == true && Live(T(), f)
      modifies this
      ensures Inv({}) == true && Released(old(T()), old(dv), old(dvsize), f, T(), dv, dvsize) == true
    {
      var next := f + Size(head, f);
      var p, psize, done;
      ghost var loose;
      p, psize, done, loose := FreeBackward(f, next);
      if !done {
        FreeForward(p, psize, next, f, loose);
      }
    }

    /** Consolidate backward; done when that was all. */
    method FreeBackward(f: nat, next: nat) returns (p: nat, psize: nat, done: bool, ghost loose: set<nat>)
      requires Inv({}) == true && Live(T(), f) && next == f + Size(head, f)
      modifies this
      ensures done ==> Inv({}) == true && Released(old(T()), old(dv), old(dvsize), f, T(), dv, dvsize) == true
      ensures !done ==>
        T() == old(T()) && dv == old(dv) && dvsize == old(dvsize) && (p == dv ==> !Hd(head, next).cinuse)
      ensures !done ==> FreeingAt(T(), X(), base, end, f, p, psize, next, loose) == true
    {
      p, psize, done, loose := f, Size(head, f), false, {};
      PrevKept(T(), X(), base, end, f);
      if !Hd(head, p).pinuse {
        var prevsize := FootAt(foot, p);
        p := p - prevsize;
        psize := psize + prevsize;
        if p != dv {
          UnlinkPrev(p, prevsize, psize, f);
          loose := {p};
        } else if Hd(head, next).cinuse && Hd(head, next).pinuse {
          FreeIntoDv(p, psize, next, f);
          done := true;
        }
      }
    }
  }
}
