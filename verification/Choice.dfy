/** Which chunk a request is given: what the allocator promises about its choice, and why
    each branch of malloc keeps that promise. */
module Choice {
  import opened Memory
  import opened Powers
  import opened Bitmap
  import opened TreeIndex
  import opened Trie
  import opened Bins
  import opened Chunks
  import opened BestFit
  import opened BinSearch
  import opened Space

  /** q is a free chunk, dv included, large enough for nb. */
  ghost predicate Fits(t: Tags, q: nat, nb: nat) {
    q in t.chunks && !t.Inuse(q) && nb <= t.Sz(q)
  }

  ghost predicate NothingFits(t: Tags, nb: nat) {
    forall q :: q in t.chunks ==> !Fits(t, q, nb)
  }

  /** A large request is given the smallest chunk that fits, dv only when it is as good as any. */
  ghost predicate PicksLarge(t: Tags, x: Index, nb: nat, p: nat) {
    (forall q :: q in t.chunks && Fits(t, q, nb) ==> t.Sz(p) <= t.Sz(q)) &&
    (p != x.dv && Fits(t, x.dv, nb) ==> t.Sz(p) < t.Sz(x.dv))
  }

  /** A small request is given a chunk of a small bin that fits all but exactly, else dv, else
      the smallest binned chunk that fits. */
  ghost predicate PicksSmall(t: Tags, x: Index, nb: nat, p: nat) {
    if p == x.dv then forall q :: q in t.chunks && q != x.dv && Fits(t, q, nb) ==>
      nb + 8 < t.Sz(q) || MIN_LARGE_SIZE <= t.Sz(q)
    else
      ((forall q :: q in t.chunks && q != x.dv && Fits(t, q, nb) ==> t.Sz(p) <= t.Sz(q)) &&
       (Fits(t, x.dv, nb) ==> t.Sz(p) <= nb + 8 && t.Sz(p) < MIN_LARGE_SIZE))
  }

  /** The chunk p may be used for nb: the right free chunk, or top when none fits. */
  ghost predicate Picks(t: Tags, x: Index, nb: nat, p: nat) {
    if p == t.top then nb < t.topsize && NothingFits(t, nb)
    else Fits(t, p, nb) && if nb < MIN_LARGE_SIZE then PicksSmall(t, x, nb, p) else PicksLarge(t, x, nb, p)
  }

  // ----- where the free chunks are

  lemma FreeIsKept(t: Tags, x: Index, base: nat, end: nat, q: nat)
    requires SpaceOk(t, x, base, end, {}) && q in t.chunks && !t.Inuse(q)
    ensures q in x.binned || (q == x.dv && x.dvsize == t.Sz(q))
  {
    TopNotChunk(t, First(base));
  }

  lemma BinnedIsFree(t: Tags, x: Index, base: nat, end: nat, q: nat)
    requires SpaceOk(t, x, base, end, {}) && q in x.binned
    ensures q in t.chunks && !t.Inuse(q) && q != x.dv && q != t.top && t.Sz(q) % 8 == 0
  {
    TopNotChunk(t, First(base));
    assert t.Sz(q) % 8 == 0;
  }

  lemma DvIsFree(t: Tags, x: Index, base: nat, end: nat)
    requires SpaceOk(t, x, base, end, {})
    ensures x.dvsize != 0 ==>
      x.dv in t.chunks && !t.Inuse(x.dv) && x.dv != t.top && t.Sz(x.dv) == x.dvsize && x.dv !in x.binned
    ensures x.dvsize == 0 ==> x.dv !in t.chunks
  {
    TopNotChunk(t, First(base));
  }

  lemma SmallMarked(x: Index, base: nat, h: Heads, q: nat)
    requires IndexOk(x, base, h) && q in x.binned && Size(h, q) < MIN_LARGE_SIZE
    ensures x.smallmap[Size(h, q) / 8]
  {
    assert InItsBin(x.bins, q, h);
  }

  // ----- small requests

  /** The chunk in front of a marked small bin. */
  lemma FrontOfBin(t: Tags, x: Index, base: nat, end: nat, i: nat)
    requires SpaceOk(t, x, base, end, {}) && i < NSMALLBINS && x.smallmap[i]
    ensures |x.bins.small[i]| > 0
    ensures var p := x.bins.small[i][0];
      p in t.chunks && !t.Inuse(p) && p != x.dv && p != t.top && t.Sz(p) == 8 * i
  {
    assert SmallOk(x.bins.small[i], i, base, x.links, t.head);
    var p := x.bins.small[i][0];
    assert p in x.bins.small[i];
    BinnedIsFree(t, x, base, end, p);
  }

  /** With bins idx .. i unmarked, what is binned and fits has at least the size of bin i. */
  lemma SmallFloor(t: Tags, x: Index, base: nat, end: nat, idx: nat, i: nat, q: nat)
    requires SpaceOk(t, x, base, end, {}) && idx <= i <= NSMALLBINS
    requires forall j :: idx <= j < i ==> !x.smallmap[j]
    requires q in x.binned && 8 * idx <= t.Sz(q)
    ensures 8 * i <= t.Sz(q)
  {
    BinnedIsFree(t, x, base, end, q);
    if t.Sz(q) < MIN_LARGE_SIZE {
      SmallMarked(x, base, t.head, q);
      assert idx <= t.Sz(q) / 8;
    }
  }

  /** What is binned is large, or in a marked bin k of its size. */
  lemma SmallBinOf(t: Tags, x: Index, base: nat, end: nat, q: nat) returns (k: nat)
    requires SpaceOk(t, x, base, end, {}) && q in x.binned
    ensures t.Sz(q) == 8 * k && (k < NSMALLBINS ==> x.smallmap[k])
  {
    BinnedIsFree(t, x, base, end, q);
    k := t.Sz(q) / 8;
    if t.Sz(q) < MIN_LARGE_SIZE { SmallMarked(x, base, t.head, q); }
  }

  lemma MarksApart(smallmap: Word, idx: nat, k: nat, size: nat)
    requires idx < NSMALLBINS && !smallmap[idx] && (idx + 1 < NSMALLBINS ==> !smallmap[idx + 1])
    requires size == 8 * k && 8 * idx <= size && (k < NSMALLBINS ==> smallmap[k])
    ensures 8 * idx + 8 < size || MIN_LARGE_SIZE <= size
  {
  }

  /** With bins idx and idx + 1 unmarked, what is binned and fits leaves a remainder above 8, or is large. */
  lemma SmallGap(t: Tags, x: Index, base: nat, end: nat, idx: nat, q: nat)
    requires SpaceOk(t, x, base, end, {}) == true && 0 < idx < NSMALLBINS
    requires !x.smallmap[idx] && (idx + 1 < NSMALLBINS ==> !x.smallmap[idx + 1])
    requires q in x.binned && 8 * idx <= t.Sz(q)
    ensures 8 * idx + 8 < t.Sz(q) || MIN_LARGE_SIZE <= t.Sz(q)
  {
    var k := SmallBinOf(t, x, base, end, q);
    MarksApart(x.smallmap, idx, k, t.Sz(q));
  }

  /** The front of the least marked bin from idx on: an all but exact fit, or used because dv does not fit. */
  lemma PickFront(t: Tags, x: Index, base: nat, end: nat, idx: nat, i: nat)
    requires SpaceOk(t, x, base, end, {}) && idx <= i < NSMALLBINS && x.smallmap[i]
    requires forall j :: idx <= j < i ==> !x.smallmap[j]
    requires i <= idx + 1 || x.dvsize < 8 * idx
    ensures |x.bins.small[i]| > 0 && Picks(t, x, 8 * idx, x.bins.small[i][0])
  {
    FrontOfBin(t, x, base, end, i);
    DvIsFree(t, x, base, end);
    var p := x.bins.small[i][0];
    forall q | q in t.chunks && q != x.dv && Fits(t, q, 8 * idx) ensures t.Sz(p) <= t.Sz(q) {
      FreeIsKept(t, x, base, end, q);
      SmallFloor(t, x, base, end, idx, i, q);
    }
  }

  /** dv serves a small request no binned chunk fits all but exactly. */
  lemma PickDv(t: Tags, x: Index, base: nat, end: nat, idx: nat)
    requires SpaceOk(t, x, base, end, {}) && 0 < idx < NSMALLBINS && 8 * idx <= x.dvsize
    requires !x.smallmap[idx] && (idx + 1 < NSMALLBINS ==> !x.smallmap[idx + 1])
    ensures Picks(t, x, 8 * idx, x.dv)
  {
    DvIsFree(t, x, base, end);
    forall q | q in t.chunks && q != x.dv && Fits(t, q, 8 * idx) ensures 8 * idx + 8 < t.Sz(q) ||
      MIN_LARGE_SIZE <= t.Sz(q) {
      FreeIsKept(t, x, base, end, q);
      SmallGap(t, x, base, end, idx, q);
    }
  }

  /** No small bin and, if asked, no tree bin has anything for nb. */
  lemma NoSmallMarks(t: Tags, x: Index, base: nat, end: nat, idx: nat, q: nat)
    requires SpaceOk(t, x, base, end, {}) && idx < NSMALLBINS
    requires forall j :: idx <= j < NSMALLBINS ==> !x.smallmap[j]
    requires q in x.binned && 8 * idx <= t.Sz(q)
    ensures q in LargeOf(x.binned, t.head)
  {
    SmallFloor(t, x, base, end, idx, NSMALLBINS, q);
  }

  /** The smallest large chunk serves a small request when nothing small does. */
  lemma PickFirst(t: Tags, x: Index, base: nat, end: nat, idx: nat, v: nat, rsize: nat)
    requires SpaceOk(t, x, base, end, {}) && 0 < idx < NSMALLBINS && x.dvsize < 8 * idx
    requires forall j :: idx <= j < NSMALLBINS ==> !x.smallmap[j]
    requires v != 0 && BestOf(LargeOf(x.binned, t.head), t.head, 8 * idx, v, rsize)
    ensures Picks(t, x, 8 * idx, v) && v in x.binned && t.Sz(v) == 8 * idx + rsize
  {
    DvIsFree(t, x, base, end);
    BinnedIsFree(t, x, base, end, v);
    forall q | q in t.chunks && q != x.dv && Fits(t, q, 8 * idx) ensures t.Sz(v) <= t.Sz(q) {
      FreeIsKept(t, x, base, end, q);
      NoSmallMarks(t, x, base, end, idx, q);
    }
  }

  lemma NoTreeMarks(x: Index, base: nat, h: Heads, q: nat)
    requires IndexOk(x, base, h) && x.treemap == Zero()
    ensures q !in LargeOf(x.binned, h)
  {
    forall j | 0 <= j < NTREEBINS ensures Members(x.bins.tries[j]) == {} {
      assert !Zero()[j];
      UnmarkedEmpty(x.bins, x.treemap, x.roots, base, x.links, h, j);
    }
    if q in LargeOf(x.binned, h) { var j := LargeInTrie(x.bins, h, x.binned, q); }
  }

  lemma NothingSmallFits(t: Tags, x: Index, base: nat, end: nat, idx: nat)
    requires SpaceOk(t, x, base, end, {}) && 0 < idx < NSMALLBINS && x.dvsize < 8 * idx
    requires forall j :: idx <= j < NSMALLBINS ==> !x.smallmap[j]
    requires x.treemap == Zero()
    ensures NothingFits(t, 8 * idx)
  {
    forall q | q in t.chunks ensures !Fits(t, q, 8 * idx) {
      if Fits(t, q, 8 * idx) {
        FreeIsKept(t, x, base, end, q);
        NoSmallMarks(t, x, base, end, idx, q);
        NoTreeMarks(x, base, t.head, q);
      }
    }
  }

  // ----- large requests

  /** v is the best binned chunk for nb, if any, seen from the tags. */
  ghost predicate BestBinned(t: Tags, x: Index, nb: nat, v: nat, rsize: nat) {
    (v != 0 ==> v in x.binned && Fits(t, v, nb) && v != x.dv && v != t.top && t.Sz(v) == nb + rsize < SIZE_T) &&
    (forall q :: q in t.chunks && q != x.dv && Fits(t, q, nb) ==> v != 0 && t.Sz(v) <= t.Sz(q))
  }

  lemma BestIsBestBinned(t: Tags, x: Index, base: nat, end: nat, nb: nat, v: nat, rsize: nat)
    requires SpaceOk(t, x, base, end, {}) && MIN_LARGE_SIZE <= nb < SIZE_T
    requires BestOf(LargeOf(x.binned, t.head), t.head, nb, v, rsize)
    ensures BestBinned(t, x, nb, v, rsize) && DvFacts(t, x)
  {
    DvIsFree(t, x, base, end);
    DvBelow(t, x, base, end);
    if v != 0 {
      BinnedIsFree(t, x, base, end, v);
      assert t.Next(v) <= t.top;
    }
    forall q | q in t.chunks && q != x.dv && Fits(t, q, nb) ensures v != 0 && t.Sz(v) <= t.Sz(q) {
      FreeIsKept(t, x, base, end, q);
    }
  }

  ghost predicate DvFacts(t: Tags, x: Index) {
    x.dvsize < SIZE_T &&
    if x.dvsize == 0 then x.dv !in t.chunks
    else x.dv in t.chunks && !t.Inuse(x.dv) && x.dv != t.top && t.Sz(x.dv) == x.dvsize
  }

  lemma DvBelow(t: Tags, x: Index, base: nat, end: nat)
    requires SpaceOk(t, x, base, end, {})
    ensures x.dvsize < SIZE_T
  {
    if x.dvsize != 0 { assert t.Next(x.dv) <= t.top; }
  }

  lemma DvBeaten(dvsize: nat, nb: nat, rsize: nat)
    requires nb <= dvsize < SIZE_T
    ensures rsize < Sub64(dvsize, nb) <==> nb + rsize < dvsize
  {
    assert dvsize + SIZE_T - nb == SIZE_T + (dvsize - nb);
  }

  lemma DvTooSmall(dvsize: nat, nb: nat, rsize: nat)
    requires dvsize < nb < SIZE_T && nb + rsize < SIZE_T
    ensures rsize < Sub64(dvsize, nb)
  {
    assert 0 <= dvsize + SIZE_T - nb < SIZE_T;
  }

  /** The comparison of remainders decides between the best binned chunk and dv; its
      wrap-around lets the chunk win whenever dv does not fit. */
  lemma PickLarge(t: Tags, x: Index, nb: nat, v: nat, rsize: nat)
    requires BestBinned(t, x, nb, v, rsize) && DvFacts(t, x) && MIN_LARGE_SIZE <= nb < SIZE_T
    ensures v != 0 && rsize < Sub64(x.dvsize, nb) ==> Picks(t, x, nb, v)
    ensures v == 0 || rsize >= Sub64(x.dvsize, nb) ==>
      (nb <= x.dvsize ==> Picks(t, x, nb, x.dv)) && (x.dvsize < nb ==> NothingFits(t, nb))
  {
    if nb <= x.dvsize {
      DvBeaten(x.dvsize, nb, rsize);
    } else if v != 0 {
      DvTooSmall(x.dvsize, nb, rsize);
    }
  }

  /** Without marked tree bins a large request is left to dv and top. */
  lemma NothingLarge(t: Tags, x: Index, base: nat, end: nat, nb: nat)
    requires SpaceOk(t, x, base, end, {}) && MIN_LARGE_SIZE <= nb < SIZE_T && x.treemap == Zero()
    ensures nb <= x.dvsize ==> Picks(t, x, nb, x.dv)
    ensures x.dvsize < nb ==> NothingFits(t, nb)
  {
    assert BestOf(LargeOf(x.binned, t.head), t.head, nb, 0, SIZE_T - nb) by {
      forall q | q in LargeOf(x.binned, t.head) ensures false { NoTreeMarks(x, base, t.head, q); }
    }
    BestIsBestBinned(t, x, base, end, nb, 0, SIZE_T - nb);
    PickLarge(t, x, nb, 0, SIZE_T - nb);
  }

  // ----- the contract of malloc

  const CHUNK_OVERHEAD: nat := 8
  const MIN_REQUEST: nat := 23
  const MAX_SMALL_REQUEST: nat := 240
  const MAX_REQUEST: nat := 0x1_0000_0000_0000_0000 - 128

  /** pad_request: room for the head, rounded up to the alignment. */
  function PadRequest(bytes: nat): nat { (bytes + CHUNK_OVERHEAD + 7) / 8 * 8 }

  function RequestSize(bytes: nat): nat { if bytes < MIN_REQUEST then MIN_CHUNK_SIZE else PadRequest(bytes) }

  lemma RequestSizeRange(bytes: nat)
    requires bytes < MAX_REQUEST
    ensures var nb := RequestSize(bytes);
      nb % 8 == 0 && MIN_CHUNK_SIZE <= nb < SIZE_T && bytes + CHUNK_OVERHEAD <= nb &&
      (MIN_CHUNK_SIZE < nb ==> nb < bytes + CHUNK_OVERHEAD + 8) &&
      (nb < MIN_LARGE_SIZE <==> bytes <= MAX_SMALL_REQUEST)
  {
  }

  /** What malloc(bytes) may do to a heap t with index x: fail and leave it alone, exactly when
      neither a free chunk nor top can serve; or make the picked chunk live. */
  ghost predicate Served(t: Tags, x: Index, u: Tags, y: Index, bytes: nat, mem: nat) {
    var nb := RequestSize(bytes);
    if mem == 0 then u == t && y == x && (bytes < MAX_REQUEST ==> NothingFits(t, nb) && t.topsize <= nb)
    else
      bytes < MAX_REQUEST && 16 <= mem && Picks(t, x, nb, mem - 16) &&
      HandedOut(t, x.dv, x.dvsize, mem - 16, nb, u, y.dv, y.dvsize)
  }

  // ----- best fit

  /** p is a smallest free chunk that fits, dv included. */
  ghost predicate BestFitting(t: Tags, nb: nat, p: nat) {
    Fits(t, p, nb) && forall q :: q in t.chunks && Fits(t, q, nb) ==> t.Sz(p) <= t.Sz(q)
  }

  /** A large request that is not left to top gets a best fit. */
  lemma LargeBestFit(t: Tags, x: Index, nb: nat, p: nat)
    requires Picks(t, x, nb, p) && MIN_LARGE_SIZE <= nb && p != t.top
    ensures BestFitting(t, nb, p)
  {
  }

  /** Whether a small request, of bin idx, will be given a best fit: with chunks of bin idx, always;
      else with chunks of bin idx + 1, unless dv fits exactly; else unless a binned chunk fits better than dv. */
  ghost predicate SmallMeetsBest(t: Tags, x: Index, idx: nat)
    requires idx < NSMALLBINS
  {
    if x.smallmap[idx] then true
    else if idx + 1 < NSMALLBINS && x.smallmap[idx + 1] then x.dvsize != 8 * idx
    else 8 * idx <= x.dvsize ==> forall q :: q in x.binned && 8 * idx <= t.Sz(q) ==> x.dvsize <= t.Sz(q)
  }

  lemma SmallBestFit(t: Tags, x: Index, base: nat, end: nat, idx: nat, p: nat)
    requires SpaceOk(t, x, base, end, {}) && 0 < idx < NSMALLBINS && Picks(t, x, 8 * idx, p) && p != t.top
    ensures BestFitting(t, 8 * idx, p) <==> SmallMeetsBest(t, x, idx)
  {
    DvIsFree(t, x, base, end);
    if x.smallmap[idx] {
      FrontServes(t, x, base, end, idx, idx, p);
    } else if idx + 1 < NSMALLBINS && x.smallmap[idx + 1] {
      FrontServes(t, x, base, end, idx, idx + 1, p);
    } else {
      DvServes(t, x, base, end, idx, p);
      WhatFits(t, x, base, end, 8 * idx);
    }
  }

  /** A marked bin idx or idx + 1 serves the request from its front. */
  lemma FrontServes(t: Tags, x: Index, base: nat, end: nat, idx: nat, i: nat, p: nat)
    requires SpaceOk(t, x, base, end, {}) && 0 < idx <= i < NSMALLBINS && Picks(t, x, 8 * idx, p) && p != t.top
    requires i <= idx + 1 && x.smallmap[i] && forall j :: idx <= j < i ==> !x.smallmap[j]
    ensures p != x.dv && t.Sz(p) == 8 * i && forall q :: q in t.chunks && Fits(t, q, 8 * idx) && q != x.dv ==>
      8 * i <= t.Sz(q)
    ensures Fits(t, x.dv, 8 * idx) ==> 8 * idx <= x.dvsize && x.dvsize % 8 == 0
  {
    FrontOfBin(t, x, base, end, i);
    DvIsFree(t, x, base, end);
    forall q | q in t.chunks && q != x.dv && Fits(t, q, 8 * idx) ensures 8 * i <= t.Sz(q) {
      FreeIsKept(t, x, base, end, q);
      SmallFloor(t, x, base, end, idx, i, q);
    }
    if Fits(t, x.dv, 8 * idx) { assert t.Sz(x.dv) % 8 == 0; }
  }

  /** With both bins unmarked dv serves whenever it fits. */
  lemma DvServes(t: Tags, x: Index, base: nat, end: nat, idx: nat, p: nat)
    requires SpaceOk(t, x, base, end, {}) && 0 < idx < NSMALLBINS && Picks(t, x, 8 * idx, p) && p != t.top
    requires !x.smallmap[idx] && (idx + 1 < NSMALLBINS ==> !x.smallmap[idx + 1])
    ensures p == x.dv <==> 8 * idx <= x.dvsize
  {
    DvIsFree(t, x, base, end);
    if p != x.dv {
      FreeIsKept(t, x, base, end, p);
      SmallGap(t, x, base, end, idx, p);
    }
  }

  lemma WhatFits(t: Tags, x: Index, base: nat, end: nat, nb: nat)
    requires SpaceOk(t, x, base, end, {}) && 0 < nb
    ensures forall q :: q in t.chunks && Fits(t, q, nb) <==>
      (q in x.binned && nb <= t.Sz(q)) || (q == x.dv && nb <= x.dvsize)
  {
    DvIsFree(t, x, base, end);
    forall q ensures q in t.chunks && Fits(t, q, nb) <==>
      (q in x.binned && nb <= t.Sz(q)) || (q == x.dv && nb <= x.dvsize) {
      if q in x.binned { BinnedIsFree(t, x, base, end, q); }
      if q in t.chunks && !t.Inuse(q) { FreeIsKept(t, x, base, end, q); }
    }
  }

  // ----- what the contract means

  /** Failure means failure was unavoidable, and only then. */
  lemma FailsOnlyWhenFull(t: Tags, x: Index, u: Tags, y: Index, bytes: nat, mem: nat)
    requires Served(t, x, u, y, bytes, mem)
    ensures mem == 0 <==>
      bytes >= MAX_REQUEST || (NothingFits(t, RequestSize(bytes)) && t.topsize <= RequestSize(bytes))
  {
  }

  /** The memory handed out: aligned, large enough, inside the segment and apart from every other chunk. */
  lemma ServedMemory(t: Tags, x: Index, u: Tags, y: Index, base: nat, end: nat, bytes: nat, mem: nat, q: nat)
    requires Served(t, x, u, y, bytes, mem) && TagsOk(u, First(base), end) && mem != 0
    ensures var p := mem - 16;
      mem % 8 == 0 && First(base) <= p && u.Next(p) <= u.top < end && bytes + CHUNK_OVERHEAD <= u.Sz(p) &&
      (Live(t, q) ==> Live(u, q) && u.Sz(q) == t.Sz(q) && (u.Next(q) <= p || u.Next(p) <= q))
  {
    var p := mem - 16;
    RequestSizeRange(bytes);
    LiveNotNull(u, First(base), end, p);
    assert u.Next(p) <= u.top;
    if Live(t, q) { LiveDisjoint(u, First(base), end, p, q); }
  }
}
