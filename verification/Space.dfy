/** The whole state of an mspace as one predicate on values, and what handing out a
    loose chunk, or making one loose, does to it. */
module Space {
  import opened Memory
  import opened Powers
  import opened Bitmap
  import opened Bins
  import opened Chunks
  import opened TreeIndex
  import opened Trie

  /** The maps and bins beside the boundary tags. */
  datatype Index = Index(bins: Bins, smallmap: Word, treemap: Word, roots: seq<nat>, links: Links, binned: set<nat>,
                         dv: nat, dvsize: nat)

  ghost predicate IndexOk(x: Index, base: nat, h: Heads) {
    BinsOk(x.bins, x.smallmap, x.treemap, x.roots, base, x.links, h, x.binned)
  }

  /** The designated victim, if any, is a free chunk of the recorded size. */
  ghost predicate DvOk(t: Tags, x: Index) {
    if x.dvsize == 0 then x.dv == 0 else x.dv in t.chunks && !t.Inuse(x.dv) && t.Sz(x.dv) == x.dvsize
  }

  /** The bins hold the free chunks, save dv and the loose ones. */
  ghost predicate Placed(t: Tags, x: Index, loose: set<nat>) {
    forall p :: p in x.binned <==> p in t.chunks && !t.Inuse(p) && p != x.dv && p !in loose
  }

  ghost predicate SpaceOk(t: Tags, x: Index, base: nat, end: nat, loose: set<nat>) {
    0 < base && end < SIZE_T && TagsOk(t, First(base), end) && IndexOk(x, base, t.head) && DvOk(t, x) &&
      Placed(t, x, loose)
  }

  ghost predicate Loose(t: Tags, x: Index, p: nat) {
    p in t.chunks && !t.Inuse(p) && p != x.dv
  }

  lemma LooseFacts(t: Tags, x: Index, base: nat, end: nat, loose: set<nat>, p: nat)
    requires SpaceOk(t, x, base, end, loose) && Loose(t, x, p) && p in loose
    ensures First(base) <= p && p % 8 == 0 && t.Sz(p) % 8 == 0 && MIN_CHUNK_SIZE <= t.Sz(p) < SIZE_T && p !in x.binned
  {
    assert t.Next(p) <= t.top;
  }

  /** set_inuse_and_pinuse on a loose chunk. */
  lemma TakenOk(t: Tags, x: Index, base: nat, end: nat, p: nat)
    requires SpaceOk(t, x, base, end, {p}) && Loose(t, x, p)
    ensures SpaceOk(TakeWhole(t, p), x, base, end, {})
  {
    var u := TakeWhole(t, p);
    TakeWholeOk(t, First(base), end, p);
    assert t.Sz(p) > 0;
    TakeWholeBits(t, p, u);
    SameIndex(t, u, x, base);
    PlacedAfterTake(t, u, x, p);
  }

  lemma PlacedAfterTake(t: Tags, u: Tags, x: Index, p: nat)
    requires DvOk(t, x) && Placed(t, x, {p}) && p != x.dv
    requires u.chunks == t.chunks && forall q :: u.Sz(q) == t.Sz(q)
    requires forall q :: u.Inuse(q) <==> q == p || t.Inuse(q)
    ensures DvOk(u, x) && Placed(u, x, {})
  {
  }

  /** Changes to heads of chunks outside the bins. */
  lemma SameIndex(t: Tags, u: Tags, x: Index, base: nat)
    requires IndexOk(x, base, t.head) && forall q {:trigger u.Sz(q)} :: q in x.binned ==> u.Sz(q) == t.Sz(q)
    ensures IndexOk(x, base, u.head)
  {
    forall q | q in x.binned ensures Size(t.head, q) == Size(u.head, q) { assert u.Sz(q) == t.Sz(q); }
    HeadsElsewhere(x.bins, x.smallmap, x.treemap, x.roots, base, x.links, t.head, u.head, x.binned);
  }

  /** A loose chunk split: its low part is handed out, the rest is loose. */
  lemma SplitOk(t: Tags, x: Index, base: nat, end: nat, p: nat, nb: nat)
    requires SpaceOk(t, x, base, end, {p}) && Loose(t, x, p)
    requires nb % 8 == 0 && MIN_CHUNK_SIZE <= nb && nb + MIN_CHUNK_SIZE <= t.Sz(p)
    ensures var u, r := SplitFree(t, p, nb), p + nb;
      SpaceOk(u, x, base, end, {r}) && Loose(u, x, r) && u.Sz(r) == t.Sz(p) - nb && r !in x.binned && r !in t.chunks
  {
    var u := SplitFree(t, p, nb);
    SplitFreeOk(t, First(base), end, p, nb);
    SplitFreeBits(t, p, nb);
    SplitElsewhere(t, u, x, base, p, nb);
  }

  lemma SplitElsewhere(t: Tags, u: Tags, x: Index, base: nat, p: nat, nb: nat)
    requires SplitBits(t, p, nb, u) && 0 < nb && p + nb !in t.chunks && p in t.chunks
    requires IndexOk(x, base, t.head) && DvOk(t, x) && Placed(t, x, {p}) && Loose(t, x, p)
    ensures IndexOk(x, base, u.head) && DvOk(u, x) && Placed(u, x, {p + nb}) && Loose(u, x, p + nb)
    ensures u.Sz(p + nb) == t.Sz(p) - nb
  {
    SameIndex(t, u, x, base);
    assert u.Sz(p + nb) == t.Sz(p) - nb && !u.Inuse(p + nb);
    if x.dvsize != 0 { assert u.Sz(x.dv) == t.Sz(x.dv) && !u.Inuse(x.dv); }
  }

  // ----- what a call leaves as dv

  /** The remainder of dv stays dv; that of a chunk from a bin becomes dv if the request is small. */
  ghost predicate DvAfterAlloc(t: Tags, dv: nat, dvsize: nat, p: nat, nb: nat, dv': nat, dvsize': nat) {
    if p == t.top then dv' == dv && dvsize' == dvsize
    else if p == dv && dvsize < nb + MIN_CHUNK_SIZE then dv' == 0 && dvsize' == 0
    else if p == dv || (nb < MIN_LARGE_SIZE && nb + MIN_CHUNK_SIZE <= t.Sz(p)) then dv' == p + nb &&
      dvsize' == t.Sz(p) - nb
    else dv' == dv && dvsize' == dvsize
  }

  /** p has been handed out for nb, the tags and dv being what they must be. */
  ghost predicate HandedOut(t: Tags, dv: nat, dvsize: nat, p: nat, nb: nat, u: Tags, dv': nat, dvsize': nat) {
    u == AllocTags(t, p, nb) && Allocated(t, u, p, nb) && DvAfterAlloc(t, dv, dvsize, p, nb, dv', dvsize')
  }

  /** dv grows over a freed neighbour, or is lost to top. */
  ghost predicate DvAfterFree(t: Tags, dv: nat, dvsize: nat, f: nat, dv': nat, dvsize': nat) {
    if dv != MergeStart(t, f) && dv != t.Next(f) then dv' == dv && dvsize' == dvsize
    else if t.Next(f) == t.top then dv' == 0 && dvsize' == 0
    else dv' == MergeStart(t, f) && dv' + dvsize' == MergeEnd(t, f)
  }

  /** f has been released. */
  ghost predicate Released(t: Tags, dv: nat, dvsize: nat, f: nat, u: Tags, dv': nat, dvsize': nat) {
    u == FreeTags(t, f) && DvAfterFree(t, dv, dvsize, f, dv', dvsize')
  }

  lemma TakeHandsOut(t: Tags, dv: nat, dvsize: nat, p: nat, nb: nat)
    requires p in t.chunks && !t.Inuse(p) && 0 < nb <= t.Sz(p) < nb + MIN_CHUNK_SIZE && p != t.top && p != dv
    ensures HandedOut(t, dv, dvsize, p, nb, TakeWhole(t, p), dv, dvsize) == true
  {
    TakeAllocates(t, p, nb);
  }

  lemma SplitHandsOut(t: Tags, dv: nat, dvsize: nat, p: nat, nb: nat, dv': nat, dvsize': nat)
    requires p in t.chunks && !t.Inuse(p) && 0 < nb && nb + MIN_CHUNK_SIZE <= t.Sz(p) && p != t.top && p != dv &&
      p + nb !in t.chunks
    requires if nb < MIN_LARGE_SIZE then dv' == p + nb && dvsize' == t.Sz(p) - nb else dv' == dv && dvsize' == dvsize
    ensures HandedOut(t, dv, dvsize, p, nb, SplitFree(t, p, nb), dv', dvsize') == true
  {
    SplitAllocates(t, p, nb);
  }

  // ----- chunks that become loose, and loose chunks that find a place

  /** x' differs from x in what the bins hold. */
  ghost predicate Rebinned(x: Index, x': Index, binned: set<nat>) {
    x'.dv == x.dv && x'.dvsize == x.dvsize && x'.binned == binned
  }

  lemma UnlinkedOk(t: Tags, x: Index, x': Index, base: nat, end: nat, loose: set<nat>, p: nat)
    requires SpaceOk(t, x, base, end, loose) && p in x.binned
    requires IndexOk(x', base, t.head) && Rebinned(x, x', x.binned - {p})
    ensures SpaceOk(t, x', base, end, loose + {p}) && Loose(t, x', p)
  {
  }

  lemma InsertedOk(t: Tags, x: Index, x': Index, base: nat, end: nat, loose: set<nat>, p: nat)
    requires SpaceOk(t, x, base, end, loose) && Loose(t, x, p) && p in loose
    requires IndexOk(x', base, t.head) && Rebinned(x, x', x.binned + {p})
    ensures SpaceOk(t, x', base, end, loose - {p})
  {
  }

  /** The state with no designated victim. */
  function NoDv(x: Index): Index { x.(dv := 0, dvsize := 0) }

  lemma DvLoosened(t: Tags, x: Index, base: nat, end: nat, loose: set<nat>)
    requires SpaceOk(t, x, base, end, loose) && x.dvsize != 0 && x.dv !in loose
    ensures SpaceOk(t, NoDv(x), base, end, loose + {x.dv}) && Loose(t, NoDv(x), x.dv)
  {
    TopNotChunk(t, First(base));
  }

  lemma DvDesignated(t: Tags, x: Index, base: nat, end: nat, p: nat)
    requires SpaceOk(t, x, base, end, {p}) && p in t.chunks && !t.Inuse(p) && x.dvsize == 0
    ensures t.Sz(p) > 0 && SpaceOk(t, x.(dv := p, dvsize := t.Sz(p)), base, end, {})
  {
    TopNotChunk(t, First(base));
    assert t.Next(p) > p;
  }

  lemma DvSplitOk(t: Tags, x: Index, base: nat, end: nat, nb: nat)
    requires SpaceOk(t, x, base, end, {}) && nb % 8 == 0 && MIN_CHUNK_SIZE <= nb && nb + MIN_CHUNK_SIZE <= x.dvsize
    ensures t.Sz(x.dv) == x.dvsize
    ensures HandedOut(t, x.dv, x.dvsize, x.dv, nb, SplitFree(t, x.dv, nb), x.dv + nb, x.dvsize - nb) == true
    ensures SpaceOk(SplitFree(t, x.dv, nb), x.(dv := x.dv + nb, dvsize := x.dvsize - nb), base, end, {})
  {
    DvLoosened(t, x, base, end, {});
    assert {} + {x.dv} == {x.dv};
    SplitOk(t, NoDv(x), base, end, x.dv, nb);
    SplitAllocates(t, x.dv, nb);
    TopNotChunk(t, First(base));
    DvDesignated(SplitFree(t, x.dv, nb), NoDv(x), base, end, x.dv + nb);
  }

  lemma DvExhaustOk(t: Tags, x: Index, base: nat, end: nat, nb: nat)
    requires SpaceOk(t, x, base, end, {}) && 0 < nb <= x.dvsize < nb + MIN_CHUNK_SIZE
    ensures t.Sz(x.dv) == x.dvsize
    ensures HandedOut(t, x.dv, x.dvsize, x.dv, nb, TakeWhole(t, x.dv), 0, 0) == true
    ensures SpaceOk(TakeWhole(t, x.dv), NoDv(x), base, end, {})
  {
    DvLoosened(t, x, base, end, {});
    assert {} + {x.dv} == {x.dv};
    TakenOk(t, NoDv(x), base, end, x.dv);
    TakeAllocates(t, x.dv, nb);
    TopNotChunk(t, First(base));
  }

  // ----- top

  lemma TopSplitOk(t: Tags, x: Index, base: nat, end: nat, nb: nat)
    requires SpaceOk(t, x, base, end, {}) && nb % 8 == 0 && MIN_CHUNK_SIZE <= nb < t.topsize
    ensures SpaceOk(SplitTop(t, nb), x, base, end, {})
  {
    var u := SplitTop(t, nb);
    TopNotChunk(t, First(base));
    SplitTopOk(t, First(base), end, nb);
    SplitTopHasBits(t, nb);
    TopSplitElsewhere(t, u, x, base, nb);
  }

  lemma TopSplitElsewhere(t: Tags, u: Tags, x: Index, base: nat, nb: nat)
    requires 0 < nb < t.topsize && SplitTopBits(t, nb, u) && forall q :: q in t.chunks ==> q < t.top
    requires IndexOk(x, base, t.head) && DvOk(t, x) && Placed(t, x, {})
    ensures IndexOk(x, base, u.head) && DvOk(u, x) && Placed(u, x, {})
  {
    forall q | q in t.chunks ensures Hd(u.head, q) == Hd(t.head, q) { }
    SameIndex(t, u, x, base);
  }

  // ----- merging

  /** The free chunks from p up to e are the loose ones. */
  ghost predicate LooseRange(t: Tags, x: Index, p: nat, e: nat, loose: set<nat>) {
    (forall q :: q in loose ==> p <= q < e) &&
    (forall q :: q in t.chunks && p <= q < e && !t.Inuse(q) ==> q in loose) &&
    (x.dvsize != 0 ==> !(p <= x.dv < e))
  }

  lemma MergedOk(t: Tags, x: Index, base: nat, end: nat, p: nat, e: nat, loose: set<nat>)
    requires SpaceOk(t, x, base, end, loose) && LooseRange(t, x, p, e, loose)
    requires p in t.chunks && e in t.chunks && p < e && t.Inuse(e) && Hd(t.head, p).pinuse
    ensures var u := Merge(t, p, e);
      SpaceOk(u, x, base, end, {p}) && Loose(u, x, p) && u.Sz(p) == e - p
  {
    var u := Merge(t, p, e);
    MergeOk(t, First(base), end, p, e);
    MergeHasBits(t, p, e);
    TopNotChunk(t, First(base));
    MergeElsewhere(t, u, x, base, p, e, loose);
  }

  lemma MergeElsewhere(t: Tags, u: Tags, x: Index, base: nat, p: nat, e: nat, loose: set<nat>)
    requires MergeBits(t, p, e, u) && p in t.chunks && LooseRange(t, x, p, e, loose) && 0 < p < e
    requires IndexOk(x, base, t.head) && DvOk(t, x) && Placed(t, x, loose)
    ensures IndexOk(x, base, u.head) && DvOk(u, x) && Placed(u, x, {p}) && Loose(u, x, p) && u.Sz(p) == e - p
  {
    SameIndex(t, u, x, base);
    assert u.Sz(p) == e - p && !u.Inuse(p);
    if x.dvsize != 0 { assert u.Sz(x.dv) == t.Sz(x.dv) && !u.Inuse(x.dv); }
  }

  lemma TopGrownOk(t: Tags, x: Index, base: nat, end: nat, p: nat, loose: set<nat>)
    requires SpaceOk(t, x, base, end, loose) && p in t.chunks && p <= t.top && LooseRange(t, x, p, t.top, loose)
    requires Hd(t.head, p).pinuse
    ensures SpaceOk(GrowTop(t, p), x, base, end, {})
  {
    var u := GrowTop(t, p);
    GrowTopOk(t, First(base), end, p);
    GrowTopHasBits(t, p);
    TopNotChunk(t, First(base));
    TopGrownElsewhere(t, u, x, base, p, loose);
  }

  lemma TopGrownElsewhere(t: Tags, u: Tags, x: Index, base: nat, p: nat, loose: set<nat>)
    requires p <= t.top && GrowTopBits(t, p, u) && p in t.chunks && LooseRange(t, x, p, t.top, loose)
    requires forall q :: q in t.chunks ==> q < t.top
    requires IndexOk(x, base, t.head) && DvOk(t, x) && Placed(t, x, loose)
    ensures IndexOk(x, base, u.head) && DvOk(u, x) && Placed(u, x, {})
  {
    forall q: nat | q < p ensures Hd(u.head, q) == Hd(t.head, q) { }
    forall q | q in x.binned ensures u.Sz(q) == t.Sz(q) { assert q < p; }
    SameIndex(t, u, x, base);
  }

  // ----- a new mspace

  const TOP_FOOT_SIZE: nat := 72

  ghost function NoBins(): Bins {
    Bins(seq(NSMALLBINS, i requires 0 <= i < NSMALLBINS => []), seq(NTREEBINS, i requires 0 <= i < NTREEBINS => Nil))
  }

  lemma FreshOk(t: Tags, x: Index, base: nat, end: nat)
    requires 0 < base && end < SIZE_T && base % 8 == 0 && t.topsize % 8 == 0 && 0 < t.topsize
    requires t.chunks == {} && t.top == First(base) && t.top + t.topsize == end &&
      Hd(t.head, t.top) == Head(t.topsize, false, true)
    requires x.bins == NoBins() && x.smallmap == Zero() && x.treemap == Zero() && x.binned == {} && x.dv == 0 &&
      x.dvsize == 0
    requires |x.roots| == NTREEBINS && forall i :: 0 <= i < NTREEBINS ==> x.roots[i] == 0
    ensures SpaceOk(t, x, base, end, {})
  {
    assert TagsOk(t, First(base), end) by { assert t.Boundary(t.top); }
    forall i | 0 <= i < NSMALLBINS ensures SmallOk(x.bins.small[i], i, base, x.links, t.head) && !x.smallmap[i] { }
    forall i | 0 <= i < NTREEBINS ensures TreeOk(x.bins.tries[i], i, x.roots[i], base, x.links, t.head) &&
      !x.treemap[i] { }
  }
}
