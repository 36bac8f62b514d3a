/** The cases of mspace_free: a freed chunk joins dv, top, or its free neighbours. */
module Freeing {
  import opened Memory
  import opened Bins
  import opened Chunks
  import opened Space

  /** On the way: f is being freed, p is where the merged chunk will begin, psize bytes before
      next; a free chunk before f other than dv has been unlinked already. */
  ghost predicate FreeingAt(t: Tags, x: Index, base: nat, end: nat, f: nat, p: nat, psize: nat, next: nat,
        loose: set<nat>) {
    SpaceOk(t, x, base, end, loose) && Live(t, f) && p == MergeStart(t, f) && next == t.Next(f) && p + psize == next &&
    loose == if p == f || p == x.dv then {} else {p}
  }

  /** What is free around f. */
  ghost function FreeNeighbours(t: Tags, f: nat): set<nat> {
    (if MergeStart(t, f) == f then {} else {MergeStart(t, f)}) +
    (if MergeEnd(t, f) == t.Next(f) then {} else {t.Next(f)})
  }

  lemma NeighboursLoose(t: Tags, x: Index, base: nat, end: nat, f: nat, loose: set<nat>)
    requires SpaceOk(t, x, base, end, loose) == true && Live(t, f) && loose == FreeNeighbours(t, f)
    requires x.dvsize != 0 ==> x.dv !in loose
    ensures LooseRange(t, x, MergeStart(t, f), MergeEnd(t, f), loose)
  {
    StartOfMerge(t, First(base), end, f);
    EndOfMerge(t, First(base), end, f);
    InRange(t, f, loose);
  }

  lemma InRange(t: Tags, f: nat, loose: set<nat>)
    requires Live(t, f) && loose == FreeNeighbours(t, f) && MergeStart(t, f) <= f < t.Next(f) <= MergeEnd(t, f)
    requires forall q :: q in t.chunks && MergeStart(t, f) <= q < f ==> q == MergeStart(t, f)
    requires forall q :: q in t.chunks && f <= q < MergeEnd(t, f) ==>
      q == f || (q == t.Next(f) && q != MergeEnd(t, f) && !t.Inuse(q))
    ensures forall q :: q in loose ==> MergeStart(t, f) <= q < MergeEnd(t, f)
    ensures forall q :: q in t.chunks && MergeStart(t, f) <= q < MergeEnd(t, f) && !t.Inuse(q) ==> q in loose
  {
  }

  lemma LooseMerges(t: Tags, x: Index, base: nat, end: nat, f: nat, loose: set<nat>)
    requires SpaceOk(t, x, base, end, loose) == true && Live(t, f) && loose == FreeNeighbours(t, f)
    requires x.dvsize != 0 ==> x.dv !in loose
    ensures MergeStart(t, f) <= t.top
    ensures var s, e, u := MergeStart(t, f), MergeEnd(t, f), FreeTags(t, f);
      if t.Next(f) == t.top then u == GrowTop(t, s) && SpaceOk(u, x, base, end, {})
      else s <= e && u == Merge(t, s, e) && SpaceOk(u, x, base, end, {s}) && Loose(u, x, s) && u.Sz(s) == e - s
  {
    NeighboursLoose(t, x, base, end, f, loose);
    StartOfMerge(t, First(base), end, f);
    EndOfMerge(t, First(base), end, f);
    if t.Next(f) == t.top {
      TopGrownOk(t, x, base, end, MergeStart(t, f), loose);
    } else {
      MergedOk(t, x, base, end, MergeStart(t, f), MergeEnd(t, f), loose);
    }
  }

  /** The chunk before f, when free, is dv or in a bin. */
  lemma PrevKept(t: Tags, x: Index, base: nat, end: nat, f: nat)
    requires SpaceOk(t, x, base, end, {}) == true && Live(t, f)
    ensures f != x.dv && Hd(t.head, t.Next(f)).pinuse
    ensures Hd(t.head, f).pinuse ==> FreeingAt(t, x, base, end, f, f, t.Sz(f), t.Next(f), {})
    ensures !Hd(t.head, f).pinuse ==> t.Foot(f) <= f && FreePrev(t, x, base, end, f, f - t.Foot(f), t.Sz(f) + t.Foot(f))
  {
    PrvOfNext(t, First(base), f);
    TopNotChunk(t, First(base));
    if !Hd(t.head, f).pinuse { PreviousFree(t, First(base), end, f); }
  }

  ghost predicate FreePrev(t: Tags, x: Index, base: nat, end: nat, f: nat, q: nat, psize: nat) {
    q == MergeStart(t, f) && q != f && q + psize == t.Next(f) && q in t.chunks &&
    (q != x.dv ==> q in x.binned) && (q == x.dv ==> FreeingAt(t, x, base, end, f, q, psize, t.Next(f), {}))
  }

  /** The chunk behind f, when free and not top, is dv or in a bin. */
  lemma NextKept(t: Tags, x: Index, base: nat, end: nat, f: nat, p: nat, psize: nat, next: nat, loose: set<nat>)
    requires FreeingAt(t, x, base, end, f, p, psize, next, loose) == true && !t.Inuse(next) && next != t.top &&
      next != x.dv
    ensures next in x.binned && next !in loose && MergeEnd(t, f) == next + t.Sz(next) && t.Sz(next) > 0
    ensures next in t.chunks
  {
    EndOfMerge(t, First(base), end, f);
    StartOfMerge(t, First(base), end, f);
  }

  /** dv before f is extended. */
  lemma IntoDv(t: Tags, x: Index, base: nat, end: nat, f: nat, p: nat, psize: nat, next: nat)
    requires FreeingAt(t, x, base, end, f, p, psize, next, {}) == true && p == x.dv && t.Inuse(next)
    ensures FreeTags(t, f) == Merge(t, p, next) && SpaceOk(FreeTags(t, f), x.(dvsize := psize), base, end, {})
  {
    StartOfMerge(t, First(base), end, f);
    EndOfMerge(t, First(base), end, f);
    TopNotChunk(t, First(base));
    DvBehind(t, x, base, end, f, p);
    assert NoDv(x).(dv := p, dvsize := psize) == x.(dvsize := psize);
  }

  /** Everything free around f but dv is loose: f merges with it into the new dv. */
  lemma DvBehind(t: Tags, x: Index, base: nat, end: nat, f: nat, p: nat)
    requires SpaceOk(t, x, base, end, FreeNeighbours(t, f) - {x.dv}) == true && Live(t, f) && p == MergeStart(t, f) &&
      t.Next(f) != t.top
    requires x.dvsize != 0 && x.dv in FreeNeighbours(t, f)
    ensures p <= MergeEnd(t, f) && FreeTags(t, f) == Merge(t, p, MergeEnd(t, f))
    ensures SpaceOk(FreeTags(t, f), NoDv(x).(dv := p, dvsize := MergeEnd(t, f) - p), base, end, {})
  {
    var loose := FreeNeighbours(t, f);
    DvLoosened(t, x, base, end, loose - {x.dv});
    assert loose - {x.dv} + {x.dv} == loose;
    LooseMerges(t, NoDv(x), base, end, f, loose);
    DvDesignated(FreeTags(t, f), NoDv(x), base, end, p);
  }

  /** f and a free chunk before it join top; that chunk may have been dv. */
  lemma IntoTop(t: Tags, x: Index, base: nat, end: nat, f: nat, p: nat, psize: nat, next: nat, loose: set<nat>)
    requires FreeingAt(t, x, base, end, f, p, psize, next, loose) == true && next == t.top
    ensures p <= t.top && FreeTags(t, f) == GrowTop(t, p)
    ensures SpaceOk(FreeTags(t, f), if p == x.dv then NoDv(x) else x, base, end, {})
  {
    StartOfMerge(t, First(base), end, f);
    EndOfMerge(t, First(base), end, f);
    TopNotChunk(t, First(base));
    if p == x.dv {
      DvLoosened(t, x, base, end, loose);
      assert loose + {x.dv} == FreeNeighbours(t, f);
      LooseMerges(t, NoDv(x), base, end, f, {x.dv});
    } else {
      DvNotLoose(t, x, base, end, f, p, psize, next, loose);
      LooseMerges(t, x, base, end, f, loose);
    }
  }

  lemma DvNotLoose(t: Tags, x: Index, base: nat, end: nat, f: nat, p: nat, psize: nat, next: nat, loose: set<nat>)
    requires FreeingAt(t, x, base, end, f, p, psize, next, loose) == true
    ensures x.dv !in loose
  {
  }

  /** dv behind f is extended downwards. */
  lemma OntoDv(t: Tags, x: Index, base: nat, end: nat, f: nat, p: nat, psize: nat, next: nat, loose: set<nat>)
    requires FreeingAt(t, x, base, end, f, p, psize, next, loose) == true && next == x.dv && next != t.top &&
      !t.Inuse(next)
    ensures FreeTags(t, f) == Merge(t, p, next + x.dvsize) && p < next
    ensures SpaceOk(FreeTags(t, f), x.(dv := p, dvsize := psize + x.dvsize), base, end, {})
    ensures var e := p + (psize + x.dvsize); e in t.head && !Hd(t.head, e).pinuse
  {
    DvCleared(t, x, base, end, f, p, psize, next, loose);
    OntoDvOk(t, x, base, end, f, p, psize, next, loose);
  }

  lemma OntoDvOk(t: Tags, x: Index, base: nat, end: nat, f: nat, p: nat, psize: nat, next: nat, loose: set<nat>)
    requires FreeingAt(t, x, base, end, f, p, psize, next, loose) == true && next == x.dv && next != t.top &&
      !t.Inuse(next)
    ensures FreeTags(t, f) == Merge(t, p, next + x.dvsize) && p < next
    ensures SpaceOk(FreeTags(t, f), x.(dv := p, dvsize := psize + x.dvsize), base, end, {})
  {
    StartOfMerge(t, First(base), end, f);
    EndOfMerge(t, First(base), end, f);
    TopNotChunk(t, First(base));
    assert loose == FreeNeighbours(t, f) - {x.dv};
    DvBehind(t, x, base, end, f, p);
    assert NoDv(x).(dv := p, dvsize := psize + x.dvsize) == x.(dv := p, dvsize := psize + x.dvsize);
  }

  /** size bytes from p on are about to become one chunk: dv if dv was before f. */
  ghost predicate NextMerges(t: Tags, x: Index, base: nat, end: nat, f: nat, p: nat, size: nat) {
    var u := FreeTags(t, f);
    u == Merge(t, p, p + size) && p + size in t.head && !Hd(t.head, p + size).pinuse &&
    DvAfterFree(t, x.dv, x.dvsize, f, x.dv, if p == x.dv then size else x.dvsize) &&
    (p == x.dv ==> SpaceOk(u, x.(dvsize := size), base, end, {})) &&
    (p != x.dv ==> SpaceOk(u, x, base, end, {p}) && Loose(u, x, p) && u.Sz(p) == size)
  }

  /** The chunk behind f is to be merged with f, and p with them. */
  ghost predicate NextReady(t: Tags, dv: nat, dvsize: nat, f: nat, p: nat, psize: nat, next: nat, nsize: nat,
        loose: set<nat>) {
    Live(t, f) && p == MergeStart(t, f) && next == t.Next(f) && p + psize == next && p < next && next != t.top &&
      next != dv &&
    nsize == t.Sz(next) && MergeEnd(t, f) == next + nsize && nsize > 0 && dv !in loose &&
    loose == (if p == f || p == dv then {} else {p}) && (p == dv ==> p != f && dvsize != 0) &&
    FreeTags(t, f) == Merge(t, p, p + (psize + nsize)) &&
    var e := p + (psize + nsize); e in t.head && !Hd(t.head, e).pinuse
  }

  /** f, its unlinked successor, and what is free before it merge. */
  lemma WithNext(t: Tags, x: Index, base: nat, end: nat, f: nat, p: nat, psize: nat, next: nat, nsize: nat,
        loose: set<nat>)
    requires SpaceOk(t, x, base, end, loose + {next}) == true &&
      NextReady(t, x.dv, x.dvsize, f, p, psize, next, nsize, loose) == true
    ensures NextMerges(t, x, base, end, f, p, psize + nsize) == true
  {
    if p == x.dv {
      assert loose + {next} == {next};
      WithNextInDv(t, x, base, end, f, p, psize, next);
    } else {
      WithNextInBin(t, x, base, end, f, p, psize, next, loose);
    }
  }

  lemma WithNextFacts(t: Tags, x: Index, base: nat, end: nat, f: nat, p: nat, psize: nat, next: nat, loose: set<nat>)
    requires FreeingAt(t, x, base, end, f, p, psize, next, loose) == true && next != t.top && !t.Inuse(next) &&
      next != x.dv
    ensures next in x.binned && NextReady(t, x.dv, x.dvsize, f, p, psize, next, t.Sz(next), loose) == true
  {
    NextKept(t, x, base, end, f, p, psize, next, loose);
    NextCleared(t, base, end, next);
    DvIsNoChunkInUse(t, x, base, end, loose, f);
    DvNotLoose(t, x, base, end, f, p, psize, next, loose);
    WithNextTags(t, base, end, f, p, psize, next);
  }

  lemma DvIsNoChunkInUse(t: Tags, x: Index, base: nat, end: nat, loose: set<nat>, f: nat)
    requires SpaceOk(t, x, base, end, loose) == true && Live(t, f)
    ensures f != x.dv && (x.dvsize == 0 ==> x.dv !in t.chunks)
    ensures MergeStart(t, f) in t.chunks
  {
    TopNotChunk(t, First(base));
    StartOfMerge(t, First(base), end, f);
  }

  lemma WithNextTags(t: Tags, base: nat, end: nat, f: nat, p: nat, psize: nat, next: nat)
    requires TagsOk(t, First(base), end) && Live(t, f) && p == MergeStart(t, f) && next == t.Next(f) &&
      p + psize == next
    requires next != t.top && MergeEnd(t, f) == next + t.Sz(next)
    ensures FreeTags(t, f) == Merge(t, p, p + (psize + t.Sz(next)))
  {
    StartOfMerge(t, First(base), end, f);
    EndOfMerge(t, First(base), end, f);
  }

  lemma WithNextInBin(t: Tags, x: Index, base: nat, end: nat, f: nat, p: nat, psize: nat, next: nat, loose: set<nat>)
    requires SpaceOk(t, x, base, end, loose + {next}) == true && loose == if p == f then {} else {p}
    requires x.dvsize != 0 ==> x.dv !in loose && x.dv != next
    requires Live(t, f) && p == MergeStart(t, f) && next == t.Next(f) && p + psize == next
    requires next != t.top && MergeEnd(t, f) == next + t.Sz(next) && t.Sz(next) > 0
    ensures var u := FreeTags(t, f); SpaceOk(u, x, base, end, {p}) && Loose(u, x, p) && u.Sz(p) == psize + t.Sz(next)
  {
    assert loose + {next} == FreeNeighbours(t, f);
    LooseMerges(t, x, base, end, f, loose + {next});
  }

  lemma WithNextInDv(t: Tags, x: Index, base: nat, end: nat, f: nat, p: nat, psize: nat, next: nat)
    requires SpaceOk(t, x, base, end, {next}) == true && x.dv == p && p != next && x.dvsize != 0
    requires Live(t, f) && p == MergeStart(t, f) && next == t.Next(f) && p + psize == next && p != f
    requires next != t.top && MergeEnd(t, f) == next + t.Sz(next) && t.Sz(next) > 0
    ensures SpaceOk(FreeTags(t, f), x.(dvsize := psize + t.Sz(next)), base, end, {})
  {
    assert {next} == FreeNeighbours(t, f) - {x.dv};
    DvBehind(t, x, base, end, f, p);
    assert NoDv(x).(dv := p, dvsize := psize + t.Sz(next)) == x.(dvsize := psize + t.Sz(next));
  }

  /** f and an unlinked chunk before it become one chunk in front of one in use. */
  lemma Alone(t: Tags, x: Index, base: nat, end: nat, f: nat, p: nat, psize: nat, next: nat, loose: set<nat>)
    requires FreeingAt(t, x, base, end, f, p, psize, next, loose) == true && t.Inuse(next) && p != x.dv
    ensures p < next && FreeTags(t, f) == Merge(t, p, next)
    ensures var u := FreeTags(t, f); SpaceOk(u, x, base, end, {p}) && Loose(u, x, p) && u.Sz(p) == psize
  {
    StartOfMerge(t, First(base), end, f);
    EndOfMerge(t, First(base), end, f);
    TopNotChunk(t, First(base));
    DvNotLoose(t, x, base, end, f, p, psize, next, loose);
    LooseMerges(t, x, base, end, f, loose);
  }

  /** Behind a free chunk the bit is clear already: clearing it again changes nothing. */
  lemma NextCleared(t: Tags, base: nat, end: nat, n: nat)
    requires TagsOk(t, First(base), end) && n in t.chunks && !t.Inuse(n)
    ensures var e := n + t.Sz(n); e in t.head && !Hd(t.head, e).pinuse
  {
    PrvOfNext(t, First(base), n);
    assert t.Sz(t.Next(n)) > 0 by { assert t.Next(t.Next(n)) <= t.top; }
  }

  lemma DvCleared(t: Tags, x: Index, base: nat, end: nat, f: nat, p: nat, psize: nat, next: nat, loose: set<nat>)
    requires FreeingAt(t, x, base, end, f, p, psize, next, loose) == true && next == x.dv && next != t.top &&
      !t.Inuse(next)
    ensures var e := p + (psize + x.dvsize); e in t.head && !Hd(t.head, e).pinuse
  {
    EndOfMerge(t, First(base), end, f);
    NextCleared(t, base, end, next);
  }
}
