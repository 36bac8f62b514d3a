/** Boundary tags: the chunks that tile the segment from its first chunk up to top,
    the in-use bits in their heads, and the size words behind free chunks. */
module Chunks {
  import opened Memory

  const MIN_CHUNK_SIZE: nat := 32

  /** chunks: every chunk below top. prv: the chunk before each chunk, and before top. */
  datatype Tags = Tags(chunks: set<nat>, prv: map<nat, nat>, head: Heads, foot: map<nat, nat>,
                       top: nat, topsize: nat)
  {
    predicate Inuse(p: nat) { Hd(head, p).cinuse }

    function Sz(p: nat): nat { Size(head, p) }

    function Next(p: nat): nat { p + Sz(p) }

    ghost predicate Boundary(p: nat) { p in chunks || p == top }

    function Prv(p: nat): nat { if p in prv then prv[p] else 0 }

    function Foot(p: nat): nat { FootAt(foot, p) }
  }

  ghost predicate Aligned(t: Tags, first: nat) {
    first % 8 == 0 && t.top % 8 == 0 && t.topsize % 8 == 0 &&
    forall p {:trigger t.Sz(p)} :: p in t.chunks ==> p % 8 == 0 && t.Sz(p) % 8 == 0
  }

  /** The chunks tile first .. top. */
  ghost predicate Tiles(t: Tags, first: nat) {
    0 < first && t.Boundary(first) &&
    (forall p {:trigger t.Next(p)} :: p in t.chunks ==>
      first <= p && MIN_CHUNK_SIZE <= t.Sz(p) && t.Next(p) <= t.top && t.Boundary(t.Next(p))) &&
    (forall p, q {:trigger t.Next(p), q in t.chunks} :: p in t.chunks && q in t.chunks && p < q ==> t.Next(p) <= q) &&
    (forall p {:trigger t.Prv(p)} :: t.Boundary(p) && p != first ==> t.Prv(p) in t.chunks && t.Next(t.Prv(p)) == p)
  }

  /** Each pinuse bit, and each size word behind a free chunk, tells the truth. */
  ghost predicate TruthfulTags(t: Tags, first: nat) {
    (forall p {:trigger t.Prv(p)} :: t.Boundary(p) ==> (Hd(t.head, p).pinuse <==> p == first || t.Inuse(t.Prv(p)))) &&
    (forall p {:trigger t.Next(p)} :: p in t.chunks && !t.Inuse(p) ==> t.Foot(t.Next(p)) == t.Sz(p))
  }

  /** A free chunk is followed by a chunk in use: no two free chunks touch, and none touches top. */
  ghost predicate Coalesced(t: Tags) {
    forall p {:trigger t.Next(p)} :: p in t.chunks && !t.Inuse(p) ==> t.Next(p) in t.chunks && t.Inuse(t.Next(p))
  }

  ghost predicate TopOk(t: Tags, end: nat) {
    t.topsize > 0 && t.top + t.topsize == end && Hd(t.head, t.top) == Head(t.topsize, false, true)
  }

  ghost predicate TagsOk(t: Tags, first: nat, end: nat) {
    Tiles(t, first) && TruthfulTags(t, first) && Coalesced(t) && TopOk(t, end) && Aligned(t, first)
  }

  // ----- basic geometry

  lemma TopNotChunk(t: Tags, first: nat)
    requires Tiles(t, first)
    ensures t.top !in t.chunks && forall p :: p in t.chunks ==> first <= p < t.top
  {
    forall p | p in t.chunks ensures first <= p < t.top { assert t.Next(p) <= t.top; }
  }

  /** The chunk that ends where p begins is the one before p. */
  lemma PrvOfNext(t: Tags, first: nat, q: nat)
    requires Tiles(t, first) && q in t.chunks
    ensures t.Boundary(t.Next(q)) && t.Next(q) != first && t.Prv(t.Next(q)) == q
  {
    var p := t.Next(q);
    var r := t.Prv(p);
    assert t.Next(r) == p;
  }

  /** The chunk before a free chunk is in use. */
  lemma FreeHasPinuse(t: Tags, first: nat, end: nat, p: nat)
    requires TagsOk(t, first, end) && p in t.chunks && !t.Inuse(p)
    ensures Hd(t.head, p).pinuse
  {
    var q := t.Prv(p);
    assert p != first ==> t.Next(q) == p;
  }

  /** The chunk before p, when it is free, is found through the size word before p. */
  lemma PreviousFree(t: Tags, first: nat, end: nat, p: nat)
    requires TagsOk(t, first, end) && t.Boundary(p) && !Hd(t.head, p).pinuse
    ensures var q := t.Prv(p);
      q in t.chunks && !t.Inuse(q) && q + t.Foot(p) == p && t.Sz(q) == t.Foot(p) && q < p && Hd(t.head, q).pinuse
  {
    var q := t.Prv(p);
    assert t.Next(q) == p;
    FreeHasPinuse(t, first, end, q);
  }

  // ----- taking a whole free chunk: set_inuse_and_pinuse

  function TakeWhole(t: Tags, p: nat): Tags {
    var n := t.Next(p);
    var h := t.head[p := Head(t.Sz(p), true, true)];
    t.(head := h[n := Hd(h, n).(pinuse := true)])
  }

  lemma TakeWholeBits(t: Tags, p: nat, u: Tags)
    requires u == TakeWhole(t, p) && t.Sz(p) > 0
    ensures forall q :: u.Sz(q) == t.Sz(q)
    ensures forall q :: u.Inuse(q) <==> q == p || t.Inuse(q)
    ensures forall q :: Hd(u.head, q).pinuse <==> q == p || q == t.Next(p) || Hd(t.head, q).pinuse
  {
  }

  lemma TakeWholeOk(t: Tags, first: nat, end: nat, p: nat)
    requires TagsOk(t, first, end) && p in t.chunks && !t.Inuse(p)
    ensures TagsOk(TakeWhole(t, p), first, end)
  {
    var u := TakeWhole(t, p);
    TopNotChunk(t, first);
    FreeHasPinuse(t, first, end, p);
    assert t.Next(p) in t.chunks;
    TakeWholeBits(t, p, u);
    SameTiles(t, u, first);
    TakenTruth(t, u, first, p);
  }

  lemma SameTiles(t: Tags, u: Tags, first: nat)
    requires Tiles(t, first) && Aligned(t, first)
    requires u.chunks == t.chunks && u.prv == t.prv && u.top == t.top && u.topsize == t.topsize
    requires forall q :: u.Sz(q) == t.Sz(q)
    ensures Tiles(u, first) && Aligned(u, first)
  {
    forall p | p in u.chunks
      ensures first <= p && MIN_CHUNK_SIZE <= u.Sz(p) && u.Next(p) <= u.top && u.Boundary(u.Next(p))
    {
      assert u.Next(p) == t.Next(p);
    }
    forall p, q | p in u.chunks && q in u.chunks && p < q ensures u.Next(p) <= q {
      assert u.Next(p) == t.Next(p);
    }
    forall p: nat | u.Boundary(p) && p != first ensures u.Prv(p) in u.chunks && u.Next(u.Prv(p)) == p {
      var r := t.Prv(p);
      assert u.Prv(p) == r && t.Boundary(p);
      assert t.Next(r) == p;
    }
    forall p | p in u.chunks ensures p % 8 == 0 && u.Sz(p) % 8 == 0 { assert t.Sz(p) % 8 == 0; }
  }

  lemma TakenTruth(t: Tags, u: Tags, first: nat, p: nat)
    requires Tiles(t, first) && TruthfulTags(t, first) && Coalesced(t) && p in t.chunks && !t.Inuse(p) &&
      Hd(t.head, p).pinuse
    requires u.chunks == t.chunks && u.prv == t.prv && u.top == t.top && u.foot == t.foot
    requires forall q :: u.Sz(q) == t.Sz(q)
    requires forall q :: u.Inuse(q) <==> q == p || t.Inuse(q)
    requires forall q :: Hd(u.head, q).pinuse <==> q == p || q == t.Next(p) || Hd(t.head, q).pinuse
    ensures TruthfulTags(u, first) && Coalesced(u)
  {
    PrvOfNext(t, first, p);
    forall q: nat | u.Boundary(q) ensures Hd(u.head, q).pinuse <==> q == first || u.Inuse(u.Prv(q)) {
      var r := t.Prv(q);
      assert q != first ==> t.Next(r) == q;
    }
    forall q | q in u.chunks && !u.Inuse(q)
      ensures u.Foot(u.Next(q)) == u.Sz(q) && u.Next(q) in u.chunks && u.Inuse(u.Next(q))
    {
      assert t.Next(q) == u.Next(q);
    }
  }

  // ----- splitting a free chunk: the low part is taken, the rest stays free

  function SplitFree(t: Tags, p: nat, nb: nat): Tags {
    var r, rs := p + nb, t.Sz(p) - nb;
    if rs < 0 then t
    else t.(chunks := t.chunks + {r},
            prv := t.prv[r := p][t.Next(p) := r],
            head := t.head[p := Head(nb, true, true)][r := Head(rs, false, true)],
            foot := t.foot[r + rs := rs])
  }

  /** What a split changes, place by place. */
  ghost predicate SplitBits(t: Tags, p: nat, nb: nat, u: Tags) {
    var r := p + nb;
    u.chunks == t.chunks + {r} && u.top == t.top && u.topsize == t.topsize &&
    (forall q {:trigger u.Sz(q)} :: u.Sz(q) == if q == p then nb else if q == r then t.Sz(p) - nb else t.Sz(q)) &&
    (forall q {:trigger u.Inuse(q)} :: u.Inuse(q) <==> q == p || (q != r && t.Inuse(q))) &&
    (forall q {:trigger Hd(u.head, q)} :: Hd(u.head, q).pinuse <==> q == p || q == r || Hd(t.head, q).pinuse) &&
    (forall q {:trigger u.Prv(q)} :: u.Prv(q) == if q == t.Next(p) then r else if q == r then p else t.Prv(q)) &&
    (forall q {:trigger u.Foot(q)} :: u.Foot(q) == if q == t.Next(p) then t.Sz(p) - nb else t.Foot(q)) &&
    (forall q {:trigger Hd(u.head, q)} :: q != p && q != r ==> Hd(u.head, q) == Hd(t.head, q))
  }

  lemma SplitFreeBits(t: Tags, p: nat, nb: nat)
    requires 0 < nb < t.Sz(p)
    ensures SplitBits(t, p, nb, SplitFree(t, p, nb))
  {
  }

  lemma SplitFreeOk(t: Tags, first: nat, end: nat, p: nat, nb: nat)
    requires TagsOk(t, first, end) && p in t.chunks && !t.Inuse(p)
    requires nb % 8 == 0 && MIN_CHUNK_SIZE <= nb && nb + MIN_CHUNK_SIZE <= t.Sz(p)
    ensures TagsOk(SplitFree(t, p, nb), first, end) && p + nb !in t.chunks
  {
    var u, r := SplitFree(t, p, nb), p + nb;
    SplitFreeBits(t, p, nb);
    TopNotChunk(t, first);
    assert t.Next(p) in t.chunks;
    FreeHasPinuse(t, first, end, p);
    SplitTiles(t, first, p, nb, u);
    SplitTruth(t, first, p, nb, u);
    SplitAligned(t, first, p, nb, u);
  }

  lemma SplitAligned(t: Tags, first: nat, p: nat, nb: nat, u: Tags)
    requires Aligned(t, first) && p in t.chunks && nb % 8 == 0 && nb < t.Sz(p) && SplitBits(t, p, nb, u)
    ensures Aligned(u, first)
  {
    assert t.Sz(p) % 8 == 0;
    Multiples(p, nb);
    Multiples(t.Sz(p) - nb, nb);
    forall q | q in u.chunks ensures q % 8 == 0 && u.Sz(q) % 8 == 0 {
      assert q == p + nb || t.Sz(q) % 8 == 0;
    }
  }

  lemma Multiples(a: nat, nb: nat)
    requires nb % 8 == 0
    ensures a % 8 == 0 <==> (a + nb) % 8 == 0
  {
  }

  /** No chunk begins inside another one. */
  lemma NothingInside(t: Tags, first: nat, p: nat, r: nat)
    requires Tiles(t, first) && p in t.chunks && p < r < t.Next(p)
    ensures r !in t.chunks
  {
    assert r in t.chunks ==> t.Next(p) <= r;
  }

  lemma SplitTiles(t: Tags, first: nat, p: nat, nb: nat, u: Tags)
    requires Tiles(t, first) && p in t.chunks && SplitBits(t, p, nb, u)
    requires MIN_CHUNK_SIZE <= nb && nb + MIN_CHUNK_SIZE <= t.Sz(p)
    ensures Tiles(u, first) && p + nb !in t.chunks
  {
    NothingInside(t, first, p, p + nb);
    SplitNexts(t, first, p, nb, u);
    SplitPrvs(t, first, p, nb, u);
    forall q, s | q in u.chunks && s in u.chunks && q < s ensures u.Next(q) <= s {
      SplitApart(t, first, p, nb, u, q, s);
    }
  }

  lemma SplitNexts(t: Tags, first: nat, p: nat, nb: nat, u: Tags)
    requires Tiles(t, first) && p in t.chunks && SplitBits(t, p, nb, u)
    requires MIN_CHUNK_SIZE <= nb && nb + MIN_CHUNK_SIZE <= t.Sz(p) && p + nb !in t.chunks
    ensures forall q :: q in u.chunks ==>
      first <= q && MIN_CHUNK_SIZE <= u.Sz(q) && u.Next(q) <= u.top && u.Boundary(u.Next(q))
  {
    forall q | q in u.chunks
      ensures first <= q && MIN_CHUNK_SIZE <= u.Sz(q) && u.Next(q) <= u.top && u.Boundary(u.Next(q))
    {
      assert t.Next(p) <= t.top;
      assert q == p + nb || t.Next(q) <= t.top;
    }
  }

  lemma SplitPrvs(t: Tags, first: nat, p: nat, nb: nat, u: Tags)
    requires Tiles(t, first) && p in t.chunks && SplitBits(t, p, nb, u)
    requires 0 < nb < t.Sz(p) && p + nb !in t.chunks
    ensures forall q: nat :: u.Boundary(q) && q != first ==> u.Prv(q) in u.chunks && u.Next(u.Prv(q)) == q
  {
    var r, n := p + nb, t.Next(p);
    PrvOfNext(t, first, p);
    forall q: nat | u.Boundary(q) && q != first ensures u.Prv(q) in u.chunks && u.Next(u.Prv(q)) == q {
      if q == n {
        assert u.Prv(q) == r && u.Next(r) == n;
      } else if q == r {
        assert u.Prv(q) == p && u.Next(p) == r;
      } else {
        var s := t.Prv(q);
        assert t.Next(s) == q;
        assert s != p && u.Prv(q) == s && u.Next(s) == t.Next(s);
      }
    }
  }

  lemma SplitApart(t: Tags, first: nat, p: nat, nb: nat, u: Tags, q: nat, s: nat)
    requires Tiles(t, first) && p in t.chunks && 0 < nb < t.Sz(p)
    requires u.Sz(q) == if q == p then nb else if q == p + nb then t.Sz(p) - nb else t.Sz(q)
    requires q < s && (q in t.chunks || q == p + nb) && (s in t.chunks || s == p + nb)
    requires p + nb !in t.chunks
    ensures u.Next(q) <= s
  {
    assert t.Next(p) == p + t.Sz(p);
    if s == p + nb {
      if q != p { assert q < p; assert t.Next(q) <= p; }
    } else if q != p + nb && q != p {
      assert t.Next(q) <= s;
    }
  }

  lemma SplitTruth(t: Tags, first: nat, p: nat, nb: nat, u: Tags)
    requires Tiles(t, first) && TruthfulTags(t, first) && Coalesced(t) && p in t.chunks && !t.Inuse(p) &&
      Hd(t.head, p).pinuse && SplitBits(t, p, nb, u)
    requires MIN_CHUNK_SIZE <= nb && nb + MIN_CHUNK_SIZE <= t.Sz(p) && p + nb !in t.chunks
    ensures TruthfulTags(u, first) && Coalesced(u)
  {
    var r, n := p + nb, t.Next(p);
    PrvOfNext(t, first, p);
    forall q: nat | u.Boundary(q) ensures Hd(u.head, q).pinuse <==> q == first || u.Inuse(u.Prv(q)) {
      var s := t.Prv(q);
      assert q == r || q == first || t.Next(s) == q;
    }
    forall q | q in u.chunks && !u.Inuse(q)
      ensures u.Foot(u.Next(q)) == u.Sz(q) && u.Next(q) in u.chunks && u.Inuse(u.Next(q))
    {
      if q != r { PrvOfNext(t, first, q); }
    }
  }

  // ----- splitting top: the low part becomes a chunk in use

  function SplitTop(t: Tags, nb: nat): Tags {
    var p, r, rs := t.top, t.top + nb, t.topsize - nb;
    if rs < 0 then t
    else Tags(t.chunks + {p}, t.prv[r := p],
              t.head[r := Head(rs, false, true)][p := Head(nb, true, true)], t.foot, r, rs)
  }

  ghost predicate SplitTopBits(t: Tags, nb: nat, u: Tags)
    requires nb < t.topsize
  {
    var p, r := t.top, t.top + nb;
    u.chunks == t.chunks + {p} && u.top == r && u.topsize == t.topsize - nb && u.foot == t.foot &&
    Hd(u.head, p) == Head(nb, true, true) && Hd(u.head, r) == Head(t.topsize - nb, false, true) &&
    (forall q {:trigger Hd(u.head, q)} :: q != p && q != r ==> Hd(u.head, q) == Hd(t.head, q)) &&
    (forall q {:trigger u.Prv(q)} :: u.Prv(q) == if q == r then p else t.Prv(q))
  }

  lemma SplitTopHasBits(t: Tags, nb: nat)
    requires 0 < nb < t.topsize
    ensures SplitTopBits(t, nb, SplitTop(t, nb))
  {
  }

  lemma SplitTopOk(t: Tags, first: nat, end: nat, nb: nat)
    requires TagsOk(t, first, end) && nb % 8 == 0 && MIN_CHUNK_SIZE <= nb < t.topsize
    ensures TagsOk(SplitTop(t, nb), first, end) && t.top !in t.chunks
  {
    SplitTopHasBits(t, nb);
    SplitTopAll(t, first, end, nb, SplitTop(t, nb));
  }

  lemma SplitTopAll(t: Tags, first: nat, end: nat, nb: nat, u: Tags)
    requires TagsOk(t, first, end) && nb % 8 == 0 && MIN_CHUNK_SIZE <= nb < t.topsize && SplitTopBits(t, nb, u)
    ensures TagsOk(u, first, end) && t.top !in t.chunks
  {
    TopNotChunk(t, first);
    SplitTopTiles(t, first, nb, u);
    SplitTopTruth(t, first, nb, u);
    SplitTopAligned(t, first, nb, u);
  }

  lemma SplitTopAligned(t: Tags, first: nat, nb: nat, u: Tags)
    requires Aligned(t, first) && nb % 8 == 0 && nb < t.topsize && SplitTopBits(t, nb, u)
    requires forall q :: q in t.chunks ==> q < t.top
    ensures Aligned(u, first)
  {
    forall q | q in u.chunks ensures q % 8 == 0 && u.Sz(q) % 8 == 0 {
      assert q == t.top || t.Sz(q) % 8 == 0;
    }
  }

  lemma SplitTopTiles(t: Tags, first: nat, nb: nat, u: Tags)
    requires Tiles(t, first) && MIN_CHUNK_SIZE <= nb < t.topsize && SplitTopBits(t, nb, u)
    requires forall q :: q in t.chunks ==> first <= q < t.top
    ensures Tiles(u, first)
  {
    SplitTopPrvs(t, first, nb, u);
    forall q | q in u.chunks
      ensures first <= q && MIN_CHUNK_SIZE <= u.Sz(q) && u.Next(q) <= u.top && u.Boundary(u.Next(q))
    {
      assert q == t.top || (u.Sz(q) == t.Sz(q) && t.Next(q) <= t.top);
    }
    forall q, s | q in u.chunks && s in u.chunks && q < s ensures u.Next(q) <= s {
      assert u.Sz(q) == t.Sz(q) && t.Next(q) <= t.top && (s == t.top || t.Next(q) <= s);
    }
  }

  lemma SplitTopPrvs(t: Tags, first: nat, nb: nat, u: Tags)
    requires Tiles(t, first) && MIN_CHUNK_SIZE <= nb < t.topsize && SplitTopBits(t, nb, u)
    requires forall q :: q in t.chunks ==> first <= q < t.top
    ensures forall q: nat :: u.Boundary(q) && q != first ==> u.Prv(q) in u.chunks && u.Next(u.Prv(q)) == q
  {
    forall q: nat | u.Boundary(q) && q != first ensures u.Prv(q) in u.chunks && u.Next(u.Prv(q)) == q {
      if q == t.top + nb {
        assert u.Next(t.top) == q;
      } else {
        var s := t.Prv(q);
        assert t.Next(s) == q && u.Sz(s) == t.Sz(s);
      }
    }
  }

  lemma SplitTopTruth(t: Tags, first: nat, nb: nat, u: Tags)
    requires Tiles(t, first) && TruthfulTags(t, first) && Coalesced(t) && Hd(t.head, t.top).pinuse &&
      MIN_CHUNK_SIZE <= nb < t.topsize && SplitTopBits(t, nb, u)
    requires forall q :: q in t.chunks ==> first <= q < t.top
    ensures TruthfulTags(u, first) && Coalesced(u)
  {
    SplitTopPinuse(t, first, nb, u);
    forall q | q in u.chunks && !u.Inuse(q)
      ensures u.Foot(u.Next(q)) == u.Sz(q) && u.Next(q) in u.chunks && u.Inuse(u.Next(q))
    {
      SplitTopKeepsFree(t, nb, u, q);
    }
  }

  lemma SplitTopKeepsFree(t: Tags, nb: nat, u: Tags, q: nat)
    requires nb < t.topsize && SplitTopBits(t, nb, u) && Coalesced(t)
    requires forall p {:trigger t.Next(p)} :: p in t.chunks && !t.Inuse(p) ==> t.Foot(t.Next(p)) == t.Sz(p)
    requires q in u.chunks && !u.Inuse(q) && forall q :: q in t.chunks ==> q < t.top
    ensures u.Foot(u.Next(q)) == u.Sz(q) && u.Next(q) in u.chunks && u.Inuse(u.Next(q))
  {
    assert q in t.chunks;
    assert u.Next(q) == t.Next(q);
  }

  lemma SplitTopPinuse(t: Tags, first: nat, nb: nat, u: Tags)
    requires Tiles(t, first) && TruthfulTags(t, first) && 0 < nb < t.topsize && SplitTopBits(t, nb, u)
    requires Hd(t.head, t.top).pinuse
    requires forall q :: q in t.chunks ==> first <= q < t.top
    ensures forall q: nat :: u.Boundary(q) ==> (Hd(u.head, q).pinuse <==> q == first || u.Inuse(u.Prv(q)))
  {
    assert first <= t.top;
    forall q: nat | u.Boundary(q) ensures Hd(u.head, q).pinuse <==> q == first || u.Inuse(u.Prv(q)) {
      if q != t.top + nb {
        var s := t.Prv(q);
        assert q == first || t.Next(s) == q;
      }
    }
  }

  // ----- freeing: everything from p up to the chunk e becomes one free chunk

  function Merge(t: Tags, p: nat, e: nat): Tags
    requires p <= e
  {
    var h := t.head[e := Hd(t.head, e).(pinuse := false)];
    t.(chunks := (set q | q in t.chunks && !(p < q < e)),
       prv := t.prv[e := p],
       head := h[p := Head(e - p, false, true)],
       foot := t.foot[e := e - p])
  }

  ghost predicate MergeBits(t: Tags, p: nat, e: nat, u: Tags) {
    u.top == t.top && u.topsize == t.topsize &&
    (forall q :: q in u.chunks <==> q in t.chunks && !(p < q < e)) &&
    (forall q {:trigger u.Sz(q)} :: u.Sz(q) == if q == p then e - p else t.Sz(q)) &&
    (forall q {:trigger u.Inuse(q)} :: u.Inuse(q) <==> q != p && t.Inuse(q)) &&
    (forall q {:trigger Hd(u.head, q)} :: Hd(u.head, q).pinuse <==> q == p || (q != e && Hd(t.head, q).pinuse)) &&
    (forall q {:trigger u.Prv(q)} :: u.Prv(q) == if q == e then p else t.Prv(q)) &&
    (forall q {:trigger u.Foot(q)} :: u.Foot(q) == if q == e then e - p else t.Foot(q)) &&
    (forall q {:trigger Hd(u.head, q)} :: q != p && q != e ==> Hd(u.head, q) == Hd(t.head, q))
  }

  lemma MergeHasBits(t: Tags, p: nat, e: nat)
    requires p < e
    ensures MergeBits(t, p, e, Merge(t, p, e))
  {
  }

  lemma MergeOk(t: Tags, first: nat, end: nat, p: nat, e: nat)
    requires TagsOk(t, first, end) && p in t.chunks && e in t.chunks && p < e
    requires t.Inuse(e) && Hd(t.head, p).pinuse
    ensures TagsOk(Merge(t, p, e), first, end)
  {
    MergeHasBits(t, p, e);
    MergeAll(t, first, end, p, e, Merge(t, p, e));
  }

  lemma MergeAll(t: Tags, first: nat, end: nat, p: nat, e: nat, u: Tags)
    requires TagsOk(t, first, end) && p in t.chunks && e in t.chunks && p < e
    requires t.Inuse(e) && Hd(t.head, p).pinuse && MergeBits(t, p, e, u)
    ensures TagsOk(u, first, end)
  {
    TopNotChunk(t, first);
    assert MIN_CHUNK_SIZE <= t.Sz(p) && t.Next(p) <= e;
    MergeNexts(t, first, p, e, u);
    MergePrvs(t, first, p, e, u);
    MergeTruth(t, first, p, e, u);
    MergeAligned(t, first, p, e, u);
  }

  lemma MergeAligned(t: Tags, first: nat, p: nat, e: nat, u: Tags)
    requires Aligned(t, first) && p in t.chunks && e in t.chunks && p < e && MergeBits(t, p, e, u)
    ensures Aligned(u, first)
  {
    assert t.Sz(p) % 8 == 0 && t.Sz(e) % 8 == 0;
    forall q | q in u.chunks ensures q % 8 == 0 && u.Sz(q) % 8 == 0 {
      assert q == p || t.Sz(q) % 8 == 0;
    }
  }

  lemma MergeNexts(t: Tags, first: nat, p: nat, e: nat, u: Tags)
    requires Tiles(t, first) && p in t.chunks && e in t.chunks && MIN_CHUNK_SIZE <= e - p && e < t.top &&
      MergeBits(t, p, e, u)
    ensures forall q :: q in u.chunks ==>
      first <= q && MIN_CHUNK_SIZE <= u.Sz(q) && u.Next(q) <= u.top && u.Boundary(u.Next(q))
    ensures forall q, s :: q in u.chunks && s in u.chunks && q < s ==> u.Next(q) <= s
  {
    forall q | q in u.chunks
      ensures first <= q && MIN_CHUNK_SIZE <= u.Sz(q) && u.Next(q) <= u.top && u.Boundary(u.Next(q))
    {
      assert t.Next(q) <= t.top;
      if q < p { assert t.Next(q) <= p; }
    }
    forall q, s | q in u.chunks && s in u.chunks && q < s ensures u.Next(q) <= s {
      assert t.Next(q) <= s;
    }
  }

  lemma MergePrvs(t: Tags, first: nat, p: nat, e: nat, u: Tags)
    requires Tiles(t, first) && p in t.chunks && e in t.chunks && p < e && MergeBits(t, p, e, u)
    ensures forall q: nat :: u.Boundary(q) && q != first ==> u.Prv(q) in u.chunks && u.Next(u.Prv(q)) == q
  {
    TopNotChunk(t, first);
    forall q: nat | u.Boundary(q) && q != first ensures u.Prv(q) in u.chunks && u.Next(u.Prv(q)) == q {
      if q == e {
        assert u.Prv(q) == p && u.Next(p) == e;
      } else {
        var s := t.Prv(q);
        assert t.Next(s) == q;
        if s < e { assert t.Next(s) <= e; }
        assert s >= e || q <= p;
        assert u.Next(s) == t.Next(s);
      }
    }
  }

  lemma MergeTruth(t: Tags, first: nat, p: nat, e: nat, u: Tags)
    requires Tiles(t, first) && TruthfulTags(t, first) && Coalesced(t) && p in t.chunks && e in t.chunks && p < e &&
      MergeBits(t, p, e, u)
    requires t.Inuse(e) && Hd(t.head, p).pinuse
    ensures TruthfulTags(u, first) && Coalesced(u)
  {
    TopNotChunk(t, first);
    forall q: nat | u.Boundary(q) ensures Hd(u.head, q).pinuse <==> q == first || u.Inuse(u.Prv(q)) {
      MergePinuse(t, first, p, e, u, q);
    }
    forall q | q in u.chunks && !u.Inuse(q)
      ensures u.Foot(u.Next(q)) == u.Sz(q) && u.Next(q) in u.chunks && u.Inuse(u.Next(q))
    {
      if q == p {
        assert u.Next(q) == e;
      } else {
        MergeKeepsFree(t, first, p, e, u, q);
      }
    }
  }

  lemma MergePinuse(t: Tags, first: nat, p: nat, e: nat, u: Tags, q: nat)
    requires Tiles(t, first) && TruthfulTags(t, first) && p in t.chunks && e in t.chunks && p < e &&
      MergeBits(t, p, e, u)
    requires Hd(t.head, p).pinuse && u.Boundary(q) && first <= p && e < t.top
    ensures Hd(u.head, q).pinuse <==> q == first || u.Inuse(u.Prv(q))
  {
    var s := t.Prv(q);
    if q != e && q != first {
      assert t.Next(s) == q;
      assert s < p || e <= s;
    }
  }

  /** A free chunk outside the merged range keeps its successor. */
  lemma MergeKeepsFree(t: Tags, first: nat, p: nat, e: nat, u: Tags, q: nat)
    requires Tiles(t, first) && TruthfulTags(t, first) && Coalesced(t) && p in t.chunks && e in t.chunks && p < e &&
      MergeBits(t, p, e, u)
    requires Hd(t.head, p).pinuse && q in t.chunks && !(p <= q < e) && !t.Inuse(q)
    ensures u.Foot(u.Next(q)) == u.Sz(q) && u.Next(q) in u.chunks && u.Inuse(u.Next(q))
  {
    var n := t.Next(q);
    PrvOfNext(t, first, q);
    assert u.Next(q) == n && n != p && n != e;
  }

  // ----- freeing next to top: everything from p on becomes top

  function GrowTop(t: Tags, p: nat): Tags
    requires p <= t.top
  {
    var size := t.topsize + (t.top - p);
    Tags((set q | q in t.chunks && q < p), t.prv, t.head[p := Head(size, false, true)], t.foot, p, size)
  }

  ghost predicate GrowTopBits(t: Tags, p: nat, u: Tags)
    requires p <= t.top
  {
    u.top == p && u.topsize == t.topsize + (t.top - p) && u.prv == t.prv && u.foot == t.foot &&
    Hd(u.head, p) == Head(u.topsize, false, true) &&
    (forall q :: q in u.chunks <==> q in t.chunks && q < p) &&
    (forall q {:trigger Hd(u.head, q)} :: q != p ==> Hd(u.head, q) == Hd(t.head, q))
  }

  lemma GrowTopHasBits(t: Tags, p: nat)
    requires p <= t.top
    ensures GrowTopBits(t, p, GrowTop(t, p))
  {
  }

  lemma GrowTopOk(t: Tags, first: nat, end: nat, p: nat)
    requires TagsOk(t, first, end) && p in t.chunks && Hd(t.head, p).pinuse
    ensures p < t.top && TagsOk(GrowTop(t, p), first, end)
  {
    TopNotChunk(t, first);
    GrowTopHasBits(t, p);
    GrowTopAll(t, first, end, p, GrowTop(t, p));
  }

  lemma GrowTopAll(t: Tags, first: nat, end: nat, p: nat, u: Tags)
    requires TagsOk(t, first, end) && p in t.chunks && p < t.top && Hd(t.head, p).pinuse && GrowTopBits(t, p, u)
    ensures TagsOk(u, first, end)
  {
    TopNotChunk(t, first);
    GrowTopTiles(t, first, p, u);
    GrowTopAligned(t, first, p, u);
    GrowTopTruth(t, first, p, u);
  }

  lemma GrowTopAligned(t: Tags, first: nat, p: nat, u: Tags)
    requires Aligned(t, first) && p in t.chunks && p < t.top && GrowTopBits(t, p, u)
    ensures Aligned(u, first)
  {
    assert t.Sz(p) % 8 == 0;
    forall q | q in u.chunks ensures q % 8 == 0 && u.Sz(q) % 8 == 0 { assert t.Sz(q) % 8 == 0; }
  }

  lemma GrowTopTruth(t: Tags, first: nat, p: nat, u: Tags)
    requires Tiles(t, first) && TruthfulTags(t, first) && Coalesced(t) && p in t.chunks && p < t.top &&
      Hd(t.head, p).pinuse && GrowTopBits(t, p, u)
    ensures TruthfulTags(u, first) && Coalesced(u)
  {
    forall q: nat | u.Boundary(q) ensures Hd(u.head, q).pinuse <==> q == first || u.Inuse(u.Prv(q)) {
      var s := t.Prv(q);
      assert q == first || t.Next(s) == q;
    }
    forall q | q in u.chunks && !u.Inuse(q)
      ensures u.Foot(u.Next(q)) == u.Sz(q) && u.Next(q) in u.chunks && u.Inuse(u.Next(q))
    {
      PrvOfNext(t, first, q);
      assert t.Next(q) <= p;
    }
  }

  lemma GrowTopTiles(t: Tags, first: nat, p: nat, u: Tags)
    requires Tiles(t, first) && p in t.chunks && p < t.top && GrowTopBits(t, p, u)
    ensures Tiles(u, first)
  {
    TopNotChunk(t, first);
    forall q | q in u.chunks
      ensures first <= q && MIN_CHUNK_SIZE <= u.Sz(q) && u.Next(q) <= u.top && u.Boundary(u.Next(q))
    {
      assert t.Next(q) <= p;
    }
    forall q, s | q in u.chunks && s in u.chunks && q < s ensures u.Next(q) <= s {
      assert t.Next(q) <= s;
    }
    forall q: nat | u.Boundary(q) && q != first ensures u.Prv(q) in u.chunks && u.Next(u.Prv(q)) == q {
      var s := t.Prv(q);
      assert t.Next(s) == q;
    }
  }

  // ----- accounting: the walk over the segment adds up to its size

  /** Bytes from p up to top in chunks whose in-use bit is as asked. */
  ghost function Bytes(t: Tags, first: nat, p: nat, inuse: bool): nat
    requires Tiles(t, first) && t.Boundary(p) && p <= t.top
    decreases t.top - p
  {
    if p == t.top then 0
    else assert t.Next(p) <= t.top; (if t.Inuse(p) == inuse then t.Sz(p) else 0) + Bytes(t, first, t.Next(p), inuse)
  }

  lemma {:induction false} BytesAddUp(t: Tags, first: nat, p: nat)
    requires Tiles(t, first) && t.Boundary(p) && p <= t.top
    ensures Bytes(t, first, p, true) + Bytes(t, first, p, false) == t.top - p
    decreases t.top - p
  {
    if p != t.top {
      assert t.Next(p) <= t.top;
      BytesAddUp(t, first, t.Next(p));
    }
  }

  lemma FirstBelowTop(t: Tags, first: nat)
    requires Tiles(t, first)
    ensures t.Boundary(first) && first <= t.top
  {
    TopNotChunk(t, first);
  }

  /** Live, free (dv included) and top bytes together are the segment, whatever happened before. */
  lemma Conservation(t: Tags, first: nat, end: nat)
    requires TagsOk(t, first, end)
    ensures first <= t.top
    ensures Bytes(t, first, first, true) + Bytes(t, first, first, false) + t.topsize == end - first
  {
    FirstBelowTop(t, first);
    BytesAddUp(t, first, first);
  }

  // ----- the free chunks are a function of the live ones

  /** p is a live chunk. */
  ghost predicate Live(t: Tags, p: nat) { p in t.chunks && t.Inuse(p) }

  /** Two heaps over the same segment with the same live chunks of the same sizes. */
  ghost predicate SameLive(t: Tags, u: Tags) {
    forall p: nat :: (Live(t, p) <==> Live(u, p)) && (Live(t, p) ==> t.Sz(p) == u.Sz(p))
  }

  /** What lies at or above p is the same in both heaps. */
  ghost predicate SameAbove(t: Tags, u: Tags, p: nat) {
    t.top == u.top && forall q: nat :: p <= q ==>
      (q in t.chunks <==> q in u.chunks) && (q in t.chunks ==> t.Sz(q) == u.Sz(q))
  }

  /** A boundary both heaps share, with no free chunk right before it in either. */
  ghost predicate Common(t: Tags, u: Tags, first: nat, end: nat, p: nat) {
    TagsOk(t, first, end) && TagsOk(u, first, end) && SameLive(t, u) &&
    t.Boundary(p) && u.Boundary(p) && Hd(t.head, p).pinuse && Hd(u.head, p).pinuse && p <= t.top && p <= u.top
  }

  lemma TopIsTop(t: Tags, u: Tags, first: nat, end: nat, p: nat)
    requires Common(t, u, first, end, p) && p == t.top
    ensures p == u.top
  {
    TopNotChunk(t, first);
    var n := u.Next(p);
    assert !Live(t, p) && !Live(t, n);
    assert !Live(u, p) && !Live(u, n);
  }

  /** Behind a live chunk the heaps share the next boundary. */
  lemma CommonAfterLive(t: Tags, u: Tags, first: nat, end: nat, p: nat)
    requires TagsOk(t, first, end) && TagsOk(u, first, end) && SameLive(t, u) && Live(t, p)
    ensures t.Next(p) == u.Next(p) && Common(t, u, first, end, t.Next(p))
  {
    assert Live(u, p);
    PrvOfNext(t, first, p);
    PrvOfNext(u, first, p);
    assert t.Next(p) <= t.top && u.Next(p) <= u.top;
  }

  /** A free chunk at a common boundary ends at the same place in both heaps: at the next live chunk. */
  lemma SameFreeChunk(t: Tags, u: Tags, first: nat, end: nat, p: nat)
    requires Common(t, u, first, end, p) && p in t.chunks && p in u.chunks && !t.Inuse(p)
    ensures t.Next(p) == u.Next(p) && Live(t, t.Next(p))
  {
    assert !Live(u, p);
    var n, n' := t.Next(p), u.Next(p);
    assert Live(t, n) && Live(u, n');
    assert Live(u, n) && Live(t, n');
    assert p < n && p < n';
  }

  /** From a common boundary on, the two heaps have the same chunks: each gap between
      live chunks is one free chunk, and the last gap is top. */
  lemma {:induction false} SameFrom(t: Tags, u: Tags, first: nat, end: nat, p: nat)
    requires Common(t, u, first, end, p)
    ensures SameAbove(t, u, p)
    decreases t.top - p
  {
    TopNotChunk(t, first);
    TopNotChunk(u, first);
    if p == t.top {
      TopIsTop(t, u, first, end, p);
    } else if p == u.top {
      TopIsTop(u, t, first, end, p);
    } else if t.Inuse(p) {
      CommonAfterLive(t, u, first, end, p);
      SameFrom(t, u, first, end, t.Next(p));
      StepBack(t, u, first, p);
    } else {
      SameFreeChunk(t, u, first, end, p);
      var n := t.Next(p);
      CommonAfterLive(t, u, first, end, n);
      SameFrom(t, u, first, end, t.Next(n));
      StepBack(t, u, first, n);
      StepBack(t, u, first, p);
    }
  }

  lemma StepBack(t: Tags, u: Tags, first: nat, p: nat)
    requires Tiles(t, first) && Tiles(u, first) && p in t.chunks && p in u.chunks && t.Next(p) == u.Next(p)
    requires SameAbove(t, u, t.Next(p))
    ensures SameAbove(t, u, p)
  {
    forall q: nat | p <= q ensures (q in t.chunks <==> q in u.chunks) && (q in t.chunks ==> t.Sz(q) == u.Sz(q)) {
      if p < q < t.Next(p) {
        NothingInside(t, first, p, q);
        NothingInside(u, first, p, q);
      }
    }
  }

  /** The live chunks determine every other chunk, and top. */
  lemma LiveDeterminesAll(t: Tags, u: Tags, first: nat, end: nat)
    requires TagsOk(t, first, end) && TagsOk(u, first, end) && SameLive(t, u)
    ensures t.chunks == u.chunks && t.top == u.top
    ensures forall p :: p in t.chunks ==> t.Sz(p) == u.Sz(p)
  {
    FirstBelowTop(t, first);
    FirstBelowTop(u, first);
    assert Hd(t.head, first).pinuse by { var _ := t.Prv(first); }
    assert Hd(u.head, first).pinuse by { var _ := u.Prv(first); }
    SameFrom(t, u, first, end, first);
    TopNotChunk(t, first);
    TopNotChunk(u, first);
  }

  // ----- what one call does to the live chunks

  /** The live chunks of u are those of t, of the same sizes, except that p differs. */
  ghost predicate LiveElsewhere(t: Tags, u: Tags, p: nat) {
    forall q: nat :: q != p ==> (Live(t, q) <==> Live(u, q)) && (Live(t, q) ==> t.Sz(q) == u.Sz(q))
  }

  /** p became live, a little larger than asked for at most. */
  ghost predicate Allocated(t: Tags, u: Tags, p: nat, nb: nat) {
    !Live(t, p) && Live(u, p) && nb <= u.Sz(p) < nb + MIN_CHUNK_SIZE && LiveElsewhere(t, u, p)
  }

  /** p is no longer live. */
  ghost predicate Freed(t: Tags, u: Tags, p: nat) {
    Live(t, p) && !Live(u, p) && LiveElsewhere(t, u, p)
  }

  lemma TakeAllocates(t: Tags, p: nat, nb: nat)
    requires p in t.chunks && !t.Inuse(p) && 0 < nb <= t.Sz(p) < nb + MIN_CHUNK_SIZE
    ensures Allocated(t, TakeWhole(t, p), p, nb)
  {
    TakeWholeBits(t, p, TakeWhole(t, p));
  }

  lemma SplitAllocates(t: Tags, p: nat, nb: nat)
    requires p in t.chunks && !t.Inuse(p) && 0 < nb < t.Sz(p) && p + nb !in t.chunks
    ensures Allocated(t, SplitFree(t, p, nb), p, nb)
  {
    SplitFreeBits(t, p, nb);
    SplitLive(t, p, nb, SplitFree(t, p, nb));
  }

  lemma SplitLive(t: Tags, p: nat, nb: nat, u: Tags)
    requires SplitBits(t, p, nb, u) && p in t.chunks && !t.Inuse(p) && 0 < nb < t.Sz(p) && p + nb !in t.chunks
    ensures Allocated(t, u, p, nb)
  {
    assert u.Sz(p) == nb && u.Inuse(p);
    forall q: nat | q != p
      ensures (Live(t, q) <==> Live(u, q)) && (Live(t, q) ==> t.Sz(q) == u.Sz(q))
    {
      assert u.Inuse(q) <==> q != p + nb && t.Inuse(q);
      assert q != p + nb ==> u.Sz(q) == t.Sz(q);
    }
  }

  lemma SplitTopAllocates(t: Tags, first: nat, nb: nat)
    requires Tiles(t, first) && 0 < nb < t.topsize
    ensures Allocated(t, SplitTop(t, nb), t.top, nb)
  {
    TopNotChunk(t, first);
    SplitTopHasBits(t, nb);
    SplitTopLive(t, nb, SplitTop(t, nb));
  }

  lemma SplitTopLive(t: Tags, nb: nat, u: Tags)
    requires 0 < nb < t.topsize && SplitTopBits(t, nb, u) && forall q :: q in t.chunks ==> q < t.top
    ensures Allocated(t, u, t.top, nb)
  {
    forall q: nat | q < t.top ensures Hd(u.head, q) == Hd(t.head, q) { }
  }

  /** Every chunk from p up to e but f is free. */
  ghost predicate OnlyLive(t: Tags, p: nat, e: nat, f: nat) {
    p <= f < e && forall q :: q in t.chunks && p <= q < e && t.Inuse(q) ==> q == f
  }

  lemma MergeFrees(t: Tags, p: nat, e: nat, f: nat)
    requires p < e && Live(t, f) && OnlyLive(t, p, e, f)
    ensures Freed(t, Merge(t, p, e), f)
  {
    MergeHasBits(t, p, e);
    MergeLive(t, p, e, f, Merge(t, p, e));
  }

  lemma MergeLive(t: Tags, p: nat, e: nat, f: nat, u: Tags)
    requires p < e && MergeBits(t, p, e, u) && Live(t, f) && OnlyLive(t, p, e, f)
    ensures Freed(t, u, f)
  {
    assert u.Inuse(f) ==> f != p;
    forall q: nat | q != f
      ensures (Live(t, q) <==> Live(u, q)) && (Live(t, q) ==> t.Sz(q) == u.Sz(q))
    {
      assert u.Inuse(q) <==> q != p && t.Inuse(q);
      assert q != p ==> u.Sz(q) == t.Sz(q);
    }
  }

  lemma GrowTopFrees(t: Tags, first: nat, p: nat, f: nat)
    requires Tiles(t, first) && p <= t.top && Live(t, f) && OnlyLive(t, p, t.top, f)
    ensures Freed(t, GrowTop(t, p), f)
  {
    TopNotChunk(t, first);
    GrowTopHasBits(t, p);
    GrowTopLive(t, p, f, GrowTop(t, p));
  }

  lemma GrowTopLive(t: Tags, p: nat, f: nat, u: Tags)
    requires p <= t.top && GrowTopBits(t, p, u) && Live(t, f) && OnlyLive(t, p, t.top,
      f) && forall q :: q in t.chunks ==> q < t.top
    ensures Freed(t, u, f)
  {
    forall q: nat | q < p ensures Hd(u.head, q) == Hd(t.head, q) { }
  }

  /** A live chunk shares no byte with any other. */
  lemma LiveDisjoint(t: Tags, first: nat, end: nat, p: nat, q: nat)
    requires TagsOk(t, first, end) && Live(t, p) && q in t.chunks && p != q
    ensures t.Next(p) <= q || t.Next(q) <= p
    ensures first <= p && t.Next(p) <= t.top < end
  {
    assert p < q || q < p;
  }

  lemma LiveNotNull(t: Tags, first: nat, end: nat, p: nat)
    requires TagsOk(t, first, end) && Live(t, p)
    ensures p != 0 && p % 8 == 0
  {
    assert t.Next(p) <= t.top && t.Sz(p) > 0;
  }

  /** mspace_malloc on the tags: what p becomes when it serves nb. */
  ghost function AllocTags(t: Tags, p: nat, nb: nat): Tags {
    if p == t.top then SplitTop(t, nb)
    else if t.Sz(p) < nb + MIN_CHUNK_SIZE then TakeWhole(t, p)
    else SplitFree(t, p, nb)
  }

  // ----- the chunks around one that is freed

  /** Where the free chunk begins that freeing p makes, and where it ends unless it reaches top. */
  ghost function MergeStart(t: Tags, p: nat): nat {
    if Hd(t.head, p).pinuse then p else t.Prv(p)
  }

  ghost function MergeEnd(t: Tags, p: nat): nat {
    var n := t.Next(p);
    if n != t.top && !t.Inuse(n) then t.Next(n) else n
  }

  /** mspace_free on the tags: p joins its free neighbours, or top. */
  ghost function FreeTags(t: Tags, p: nat): Tags {
    var s, e := MergeStart(t, p), MergeEnd(t, p);
    if s > e || s > t.top then t else if t.Next(p) == t.top then GrowTop(t, s) else Merge(t, s, e)
  }

  /** The only chunk between p and its successor is p. */
  lemma OnlyItself(t: Tags, first: nat, p: nat)
    requires Tiles(t, first) && p in t.chunks
    ensures forall q :: q in t.chunks && p <= q < t.Next(p) ==> q == p
  {
  }

  lemma StartOfMerge(t: Tags, first: nat, end: nat, p: nat)
    requires TagsOk(t, first, end) && Live(t, p)
    ensures var s := MergeStart(t, p);
      s in t.chunks && s <= p && Hd(t.head, s).pinuse && (s != p ==> !t.Inuse(s) && t.Next(s) == p)
    ensures forall q :: q in t.chunks && MergeStart(t, p) <= q < p ==> q == MergeStart(t, p)
  {
    if !Hd(t.head, p).pinuse {
      PreviousFree(t, first, end, p);
      OnlyItself(t, first, t.Prv(p));
    }
  }

  lemma EndOfMerge(t: Tags, first: nat, end: nat, p: nat)
    requires TagsOk(t, first, end) && Live(t, p)
    ensures var n, e := t.Next(p), MergeEnd(t, p);
      p < n <= e <= t.top && (n == t.top ==> e == t.top) &&
        (n != t.top ==> n in t.chunks && e in t.chunks && t.Inuse(e)) &&
      (n != e ==> !t.Inuse(n) && n in t.chunks && t.Next(n) == e && n != t.top)
    ensures forall q :: q in t.chunks && p <= q < MergeEnd(t, p) ==>
      q == p || (q == t.Next(p) && q != MergeEnd(t, p) && !t.Inuse(q))
  {
    TopNotChunk(t, first);
    OnlyItself(t, first, p);
    if t.Next(p) != t.top && !t.Inuse(t.Next(p)) { OnlyItself(t, first, t.Next(p)); }
  }

  lemma MergeOnlyLive(t: Tags, first: nat, end: nat, p: nat)
    requires TagsOk(t, first, end) && Live(t, p)
    ensures OnlyLive(t, MergeStart(t, p), MergeEnd(t, p), p)
  {
    StartOfMerge(t, first, end, p);
    EndOfMerge(t, first, end, p);
  }

  /** Freeing keeps the tags in order and ends the life of p alone. */
  lemma FreeTagsOk(t: Tags, first: nat, end: nat, p: nat)
    requires TagsOk(t, first, end) && Live(t, p)
    ensures TagsOk(FreeTags(t, p), first, end) && Freed(t, FreeTags(t, p), p)
  {
    StartOfMerge(t, first, end, p);
    EndOfMerge(t, first, end, p);
    MergeOnlyLive(t, first, end, p);
    var s, e := MergeStart(t, p), MergeEnd(t, p);
    if t.Next(p) == t.top {
      GrowTopOk(t, first, end, s);
      GrowTopFrees(t, first, s, p);
    } else {
      MergeOk(t, first, end, s, e);
      MergeFrees(t, s, e, p);
    }
  }

  // ----- whole runs

  /** Freeing what was just allocated leaves the very chunks there were before. */
  lemma FreeUndoesMalloc(t: Tags, u: Tags, w: Tags, first: nat, end: nat, p: nat, nb: nat)
    requires TagsOk(t, first, end) && TagsOk(u, first, end) && TagsOk(w, first, end)
    requires Allocated(t, u, p, nb) && Freed(u, w, p)
    ensures w.chunks == t.chunks && w.top == t.top && forall q :: q in t.chunks ==> t.Sz(q) == w.Sz(q)
  {
    forall q: nat ensures (Live(t, q) <==> Live(w, q)) && (Live(t, q) ==> t.Sz(q) == w.Sz(q)) {
      assert q != p ==> (Live(t, q) <==> Live(u, q));
    }
    LiveDeterminesAll(t, w, first, end);
  }

  /** Two chunks may be freed in either order: the same chunks remain, merged the same way. */
  lemma FreesCommute(t: Tags, first: nat, end: nat, p: nat, q: nat)
    requires TagsOk(t, first, end) && Live(t, p) && Live(t, q) && p != q
    ensures Live(FreeTags(t, p), q) && Live(FreeTags(t, q), p)
    ensures var u, w := FreeTags(FreeTags(t, p), q), FreeTags(FreeTags(t, q), p);
      u.chunks == w.chunks && u.top == w.top && forall c :: c in u.chunks ==> u.Sz(c) == w.Sz(c)
  {
    FreeTagsOk(t, first, end, p);
    FreeTagsOk(t, first, end, q);
    FreeTagsOk(FreeTags(t, p), first, end, q);
    FreeTagsOk(FreeTags(t, q), first, end, p);
    TwoFreed(t, FreeTags(t, p), FreeTags(FreeTags(t, p), q), p, q);
    TwoFreed(t, FreeTags(t, q), FreeTags(FreeTags(t, q), p), q, p);
    var u, w := FreeTags(FreeTags(t, p), q), FreeTags(FreeTags(t, q), p);
    assert SameLive(u, w);
    LiveDeterminesAll(u, w, first, end);
  }

  lemma TwoFreed(t: Tags, u: Tags, w: Tags, p: nat, q: nat)
    requires Freed(t, u, p) && Freed(u, w, q)
    ensures forall c: nat :: (Live(w, c) <==> Live(t, c) && c != p && c != q) && (Live(w, c) ==> w.Sz(c) == t.Sz(c))
  {
    forall c: nat ensures (Live(w, c) <==> Live(t, c) && c != p && c != q) && (Live(w, c) ==> w.Sz(c) == t.Sz(c)) {
      assert c != p ==> (Live(t, c) <==> Live(u, c));
      assert c != q ==> (Live(u, c) <==> Live(w, c));
    }
  }

  /** With everything freed, all is top again: no fragment stays behind. */
  lemma AllFreed(t: Tags, first: nat, end: nat)
    requires TagsOk(t, first, end) && forall p :: p in t.chunks ==> !t.Inuse(p)
    ensures t.chunks == {} && t.top == first && t.topsize == end - first
  {
    if p :| p in t.chunks { var n := t.Next(p); }
    FirstBelowTop(t, first);
  }
}
