/** A client whose last request is not given the best fit: dv fits exactly, a larger chunk is taken. */
module NotBest {
  import opened Powers
  import opened Memory
  import opened Bins
  import opened Chunks
  import opened Choice
  import opened Space
  import M = Mspace

  datatype Cell = Cell(size: nat, inuse: bool)

  /** The chunks are these. */
  ghost predicate Is(t: Tags, m: map<nat, Cell>) {
    t.chunks == m.Keys && forall p :: p in m ==> t.Sz(p) == m[p].size && t.Inuse(p) == m[p].inuse
  }

  /** c alone is free, with 64 bytes. */
  ghost predicate OnlyFree(m: map<nat, Cell>, c: nat) {
    c in m && m[c] == Cell(64, false) && forall p :: p in m && p != c ==> m[p].inuse
  }

  /** a and dv alone are free, with 40 and 32 bytes. */
  ghost predicate OneBeside(m: map<nat, Cell>, a: nat, dv: nat) {
    a in m && m[a] == Cell(40, false) && dv in m && m[dv] == Cell(32,
      false) && forall p :: p in m && p != a && p != dv ==> m[p].inuse
  }

  /** With no free chunk top serves. */
  lemma TopServes(t: Tags, x: Index, u: Tags, y: Index, first: nat, end: nat, bytes: nat, mem: nat, m: map<nat, Cell>)
    requires Served(t, x, u, y, bytes, mem) && TagsOk(t, first, end) && Is(t, m) && AllInUse(m)
    requires bytes < MAX_REQUEST && RequestSize(bytes) < t.topsize && 0 < RequestSize(bytes)
    ensures mem == t.top + 16 && Is(u, m[t.top := Cell(RequestSize(bytes), true)])
    ensures u.top == t.top + RequestSize(bytes) && u.topsize == t.topsize - RequestSize(bytes) && y.dvsize == x.dvsize
  {
    var nb := RequestSize(bytes);
    TopNotChunk(t, first);
    SplitTopHasBits(t, nb);
    forall p | p in m ensures u.Sz(p) == m[p].size && u.Inuse(p) == m[p].inuse {
      assert Hd(u.head, p) == Hd(t.head, p);
    }
  }

  /** Between chunks in use a freed chunk stays alone. */
  lemma FreedAlone(t: Tags, first: nat, end: nat, f: nat, before: nat, m: map<nat, Cell>)
    requires TagsOk(t, first, end) && Is(t, m) && Between(first, f, before, m)
    ensures Is(FreeTags(t, f), m[f := Cell(m[f].size, false)]) && FreeTags(t, f).top == t.top
    ensures MergeStart(t, f) == f && t.Next(f) == f + m[f].size
  {
    TopNotChunk(t, first);
    if f != first { PrvOfNext(t, first, before); }
    assert t.Boundary(f);
    assert f != first ==> t.Prv(f) == before && t.Inuse(before);
    var _ := t.Prv(f);
    assert MergeStart(t, f) == f;
    var e := t.Next(f);
    LiveNotNull(t, first, end, f);
    assert FreeTags(t, f) == Merge(t, f, e) && f < e by { assert t.Sz(f) > 0 by { assert t.Next(f) <= t.top; } }
    MergeHasBits(t, f, e);
    OnlyItself(t, first, f);
  }

  /** The one free chunk, of twice the size, serves; its rest is dv. */
  lemma OnlyFreeServes(t: Tags, x: Index, u: Tags, y: Index, first: nat, end: nat, bytes: nat, mem: nat, c: nat,
        m: map<nat, Cell>)
    requires Served(t, x, u, y, bytes, mem) && TagsOk(t, first, end) && Is(t, m) && x.dvsize == 0 && x.dv == 0 &&
      OnlyFree(m, c)
    requires RequestSize(bytes) == 32 && bytes < MAX_REQUEST
    ensures mem == c + 16 && Is(u, m[c := Cell(32, true)][c + 32 := Cell(32, false)]) && u.top == t.top
    ensures y.dv == c + 32 && y.dvsize == 32
  {
    TopNotChunk(t, first);
    assert Fits(t, c, 32) && t.Next(c) <= t.top;
    OnlyItself(t, first, c);
    SplitFreeBits(t, c, 32);
  }

  /** A chunk eight bytes too large is taken although dv fits exactly. */
  lemma LargerServes(t: Tags, x: Index, u: Tags, y: Index, first: nat, end: nat, mem: nat, a: nat, m: map<nat, Cell>)
    requires Served(t, x, u, y, 24, mem) && TagsOk(t, first, end) && Is(t, m)
    requires OneBeside(m, a, x.dv)
    ensures mem == a + 16 && Fits(t, x.dv, RequestSize(24)) && t.Sz(x.dv) == RequestSize(24)
    ensures !BestFitting(t, RequestSize(24), mem - 16)
  {
    assert Fits(t, a, 32) && Fits(t, x.dv, 32);
  }

  ghost predicate AllInUse(m: map<nat, Cell>) { forall p :: p in m ==> m[p].inuse }

  /** f lies between chunks in use, or at the start. */
  ghost predicate Between(first: nat, f: nat, before: nat, m: map<nat, Cell>) {
    f in m && m[f].inuse && (f == first || (before in m && m[before].inuse && before + m[before].size == f)) &&
    f + m[f].size in m && m[f + m[f].size].inuse
  }

  ghost function TwoCells(a: nat): map<nat, Cell> { map[][a := Cell(40, true)][a + 40 := Cell(32, true)] }

  ghost function FourCells(a: nat): map<nat, Cell> { TwoCells(a)[a + 72 := Cell(64, true)][a + 136 := Cell(32, true)] }

  lemma FourFacts(a: nat)
    ensures AllInUse(map[]) == true && AllInUse(map[][a := Cell(40, true)]) == true && AllInUse(TwoCells(a)) == true
    ensures AllInUse(TwoCells(a)[a + 72 := Cell(64, true)]) == true
    ensures Between(a, a + 72, a + 40, FourCells(a)) == true && FourCells(a)[a + 72].size == 64
    ensures OnlyFree(FourCells(a)[a + 72 := Cell(64, false)], a + 72) == true
    ensures Between(a, a, a, DvCells(a)) == true && DvCells(a)[a].size == 40
    ensures OneBeside(DvCells(a)[a := Cell(40, false)], a, a + 104) == true
  {
  }

  method NewSpace() returns (m: M.Mspace)
    ensures fresh(m) && m.Valid() == true && m.dvsize == 0 && Is(m.T(), map[]) == true
    ensures m.top == First(m.base) && 1024 < m.topsize
  {
    m := new M.Mspace(8, 4096);
    TopAndEnd(m);
  }

  lemma TopAndEnd(m: M.Mspace)
    requires m.Valid()
    ensures m.top + m.topsize == m.end
  {
  }

  /** Four blocks. */
  method FourBlocks() returns (m: M.Mspace)
    ensures fresh(m) && m.Valid() == true && m.dvsize == 0 && Is(m.T(), FourCells(First(m.base))) == true
  {
    m := NewSpace();
    ghost var first := First(m.base);
    FourFacts(first);
    var a := TakeTop(m, 32, map[]);
    a := TakeTop(m, 24, map[][first := Cell(40, true)]);
    a := TakeTop(m, 56, TwoCells(first));
    a := TakeTop(m, 24, TwoCells(first)[first + 72 := Cell(64, true)]);
  }

  ghost function DvCells(a: nat): map<nat, Cell> {
    FourCells(a)[a + 72 := Cell(64, false)][a + 72 := Cell(32, true)][a + 104 := Cell(32, false)]
  }

  /** The third one is freed and taken up again for its first half: its second half is dv. */
  method HalfAgain(m: M.Mspace, a: nat)
    requires m.Valid() == true && m.dvsize == 0 && a == First(m.base) && Is(m.T(), FourCells(a)) == true
    modifies m
    ensures m.Valid() == true && m.dv == a + 104 && Is(m.T(), DvCells(a)) == true
  {
    NoDvAt(m);
    FourFacts(a);
    FreeAlone(m, a + 72, a + 40, FourCells(a));
    Reuse(m, a + 72, FourCells(a)[a + 72 := Cell(64, false)]);
  }

  method Reuse(m: M.Mspace, c: nat, ghost cells: map<nat, Cell>)
    requires m.Valid() == true && m.dvsize == 0 && m.dv == 0 && Is(m.T(), cells) == true && OnlyFree(cells, c) == true
    modifies m
    ensures m.Valid() == true && m.dv == c + 32 &&
      Is(m.T(), cells[c := Cell(32, true)][c + 32 := Cell(32, false)]) == true
  {
    ghost var t, x := m.T(), m.X();
    TagsHold(m);
    var mem := m.Malloc(24);
    OnlyFreeServes(t, x, m.T(), m.X(), First(m.base), m.end, 24, mem, c, cells);
  }

  lemma TagsHold(m: M.Mspace)
    requires m.Valid()
    ensures TagsOk(m.T(), First(m.base), m.end) == true
  {
  }

  lemma NoDvAt(m: M.Mspace)
    requires m.Valid() && m.dvsize == 0
    ensures m.dv == 0
  {
  }

  /** The first one is freed as well. The next request has the size of dv, and is given the first block. */
  method PassesOverDv() returns (m: M.Mspace, mem: nat, ghost t: Tags, ghost x: Index)
    ensures m.Valid() == true && SpaceOk(t, x, m.base, m.end, {}) == true && Served(t, x, m.T(), m.X(), 24, mem) == true
    ensures Fits(t, x.dv, RequestSize(24)) && t.Sz(x.dv) == RequestSize(24)
    ensures mem != 0 && !BestFitting(t, RequestSize(24), mem - 16)
  {
    m := FourBlocks();
    var a := First(m.base);
    HalfAgain(m, a);
    FourFacts(a);
    FreeAlone(m, a, a, DvCells(a));
    mem, t, x := TakeLarger(m, a, DvCells(a)[a := Cell(40, false)]);
  }

  method TakeLarger(m: M.Mspace, a: nat, ghost cells: map<nat, Cell>) returns (mem: nat, ghost t: Tags, ghost x: Index)
    requires m.Valid() == true && Is(m.T(), cells) == true && OneBeside(cells, a, m.dv) == true
    modifies m
    ensures m.Valid() == true && SpaceOk(t, x, m.base, m.end, {}) == true && Served(t, x, m.T(), m.X(), 24, mem) == true
    ensures Fits(t, x.dv, RequestSize(24)) && t.Sz(x.dv) == RequestSize(24)
    ensures mem != 0 && !BestFitting(t, RequestSize(24), mem - 16)
  {
    t, x := m.T(), m.X();
    TagsHold(m);
    mem := m.Malloc(24);
    LargerServes(t, x, m.T(), m.X(), First(m.base), m.end, mem, a, cells);
  }

  method TakeTop(m: M.Mspace, bytes: nat, ghost cells: map<nat, Cell>) returns (p: nat)
    requires m.Valid() == true && Is(m.T(), cells) == true && AllInUse(cells) == true
    requires bytes <= 56 && m.dvsize == 0 && 64 < m.topsize
    modifies m
    ensures m.Valid() == true && p == old(m.top) && Is(m.T(), cells[p := Cell(RequestSize(bytes), true)]) == true
    ensures m.top == p + RequestSize(bytes) && m.topsize == old(m.topsize) - RequestSize(bytes) && m.dvsize == 0
  {
    ghost var t, x := m.T(), m.X();
    var mem := m.Malloc(bytes);
    TopServes(t, x, m.T(), m.X(), First(m.base), m.end, bytes, mem, cells);
    p := mem - 16;
  }

  method FreeAlone(m: M.Mspace, f: nat, ghost before: nat, ghost cells: map<nat, Cell>)
    requires m.Valid() == true && Is(m.T(), cells) == true && Between(First(m.base), f, before, cells) == true
    modifies m
    ensures m.Valid() == true && Is(m.T(), cells[f := Cell(cells[f].size, false)]) == true && m.top == old(m.top)
    ensures old(m.dv) != f && old(m.dv) != f + cells[f].size ==> m.dv == old(m.dv) && m.dvsize == old(m.dvsize)
  {
    FreedAlone(m.T(), First(m.base), m.end, f, before, cells);
    m.Free(f + 16);
  }
}
