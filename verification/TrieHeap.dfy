/** How a trie lies in memory: child, parent, index and ring links, and what the
    pointer surgery of insert_large_chunk and unlink_large_chunk does to it. */
module TrieHeap {
  import opened Memory
  import opened Ring
  import opened Trie

  /** One node: its head p carries the tree links, chained chunks carry none. */
  ghost predicate NodeRep(ring: seq<nat>, p: nat, par: nat, i: nat, m: Links) {
    |ring| > 0 && ring[0] == p && IsRing(ring, m) && At(m, p).parent == par &&
    (forall q :: q in ring ==> q != 0 && At(m, q).index == i) &&
    (forall k :: 1 <= k < |ring| ==>
      At(m, ring[k]).parent == 0 && At(m, ring[k]).child0 == 0 && At(m, ring[k]).child1 == 0)
  }

  /** The trie t hangs below the pointer p, its root recording par as parent. */
  ghost predicate Rep(t: Trie, p: nat, par: nat, i: nat, m: Links) {
    match t
    case Nil => p == 0
    case Node(ring, _, l, r) =>
      NodeRep(ring, p, par, i, m) &&
      Rep(l, At(m, p).child0, p, i, m) && Rep(r, At(m, p).child1, p, i, m)
  }

  lemma NodeFrame(ring: seq<nat>, p: nat, par: nat, i: nat, m: Links, n: Links)
    requires NodeRep(ring, p, par, i, m) && Agree(m, n, Elements(ring))
    ensures NodeRep(ring, p, par, i, n)
  {
    forall q | q in ring ensures At(m, q) == At(n, q) { assert q in Elements(ring); }
    Ring.Frame(ring, m, n);
  }

  lemma {:induction false} RepFrame(t: Trie, p: nat, par: nat, i: nat, m: Links, n: Links)
    requires Rep(t, p, par, i, m) && Agree(m, n, Members(t))
    ensures Rep(t, p, par, i, n)
  {
    if t.Node? {
      NodeFrame(t.ring, p, par, i, m, n);
      assert p in Elements(t.ring);
      RepFrame(t.left, At(m, p).child0, p, i, m, n);
      RepFrame(t.right, At(m, p).child1, p, i, m, n);
    }
  }

  /** The parent word of a node filling the hole: the bin slot, or the node above. */
  ghost function HoleParent(c: Ctx, slot: nat): nat {
    match c
    case Top => slot
    case Left(ring, _, _, _) => if |ring| > 0 then ring[0] else 0
    case Right(ring, _, _, _) => if |ring| > 0 then ring[0] else 0
  }

  /** The surroundings of a hole holding the pointer q; root is what the bin slot holds. */
  ghost predicate CtxRep(c: Ctx, q: nat, root: nat, slot: nat, i: nat, m: Links) {
    match c
    case Top => q == root
    case Left(ring, _, r, up) =>
      var p := HoleParent(c, slot);
      NodeRep(ring, p, HoleParent(up, slot), i, m) && At(m, p).child0 == q &&
      Rep(r, At(m, p).child1, p, i, m) && CtxRep(up, p, root, slot, i, m)
    case Right(ring, _, l, up) =>
      var p := HoleParent(c, slot);
      NodeRep(ring, p, HoleParent(up, slot), i, m) && At(m, p).child1 == q &&
      Rep(l, At(m, p).child0, p, i, m) && CtxRep(up, p, root, slot, i, m)
  }

  lemma {:induction false} CtxFrame(c: Ctx, q: nat, root: nat, slot: nat, i: nat, m: Links, n: Links)
    requires CtxRep(c, q, root, slot, i, m) && Agree(m, n, CtxMembers(c))
    ensures CtxRep(c, q, root, slot, i, n)
  {
    var p := HoleParent(c, slot);
    match c
    case Top =>
    case Left(ring, _, r, up) =>
      NodeFrame(ring, p, HoleParent(up, slot), i, m, n);
      assert p in Elements(ring);
      RepFrame(r, At(m, p).child1, p, i, m, n);
      CtxFrame(up, p, root, slot, i, m, n);
    case Right(ring, _, l, up) =>
      NodeFrame(ring, p, HoleParent(up, slot), i, m, n);
      assert p in Elements(ring);
      RepFrame(l, At(m, p).child0, p, i, m, n);
      CtxFrame(up, p, root, slot, i, m, n);
  }

  /** Filling the hole: surroundings and contents together represent the whole. */
  lemma {:induction false} PlugRep(c: Ctx, t: Trie, q: nat, root: nat, slot: nat, i: nat, m: Links)
    requires CtxRep(c, q, root, slot, i, m) && Rep(t, q, HoleParent(c, slot), i, m)
    ensures Rep(Plug(c, t), root, slot, i, m)
  {
    match c
    case Top =>
    case Left(ring, size, r, up) =>
      PlugRep(up, Node(ring, size, t, r), HoleParent(c, slot), root, slot, i, m);
    case Right(ring, size, l, up) =>
      PlugRep(up, Node(ring, size, l, t), HoleParent(c, slot), root, slot, i, m);
  }

  /** Opening a hole around the node that holds x. */
  lemma {:induction false} OpenAt(c: Ctx, t: Trie, q: nat, root: nat, slot: nat, i: nat, m: Links, x: nat)
    returns (c': Ctx, t': Trie, q': nat)
    requires CtxRep(c, q, root, slot, i, m) && Rep(t, q, HoleParent(c, slot), i, m)
    requires x in Members(t)
    ensures CtxRep(c', q', root, slot, i, m) && Rep(t', q', HoleParent(c', slot), i, m)
    ensures Plug(c', t') == Plug(c, t) && t'.Node? && x in t'.ring
    decreases t
  {
    if x in t.ring {
      return c, t, q;
    } else if x in Members(t.left) {
      c', t', q' := OpenAt(Left(t.ring, t.size, t.right, c), t.left, At(m, q).child0, root, slot, i, m, x);
    } else {
      c', t', q' := OpenAt(Right(t.ring, t.size, t.left, c), t.right, At(m, q).child1, root, slot, i, m, x);
    }
  }

  // ----- writing the hole

  /** The memory after the word that holds the hole's pointer becomes q. */
  ghost function SetHole(m: Links, c: Ctx, q: nat): Links {
    match c
    case Top => m
    case Left(_, _, _, _) => SetChild0(m, HoleParent(c, 0), q)
    case Right(_, _, _, _) => SetChild1(m, HoleParent(c, 0), q)
  }

  /** What the bin slot holds afterwards. */
  function RootAfter(c: Ctx, root: nat, q: nat): nat { if c.Top? then q else root }

  lemma HoleSet(c: Ctx, t: Trie, q: nat, q': nat, root: nat, slot: nat, i: nat, m: Links)
    requires CtxRep(c, q, root, slot, i, m) && Separate(Plug(c, t))
    ensures CtxRep(c, q', RootAfter(c, root, q'), slot, i, SetHole(m, c, q'))
    ensures forall x :: x !in CtxMembers(c) ==> At(m, x) == At(SetHole(m, c, q'), x)
  {
    var n := SetHole(m, c, q');
    PlugSeparate(c, t);
    var p := HoleParent(c, slot);
    match c
    case Top =>
    case Left(ring, _, r, up) =>
      assert p in Elements(ring);
      HeadRewritten(ring, p, HoleParent(up, slot), HoleParent(up, slot), i, m, n);
      RepFrame(r, At(m, p).child1, p, i, m, n);
      CtxFrame(up, p, root, slot, i, m, n);
    case Right(ring, _, l, up) =>
      assert p in Elements(ring);
      HeadRewritten(ring, p, HoleParent(up, slot), HoleParent(up, slot), i, m, n);
      RepFrame(l, At(m, p).child0, p, i, m, n);
      CtxFrame(up, p, root, slot, i, m, n);
  }

  /** Everything about p but its tree links. */
  predicate SameChunk(m: Links, n: Links, p: nat) {
    At(m, p).(parent := 0, child0 := 0, child1 := 0) == At(n, p).(parent := 0, child0 := 0, child1 := 0)
  }

  /** The head of a node may take a new parent and new children. */
  lemma HeadRewritten(ring: seq<nat>, R: nat, p: nat, par: nat, i: nat, m: Links, n: Links)
    requires NodeRep(ring, R, p, i, m) && At(n, R).parent == par && SameChunk(m, n, R)
    requires forall q :: q in ring && q != R ==> At(m, q) == At(n, q)
    ensures NodeRep(ring, R, par, i, n)
  {
    forall q | q in ring ensures SameRing(m, n, q) { }
    Ring.Frame(ring, m, n);
  }

  /** Only the ring of one node changed, its child words stayed: the rest of the trie follows. */
  lemma RingChanged(c: Ctx, t: Trie, ring: seq<nat>, q: nat, x: nat, root: nat, slot: nat, i: nat, m: Links, n: Links)
    requires CtxRep(c, q, root, slot, i, m) && Separate(Plug(c, t))
    requires t.Node? && Rep(t, q, HoleParent(c, slot), i, m)
    requires NodeRep(ring, q, HoleParent(c, slot), i, n)
    requires At(n, q).child0 == At(m, q).child0 && At(n, q).child1 == At(m, q).child1
    requires x !in Members(Plug(c, t)) || x in t.ring
    requires forall p :: p !in t.ring && p != x ==> At(m, p) == At(n, p)
    ensures Rep(Plug(c, Node(ring, t.size, t.left, t.right)), root, slot, i, n)
  {
    PlugSeparate(c, t);
    PlugMembers(c, t);
    forall p | p in Members(t.left) + Members(t.right) + CtxMembers(c) ensures At(m, p) == At(n, p) {
      assert p !in Elements(t.ring);
    }
    RepFrame(t.left, At(m, q).child0, q, i, m, n);
    RepFrame(t.right, At(m, q).child1, q, i, m, n);
    CtxFrame(c, q, root, slot, i, m, n);
    PlugRep(c, Node(ring, t.size, t.left, t.right), q, root, slot, i, n);
  }

  // ----- insert_large_chunk

  /** x written as a childless, unchained node below par. */
  function NewLeaf(m: Links, x: nat, par: nat, i: nat): Links { m[x := Link(x, x, 0, 0, par, i)] }

  lemma LeafLinked(c: Ctx, x: nat, S: nat, root: nat, slot: nat, i: nat, m: Links)
    requires CtxRep(c, 0, root, slot, i, m) && Separate(Plug(c, Nil))
    requires x != 0 && x !in CtxMembers(c)
    ensures Rep(Plug(c, Node([x], S, Nil, Nil)), RootAfter(c, root, x), slot, i,
                NewLeaf(SetHole(m, c, x), x, HoleParent(c, slot), i))
  {
    var m1 := SetHole(m, c, x);
    var n := NewLeaf(m1, x, HoleParent(c, slot), i);
    HoleSet(c, Nil, 0, x, root, slot, i, m);
    CtxFrame(c, x, RootAfter(c, root, x), slot, i, m1, n);
    PlugRep(c, Node([x], S, Nil, Nil), x, RootAfter(c, root, x), slot, i, n);
  }

  /** x written as a chained chunk behind the node head h, statement by statement. */
  function Chained(m: Links, h: nat, x: nat, i: nat): Links {
    var m1 := SetChild1(SetChild0(SetIndex(m, x, i), x, 0), x, 0);
    var F := At(m1, h).fd;
    SetParent(SetBk(SetFd(SetFd(SetBk(m1, F, x), h, x), x, F), x, h), x, 0)
  }

  lemma ChainedWords(m: Links, h: nat, x: nat, i: nat)
    requires x != h && x != At(m, h).fd
    ensures var n := Chained(m, h, x, i);
      LinkedIn(m, n, h, x, At(m, h).fd) &&
      At(n, x) == Link(At(m, h).fd, h, 0, 0, 0, i) &&
      forall p :: p != x ==> At(n, p).(fd := 0, bk := 0) == At(m, p).(fd := 0, bk := 0)
  {
  }

  lemma ChunkChained(c: Ctx, t: Trie, q: nat, x: nat, root: nat, slot: nat, i: nat, m: Links)
    requires CtxRep(c, q, root, slot, i, m) && Separate(Plug(c, t))
    requires t.Node? && Rep(t, q, HoleParent(c, slot), i, m)
    requires x != 0 && x !in Members(Plug(c, t))
    ensures Rep(Plug(c, Node(Chain(t.ring, x), t.size, t.left, t.right)), root, slot, i, Chained(m, q, x, i))
  {
    PlugMembers(c, t);
    assert x !in t.ring by { assert x !in Elements(t.ring); }
    var n := Chained(m, q, x, i);
    NodeChained(t.ring, q, HoleParent(c, slot), i, m, x, n);
    RingChanged(c, t, Chain(t.ring, x), q, x, root, slot, i, m, n);
  }

  lemma NodeChained(ring: seq<nat>, p: nat, par: nat, i: nat, m: Links, x: nat, n: Links)
    requires NodeRep(ring, p, par, i, m) && x != 0 && x !in ring && n == Chained(m, p, x, i)
    ensures NodeRep(Chain(ring, x), p, par, i, n)
    ensures At(n, p).child0 == At(m, p).child0 && At(n, p).child1 == At(m, p).child1
    ensures forall q :: q !in ring && q != x ==> At(m, q) == At(n, q)
  {
    assert At(m, p).fd == After(ring, 0);
    ChainedWords(m, p, x, i);
    Ring.Insert(ring, m, x, n);
    var t := Chain(ring, x);
    assert t == Inserted(ring, x);
    forall k | 1 <= k < |t| ensures At(n, t[k]).parent == 0 && At(n, t[k]).child0 == 0 && At(n, t[k]).child1 == 0 {
      if k > 1 { assert t[k] == ring[k - 1]; }
    }
  }

  // ----- unlink_large_chunk

  /** A chained chunk leaves its ring; nothing else moves. */
  lemma ChainedUnlinked(c: Ctx, t: Trie, q: nat, k: nat, root: nat, slot: nat, i: nat, m: Links)
    requires CtxRep(c, q, root, slot, i, m) && Separate(Plug(c, t))
    requires t.Node? && Rep(t, q, HoleParent(c, slot), i, m) && 0 < k < |t.ring|
    ensures var x := At(m, t.ring[k]);
      Rep(Plug(c, Node(Removed(t.ring, k), t.size, t.left, t.right)), root, slot, i, Joined(m, x.bk, x.fd))
  {
    Neighbours(t.ring, m, k);
    var n := Joined(m, t.ring[k - 1], After(t.ring, k));
    NodeJoined(t.ring, q, HoleParent(c, slot), i, m, n, k);
    RingChanged(c, t, Removed(t.ring, k), q, q, root, slot, i, m, n);
  }

  lemma NodeJoined(ring: seq<nat>, p: nat, par: nat, i: nat, m: Links, n: Links, k: nat)
    requires NodeRep(ring, p, par, i, m) && 0 < k < |ring| && n == Joined(m, ring[k - 1], After(ring, k))
    ensures NodeRep(Removed(ring, k), p, par, i, n)
    ensures At(n, p).child0 == At(m, p).child0 && At(n, p).child1 == At(m, p).child1
    ensures forall q :: q !in ring ==> At(m, q) == At(n, q)
  {
    Ring.Remove(ring, m, k, n);
    JoinedWords(m, ring[k - 1], After(ring, k));
    var u := Removed(ring, k);
    RemovedDistinct(ring, k);
    forall j | 0 <= j < |u| ensures u[j] == if j < k then ring[j] else ring[j + 1] { RemovedAt(ring, k, j); }
  }

  /** R takes the children found at x and the given parent. */
  function Adopt0(m: Links, x: nat, R: nat): Links {
    var C := At(m, x).child0;
    if C == 0 then m else SetParent(SetChild0(m, R, C), C, R)
  }

  function Adopt1(m: Links, x: nat, R: nat): Links {
    var C := At(m, x).child1;
    if C == 0 then m else SetParent(SetChild1(m, R, C), C, R)
  }

  function TakeOver(m: Links, x: nat, R: nat, par: nat): Links {
    Adopt1(Adopt0(SetParent(m, R, par), x, R), x, R)
  }

  lemma TakeOverWords(m: Links, x: nat, R: nat, par: nat)
    requires R != 0 && R != x && At(m, R).child0 == 0 && At(m, R).child1 == 0
    requires At(m, x).child0 != R && At(m, x).child1 != R
    requires At(m, x).child0 == At(m, x).child1 ==> At(m, x).child0 == 0
    requires At(m, x).child0 != x && At(m, x).child1 != x
    ensures var n, C0, C1 := TakeOver(m, x, R, par), At(m, x).child0, At(m, x).child1;
      At(n, R) == At(m, R).(parent := par, child0 := C0, child1 := C1) &&
      (C0 != 0 ==> At(n, C0) == At(m, C0).(parent := R)) &&
      (C1 != 0 ==> At(n, C1) == At(m, C1).(parent := R)) &&
      forall p :: p == R || (p != 0 && (p == C0 || p == C1)) || At(m, p) == At(n, p)
  {
  }

  /** A subtrie handed from one parent to another. */
  lemma Handed(t: Trie, C: nat, x: nat, R: nat, i: nat, m: Links, n: Links)
    requires Rep(t, C, x, i, m) && Separate(t)
    requires C != 0 ==> At(n, C) == At(m, C).(parent := R)
    requires forall q :: q in Members(t) && q != C ==> At(m, q) == At(n, q)
    ensures Rep(t, C, R, i, n)
  {
    if t.Node? {
      assert C in Elements(t.ring);
      forall q | q in t.ring && q != C ensures At(m, q) == At(n, q) { assert q in Elements(t.ring); }
      HeadRewritten(t.ring, C, x, R, i, m, n);
      RepFrame(t.left, At(m, C).child0, C, i, m, n);
      RepFrame(t.right, At(m, C).child1, C, i, m, n);
    }
  }

  /** R stands in for x: the hole points at R, which takes x's place among its relatives. */
  lemma TakenOver(c: Ctx, ring: seq<nat>, size: nat, l: Trie, r: Trie, x: nat, R: nat, p: nat, root: nat, slot: nat,
        i: nat, m: Links)
    requires CtxRep(c, x, root, slot, i, m) && Separate(Plug(c, Node(ring, size, l, r)))
    requires Rep(l, At(m, x).child0, x, i, m) && Rep(r, At(m, x).child1, x, i, m)
    requires NodeRep(ring, R, p, i, m) && At(m, R).child0 == 0 && At(m, R).child1 == 0
    requires x != 0 && x != R && x !in CtxMembers(c) && x !in Members(l) && x !in Members(r)
    ensures Rep(Plug(c, Node(ring, size, l, r)), RootAfter(c, root, R), slot, i,
                TakeOver(SetHole(m, c, R), x, R, HoleParent(c, slot)))
  {
    var t := Node(ring, size, l, r);
    var m1 := SetHole(m, c, R);
    PlugSeparate(c, t);
    HoleSet(c, t, x, R, root, slot, i, m);
    forall y | y in Members(t) ensures At(m, y) == At(m1, y) { assert y !in CtxMembers(c); }
    RepFrame(l, At(m, x).child0, x, i, m, m1);
    RepFrame(r, At(m, x).child1, x, i, m, m1);
    NodeFrame(ring, R, p, i, m, m1);
    assert R in Elements(ring);
    TakenOverFrom(c, t, x, R, p, RootAfter(c, root, R), slot, i, m1);
  }

  lemma TakenOverFrom(c: Ctx, t: Trie, x: nat, R: nat, p: nat, root: nat, slot: nat, i: nat, m: Links)
    requires t.Node? && Separate(t) && CtxMembers(c) !! Members(t)
    requires CtxRep(c, R, root, slot, i, m) && NodeRep(t.ring, R, p, i, m)
    requires Rep(t.left, At(m, x).child0, x, i, m) && Rep(t.right, At(m, x).child1, x, i, m)
    requires At(m, R).child0 == 0 && At(m, R).child1 == 0
    requires x != 0 && x != R && x !in CtxMembers(c) && x !in Members(t.left) && x !in Members(t.right)
    ensures Rep(Plug(c, t), root, slot, i, TakeOver(m, x, R, HoleParent(c, slot)))
  {
    var n, C0, C1 := TakeOver(m, x, R, HoleParent(c, slot)), At(m, x).child0, At(m, x).child1;
    assert R in Elements(t.ring);
    assert C0 != 0 ==> C0 in Members(t.left) by { if t.left.Node? { assert C0 in Elements(t.left.ring); } }
    assert C1 != 0 ==> C1 in Members(t.right) by { if t.right.Node? { assert C1 in Elements(t.right.ring); } }
    RootsInside(t, x, R, C0, C1, i, m);
    TakeOverWords(m, x, R, HoleParent(c, slot));
    CtxFrame(c, R, root, slot, i, m, n);
    Handed(t.left, C0, x, R, i, m, n);
    Handed(t.right, C1, x, R, i, m, n);
    forall q | q in t.ring && q != R ensures At(m, q) == At(n, q) { assert q in Elements(t.ring); }
    HeadRewritten(t.ring, R, p, HoleParent(c, slot), i, m, n);
    PlugRep(c, t, R, root, slot, i, n);
  }

  lemma RootsInside(t: Trie, x: nat, R: nat, C0: nat, C1: nat, i: nat, m: Links)
    requires t.Node? && Separate(t) && R in t.ring
    requires Rep(t.left, C0, x, i, m) && Rep(t.right, C1, x, i, m)
    requires x !in Members(t.left) && x !in Members(t.right) && x != 0 && R != 0
    ensures C0 != R && C1 != R && C0 != x && C1 != x
    ensures C0 == C1 ==> C0 == 0
  {
    assert R in Elements(t.ring);
    if t.left.Node? { assert C0 in Elements(t.left.ring); }
    if t.right.Node? { assert C1 in Elements(t.right.ring); }
  }
}
