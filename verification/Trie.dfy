/** Large bins: bitwise tries keyed on chunk size, each node heading a ring of
    chunks of one size. A trie at depth d spans the sizes lo .. lo + Width(d); the
    next bit of a size picks the lower or upper half. */
module Trie {
  import opened Memory
  import opened TreeIndex

  datatype Trie = Nil | Node(ring: seq<nat>, size: nat, left: Trie, right: Trie)

  ghost function Elements(s: seq<nat>): set<nat> { set p | p in s }

  ghost function Members(t: Trie): set<nat> {
    match t
    case Nil => {}
    case Node(ring, _, l, r) => Elements(ring) + Members(l) + Members(r)
  }

  /** Every node lies on the bit path of its size, and each size has one node. */
  ghost predicate Ok(t: Trie, lo: nat, d: nat, h: Heads) {
    match t
    case Nil => true
    case Node(ring, size, l, r) =>
      |ring| > 0 && lo <= size < lo + Width(d) && size % 8 == 0 &&
      (forall p :: p in ring ==> Size(h, p) == size) &&
      (forall p :: p in Members(l) + Members(r) ==> Size(h, p) != size) &&
      if d == 0 then l.Nil? && r.Nil?
      else Ok(l, lo, d - 1, h) && Ok(r, lo + Width(d - 1), d - 1, h)
  }

  lemma {:induction false} OkBounds(t: Trie, lo: nat, d: nat, h: Heads)
    requires Ok(t, lo, d, h)
    ensures forall p :: p in Members(t) ==> lo <= Size(h, p) < lo + Width(d) && Size(h, p) % 8 == 0
  {
    if t.Node? && d > 0 {
      OkBounds(t.left, lo, d - 1, h);
      OkBounds(t.right, lo + Width(d - 1), d - 1, h);
    }
  }

  /** Only the heads of the members matter. */
  lemma {:induction false} OkFrame(t: Trie, lo: nat, d: nat, h: Heads, h': Heads)
    requires Ok(t, lo, d, h)
    requires forall p :: p in Members(t) ==> Size(h, p) == Size(h', p)
    ensures Ok(t, lo, d, h')
  {
    if t.Node? && d > 0 {
      OkFrame(t.left, lo, d - 1, h, h');
      OkFrame(t.right, lo + Width(d - 1), d - 1, h, h');
    }
  }

  // ----- separation: no chunk occurs twice

  ghost predicate Separate(t: Trie) {
    match t
    case Nil => true
    case Node(ring, _, l, r) =>
      Elements(ring) !! Members(l) && Elements(ring) !! Members(r) && Members(l) !! Members(r) &&
      Separate(l) && Separate(r)
  }

  lemma {:induction false} OkSeparate(t: Trie, lo: nat, d: nat, h: Heads)
    requires Ok(t, lo, d, h)
    ensures Separate(t)
  {
    if t.Node? && d > 0 {
      OkBounds(t.left, lo, d - 1, h);
      OkBounds(t.right, lo + Width(d - 1), d - 1, h);
      OkSeparate(t.left, lo, d - 1, h);
      OkSeparate(t.right, lo + Width(d - 1), d - 1, h);
    }
  }

  // ----- a trie with a hole

  datatype Ctx = Top
    | Left(ring: seq<nat>, size: nat, right: Trie, up: Ctx)
    | Right(ring: seq<nat>, size: nat, left: Trie, up: Ctx)

  ghost function Plug(c: Ctx, t: Trie): Trie {
    match c
    case Top => t
    case Left(ring, size, r, up) => Plug(up, Node(ring, size, t, r))
    case Right(ring, size, l, up) => Plug(up, Node(ring, size, l, t))
  }

  ghost function CtxMembers(c: Ctx): set<nat> {
    match c
    case Top => {}
    case Left(ring, _, r, up) => Elements(ring) + Members(r) + CtxMembers(up)
    case Right(ring, _, l, up) => Elements(ring) + Members(l) + CtxMembers(up)
  }

  lemma {:induction false} PlugMembers(c: Ctx, t: Trie)
    ensures Members(Plug(c, t)) == CtxMembers(c) + Members(t)
  {
    match c
    case Top =>
    case Left(ring, size, r, up) => PlugMembers(up, Node(ring, size, t, r));
    case Right(ring, size, l, up) => PlugMembers(up, Node(ring, size, l, t));
  }

  lemma {:induction false} PlugSeparate(c: Ctx, t: Trie)
    requires Separate(Plug(c, t))
    ensures Separate(t) && CtxMembers(c) !! Members(t)
    ensures c.Left? ==>
      Elements(c.ring) !! Members(c.right) && Elements(c.ring) !! CtxMembers(c.up) &&
      Members(c.right) !! CtxMembers(c.up)
    ensures c.Right? ==>
      Elements(c.ring) !! Members(c.left) && Elements(c.ring) !! CtxMembers(c.up) && Members(c.left) !! CtxMembers(c.up)
  {
    match c
    case Top =>
    case Left(ring, size, r, up) => PlugSeparate(up, Node(ring, size, t, r));
    case Right(ring, size, l, up) => PlugSeparate(up, Node(ring, size, l, t));
  }

  // ----- insertion

  /** A chunk joins the chain of its size right behind the oldest one. */
  ghost function Chain(ring: seq<nat>, x: nat): seq<nat> {
    if ring == [] then [x] else [ring[0], x] + ring[1..]
  }

  /** insert_large_chunk on values: chain onto an equal size, else grow a leaf. */
  ghost function Insert(t: Trie, x: nat, S: nat, lo: nat, d: nat): Trie {
    match t
    case Nil => Node([x], S, Nil, Nil)
    case Node(ring, size, l, r) =>
      if size == S || d == 0 then Node(Chain(ring, x), size, l, r)
      else if S < lo + Width(d - 1) then Node(ring, size, Insert(l, x, S, lo, d - 1), r)
      else Node(ring, size, l, Insert(r, x, S, lo + Width(d - 1), d - 1))
  }

  /** Sizes are multiples of 8, so at the finest depth only one size is left: the
      descent cannot run out of bits before two distinct sizes part. */
  lemma OneSizeAtDepthZero(a: nat, b: nat, lo: nat)
    requires lo % 8 == 0 && a % 8 == 0 && b % 8 == 0
    requires lo <= a < lo + Width(0) && lo <= b < lo + Width(0)
    ensures a == b
  {
  }

  lemma ChainElements(ring: seq<nat>, x: nat)
    ensures Elements(Chain(ring, x)) == Elements(ring) + {x}
  {
    if ring != [] { assert ring == [ring[0]] + ring[1..]; }
  }

  lemma {:induction false} InsertMembers(t: Trie, x: nat, S: nat, lo: nat, d: nat)
    ensures Members(Insert(t, x, S, lo, d)) == Members(t) + {x}
  {
    match t
    case Nil =>
      assert Elements([x]) == {x};
    case Node(ring, size, l, r) =>
      if size == S || d == 0 {
        ChainElements(ring, x);
      } else if S < lo + Width(d - 1) {
        InsertMembers(l, x, S, lo, d - 1);
        NodeMembers(ring, size, Insert(l, x, S, lo, d - 1), r);
      } else {
        InsertMembers(r, x, S, lo + Width(d - 1), d - 1);
        NodeMembers(ring, size, l, Insert(r, x, S, lo + Width(d - 1), d - 1));
      }
  }

  lemma NodeMembers(ring: seq<nat>, size: nat, l: Trie, r: Trie)
    ensures Members(Node(ring, size, l, r)) == Elements(ring) + Members(l) + Members(r)
  {
  }

  lemma {:induction false} InsertOk(t: Trie, x: nat, S: nat, lo: nat, d: nat, h: Heads)
    requires Ok(t, lo, d, h) && lo % 8 == 0 && S % 8 == 0 && lo <= S < lo + Width(d)
    requires Size(h, x) == S
    ensures Ok(Insert(t, x, S, lo, d), lo, d, h)
    decreases t, 1
  {
    match t
    case Nil =>
    case Node(ring, size, l, r) =>
      if size == S || d == 0 {
        if d == 0 { OneSizeAtDepthZero(size, S, lo); }
        ChainOk(ring, size, l, r, x, lo, d, h);
      } else if S < lo + Width(d - 1) {
        InsertLowOk(ring, size, l, r, x, S, lo, d, h);
      } else {
        InsertHighOk(ring, size, l, r, x, S, lo, d, h);
      }
  }

  lemma {:induction false} InsertLowOk(ring: seq<nat>, size: nat, l: Trie, r: Trie, x: nat, S: nat, lo: nat, d: nat,
        h: Heads)
    requires Ok(Node(ring, size, l, r), lo, d, h) && d > 0
    requires lo % 8 == 0 && S % 8 == 0 && lo <= S < lo + Width(d - 1)
    requires Size(h, x) == S && S != size
    ensures Ok(Node(ring, size, Insert(l, x, S, lo, d - 1), r), lo, d, h)
    decreases l, 2
  {
    InsertMembers(l, x, S, lo, d - 1);
    InsertOk(l, x, S, lo, d - 1, h);
    NodeOk(ring, size, Insert(l, x, S, lo, d - 1), r, lo, d, h);
  }

  lemma {:induction false} InsertHighOk(ring: seq<nat>, size: nat, l: Trie, r: Trie, x: nat, S: nat, lo: nat, d: nat,
        h: Heads)
    requires Ok(Node(ring, size, l, r), lo, d, h) && d > 0
    requires lo % 8 == 0 && S % 8 == 0 && lo + Width(d - 1) <= S < lo + Width(d)
    requires Size(h, x) == S && S != size
    ensures Ok(Node(ring, size, l, Insert(r, x, S, lo + Width(d - 1), d - 1)), lo, d, h)
    decreases r, 2
  {
    var mid := lo + Width(d - 1);
    UpperHalf(S, lo, d, mid);
    InsertMembers(r, x, S, mid, d - 1);
    InsertOk(r, x, S, mid, d - 1, h);
    NodeOk(ring, size, l, Insert(r, x, S, mid, d - 1), lo, d, h);
  }

  lemma UpperHalf(S: nat, lo: nat, d: nat, mid: nat)
    requires d > 0 && lo % 8 == 0 && mid == lo + Width(d - 1) && mid <= S < lo + Width(d)
    ensures mid % 8 == 0 && S < mid + Width(d - 1)
  {
    WidthMultipleOf8(d - 1);
  }

  lemma ChainOk(ring: seq<nat>, size: nat, l: Trie, r: Trie, x: nat, lo: nat, d: nat, h: Heads)
    requires Ok(Node(ring, size, l, r), lo, d, h) && Size(h, x) == size
    ensures Ok(Node(Chain(ring, x), size, l, r), lo, d, h)
  {
    ChainElements(ring, x);
    forall p | p in Chain(ring, x) ensures Size(h, p) == size {
      assert p in Elements(Chain(ring, x));
    }
  }

  /** Assembling a node above depth zero. */
  lemma NodeOk(ring: seq<nat>, size: nat, l: Trie, r: Trie, lo: nat, d: nat, h: Heads)
    requires d > 0 && Ok(l, lo, d - 1, h) && Ok(r, lo + Width(d - 1), d - 1, h)
    requires |ring| > 0 && lo <= size < lo + Width(d) && size % 8 == 0
    requires forall p :: p in ring ==> Size(h, p) == size
    requires forall p :: p in Members(l) ==> Size(h, p) != size
    requires forall p :: p in Members(r) ==> Size(h, p) != size
    ensures Ok(Node(ring, size, l, r), lo, d, h)
  {
  }

  // ----- shrinking: what unlinking may do to a subtrie

  /** u can stand wherever t stood: it fits the same span and holds no new chunk. */
  ghost predicate Shrinks(t: Trie, u: Trie, h: Heads) {
    Members(u) <= Members(t) &&
    forall lo, d :: Ok(t, lo, d, h) ==> Ok(u, lo, d, h)
  }

  lemma {:induction false} ShrinkInPlace(c: Ctx, t: Trie, u: Trie, h: Heads)
    requires Shrinks(t, u, h)
    ensures Shrinks(Plug(c, t), Plug(c, u), h)
  {
    match c
    case Top =>
    case Left(ring, size, r, up) =>
      ShrinkLeft(ring, size, t, u, r, h);
      ShrinkInPlace(up, Node(ring, size, t, r), Node(ring, size, u, r), h);
    case Right(ring, size, l, up) =>
      ShrinkRight(ring, size, l, t, u, h);
      ShrinkInPlace(up, Node(ring, size, l, t), Node(ring, size, l, u), h);
  }

  lemma ShrinkLeft(ring: seq<nat>, size: nat, t: Trie, u: Trie, r: Trie, h: Heads)
    requires Shrinks(t, u, h)
    ensures Shrinks(Node(ring, size, t, r), Node(ring, size, u, r), h)
  {
    forall lo, d | Ok(Node(ring, size, t, r), lo, d, h) ensures Ok(Node(ring, size, u, r), lo, d, h) {
      if d == 0 { assert Members(t) == {}; NoMembers(u, t, lo, d, h); }
    }
  }

  lemma ShrinkRight(ring: seq<nat>, size: nat, l: Trie, t: Trie, u: Trie, h: Heads)
    requires Shrinks(t, u, h)
    ensures Shrinks(Node(ring, size, l, t), Node(ring, size, l, u), h)
  {
    forall lo, d | Ok(Node(ring, size, l, t), lo, d, h) ensures Ok(Node(ring, size, l, u), lo, d, h) {
      if d == 0 { assert Members(t) == {}; NoMembers(u, t, lo, d, h); }
    }
  }

  lemma NoMembers(u: Trie, t: Trie, lo: nat, d: nat, h: Heads)
    requires Shrinks(t, u, h) && t.Nil?
    ensures u.Nil?
  {
    assert Ok(t, lo, d, h);
    if u.Node? { assert u.ring[0] in Members(u); }
  }

  /** A leaf: the only nodes unlinking may move. */
  predicate Leaf(t: Trie) { t.Node? && t.left.Nil? && t.right.Nil? }

  lemma LeafShrinksToNil(t: Trie, h: Heads)
    requires Leaf(t)
    ensures Shrinks(t, Nil, h)
  {
  }

  /** What surrounds a subtrie shares no size with it, and the subtrie stays in the span. */
  lemma {:induction false} HoleOk(c: Ctx, t: Trie, lo: nat, d: nat, h: Heads) returns (lo': nat, d': nat)
    requires Ok(Plug(c, t), lo, d, h)
    ensures Ok(t, lo', d', h) && lo <= lo' && lo' + Width(d') <= lo + Width(d)
    ensures forall p, q :: p in CtxMembers(c) && q in Members(t) ==> Size(h, p) != Size(h, q)
  {
    match c
    case Top => return lo, d;
    case Left(ring, size, r, up) =>
      lo', d' := HoleOk(up, Node(ring, size, t, r), lo, d, h);
      lo', d' := ChildOk(ring, size, t, r, lo', d', h, true);
    case Right(ring, size, l, up) =>
      lo', d' := HoleOk(up, Node(ring, size, l, t), lo, d, h);
      lo', d' := ChildOk(ring, size, l, t, lo', d', h, false);
  }

  lemma ChildOk(ring: seq<nat>, size: nat, l: Trie, r: Trie, lo: nat, d: nat, h: Heads, left: bool)
    returns (lo': nat, d': nat)
    requires Ok(Node(ring, size, l, r), lo, d, h)
    ensures lo <= lo' && lo' + Width(d') <= lo + Width(d) && Ok(if left then l else r, lo', d', h)
    ensures forall p :: p in Elements(ring) ==> Size(h, p) == size
    ensures forall q :: q in Members(l) ==> Size(h, q) != size
    ensures forall q :: q in Members(r) ==> Size(h, q) != size
    ensures forall p, q :: p in Members(l) && q in Members(r) ==> Size(h, p) != Size(h, q)
  {
    if d == 0 {
      lo', d' := lo, d;
    } else {
      OkBounds(l, lo, d - 1, h);
      OkBounds(r, lo + Width(d - 1), d - 1, h);
      lo', d' := if left then lo else lo + Width(d - 1), d - 1;
    }
  }

  /** A node replaced by a leaf below it, the leaf having been cut out of its subtries. */
  lemma ReplaceByLeaf(t: Trie, c: Ctx, leaf: Trie, h: Heads)
    requires t.Node? && Leaf(leaf) && c != Top && t == Plug(c, leaf)
    ensures Plug(c, Nil).Node?
    ensures var u := Plug(c, Nil);
      u.ring == t.ring && u.size == t.size &&
      Shrinks(t, Node(leaf.ring, leaf.size, u.left, u.right), h)
  {
    LeafShrinksToNil(leaf, h);
    ShrinkInPlace(c, leaf, Nil, h);
    RootKept(c, leaf, Nil);
    PlugMembers(c, leaf);
    PlugMembers(c, Nil);
    var u := Plug(c, Nil);
    forall lo, d | Ok(t, lo, d, h) ensures Ok(Node(leaf.ring, leaf.size, u.left, u.right), lo, d, h) {
      var lo', d' := HoleOk(c, leaf, lo, d, h);
      assert Ok(u, lo, d, h);
      assert leaf.ring[0] in Members(leaf);
    }
  }

  lemma {:induction false} RootKept(c: Ctx, t: Trie, u: Trie)
    requires c != Top
    ensures Plug(c, t).Node? && Plug(c, u).Node?
    ensures Plug(c, t).ring == Plug(c, u).ring && Plug(c, t).size == Plug(c, u).size
  {
    match c
    case Left(ring, size, r, up) => if up != Top { RootKept(up, Node(ring, size, t, r), Node(ring, size, u, r)); }
    case Right(ring, size, l, up) => if up != Top { RootKept(up, Node(ring, size, l, t), Node(ring, size, l, u)); }
  }
}
