/** Walking down a trie in memory: the descent of an insertion and the searches for
    a best fit, as invariants that one step of the code preserves. */
module TrieWalk {
  import opened Memory
  import opened Powers
  import opened TreeIndex
  import opened Trie
  import opened TrieHeap
  import Ring

  /** The fixed surroundings of a walk: the bin, its trie, and the memory. */
  datatype Tree = Tree(t: Trie, lo: nat, d: nat, root: nat, slot: nat, i: nat, m: Links, h: Heads)

  ghost predicate TreeRep(b: Tree) {
    Ok(b.t, b.lo, b.d, b.h) && Rep(b.t, b.root, b.slot, b.i, b.m)
  }

  /** Having come to T on the path of S, inserting X here is inserting it at the root. */
  ghost predicate Descent(b: Tree, c: Ctx, sub: Trie, T: nat, S: nat, X: nat, lo: nat, d: nat) {
    CtxRep(c, T, b.root, b.slot, b.i, b.m) && Rep(sub, T, HoleParent(c, b.slot), b.i, b.m) &&
    Plug(c, sub) == b.t && Ok(sub, lo, d, b.h) && lo <= S < lo + Width(d) &&
    Plug(c, Insert(sub, X, S, lo, d)) == Insert(b.t, X, S, b.lo, b.d)
  }

  function Child(m: Links, T: nat, bit: nat): nat { if bit == 0 then At(m, T).child0 else At(m, T).child1 }

  ghost function StepCtx(c: Ctx, sub: Trie, bit: nat): Ctx
    requires sub.Node?
  {
    if bit == 0 then Left(sub.ring, sub.size, sub.right, c) else Right(sub.ring, sub.size, sub.left, c)
  }

  ghost function StepTrie(sub: Trie, bit: nat): Trie
    requires sub.Node?
  {
    if bit == 0 then sub.left else sub.right
  }

  ghost function StepLo(lo: nat, d: nat, bit: nat): nat
    requires d > 0
  {
    if bit == 0 then lo else lo + Width(d - 1)
  }

  lemma DescentLow(b: Tree, c: Ctx, sub: Trie, T: nat, S: nat, X: nat, lo: nat, d: nat)
    requires Descent(b, c, sub, T, S, X, lo, d) && sub.Node? && sub.size != S && d > 0 && S < lo + Width(d - 1)
    ensures Descent(b, Left(sub.ring, sub.size, sub.right, c), sub.left, At(b.m, T).child0, S, X, lo, d - 1)
  {
    assert Insert(sub, X, S, lo, d) == Node(sub.ring, sub.size, Insert(sub.left, X, S, lo, d - 1), sub.right);
  }

  lemma DescentHigh(b: Tree, c: Ctx, sub: Trie, T: nat, S: nat, X: nat, lo: nat, d: nat)
    requires Descent(b, c, sub, T, S, X, lo, d) && sub.Node? && sub.size != S && d > 0 && lo + Width(d - 1) <= S
    ensures Descent(b, Right(sub.ring, sub.size, sub.left, c), sub.right, At(b.m, T).child1, S, X, lo + Width(d - 1),
      d - 1)
  {
    assert Insert(sub, X, S, lo, d) == Node(sub.ring, sub.size, sub.left,
      Insert(sub.right, X, S, lo + Width(d - 1), d - 1));
  }

  /** The top bit of k chooses the half that S lies in, and the shifted bits steer on from there. */
  lemma BitStep(k: nat, S: nat, lo: nat, d: nat)
    requires d > 0 && Steers(k, S, lo, d)
    ensures TopBit(k) == (if S < lo + Width(d - 1) then 0 else 1)
    ensures Steers(NextBits(k), S, StepLo(lo, d, TopBit(k)), d - 1)
  {
    SteerStep(k, S, lo, d);
    var lo' := StepLo(lo, d, TopBit(k));
    assert lo' == if S < lo + Width(d - 1) then lo else lo + Width(d - 1);
  }

  lemma StepLoMultiple(lo: nat, d: nat, bit: nat)
    requires d > 0 && lo % 8 == 0
    ensures StepLo(lo, d, bit) % 8 == 0
  {
    WidthMultipleOf8(d - 1);
  }

  /** The descent does not run out of bits at a node of another size. */
  lemma BitsLeft(sub: Trie, S: nat, lo: nat, d: nat, h: Heads)
    requires Ok(sub, lo, d, h) && sub.Node? && sub.size != S && S % 8 == 0 && lo % 8 == 0 && lo <= S < lo + Width(d)
    ensures d > 0
  {
    if d == 0 { OneSizeAtDepthZero(sub.size, S, lo); }
  }

  lemma DescentStep(b: Tree, c: Ctx, sub: Trie, T: nat, bit: nat, S: nat, X: nat, lo: nat, d: nat)
    requires Descent(b, c, sub, T, S, X, lo, d) && sub.Node? && sub.size != S && d > 0
    requires bit == if S < lo + Width(d - 1) then 0 else 1
    ensures Descent(b, StepCtx(c, sub, bit), StepTrie(sub, bit), Child(b.m, T, bit), S, X, StepLo(lo, d, bit), d - 1)
  {
    if bit == 0 {
      DescentLow(b, c, sub, T, S, X, lo, d);
    } else {
      DescentHigh(b, c, sub, T, S, X, lo, d);
    }
  }

  /** Where a chunk X of size S belongs: behind the node T of its size, or below T on the
      side bit, where no child is. */
  ghost predicate InsertionPoint(b: Tree, S: nat, X: nat, c: Ctx, sub: Trie, T: nat, bit: nat, same: bool) {
    Rep(sub, T, HoleParent(c, b.slot), b.i, b.m) && CtxRep(c, T, b.root, b.slot, b.i, b.m) &&
    Plug(c, sub) == b.t && sub.Node? && (bit == 0 || bit == 1) &&
    if same then Plug(c, Node(Chain(sub.ring, X), sub.size, sub.left, sub.right)) == Insert(b.t, X, S, b.lo, b.d)
    else (Child(b.m, T, bit) == 0 && StepTrie(sub, bit).Nil? &&
          Plug(StepCtx(c, sub, bit), Node([X], S, Nil, Nil)) == Insert(b.t, X, S, b.lo, b.d))
  }

  /** The loop invariant of the descent. */
  ghost predicate Descending(b: Tree, c: Ctx, sub: Trie, T: nat, k: nat, S: nat, X: nat, lo: nat, d: nat) {
    sub.Node? && Descent(b, c, sub, T, S, X, lo, d) && Steers(k, S, lo, d) && lo % 8 == 0
  }

  /** One turn of the descent: stop at an equal size or at a missing child, else go on. */
  lemma DescentTurn(b: Tree, c: Ctx, sub: Trie, T: nat, k: nat, S: nat, X: nat, lo: nat, d: nat)
    requires Descending(b, c, sub, T, k, S, X, lo, d) && S % 8 == 0
    ensures Size(b.h, T) == S ==> InsertionPoint(b, S, X, c, sub, T, 0, true)
    ensures Size(b.h, T) != S ==> d > 0
    ensures var bit := TopBit(k);
      Size(b.h, T) != S && Child(b.m, T, bit) == 0 ==> InsertionPoint(b, S, X, c, sub, T, bit, false)
    ensures var bit := TopBit(k);
      Size(b.h, T) != S && Child(b.m, T, bit) != 0 ==>
        Descending(b, StepCtx(c, sub, bit), StepTrie(sub, bit), Child(b.m, T, bit), NextBits(k), S, X,
          StepLo(lo, d, bit), d - 1)
  {
    HeadSize(sub, lo, d, b.h, T, HoleParent(c, b.slot), b.i, b.m);
    if sub.size != S {
      BitsLeft(sub, S, lo, d, b.h);
      BitStep(k, S, lo, d);
      StepLoMultiple(lo, d, TopBit(k));
      DescentStep(b, c, sub, T, TopBit(k), S, X, lo, d);
      ChildMissing(b, c, sub, T, TopBit(k), S, X, lo, d);
    }
  }

  /** A missing child is where the new leaf goes; a present one is the next node. */
  lemma ChildMissing(b: Tree, c: Ctx, sub: Trie, T: nat, bit: nat, S: nat, X: nat, lo: nat, d: nat)
    requires Descent(b, c, sub, T, S, X, lo, d) && sub.Node? && sub.size != S && d > 0
    requires bit == if S < lo + Width(d - 1) then 0 else 1
    requires Descent(b, StepCtx(c, sub, bit), StepTrie(sub, bit), Child(b.m, T, bit), S, X, StepLo(lo, d, bit), d - 1)
    ensures Child(b.m, T, bit) == 0 <==> StepTrie(sub, bit).Nil?
    ensures Child(b.m, T, bit) == 0 ==> InsertionPoint(b, S, X, c, sub, T, bit, false)
  {
  }

  lemma HeadSize(sub: Trie, lo: nat, d: nat, h: Heads, T: nat, par: nat, i: nat, m: Links)
    requires Ok(sub, lo, d, h) && Rep(sub, T, par, i, m) && sub.Node?
    ensures Size(h, T) == sub.size
  {
    assert T in sub.ring;
  }

  /** Both ends of the descent leave a trie holding X. */
  lemma DescentEnd(b: Tree, S: nat, X: nat)
    requires TreeRep(b) && S % 8 == 0 && Size(b.h, X) == S
    requires b.lo % 8 == 0 && b.lo <= S < b.lo + Width(b.d)
    ensures Ok(Insert(b.t, X, S, b.lo, b.d), b.lo, b.d, b.h)
    ensures Members(Insert(b.t, X, S, b.lo, b.d)) == Members(b.t) + {X}
    ensures Insert(b.t, X, S, b.lo, b.d).Node? && Separate(b.t)
  {
    InsertOk(b.t, X, S, b.lo, b.d, b.h);
    InsertMembers(b.t, X, S, b.lo, b.d);
    OkSeparate(b.t, b.lo, b.d, b.h);
  }

  // ----- the memory after an insertion

  /** X became a member of the trie, which now hangs below root; nothing else was touched. */
  ghost predicate Entered(b: Tree, S: nat, X: nat, n: Links, root: nat) {
    Rep(Insert(b.t, X, S, b.lo, b.d), root, b.slot, b.i, n) &&
    forall p :: At(n, p) == At(b.m, p) || p == X || p in Members(b.t)
  }

  lemma EnterEmpty(b: Tree, S: nat, X: nat)
    requires b.t.Nil? && X != 0
    ensures Entered(b, S, X, NewLeaf(b.m, X, b.slot, b.i), X)
  {
  }

  lemma EnterChain(b: Tree, S: nat, X: nat, c: Ctx, sub: Trie, T: nat, bit: nat)
    requires InsertionPoint(b, S, X, c, sub, T, bit, true) && X != 0 && X !in Members(b.t) && Separate(b.t)
    ensures Entered(b, S, X, Chained(b.m, T, X, b.i), b.root)
  {
    ChunkChained(c, sub, T, X, b.root, b.slot, b.i, b.m);
    PlugMembers(c, sub);
    assert X !in sub.ring by { assert X !in Elements(sub.ring); }
    NodeChained(sub.ring, T, HoleParent(c, b.slot), b.i, b.m, X, Chained(b.m, T, X, b.i));
    forall p | p in sub.ring ensures p in Members(b.t) { assert p in Elements(sub.ring); }
  }

  function SetChild(m: Links, T: nat, bit: nat, v: nat): Links {
    if bit == 0 then SetChild0(m, T, v) else SetChild1(m, T, v)
  }

  /** x written as the child of T on the side bit, statement by statement. */
  function Hung(m: Links, T: nat, bit: nat, x: nat, i: nat): Links {
    var m1 := SetChild1(SetChild0(SetIndex(m, x, i), x, 0), x, 0);
    SetFd(SetBk(SetParent(SetChild(m1, T, bit, x), x, T), x, x), x, x)
  }

  lemma HungIsLeaf(m: Links, T: nat, bit: nat, x: nat, i: nat)
    requires x != T
    ensures Hung(m, T, bit, x, i) == NewLeaf(SetChild(m, T, bit, x), x, T, i)
  {
  }

  lemma EnterLeaf(b: Tree, S: nat, X: nat, c: Ctx, sub: Trie, T: nat, bit: nat)
    requires InsertionPoint(b, S, X, c, sub, T, bit, false) == true && X != 0 && X !in Members(b.t) &&
      Separate(b.t) == true
    ensures Entered(b, S, X, Hung(b.m, T, bit, X, b.i), b.root)
  {
    EmptyBelow(b, S, X, c, sub, T, bit);
    var c' := StepCtx(c, sub, bit);
    PlugMembers(c', Nil);
    LeafLinked(c', X, S, b.root, b.slot, b.i, b.m);
    HungIsLeaf(b.m, T, bit, X, b.i);
  }

  /** The missing child is a hole of the same trie. */
  lemma EmptyBelow(b: Tree, S: nat, X: nat, c: Ctx, sub: Trie, T: nat, bit: nat)
    requires InsertionPoint(b, S, X, c, sub, T, bit, false) == true
    ensures sub.Node? && (bit == 0 || bit == 1) && StepCtx(c, sub, bit) != Top
    ensures Plug(StepCtx(c, sub, bit), Nil) == b.t && CtxRep(StepCtx(c, sub, bit), 0, b.root, b.slot, b.i, b.m) == true
    ensures HoleParent(StepCtx(c, sub, bit), b.slot) == T && T in Members(b.t)
    ensures Plug(StepCtx(c, sub, bit), Node([X], S, Nil, Nil)) == Insert(b.t, X, S, b.lo, b.d)
  {
    PlugMembers(c, sub);
    assert T in Elements(sub.ring);
    if bit == 0 { assert sub.left == Nil; } else { assert sub.right == Nil; }
  }

  // ----- cutting out the rightmost leaf below a node

  /** The side of its parent a hole is on. */
  ghost function Side(c: Ctx): nat { if c.Left? then 0 else 1 }

  /** The loop invariant: R hangs below sub's head X, in the hole of lc, on the recorded side of its parent. */
  ghost predicate LeafSearch(sub: Trie, X: nat, par: nat, i: nat, m: Links, lc: Ctx, cur: Trie, R: nat, owner: nat,
        side: nat) {
    lc != Top && Plug(lc, cur) == sub && cur.Node? && owner == HoleParent(lc, par) && side == Side(lc) &&
    CtxRep(lc, R, X, par, i, m) && Rep(cur, R, HoleParent(lc, par), i, m)
  }

  /** The child the search moves to: the right one if there is one. */
  function NextSide(m: Links, p: nat): nat { if At(m, p).child1 != 0 then 1 else 0 }

  lemma LeafSearchStart(sub: Trie, X: nat, par: nat, i: nat, m: Links)
    requires sub.Node? && Rep(sub, X, par, i, m)
    ensures var side := NextSide(m, X);
      if Child(m, X, side) == 0 then Leaf(sub)
      else LeafSearch(sub, X, par, i, m, StepCtx(Top, sub, side), StepTrie(sub, side), Child(m, X, side), X, side)
  {
    ChildrenRep(sub, X, par, i, m);
  }

  lemma ChildrenRep(t: Trie, p: nat, par: nat, i: nat, m: Links)
    requires t.Node? && Rep(t, p, par, i, m)
    ensures Rep(t.left, At(m, p).child0, p, i, m) && Rep(t.right, At(m, p).child1, p, i, m)
    ensures t.left.Nil? <==> At(m, p).child0 == 0
    ensures t.right.Nil? <==> At(m, p).child1 == 0
  {
  }

  lemma LeafSearchStep(sub: Trie, X: nat, par: nat, i: nat, m: Links, lc: Ctx, cur: Trie, R: nat, owner: nat, side: nat)
    requires LeafSearch(sub, X, par, i, m, lc, cur, R, owner, side)
    ensures var s := NextSide(m, R);
      if Child(m, R, s) == 0 then Leaf(cur)
      else LeafSearch(sub, X, par, i, m, StepCtx(lc, cur, s), StepTrie(cur, s), Child(m, R, s), R, s)
  {
    ChildrenRep(cur, R, HoleParent(lc, par), i, m);
  }

  /** R heads a leaf below X that has been cut out; the rest of X's subtrie is still in place. */
  ghost predicate Detached(sub: Trie, X: nat, par: nat, i: nat, m: Links, lc: Ctx, leaf: Trie, R: nat, n: Links) {
    lc != Top && Plug(lc, leaf) == sub && Leaf(leaf) && NodeRep(leaf.ring, R, HoleParent(lc, par), i, n) &&
    At(n, R).child0 == 0 && At(n, R).child1 == 0 && Rep(Plug(lc, Nil), X, par, i, n) &&
    forall p :: At(n, p) == At(m, p) || p in CtxMembers(lc)
  }

  lemma LeafCut(sub: Trie, X: nat, par: nat, i: nat, m: Links, lc: Ctx, leaf: Trie, R: nat, owner: nat, side: nat)
    requires LeafSearch(sub, X, par, i, m, lc, leaf, R, owner, side) && Leaf(leaf) && Separate(sub)
    ensures Detached(sub, X, par, i, m, lc, leaf, R, SetChild(m, owner, side, 0))
  {
    var n := SetChild(m, owner, side, 0);
    assert n == SetHole(m, lc, 0);
    HoleSet(lc, leaf, R, 0, X, par, i, m);
    PlugRep(lc, Nil, 0, X, par, i, n);
    LeafUntouched(sub, par, i, m, lc, leaf, R, n);
  }

  lemma LeafUntouched(sub: Trie, par: nat, i: nat, m: Links, lc: Ctx, leaf: Trie, R: nat, n: Links)
    requires Plug(lc, leaf) == sub && Separate(sub) && Leaf(leaf) && Rep(leaf, R, HoleParent(lc, par), i, m)
    requires forall p :: p !in CtxMembers(lc) ==> At(m, p) == At(n, p)
    ensures NodeRep(leaf.ring, R, HoleParent(lc, par), i, n) && At(n, R).child0 == 0 && At(n, R).child1 == 0
  {
    ChildrenRep(leaf, R, HoleParent(lc, par), i, m);
    PlugSeparate(lc, leaf);
    forall p | p in Elements(leaf.ring) ensures At(m, p) == At(n, p) { assert p in Members(leaf); }
    NodeFrame(leaf.ring, R, HoleParent(lc, par), i, m, n);
    assert R in Elements(leaf.ring);
  }

  // ----- the memory after unlinking

  /** X left the trie, which is now u below root; nothing outside was touched. */
  ghost predicate Departed(b: Tree, X: nat, u: Trie, n: Links, root: nat) {
    Ok(u, b.lo, b.d, b.h) && Members(u) == Members(b.t) - {X} && Rep(u, root, b.slot, b.i, n) &&
    forall p :: At(n, p) == At(b.m, p) || p in Members(b.t)
  }

  /** X sits at place k in the ring of the node sub. */
  ghost predicate Opened(b: Tree, X: nat, c: Ctx, sub: Trie, q: nat, k: nat) {
    TreeRep(b) && CtxRep(c, q, b.root, b.slot, b.i, b.m) && Rep(sub, q, HoleParent(c, b.slot), b.i, b.m) &&
    Plug(c, sub) == b.t && sub.Node? && k < |sub.ring| && sub.ring[k] == X
  }

  /** Replacing the node of X by something smaller without X. */
  ghost predicate Replaces(b: Tree, sub: Trie, v: Trie, X: nat) {
    Shrinks(sub, v, b.h) && Members(v) == Members(sub) - {X}
  }

  lemma Departure(b: Tree, X: nat, c: Ctx, sub: Trie, q: nat, k: nat, v: Trie)
    requires Opened(b, X, c, sub, q, k) && Replaces(b, sub, v, X)
    ensures Ok(Plug(c, v), b.lo, b.d, b.h) && Members(Plug(c, v)) == Members(b.t) - {X}
    ensures Separate(b.t) && Separate(Plug(c, v))
  {
    OkSeparate(b.t, b.lo, b.d, b.h);
    PlugSeparate(c, sub);
    ShrinkInPlace(c, sub, v, b.h);
    OkSeparate(Plug(c, v), b.lo, b.d, b.h);
    PlugMembers(c, sub);
    PlugMembers(c, v);
    assert X in Elements(sub.ring);
  }

  lemma RingShrinks(b: Tree, sub: Trie, ring: seq<nat>, X: nat)
    requires sub.Node? && Separate(sub) && X in sub.ring && |ring| > 0
    requires forall p :: p in ring <==> p in sub.ring && p != X
    ensures Replaces(b, sub, Node(ring, sub.size, sub.left, sub.right), X)
  {
    var v := Node(ring, sub.size, sub.left, sub.right);
    assert X in Elements(sub.ring);
    assert Elements(ring) == Elements(sub.ring) - {X};
    forall lo, d | Ok(sub, lo, d, b.h) ensures Ok(v, lo, d, b.h) { }
  }

  /** A chunk chained behind the head: only its ring changes. */
  lemma ChainedDeparts(b: Tree, X: nat, c: Ctx, sub: Trie, q: nat, k: nat)
    requires Opened(b, X, c, sub, q, k) && 0 < k
    ensures At(b.m, X).bk != X && At(b.m, X).parent == 0
    ensures Departed(b, X, Plug(c, Node(Ring.Removed(sub.ring, k), sub.size, sub.left, sub.right)),
                     Ring.Joined(b.m, At(b.m, X).bk, At(b.m, X).fd), b.root)
  {
    var ring := sub.ring;
    Ring.Neighbours(ring, b.m, k);
    Ring.RemovedDistinct(ring, k);
    OkSeparate(b.t, b.lo, b.d, b.h);
    PlugSeparate(c, sub);
    RingShrinks(b, sub, Ring.Removed(ring, k), X);
    Departure(b, X, c, sub, q, k, Node(Ring.Removed(ring, k), sub.size, sub.left, sub.right));
    ChainedUnlinked(c, sub, q, k, b.root, b.slot, b.i, b.m);
    Ring.JoinedWords(b.m, ring[k - 1], Ring.After(ring, k));
    PlugMembers(c, sub);
    forall p | p in ring ensures p in Members(b.t) { assert p in Elements(ring); }
  }

  /** Handing X's place to R writes only R, the children of X, and the parent above. */
  lemma TakeOverTouches(c: Ctx, X: nat, R: nat, par: nat, m: Links)
    requires X != R && (c != Top ==> X != HoleParent(c, 0) && R != HoleParent(c, 0))
    ensures var n := TakeOver(SetHole(m, c, R), X, R, par);
      forall p :: p == R || (p != 0 && p == At(m, X).child0) || (p != 0 && p == At(m, X).child1) ||
        (c != Top && p == HoleParent(c, 0)) || At(n, p) == At(m, p)
  {
  }

  /** The head X of a node makes way for R, which heads what is left of the node. */
  lemma StandIn(b: Tree, X: nat, c: Ctx, sub: Trie, v: Trie, R: nat, p: nat, m1: Links)
    requires Opened(b, X, c, sub, X, 0) && v.Node? && Replaces(b, sub, v, X)
    requires CtxRep(c, X, b.root, b.slot, b.i, m1) && NodeRep(v.ring, R, p, b.i, m1)
    requires Rep(v.left, At(m1, X).child0, X, b.i, m1) && Rep(v.right, At(m1, X).child1, X, b.i, m1)
    requires At(m1, R).child0 == 0 && At(m1, R).child1 == 0
    requires forall p :: At(m1, p) == At(b.m, p) || p in Members(b.t)
    ensures Departed(b, X, Plug(c, v), TakeOver(SetHole(m1, c, R), X, R, HoleParent(c, b.slot)),
      RootAfter(c, b.root, R))
  {
    Departure(b, X, c, sub, X, 0, v);
    PlugMembers(c, v);
    assert X !in Members(Plug(c, v));
    assert R in Members(v) by { assert R in Elements(v.ring); }
    assert X in b.t.ring || X != 0 by { assert X in sub.ring; }
    TakenOver(c, v.ring, v.size, v.left, v.right, X, R, p, b.root, b.slot, b.i, m1);
    StandInTouches(b, X, c, v, R, m1);
  }

  lemma StandInTouches(b: Tree, X: nat, c: Ctx, v: Trie, R: nat, m1: Links)
    requires v.Node? && Members(Plug(c, v)) == Members(b.t) - {X} && R in Members(v)
    requires Rep(v.left, At(m1, X).child0, X, b.i, m1) && Rep(v.right, At(m1, X).child1, X, b.i, m1)
    requires CtxRep(c, X, b.root, b.slot, b.i, m1) && Separate(Plug(c, v))
    requires forall p :: At(m1, p) == At(b.m, p) || p in Members(b.t)
    ensures var n := TakeOver(SetHole(m1, c, R), X, R, HoleParent(c, b.slot));
      forall p :: At(n, p) == At(b.m, p) || p in Members(b.t)
  {
    var C0, C1 := At(m1, X).child0, At(m1, X).child1;
    PlugMembers(c, v);
    PlugSeparate(c, v);
    assert C0 != 0 ==> C0 in Members(b.t) by { if v.left.Node? { assert C0 in Elements(v.left.ring); } }
    assert C1 != 0 ==> C1 in Members(b.t) by { if v.right.Node? { assert C1 in Elements(v.right.ring); } }
    assert c != Top ==>
      HoleParent(c, 0) in CtxMembers(c) by { if c != Top { assert HoleParent(c, 0) in Elements(c.ring); } }
    ReadOff(b, X, c, R, HoleParent(c, b.slot), m1, C0, C1);
  }

  lemma ReadOff(b: Tree, X: nat, c: Ctx, R: nat, par: nat, m1: Links, C0: nat, C1: nat)
    requires C0 == At(m1, X).child0 && C1 == At(m1, X).child1 && X != R
    requires c != Top ==> X != HoleParent(c, 0) && R != HoleParent(c, 0) && HoleParent(c, 0) in Members(b.t)
    requires R in Members(b.t) && (C0 != 0 ==> C0 in Members(b.t)) && (C1 != 0 ==> C1 in Members(b.t))
    requires forall p :: At(m1, p) == At(b.m, p) || p in Members(b.t)
    ensures var n := TakeOver(SetHole(m1, c, R), X, R, par); forall p :: At(n, p) == At(b.m, p) || p in Members(b.t)
  {
    TakeOverTouches(c, X, R, par, m1);
  }

  /** The head of a ring of several: the last of the ring takes its place. */
  lemma HeadDeparts(b: Tree, X: nat, c: Ctx, sub: Trie) returns (v: Trie)
    requires Opened(b, X, c, sub, X, 0) && |sub.ring| > 1
    ensures At(b.m, X).bk != X && At(b.m, X).bk != 0 && At(b.m, X).parent == HoleParent(c, b.slot)
    ensures var R := At(b.m, X).bk;
      Departed(b, X, Plug(c, v), TakeOver(SetHole(Ring.Joined(b.m, R, At(b.m, X).fd), c, R), X, R,
        HoleParent(c, b.slot)),
               RootAfter(c, b.root, R))
  {
    var ring := sub.ring;
    var R, F := At(b.m, X).bk, At(b.m, X).fd;
    Ring.Neighbours(ring, b.m, 0);
    assert R == ring[|ring| - 1];
    var rest := Ring.Removed(Ring.Rotated(ring), 1);
    v := Node(rest, sub.size, sub.left, sub.right);
    OkSeparate(b.t, b.lo, b.d, b.h);
    PlugSeparate(c, sub);
    RestOfRing(ring);
    RingShrinks(b, sub, rest, X);
    var m1 := Ring.Joined(b.m, R, F);
    HeadUnringed(b, X, c, sub, m1, rest);
    StandIn(b, X, c, sub, v, R, 0, m1);
  }

  lemma RestOfRing(ring: seq<nat>)
    requires |ring| > 1 && Ring.Distinct(ring)
    ensures var rest := Ring.Removed(Ring.Rotated(ring), 1);
      |rest| == |ring| - 1 && rest[0] == ring[|ring| - 1] && (forall k :: 1 <= k < |rest| ==> rest[k] == ring[k]) &&
      forall p :: p in rest <==> p in ring && p != ring[0]
  {
    var rest := Ring.Removed(Ring.Rotated(ring), 1);
    forall k | 1 <= k < |rest| ensures rest[k] == ring[k] { Ring.RemovedAt(Ring.Rotated(ring), 1, k); }
    forall p | p in ring && p != ring[0] ensures p in rest {
      var j :| 0 <= j < |ring| && ring[j] == p;
      assert rest[if j == |ring| - 1 then 0 else j] == p;
    }
  }

  lemma HeadUnringed(b: Tree, X: nat, c: Ctx, sub: Trie, m1: Links, rest: seq<nat>)
    requires Opened(b, X, c, sub, X, 0) && |sub.ring| > 1 && Separate(b.t)
    requires m1 == Ring.Joined(b.m, sub.ring[|sub.ring| - 1], sub.ring[1]) &&
      rest == Ring.Removed(Ring.Rotated(sub.ring), 1)
    requires |rest| == |sub.ring| - 1 && rest[0] == sub.ring[|sub.ring| - 1] && forall k :: 1 <= k < |rest| ==>
      rest[k] == sub.ring[k]
    ensures CtxRep(c, X, b.root, b.slot, b.i, m1) && NodeRep(rest, rest[0], 0, b.i, m1)
    ensures Rep(sub.left, At(m1, X).child0, X, b.i, m1) && Rep(sub.right, At(m1, X).child1, X, b.i, m1)
    ensures At(m1, rest[0]).child0 == 0 && At(m1, rest[0]).child1 == 0
    ensures forall p :: At(m1, p) == At(b.m, p) || p in Members(b.t)
  {
    var ring := sub.ring;
    Ring.JoinedWords(b.m, ring[|ring| - 1], ring[1]);
    RestRep(ring, X, HoleParent(c, b.slot), b.i, b.m, m1, rest);
    PlugMembers(c, sub);
    assert ring[|ring| - 1] in Elements(ring) && ring[1] in Elements(ring);
    AroundRing(b, X, c, sub, m1);
  }

  /** Changes confined to a node's ring words leave its surroundings and subtries in place. */
  lemma AroundRing(b: Tree, X: nat, c: Ctx, sub: Trie, m1: Links)
    requires Opened(b, X, c, sub, X, 0) && Separate(b.t)
    requires forall p :: p !in Elements(sub.ring) ==> At(m1, p) == At(b.m, p)
    requires At(m1, X).child0 == At(b.m, X).child0 && At(m1, X).child1 == At(b.m, X).child1
    ensures CtxRep(c, X, b.root, b.slot, b.i, m1)
    ensures Rep(sub.left, At(m1, X).child0, X, b.i, m1) && Rep(sub.right, At(m1, X).child1, X, b.i, m1)
  {
    PlugSeparate(c, sub);
    CtxFrame(c, X, b.root, b.slot, b.i, b.m, m1);
    ChildrenRep(sub, X, HoleParent(c, b.slot), b.i, b.m);
    RepFrame(sub.left, At(b.m, X).child0, X, b.i, b.m, m1);
    RepFrame(sub.right, At(b.m, X).child1, X, b.i, b.m, m1);
  }

  lemma RestRep(ring: seq<nat>, X: nat, par: nat, i: nat, m: Links, m1: Links, rest: seq<nat>)
    requires NodeRep(ring, X, par, i, m) && |ring| > 1 && m1 == Ring.Joined(m, ring[|ring| - 1], ring[1])
    requires rest == Ring.Removed(Ring.Rotated(ring), 1)
    requires |rest| == |ring| - 1 && rest[0] == ring[|ring| - 1] && forall k :: 1 <= k < |rest| ==> rest[k] == ring[k]
    ensures NodeRep(rest, rest[0], 0, i, m1) && At(m1, rest[0]).child0 == 0 && At(m1, rest[0]).child1 == 0
  {
    Ring.Rotate(ring, m);
    Ring.Remove(Ring.Rotated(ring), m, 1, m1);
    Ring.JoinedWords(m, ring[|ring| - 1], ring[1]);
    forall q | q in rest ensures q in ring {
      var k :| 0 <= k < |rest| && rest[k] == q;
      assert k == 0 || q == ring[k];
    }
  }

  /** A node alone in its ring, with children: the leaf cut out below takes its place. */
  lemma InnerDeparts(b: Tree, X: nat, c: Ctx, sub: Trie, lc: Ctx, leaf: Trie, R: nat, m1: Links) returns (v: Trie)
    requires Opened(b, X, c, sub, X, 0) && sub.ring == [X]
    requires Detached(sub, X, HoleParent(c, b.slot), b.i, b.m, lc, leaf, R, m1)
    ensures R != 0
    ensures Departed(b, X, Plug(c, v), TakeOver(SetHole(m1, c, R), X, R, HoleParent(c, b.slot)),
      RootAfter(c, b.root, R))
  {
    OkSeparate(b.t, b.lo, b.d, b.h);
    PlugSeparate(c, sub);
    var u := Plug(lc, Nil);
    LeafReplaces(b, X, sub, lc, leaf);
    v := Node(leaf.ring, leaf.size, u.left, u.right);
    PlugMembers(lc, leaf);
    PlugMembers(c, sub);
    ChildrenRep(u, X, HoleParent(c, b.slot), b.i, m1);
    CtxFrame(c, X, b.root, b.slot, b.i, b.m, m1);
    StandIn(b, X, c, sub, v, R, HoleParent(lc, HoleParent(c, b.slot)), m1);
  }

  /** The node X replaced by a leaf from below. */
  lemma LeafReplaces(b: Tree, X: nat, sub: Trie, lc: Ctx, leaf: Trie)
    requires sub.Node? && sub.ring == [X] && lc != Top && Plug(lc, leaf) == sub && Leaf(leaf) && Separate(sub) == true
    ensures var u := Plug(lc, Nil);
      u.Node? && Separate(u) == true && Replaces(b, sub, Node(leaf.ring, leaf.size, u.left, u.right), X) == true
  {
    ReplaceByLeaf(sub, lc, leaf, b.h);
    LeafGone(lc, leaf);
    LeafMembers(Members(leaf), CtxMembers(lc), Plug(lc, Nil), leaf, X);
  }

  lemma LeafGone(lc: Ctx, leaf: Trie)
    requires Separate(Plug(lc, leaf)) == true
    ensures Separate(Plug(lc, Nil)) == true && Members(leaf) !! CtxMembers(lc)
    ensures Members(Plug(lc, leaf)) == Members(leaf) + CtxMembers(lc) && Members(Plug(lc, Nil)) == CtxMembers(lc)
  {
    PlugMembers(lc, leaf);
    PlugMembers(lc, Nil);
    PlugSeparate(lc, leaf);
    SeparateSmaller(lc, leaf, Nil);
  }

  lemma LeafMembers(ls: set<nat>, cs: set<nat>, u: Trie, leaf: Trie, X: nat)
    requires Leaf(leaf) && u.Node? && u.ring == [X] && Separate(u) == true && Members(leaf) == ls && Members(u) == cs &&
      ls !! cs
    ensures Members(Node(leaf.ring, leaf.size, u.left, u.right)) == ls + cs - {X}
  {
    assert Elements([X]) == {X};
  }

  lemma {:induction false} SeparateSmaller(c: Ctx, t: Trie, u: Trie)
    requires Separate(Plug(c, t)) && Separate(u) && Members(u) <= Members(t)
    ensures Separate(Plug(c, u))
  {
    PlugSeparate(c, t);
    match c
    case Top =>
    case Left(ring, size, r, up) =>
      PlugSeparate(up, Node(ring, size, t, r));
      SeparateSmaller(up, Node(ring, size, t, r), Node(ring, size, u, r));
    case Right(ring, size, l, up) =>
      PlugSeparate(up, Node(ring, size, l, t));
      SeparateSmaller(up, Node(ring, size, l, t), Node(ring, size, l, u));
  }

  /** A leaf alone in its ring: its place becomes empty. */
  lemma LeafDeparts(b: Tree, X: nat, c: Ctx, sub: Trie)
    requires Opened(b, X, c, sub, X, 0) && sub.ring == [X] && Leaf(sub)
    ensures Departed(b, X, Plug(c, Nil), SetHole(b.m, c, 0), RootAfter(c, b.root, 0))
  {
    LeafShrinksToNil(sub, b.h);
    assert Elements([X]) == {X};
    Departure(b, X, c, sub, X, 0, Nil);
    HoleSet(c, sub, X, 0, b.root, b.slot, b.i, b.m);
    PlugRep(c, Nil, 0, RootAfter(c, b.root, 0), b.slot, b.i, SetHole(b.m, c, 0));
    PlugMembers(c, sub);
  }

  /** Which word points at X: the bin slot exactly when X is the root, and otherwise the
      child word of its parent on the side of the hole. */
  ghost predicate Pointed(c: Ctx, X: nat, root: nat, slot: nat, m: Links) {
    (root == X <==> c == Top) &&
    (c != Top ==> (At(m, HoleParent(c, slot)).child0 == X <==> c.Left?))
  }

  lemma WhoPoints(b: Tree, X: nat, c: Ctx, sub: Trie, m1: Links)
    requires Opened(b, X, c, sub, X, 0) && Separate(b.t)
    requires forall p :: At(m1, p) == At(b.m, p) || p in Members(sub)
    ensures Pointed(c, X, b.root, b.slot, m1)
  {
    PlugSeparate(c, sub);
    assert X in Members(sub) by { assert X in Elements(sub.ring); }
    if c != Top {
      RootAround(c, X, b.root, b.slot, b.i, b.m);
      assert HoleParent(c, b.slot) in CtxMembers(c) by { assert HoleParent(c, b.slot) in Elements(c.ring); }
      if c.Right? && c.left.Node? {
        assert At(b.m, HoleParent(c, b.slot)).child0 in Elements(c.left.ring);
      }
    }
  }

  lemma {:induction false} RootAround(c: Ctx, q: nat, root: nat, slot: nat, i: nat, m: Links)
    requires CtxRep(c, q, root, slot, i, m) && c != Top
    ensures root in CtxMembers(c)
  {
    var p := HoleParent(c, slot);
    assert p in Elements(c.ring);
    if c.up != Top { RootAround(c.up, p, root, slot, i, m); }
  }

  /** What unlinking does to the words when X has a parent word: the hole is refilled with
      R, and R, if any, takes X's place. */
  ghost function Refilled(m: Links, c: Ctx, X: nat, R: nat, par: nat): Links {
    if R == 0 then SetHole(m, c, 0) else TakeOver(SetHole(m, c, R), X, R, par)
  }

  /** Unlinking the head of a node: the memory m1 before its place is refilled by R. */
  ghost predicate ReadyToRefill(b: Tree, X: nat, c: Ctx, m1: Links, R: nat, u: Trie) {
    Pointed(c, X, b.root, b.slot, m1) && At(m1, X).index == b.i &&
    Departed(b, X, u, Refilled(m1, c, X, R, HoleParent(c, b.slot)), RootAfter(c, b.root, R))
  }

  lemma ReadyAfterJoin(b: Tree, X: nat, c: Ctx, sub: Trie) returns (u: Trie)
    requires Opened(b, X, c, sub, X, 0) && Separate(b.t) && |sub.ring| > 1
    ensures At(b.m, X).bk != X
    ensures ReadyToRefill(b, X, c, Ring.Joined(b.m, At(b.m, X).bk, At(b.m, X).fd), At(b.m, X).bk, u)
  {
    var v := HeadDeparts(b, X, c, sub);
    u := Plug(c, v);
    var R, F := At(b.m, X).bk, At(b.m, X).fd;
    var m1 := Ring.Joined(b.m, R, F);
    Ring.Neighbours(sub.ring, b.m, 0);
    Ring.JoinedWords(b.m, R, F);
    assert R in Elements(sub.ring) && F in Elements(sub.ring);
    WhoPoints(b, X, c, sub, m1);
  }

  lemma ReadyAfterCut(b: Tree, X: nat, c: Ctx, sub: Trie, lc: Ctx, leaf: Trie, R: nat, m1: Links) returns (u: Trie)
    requires Opened(b, X, c, sub, X, 0) && Separate(b.t) && sub.ring == [X]
    requires Detached(sub, X, HoleParent(c, b.slot), b.i, b.m, lc, leaf, R, m1)
    ensures ReadyToRefill(b, X, c, m1, R, u)
  {
    var v := InnerDeparts(b, X, c, sub, lc, leaf, R, m1);
    u := Plug(c, v);
    PlugMembers(lc, leaf);
    WhoPoints(b, X, c, sub, m1);
    RootKept(lc, leaf, Nil);
    assert NodeRep([X], X, HoleParent(c, b.slot), b.i, m1);
    assert X in [X];
  }

  lemma ReadyAtLeaf(b: Tree, X: nat, c: Ctx, sub: Trie) returns (u: Trie)
    requires Opened(b, X, c, sub, X, 0) && Separate(b.t) && sub.ring == [X] && Leaf(sub)
    ensures ReadyToRefill(b, X, c, b.m, 0, u)
  {
    u := Plug(c, Nil);
    LeafDeparts(b, X, c, sub);
    WhoPoints(b, X, c, sub, b.m);
    assert X in [X];
  }

  /** The tests of unlink_large_chunk on the words of X. */
  lemma UnlinkTests(b: Tree, X: nat, c: Ctx, sub: Trie, q: nat, k: nat)
    requires Opened(b, X, c, sub, q, k) && b.slot != 0
    ensures At(b.m, X).bk == X <==> |sub.ring| == 1
    ensures |sub.ring| == 1 ==> sub.ring == [X]
    ensures At(b.m, X).parent == if k == 0 then HoleParent(c, b.slot) else 0
    ensures HoleParent(c, b.slot) != 0 && (k == 0 ==> q == X) && Separate(sub) && b.root != 0
  {
    PlugMembers(c, sub);
    assert b.t.Node? by { assert q in Elements(sub.ring); }
    assert b.root in b.t.ring;
    OkSeparate(b.t, b.lo, b.d, b.h);
    PlugSeparate(c, sub);
    Ring.Neighbours(sub.ring, b.m, k);
  }

  lemma DepartedRoot(b: Tree, X: nat, u: Trie, n: Links, root: nat)
    requires Departed(b, X, u, n, root)
    ensures u.Node? <==> root != 0
  {
  }
}
