/** The descent of a splay: what each turn keeps. */
module SplayPath {
  import opened Sides
  import opened SplayShape
  import opened SplayRepair

  // ----- keys

  /** int arithmetic is taken to wrap at 32 bits; the C standard leaves an overflowing difference undefined. */
  function Wrap32(x: int): int { (x + 0x8000_0000) % 0x1_0000_0000 - 0x8000_0000 }

  predicate Int32(x: int) { -0x8000_0000 <= x < 0x8000_0000 }

  /** compare(i, j) */
  function Compare(i: int, j: int): int { Wrap32(i - j) }

  /** The sign of the wrapped difference orders two ints exactly when the difference is one itself. */
  lemma CompareSign(i: int, j: int)
    requires Int32(i) && Int32(j)
    ensures ((Compare(i, j) < 0 <==> i < j) && (Compare(i, j) > 0 <==> i > j)) <==> Int32(i - j)
    ensures Compare(i, j) == 0 <==> i == j
  {
    var d := i - j;
    if d < -0x8000_0000 {
      assert (d + 0x8000_0000) % 0x1_0000_0000 == d + 0x1_8000_0000;
    } else if d >= 0x8000_0000 {
      assert (d + 0x8000_0000) % 0x1_0000_0000 == d - 0x8000_0000;
    } else {
      assert (d + 0x8000_0000) % 0x1_0000_0000 == d + 0x8000_0000;
    }
  }

  /** A pair it gets wrong: INT_MIN compares as greater than 1. */
  lemma CompareFails()
    ensures Compare(-0x8000_0000, 1) > 0
  {
    CompareSign(-0x8000_0000, 1);
  }

  ghost predicate Sorted(s: seq<SplayNode>) { forall i, j :: 0 <= i < j < |s| ==> s[i].key < s[j].key }

  ghost predicate AllLess(s: seq<SplayNode>, i: int) { forall n :: n in s ==> n.key < i }

  ghost predicate AllMore(s: seq<SplayNode>, i: int) { forall n :: n in s ==> i < n.key }

  /** i and the keys of s are near enough to be compared. */
  ghost predicate Near(s: seq<SplayNode>, i: int) {
    Int32(i) && forall n :: n in s ==> Int32(n.key) && Int32(i - n.key)
  }

  lemma SortedParts(a: seq<SplayNode>, n: SplayNode, b: seq<SplayNode>)
    requires Sorted(a + [n] + b)
    ensures Sorted(a) && Sorted(b) && AllLess(a, n.key) && AllMore(b, n.key)
  {
    var s := a + [n] + b;
    assert s[|a|] == n;
    assert forall k :: 0 <= k < |a| ==> s[k] == a[k];
    assert forall k :: 0 <= k < |b| ==> s[|a| + 1 + k] == b[k];
  }

  // ----- the descent

  ghost function Whole(cl: Spine, t: Tree, cr: Spine): seq<SplayNode> { LOrder(cl) + InOrder(t) + ROrder(cr) }

  ghost function All(cl: Spine, t: Tree, cr: Spine): set<SplayNode> { SpineNodes(cl) + Nodes(t) + SpineNodes(cr) }

  /** Nothing outside S has changed since m0. */
  ghost predicate Outside(m0: Store, m: Store, S: set<SplayNode>) {
    m.Keys == m0.Keys && forall n :: n in m0 && n !in S ==> m[n] == m0[n]
  }

  /** Under way: the order is kept, the left spine is below i, the right one above. */
  ghost predicate Midway(i: int, cl: Spine, t: Tree, cr: Spine, head: SplayNode, m: Store, order: seq<SplayNode>,
        S: set<SplayNode>) {
    Splaying(L, cr, cl, t, head, m) && Whole(cl, t, cr) == order && All(cl, t, cr) == S &&
    Sorted(order) && Near(order, i) && AllLess(LOrder(cl), i) && AllMore(ROrder(cr), i)
  }

  /** The way down ends at t: at the key, or where there is no child to go on to. */
  ghost predicate Ended(i: int, t: Tree) {
    t.Node? && (t.n.key == i || (i < t.n.key && t.l.Leaf?) || (t.n.key < i && t.r.Leaf?))
  }

  lemma Begins(i: int, t: Tree, head: SplayNode, m: Store)
    requires t.Node? && Rep(t, t.n, m) && Separate(t) && head in m && head !in Nodes(t) && Sorted(InOrder(t)) &&
      Near(InOrder(t), i)
    ensures Midway(i, End, t, End, head, m, InOrder(t), Nodes(t)) == true
  {
    NothingPassed(t);
  }

  lemma NothingPassed(t: Tree)
    ensures Whole(End, t, End) == InOrder(t) && All(End, t, End) == Nodes(t)
  {
    assert [] + InOrder(t) + [] == InOrder(t);
  }

  /** The order in the middle. */
  lemma NodeOrder(cl: Spine, t: Tree, cr: Spine)
    requires t.Node?
    ensures Whole(cl, t, cr) == (LOrder(cl) + InOrder(t.l)) + [t.n] + (InOrder(t.r) + ROrder(cr))
  {
    Middle(LOrder(cl), InOrder(t.l), [t.n], InOrder(t.r), ROrder(cr));
  }

  /** The comparisons at t and its children decide as the keys do. */
  lemma Compares(i: int, cl: Spine, t: Tree, cr: Spine, head: SplayNode, m: Store, order: seq<SplayNode>,
        S: set<SplayNode>)
    requires Midway(i, cl, t, cr, head, m, order, S) == true
    ensures t.n in m && m[t.n].left == Ptr(t.l) && m[t.n].right == Ptr(t.r)
    ensures (Compare(i, t.n.key) < 0 <==> i < t.n.key) && (Compare(i, t.n.key) > 0 <==> i > t.n.key)
    ensures t.l.Node? ==> t.l.n in m && (Compare(i, t.l.n.key) < 0 <==> i < t.l.n.key)
    ensures t.r.Node? ==> t.r.n in m && (Compare(i, t.r.n.key) > 0 <==> i > t.r.n.key)
  {
    NodeOrder(cl, t, cr);
    assert t.n in order;
    CompareSign(i, t.n.key);
    RepNodes(t.l, m[t.n].left, m);
    RepNodes(t.r, m[t.n].right, m);
    if t.l.Node? {
      assert t.l.n in InOrder(t.l);
      assert t.l.n in order;
      CompareSign(i, t.l.n.key);
    }
    if t.r.Node? {
      assert t.r.n in InOrder(t.r);
      assert t.r.n in order;
      CompareSign(i, t.r.n.key);
    }
  }

  /** Around t the keys are as in any search tree. */
  lemma KeysAround(i: int, cl: Spine, t: Tree, cr: Spine, order: seq<SplayNode>)
    requires t.Node? && Whole(cl, t, cr) == order && Sorted(order) && AllLess(LOrder(cl), i) && AllMore(ROrder(cr), i)
    ensures AllLess(InOrder(t.l), t.n.key) && AllMore(InOrder(t.r), t.n.key)
    ensures i < t.n.key ==> AllMore([t.n] + InOrder(t.r) + ROrder(cr), i)
    ensures t.n.key < i ==> AllLess(LOrder(cl) + InOrder(t.l) + [t.n], i)
  {
    NodeOrder(cl, t, cr);
    SortedParts(LOrder(cl) + InOrder(t.l), t.n, InOrder(t.r) + ROrder(cr));
    assert forall n :: n in InOrder(t.l) ==> n in LOrder(cl) + InOrder(t.l);
    assert forall n :: n in InOrder(t.r) ==> n in InOrder(t.r) + ROrder(cr);
  }

  /** The subtree last linked is in order. */
  lemma LastLinked(i: int, cl: Spine, t: Tree, cr: Spine, head: SplayNode, m: Store, order: seq<SplayNode>,
        S: set<SplayNode>)
    requires Midway(i, cl, t, cr, head, m, order, S) == true
    ensures cr.Link? ==> cr.n in m && Rep(cr.sub, m[cr.n].right, m)
    ensures cl.Link? ==> cl.n in m && Rep(cl.sub, m[cl.n].left, m)
  {
  }

  // ----- to the left

  /** Rotating right at t. */
  lemma RotateRight(i: int, cl: Spine, t: Tree, cr: Spine, head: SplayNode, m: Store, order: seq<SplayNode>,
        S: set<SplayNode>)
    requires Midway(i, cl, t, cr, head, m, order, S) == true && t.l.Node?
    ensures t.n in m && t.l.n in m && t.n != t.l.n && t.n in S && t.l.n in S
    ensures var x, y := t.n, t.l.n;
      Midway(i, cl, Node(y, t.l.l, Node(x, t.l.r, t.r)), cr, head, Rotated(m, L, x, y, Count(t.l.r) + Count(t.r) + 1),
        order, S)
  {
    RotateOk(L, cr, cl, t.n, t.l.n, t.l.l, t.l.r, t.r, head, m);
    MkFacts(L, t.n, t.l, t.r);
    assert t == Mk(L, t.n, Mk(L, t.l.n, t.l.l, t.l.r), t.r);
    RotateNodes(L, t.n, t.l.n, t.l.l, t.l.r, t.r);
  }

  /** What the rotation of a turn to the left needs and gives. */
  lemma ZigRight(i: int, cl: Spine, t: Tree, cr: Spine, head: SplayNode, m: Store, order: seq<SplayNode>,
        S: set<SplayNode>)
    requires Midway(i, cl, t, cr, head, m, order, S) == true && t.l.Node?
    ensures t.n in m && t.l.n in m && t.n != t.l.n && Loose(t, t.n, m) == true
    ensures var u, m' := Node(t.l.n, t.l.l, Node(t.n, t.l.r, t.r)), Rotated(m, L, t.n, t.l.n,
      Count(t.l.r) + Count(t.r) + 1);
      Midway(i, cl, u, cr, head, m', order, S) == true && u.n in m' && m'[u.n].left == Ptr(u.l) &&
        Outside(m, m', S + {head}) == true
  {
    RotateRight(i, cl, t, cr, head, m, order, S);
    RotatedHasWords(m, L, t.n, t.l.n, Count(t.l.r) + Count(t.r) + 1);
    var m' := Rotated(m, L, t.n, t.l.n, Count(t.l.r) + Count(t.r) + 1);
    Compares(i, cl, Node(t.l.n, t.l.l, Node(t.n, t.l.r, t.r)), cr, head, m', order, S);
  }

  /** Linking t into the right spine. */
  lemma LinkRight(i: int, cl: Spine, t: Tree, cr: Spine, head: SplayNode, m: Store, order: seq<SplayNode>,
        S: set<SplayNode>)
    requires Midway(i, cl, t, cr, head, m, order, S) == true && t.l.Node? && i < t.n.key
    ensures t.n in m && m[t.n].left == t.l.n && Owner(cr, head) in m && Owner(cr, head) in S + {head}
    ensures Midway(i, cl, t.l, Link(t.n, t.r, cr), head, SetKid(m, Owner(cr, head), L, t.n), order, S)
  {
    assert t == Mk(L, t.n, t.l, t.r);
    LinkOk(L, cr, cl, t.n, t.l, t.r, head, m);
    OwnerInside(cr, head);
    KeysAround(i, cl, t, cr, order);
    LinkedOrder(cl, t, cr);
  }

  lemma LinkedOrder(cl: Spine, t: Tree, cr: Spine)
    requires t.Node?
    ensures Whole(cl, t.l, Link(t.n, t.r, cr)) == Whole(cl, t, cr) == Whole(Link(t.n, t.l, cl), t.r, cr)
  {
    NodeOrder(cl, t, cr);
    Reorder(LOrder(cl), InOrder(t.l), [t.n], InOrder(t.r), ROrder(cr));
  }

  lemma Reorder<T>(a: seq<T>, b: seq<T>, c: seq<T>, d: seq<T>, e: seq<T>)
    ensures (a + b) + c + (d + e) == (a + b) + (c + d + e) == (a + b + c) + d + e
  {
  }

  // ----- to the right

  lemma RotateLeft(i: int, cl: Spine, t: Tree, cr: Spine, head: SplayNode, m: Store, order: seq<SplayNode>,
        S: set<SplayNode>)
    requires Midway(i, cl, t, cr, head, m, order, S) == true && t.r.Node?
    ensures t.n in m && t.r.n in m && t.n != t.r.n && t.n in S && t.r.n in S
    ensures var x, y := t.n, t.r.n;
      Midway(i, cl, Node(y, Node(x, t.l, t.r.l), t.r.r), cr, head, Rotated(m, R, x, y, Count(t.r.l) + Count(t.l) + 1),
        order, S)
  {
    RotateOk(R, cl, cr, t.n, t.r.n, t.r.r, t.r.l, t.l, head, m);
    assert t == Mk(R, t.n, Mk(R, t.r.n, t.r.r, t.r.l), t.l);
    RotateNodes(R, t.n, t.r.n, t.r.r, t.r.l, t.l);
  }

  lemma ZigLeft(i: int, cl: Spine, t: Tree, cr: Spine, head: SplayNode, m: Store, order: seq<SplayNode>,
        S: set<SplayNode>)
    requires Midway(i, cl, t, cr, head, m, order, S) == true && t.r.Node?
    ensures t.n in m && t.r.n in m && t.n != t.r.n && Loose(t, t.n, m) == true
    ensures var u, m' := Node(t.r.n, Node(t.n, t.l, t.r.l), t.r.r), Rotated(m, R, t.n, t.r.n,
      Count(t.r.l) + Count(t.l) + 1);
      Midway(i, cl, u, cr, head, m', order, S) == true && u.n in m' && m'[u.n].right == Ptr(u.r) &&
        Outside(m, m', S + {head}) == true
  {
    RotateLeft(i, cl, t, cr, head, m, order, S);
    RotatedHasWords(m, R, t.n, t.r.n, Count(t.r.l) + Count(t.l) + 1);
    var m' := Rotated(m, R, t.n, t.r.n, Count(t.r.l) + Count(t.l) + 1);
    Compares(i, cl, Node(t.r.n, Node(t.n, t.l, t.r.l), t.r.r), cr, head, m', order, S);
  }

  lemma LinkLeft(i: int, cl: Spine, t: Tree, cr: Spine, head: SplayNode, m: Store, order: seq<SplayNode>,
        S: set<SplayNode>)
    requires Midway(i, cl, t, cr, head, m, order, S) == true && t.r.Node? && t.n.key < i
    ensures t.n in m && m[t.n].right == t.r.n && Owner(cl, head) in m && Owner(cl, head) in S + {head}
    ensures Midway(i, Link(t.n, t.l, cl), t.r, cr, head, SetKid(m, Owner(cl, head), R, t.n), order, S)
  {
    assert t == Mk(R, t.n, t.r, t.l);
    LinkOk(R, cl, cr, t.n, t.r, t.l, head, m);
    OwnerInside(cl, head);
    KeysAround(i, cl, t, cr, order);
    LinkedOrder(cl, t, cr);
  }

  /** What linking needs and gives, the size it reads included. */
  lemma HangRight(i: int, cl: Spine, t: Tree, cr: Spine, head: SplayNode, m: Store, order: seq<SplayNode>,
        S: set<SplayNode>)
    requires Midway(i, cl, t, cr, head, m, order, S) == true && t.l.Node? && i < t.n.key
    ensures t.n in m && Owner(cr, head) in m
    ensures var m' := SetKid(m, Owner(cr, head), L, t.n);
      Midway(i, cl, t.l, Link(t.n, t.r, cr), head, m', order, S) == true && t.n in m' && m'[t.n].left == t.l.n &&
      Rep(t.r, m'[t.n].right, m') == true && Outside(m, m', S + {head}) == true
  {
    LinkRight(i, cl, t, cr, head, m, order, S);
    var m' := SetKid(m, Owner(cr, head), L, t.n);
    LastLinked(i, cl, t.l, Link(t.n, t.r, cr), head, m', order, S);
    OwnerNot(cr, t, head, i, cl, m, order, S);
  }

  lemma HangLeft(i: int, cl: Spine, t: Tree, cr: Spine, head: SplayNode, m: Store, order: seq<SplayNode>,
        S: set<SplayNode>)
    requires Midway(i, cl, t, cr, head, m, order, S) == true && t.r.Node? && t.n.key < i
    ensures t.n in m && Owner(cl, head) in m
    ensures var m' := SetKid(m, Owner(cl, head), R, t.n);
      Midway(i, Link(t.n, t.l, cl), t.r, cr, head, m', order, S) == true && t.n in m' && m'[t.n].right == t.r.n &&
      Rep(t.l, m'[t.n].left, m') == true && Outside(m, m', S + {head}) == true
  {
    LinkLeft(i, cl, t, cr, head, m, order, S);
    var m' := SetKid(m, Owner(cl, head), R, t.n);
    LastLinked(i, Link(t.n, t.l, cl), t.r, cr, head, m', order, S);
    OwnerNot(cr, t, head, i, cl, m, order, S);
  }

  lemma OwnerNot(cr: Spine, t: Tree, head: SplayNode, i: int, cl: Spine, m: Store, order: seq<SplayNode>,
        S: set<SplayNode>)
    requires Midway(i, cl, t, cr, head, m, order, S)
    ensures Owner(cl, head) != t.n && Owner(cr, head) != t.n
  {
    OwnerInside(cl, head);
    OwnerInside(cr, head);
  }

  // ----- the ends closed

  /** t->size = l_size + r_size + 1; l->right = r->left = NULL */
  ghost function Closed(m: Store, l: SplayNode, r: SplayNode, t: SplayNode, k: int): Store {
    SetKid(SetKid(SetSize(m, t, k), l, R, null), r, L, null)
  }

  /** Both spines ready for correction, t's size right. */
  ghost predicate ReadyBoth(cl: Spine, t: Tree, cr: Spine, head: SplayNode, m: Store) {
    t.Node? && Apart(cl, cr, t, head) && Loose(t, t.n, m) && m[t.n].size == Weight(cl) + Count(t) + Weight(cr) &&
    Repairing(R, cl, End, Count(t.l), head, m) && Repairing(L, cr, End, Count(t.r), head, m) &&
    SpineNodes(cl) <= m.Keys && SpineNodes(cr) <= m.Keys && Nodes(t) <= m.Keys && head in m
  }

  lemma ClosedOk(cl: Spine, t: Tree, cr: Spine, head: SplayNode, m: Store)
    requires Splaying(L, cr, cl, t, head, m) == true
    ensures Owner(cl, head) in m && Owner(cr, head) in m && t.n in m
    ensures Owner(cl, head) in SpineNodes(cl) + {head} && Owner(cr, head) in SpineNodes(cr) + {head}
    ensures ReadyBoth(cl, t, cr, head, Closed(m, Owner(cl, head), Owner(cr, head), t.n,
      Weight(cl) + Count(t) + Weight(cr))) == true
  {
    SplayKeys(cl, t, cr, head, m);
    var l, r, m1 := Owner(cl, head), Owner(cr, head), SetSize(m, t.n, Weight(cl) + Count(t) + Weight(cr));
    SizeKept(cl, t, cr, head, m, m1);
    CloseBoth(cl, t, cr, head, m1, SetKid(m1, l, R, null), l, r);
  }

  lemma SplayKeys(cl: Spine, t: Tree, cr: Spine, head: SplayNode, m: Store)
    requires Splaying(L, cr, cl, t, head, m) == true
    ensures SpineNodes(cl) <= m.Keys && SpineNodes(cr) <= m.Keys && Nodes(t) <= m.Keys && t.n in m && head in m
    ensures Owner(cl, head) in m && Owner(cr, head) in m
    ensures Owner(cl, head) in SpineNodes(cl) + {head} && Owner(cr, head) in SpineNodes(cr) + {head}
  {
    OwnerInside(cl, head);
    OwnerInside(cr, head);
    SpineKeys(R, cl, head, m);
    SpineKeys(L, cr, head, m);
    RepNodes(t.l, m[t.n].left, m);
    RepNodes(t.r, m[t.n].right, m);
  }

  lemma SizeKept(cl: Spine, t: Tree, cr: Spine, head: SplayNode, m: Store, m1: Store)
    requires Splaying(L, cr, cl, t, head, m) == true && t.n in m &&
      m1 == SetSize(m, t.n, Weight(cl) + Count(t) + Weight(cr))
    requires SpineNodes(cl) <= m.Keys && SpineNodes(cr) <= m.Keys && Nodes(t) <= m.Keys
    ensures Splaying(L, cr, cl, t, head, m1) == true && m1[t.n].size == Weight(cl) + Count(t) + Weight(cr)
  {
    SpineFrame(R, cl, head, m, m1);
    SpineFrame(L, cr, head, m, m1);
    RepFrame(t.l, m[t.n].left, m, m1);
    RepFrame(t.r, m[t.n].right, m, m1);
  }

  lemma CloseBoth(cl: Spine, t: Tree, cr: Spine, head: SplayNode, m: Store, m1: Store, l: SplayNode, r: SplayNode)
    requires Splaying(L, cr, cl, t, head, m) == true && m[t.n].size == Weight(cl) + Count(t) + Weight(cr)
    requires l == Owner(cl, head) && r == Owner(cr, head) && l in m && r in m && m1 == SetKid(m, l, R, null)
    requires SpineNodes(cl) <= m.Keys && SpineNodes(cr) <= m.Keys && Nodes(t) <= m.Keys
    requires l in SpineNodes(cl) + {head} && r in SpineNodes(cr) + {head}
    ensures ReadyBoth(cl, t, cr, head, SetKid(m1, r, L, null)) == true
  {
    var m2 := SetKid(m1, r, L, null);
    SpinesClosed(cl, t, cr, head, m, m1, m2, l, r);
    TreeUntouched(cl, t, cr, head, m, m2, l, r);
    ReadyToRepair(R, cl, Count(t.l), head, m2);
    ReadyToRepair(L, cr, Count(t.r), head, m2);
  }

  lemma TreeUntouched(cl: Spine, t: Tree, cr: Spine, head: SplayNode, m: Store, m2: Store, l: SplayNode, r: SplayNode)
    requires Splaying(L, cr, cl, t, head, m) == true && m2.Keys == m.Keys && forall n :: n in m && n != l && n != r ==>
      m2[n] == m[n]
    requires l in SpineNodes(cl) + {head} && r in SpineNodes(cr) + {head} && Nodes(t) <= m.Keys
    ensures t.Node? && Loose(t, t.n, m2) == true && t.n in m && m2[t.n] == m[t.n]
  {
    RepFrame(t.l, m[t.n].left, m, m2);
    RepFrame(t.r, m[t.n].right, m, m2);
  }

  lemma SpinesClosed(cl: Spine, t: Tree, cr: Spine, head: SplayNode, m: Store, m1: Store, m2: Store, l: SplayNode,
        r: SplayNode)
    requires Splaying(L, cr, cl, t, head, m) == true
    requires l == Owner(cl, head) && r == Owner(cr, head) && l in m && r in m && m1 == SetKid(m, l, R, null) &&
      m2 == SetKid(m1, r, L, null)
    requires SpineNodes(cl) <= m.Keys && SpineNodes(cr) <= m.Keys && l in SpineNodes(cl) + {head} &&
      r in SpineNodes(cr) + {head}
    ensures SpineRep(R, cl, head, m2) == true && SpineRep(L, cr, head, m2) == true && m2[l].right == null &&
      m2[r].left == null
  {
    FirstClosed(cl, t, cr, head, m, m1, l);
    SpineFrame(L, cr, head, m1, m2);
    OtherFrame(L, cl, head, m1, m2, r);
  }

  lemma FirstClosed(cl: Spine, t: Tree, cr: Spine, head: SplayNode, m: Store, m1: Store, l: SplayNode)
    requires Splaying(L, cr, cl, t, head, m) == true && l == Owner(cl, head) && l in m && m1 == SetKid(m, l, R, null)
    requires SpineNodes(cl) <= m.Keys && SpineNodes(cr) <= m.Keys && l in SpineNodes(cl) + {head}
    ensures SpineRep(R, cl, head, m1) == true && SpineRep(L, cr, head, m1) == true && m1[l].right == null
    ensures SpineSeparate(cl) == true && SpineSeparate(cr) == true && head !in SpineNodes(cl) && head !in SpineNodes(cr)
    ensures SpineNodes(cl) !! SpineNodes(cr)
  {
    SpineFrame(R, cl, head, m, m1);
    OtherFrame(R, cr, head, m, m1, l);
  }

  /** One turn of a size loop. */
  lemma RepairTurn(s: Side, c2: Spine, c1: Spine, k: nat, head: SplayNode, m0: Store, m: Store, c: Spine)
    requires Repairing(s, c2, c1, k, head, m) == true && c2.Link? && Concat(c2, c1) == c &&
      Outside(m0, m, SpineNodes(c)) == true
    ensures var y, sub, c2', c1' := Outer(c2).n, Outer(c2).sub, Inner(c2), Link(Outer(c2).n, Outer(c2).sub, c1);
      var m' := SetSize(m, y, Weight(c2) + k);
      y in m && Kid(m[Owner(c1, head)], s) == y && Rep(sub, Kid(m'[y], Opp(s)), m') &&
      Weight(c2') == Weight(c2) - (1 + Count(sub)) && Concat(c2', c1') == c &&
        Repairing(s, c2', c1', k, head, m') == true &&
      Outside(m0, m', SpineNodes(c)) == true && (c2'.Link? <==> Kid(m'[y], s) != null)
  {
    RepairStep(s, c2, c1, k, head, m);
    ConcatSeparate(c2, c1);
    var y, sub, c2', c1' := Outer(c2).n, Outer(c2).sub, Inner(c2), Link(Outer(c2).n, Outer(c2).sub, c1);
    NextY(s, c2', c1', k, head, SetSize(m, y, Weight(c2) + k));
  }

  lemma NextY(s: Side, c2: Spine, c1: Spine, k: nat, head: SplayNode, m: Store)
    requires Repairing(s, c2, c1, k, head, m) == true && c1.Link?
    ensures c2.Link? <==> Kid(m[c1.n], s) != null
    ensures Rep(c1.sub, Kid(m[c1.n], Opp(s)), m)
  {
    if c2.Link? { TakeOuter(s, c2, c1, Leaf); }
  }

  lemma FirstY(s: Side, c: Spine, k: nat, head: SplayNode, m: Store)
    requires Repairing(s, c, End, k, head, m) == true
    ensures head in m && (c.Link? <==> Kid(m[head], s) != null)
  {
    if c.Link? { TakeOuter(s, c, End, Leaf); }
  }

  lemma LooseSizes(cl: Spine, t: Tree, cr: Spine, head: SplayNode, m: Store)
    requires Splaying(L, cr, cl, t, head, m) == true
    ensures t.n in m && Rep(t.l, m[t.n].left, m) && Rep(t.r, m[t.n].right, m)
  {
  }

  lemma ClosedOutside(m: Store, l: SplayNode, r: SplayNode, t: SplayNode, k: int, S: set<SplayNode>)
    requires t in m && l in m && r in m && t in S && l in S && r in S
    ensures Outside(m, Closed(m, l, r, t, k), S)
  {
  }

  lemma OutsideTwice(m0: Store, m1: Store, m2: Store, S1: set<SplayNode>, S2: set<SplayNode>)
    requires Outside(m0, m1, S1) && Outside(m1, m2, S2) && S2 <= S1
    ensures Outside(m0, m2, S1)
  {
  }

  /** Both loops run: from ReadyBoth to Corrected. */
  lemma FirstRepaired(cl: Spine, t: Tree, cr: Spine, head: SplayNode, m: Store, m': Store)
    requires ReadyBoth(cl, t, cr, head, m) == true && SizedSpine(R, cl, Count(t.l), head, m') &&
      Outside(m, m', SpineNodes(cl))
    ensures Repairing(L, cr, End, Count(t.r), head, m') == true && Loose(t, t.n, m') && m'[t.n] == m[t.n] &&
      m'[head] == m[head]
  {
    StillReady(L, cr, Count(t.r), head, m, m');
    RepFrame(t.l, m[t.n].left, m, m');
    RepFrame(t.r, m[t.n].right, m, m');
  }

  lemma SecondRepaired(cl: Spine, t: Tree, cr: Spine, head: SplayNode, m: Store, m': Store)
    requires t.Node? && Apart(cl, cr, t, head) && Loose(t, t.n, m) && m[t.n].size == Weight(cl) + Count(t) + Weight(cr)
    requires SizedSpine(R, cl, Count(t.l), head, m) && SizedSpine(L, cr, Count(t.r), head, m') &&
      Outside(m, m', SpineNodes(cr))
    requires SpineNodes(cl) <= m.Keys && SpineNodes(cr) <= m.Keys && Nodes(t) <= m.Keys && head in m
    ensures Corrected(cl, t, cr, head, m') == true
  {
    SizedFrame(R, cl, Count(t.l), head, m, m');
    RepFrame(t.l, m[t.n].left, m, m');
    RepFrame(t.r, m[t.n].right, m, m');
  }

  lemma AssembledOutside(cl: Spine, t: Tree, cr: Spine, head: SplayNode, m: Store)
    requires Corrected(cl, t, cr, head, m) == true
    ensures Owner(cl, head) in m && Owner(cr, head) in m && t.n in m && head in m
    ensures Outside(m, Assembled(m, Owner(cl, head), Owner(cr, head), t.n, head), All(cl, t, cr) + {head})
  {
    OwnerInside(cl, head);
    OwnerInside(cr, head);
  }

  // ----- the end

  /** At the end everything left of t is below i, everything right of it above. */
  lemma Divides(i: int, cl: Spine, t: Tree, cr: Spine, head: SplayNode, m: Store, order: seq<SplayNode>,
        S: set<SplayNode>)
    requires Midway(i, cl, t, cr, head, m, order, S) == true && Ended(i, t)
    ensures InOrder(Joined(cl, t, cr)) == order
    ensures AllLess(InOrder(Joined(cl, t, cr).l), i) && AllMore(InOrder(Joined(cl, t, cr).r), i)
  {
    JoinedOrder(cl, t, cr);
    KeysAround(i, cl, t, cr, order);
  }

  lemma MidwaySplays(i: int, cl: Spine, t: Tree, cr: Spine, head: SplayNode, m: Store, order: seq<SplayNode>,
        S: set<SplayNode>)
    requires Midway(i, cl, t, cr, head, m, order, S) == true
    ensures Splaying(L, cr, cl, t, head, m) == true && All(cl, t, cr) == S && Whole(cl, t, cr) == order
    ensures Separate(Joined(cl, t, cr)) && Nodes(Joined(cl, t, cr)) == S && head !in S
  {
    JoinedNodes(cl, t, cr, head);
  }

  /** The dummy head is gone; outside the tree nothing has changed. */
  lemma HeadForgotten(w: Tree, t: SplayNode, m0: Store, m1: Store, m: Store, head: SplayNode, S: set<SplayNode>)
    requires Rep(w, t, m) && head !in Nodes(w) && Nodes(w) == S && head !in m0 && head in m1 &&
      m1 == m0[head := m1[head]]
    requires Outside(m1, m, S + {head})
    ensures Rep(w, t, m - {head}) && Outside(m0, m - {head}, S)
  {
    RepNodes(w, t, m);
    RepFrame(w, t, m, m - {head});
  }
}
