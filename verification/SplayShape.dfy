/** Trees being splayed: the tree that is left, and the two spines grown on either side of it. */
module SplayShape {
  import opened Sides

  /** struct tree_node_s_ */
  class SplayNode {
    const key: int
    const data: int
    var left: SplayNode?
    var right: SplayNode?
    var size: int

    constructor (key: int, data: int)
      ensures this.key == key && this.data == data && left == null && right == null && size == 0
    {
      this.key, this.data := key, data;
      left, right, size := null, null, 0;
    }
  }

  /** The words of one node that change. */
  datatype Cell = Cell(left: SplayNode?, right: SplayNode?, size: int)

  type Store = map<SplayNode, Cell>

  ghost function Kid(c: Cell, s: Side): SplayNode? { if s == L then c.left else c.right }

  ghost function WithKid(c: Cell, s: Side, v: SplayNode?): Cell { if s == L then c.(left := v) else c.(right := v) }

  ghost function SetKid(m: Store, n: SplayNode, s: Side, v: SplayNode?): Store {
    if n in m then m[n := WithKid(m[n], s, v)] else m
  }

  ghost function SetSize(m: Store, n: SplayNode, k: int): Store {
    if n in m then m[n := m[n].(size := k)] else m
  }

  // ----- trees

  datatype Tree = Leaf | Node(n: SplayNode, l: Tree, r: Tree)

  /** A node with a on side s and b on the other. */
  ghost function Mk(s: Side, n: SplayNode, a: Tree, b: Tree): Tree { if s == L then Node(n, a, b) else Node(n, b, a) }

  /** The subtree of a node on side s. */
  ghost function Sub(t: Tree, s: Side): Tree
    requires t.Node?
  {
    if s == L then t.l else t.r
  }

  lemma IsMk(s: Side, t: Tree)
    requires t.Node?
    ensures t == Mk(s, t.n, Sub(t, s), Sub(t, Opp(s)))
  {
  }

  ghost function Ptr(t: Tree): SplayNode? { if t.Leaf? then null else t.n }

  ghost function Count(t: Tree): nat { if t.Leaf? then 0 else Count(t.l) + Count(t.r) + 1 }

  ghost function Nodes(t: Tree): set<SplayNode> { if t.Leaf? then {} else {t.n} + Nodes(t.l) + Nodes(t.r) }

  ghost function InOrder(t: Tree): seq<SplayNode> { if t.Leaf? then [] else InOrder(t.l) + [t.n] + InOrder(t.r) }

  ghost predicate Separate(t: Tree) {
    t.Node? ==> t.n !in Nodes(t.l) && t.n !in Nodes(t.r) && Nodes(t.l) !! Nodes(t.r) && Separate(t.l) && Separate(t.r)
  }

  /** The tree hangs below p, and every size field below is right. */
  ghost predicate Rep(t: Tree, p: SplayNode?, m: Store) {
    if t.Leaf? then p == null
    else p == t.n && t.n in m && m[t.n].size == Count(t) && Rep(t.l, m[t.n].left, m) && Rep(t.r, m[t.n].right, m)
  }

  /** The same but for the size of the root. */
  ghost predicate Loose(t: Tree, p: SplayNode?, m: Store) {
    t.Node? && p == t.n && t.n in m && Rep(t.l, m[t.n].left, m) && Rep(t.r, m[t.n].right, m)
  }

  lemma {:induction false} RepFrame(t: Tree, p: SplayNode?, m: Store, m': Store)
    requires Rep(t, p, m) && forall n :: n in Nodes(t) ==> n in m && n in m' && m[n] == m'[n]
    ensures Rep(t, p, m')
  {
    if t.Node? {
      RepFrame(t.l, m[t.n].left, m, m');
      RepFrame(t.r, m[t.n].right, m, m');
    }
  }

  lemma {:induction false} RepNodes(t: Tree, p: SplayNode?, m: Store)
    requires Rep(t, p, m)
    ensures Nodes(t) <= m.Keys && p == Ptr(t)
  {
    if t.Node? {
      RepNodes(t.l, m[t.n].left, m);
      RepNodes(t.r, m[t.n].right, m);
    }
  }

  lemma MkFacts(s: Side, n: SplayNode, a: Tree, b: Tree)
    ensures Nodes(Mk(s, n, a, b)) == {n} + Nodes(a) + Nodes(b) && Count(Mk(s, n, a, b)) == Count(a) + Count(b) + 1
    ensures Separate(Mk(s, n, a, b)) <==>
      n !in Nodes(a) && n !in Nodes(b) && Nodes(a) !! Nodes(b) && Separate(a) && Separate(b)
  {
  }

  lemma MkRep(s: Side, n: SplayNode, a: Tree, b: Tree, m: Store)
    ensures Loose(Mk(s, n, a, b), n, m) <==> n in m && Rep(a, Kid(m[n], s), m) && Rep(b, Kid(m[n], Opp(s)), m)
    ensures Rep(Mk(s, n, a, b), n, m) <==> Loose(Mk(s, n, a, b), n, m) && m[n].size == Count(a) + Count(b) + 1
  {
  }

  // ----- spines

  /** What has been passed on one side, deepest first: each node with the subtree it keeps. */
  datatype Spine = End | Link(n: SplayNode, sub: Tree, up: Spine)

  /** The spine closed off by the tree x; it grew towards side s. */
  ghost function Fill(s: Side, c: Spine, x: Tree): Tree {
    if c.End? then x else Fill(s, c.up, Mk(s, c.n, x, c.sub))
  }

  ghost function SpineNodes(c: Spine): set<SplayNode> {
    if c.End? then {} else {c.n} + Nodes(c.sub) + SpineNodes(c.up)
  }

  ghost predicate SpineSeparate(c: Spine) {
    c.Link? ==>
      c.n !in Nodes(c.sub) && c.n !in SpineNodes(c.up) && Nodes(c.sub) !! SpineNodes(c.up) && Separate(c.sub) &&
        SpineSeparate(c.up)
  }

  ghost function Weight(c: Spine): nat { if c.End? then 0 else Weight(c.up) + Count(c.sub) + 1 }

  /** In order: a spine on the left, all before what comes next. */
  ghost function LOrder(c: Spine): seq<SplayNode> { if c.End? then [] else LOrder(c.up) + InOrder(c.sub) + [c.n] }

  ghost function ROrder(c: Spine): seq<SplayNode> { if c.End? then [] else [c.n] + InOrder(c.sub) + ROrder(c.up) }

  /** The node whose kid on side s is the open end: the dummy head at first. */
  ghost function Owner(c: Spine, head: SplayNode): SplayNode { if c.End? then head else c.n }

  ghost predicate SpineRep(s: Side, c: Spine, head: SplayNode, m: Store) {
    head in m &&
    (c.Link? ==>
       c.n in m && Rep(c.sub, Kid(m[c.n], Opp(s)), m) && Owner(c.up, head) in m &&
         Kid(m[Owner(c.up, head)], s) == c.n &&
       SpineRep(s, c.up, head, m))
  }

  /** Only the open end may change. */
  ghost predicate OnlyEnd(s: Side, c: Spine, head: SplayNode, m: Store, m': Store) {
    forall n :: n in SpineNodes(c) + {head} ==>
      n in m && n in m' && (m'[n] == m[n] || (n == Owner(c, head) && m'[n] == WithKid(m[n], s, Kid(m'[n], s))))
  }

  lemma {:induction false} SpineFrame(s: Side, c: Spine, head: SplayNode, m: Store, m': Store)
    requires SpineRep(s, c, head, m) && SpineSeparate(c) && head !in SpineNodes(c) && OnlyEnd(s, c, head, m, m')
    ensures SpineRep(s, c, head, m')
  {
    if c.Link? {
      OwnerInside(c.up, head);
      RepFrame(c.sub, Kid(m[c.n], Opp(s)), m, m');
      SpineFrame(s, c.up, head, m, m');
    }
  }

  lemma OwnerInside(c: Spine, head: SplayNode)
    ensures Owner(c, head) in SpineNodes(c) + {head} && (c.Link? ==> Owner(c, head) in SpineNodes(c))
  {
  }

  // ----- a splay under way

  /** All parts share no node: the spine on the side of the descent, the other one, the tree, the head. */
  ghost predicate Apart(c: Spine, o: Spine, t: Tree, head: SplayNode) {
    SpineSeparate(c) && SpineSeparate(o) && Separate(t) && SpineNodes(c) !! SpineNodes(o) &&
    SpineNodes(c) !! Nodes(t) && SpineNodes(o) !! Nodes(t) && head !in SpineNodes(c) && head !in SpineNodes(o) &&
      head !in Nodes(t)
  }

  /** The tree t, what was passed on side Opp(s) hanging off the head's kid s, and the like on the other side. */
  ghost predicate Splaying(s: Side, c: Spine, o: Spine, t: Tree, head: SplayNode, m: Store) {
    t.Node? && Apart(c, o, t, head) && SpineRep(s, c, head, m) && SpineRep(Opp(s), o, head, m) && Loose(t, t.n, m)
  }

  // ----- one step: rotate if the way goes on in the same direction, then link

  /** t->kid = y->other; y->other = t; t->size = ... */
  ghost function Rotated(m: Store, s: Side, x: SplayNode, y: SplayNode, k: int): Store
    requires y in m
  {
    SetSize(SetKid(SetKid(m, x, s, Kid(m[y], Opp(s))), y, Opp(s), x), x, k)
  }

  ghost predicate RotatedWords(m: Store, m': Store, s: Side, x: SplayNode, y: SplayNode, k: int) {
    m'.Keys == m.Keys && x in m && y in m && x != y &&
    Kid(m'[x], s) == Kid(m[y], Opp(s)) && Kid(m'[x], Opp(s)) == Kid(m[x], Opp(s)) && m'[x].size == k &&
    Kid(m'[y], s) == Kid(m[y], s) && Kid(m'[y], Opp(s)) == x &&
    forall n :: n in m && n != x && n != y ==> m'[n] == m[n]
  }

  lemma RotatedHasWords(m: Store, s: Side, x: SplayNode, y: SplayNode, k: int)
    requires x in m && y in m && x != y
    ensures RotatedWords(m, Rotated(m, s, x, y, k), s, x, y, k)
  {
  }

  lemma RotateOk(s: Side, c: Spine, o: Spine, x: SplayNode, y: SplayNode, a: Tree, b: Tree, d: Tree, head: SplayNode,
        m: Store)
    requires Splaying(s, c, o, Mk(s, x, Mk(s, y, a, b), d), head, m) == true
    ensures x in m && y in m && x != y
    ensures Splaying(s, c, o, Mk(s, y, a, Mk(s, x, b, d)), head, Rotated(m, s, x, y, Count(b) + Count(d) + 1)) == true
    ensures InOrder(Mk(s, x, Mk(s, y, a, b), d)) == InOrder(Mk(s, y, a, Mk(s, x, b, d)))
  {
    var t, u, k := Mk(s, x, Mk(s, y, a, b), d), Mk(s, y, a, Mk(s, x, b, d)), Count(b) + Count(d) + 1;
    SplayingParts(s, c, o, t, head, m);
    RotateLoose(s, x, y, a, b, d, m);
    Reassembled(s, c, o, t, u, x, y, head, m, Rotated(m, s, x, y, k), k);
  }

  /** The rotated tree stands in memory. */
  lemma RotateLoose(s: Side, x: SplayNode, y: SplayNode, a: Tree, b: Tree, d: Tree, m: Store)
    requires Loose(Mk(s, x, Mk(s, y, a, b), d), x, m) == true && Separate(Mk(s, x, Mk(s, y, a, b), d)) == true
    ensures x in m && y in m && x != y
    ensures var k := Count(b) + Count(d) + 1;
      RotatedWords(m, Rotated(m, s, x, y, k), s, x, y, k) == true &&
        Loose(Mk(s, y, a, Mk(s, x, b, d)), y, Rotated(m, s, x, y, k)) == true
    ensures var t, u := Mk(s, x, Mk(s, y, a, b), d), Mk(s, y, a, Mk(s, x, b, d));
      t.Node? && t.n == x && u.Node? && u.n == y && Nodes(u) == Nodes(t) && Separate(u) == true && x in Nodes(t) &&
        y in Nodes(t) &&
      InOrder(t) == InOrder(u)
  {
    MkRep(s, x, Mk(s, y, a, b), d, m);
    MkRep(s, y, a, b, m);
    RotateNodes(s, x, y, a, b, d);
    var k := Count(b) + Count(d) + 1;
    RotatedHasWords(m, s, x, y, k);
    RotateRep(s, x, y, a, b, d, m, Rotated(m, s, x, y, k));
  }

  lemma SplayingParts(s: Side, c: Spine, o: Spine, t: Tree, head: SplayNode, m: Store)
    requires Splaying(s, c, o, t, head, m) == true
    ensures t.Node? && Loose(t, t.n, m) == true && Separate(t) == true
  {
  }

  /** A tree of the same nodes in t's place, only x and y having changed. */
  lemma Reassembled(s: Side, c: Spine, o: Spine, t: Tree, u: Tree, x: SplayNode, y: SplayNode, head: SplayNode,
        m: Store, m': Store, k: int)
    requires Splaying(s, c, o, t, head, m) == true && Nodes(u) == Nodes(t) && Separate(u) == true && u.Node? &&
      Loose(u, u.n, m') == true
    requires RotatedWords(m, m', s, x, y, k) == true && x in Nodes(t) && y in Nodes(t)
    ensures Splaying(s, c, o, u, head, m') == true
  {
    RotateSpines(s, c, o, x, y, head, m, m', k);
  }

  lemma RotateSpines(s: Side, c: Spine, o: Spine, x: SplayNode, y: SplayNode, head: SplayNode, m: Store, m': Store,
        k: int)
    requires SpineRep(s, c, head, m) == true && SpineRep(Opp(s), o, head, m) == true && SpineSeparate(c) == true &&
      SpineSeparate(o) == true
    requires head !in SpineNodes(c) && head !in SpineNodes(o) && RotatedWords(m, m', s, x, y, k)
    requires x !in SpineNodes(c) && x !in SpineNodes(o) && y !in SpineNodes(c) && y !in SpineNodes(o) && x != head &&
      y != head
    ensures SpineRep(s, c, head, m') == true && SpineRep(Opp(s), o, head, m') == true
  {
    SpineUntouched(s, c, head, m, m', {x, y});
    SpineUntouched(Opp(s), o, head, m, m', {x, y});
  }

  /** Changes elsewhere leave a spine alone. */
  lemma SpineUntouched(s: Side, c: Spine, head: SplayNode, m: Store, m': Store, changed: set<SplayNode>)
    requires SpineRep(s, c, head, m) && SpineSeparate(c) && head !in SpineNodes(c)
    requires m'.Keys == m.Keys && (forall n :: n in m && n !in changed ==> m'[n] == m[n]) && changed !! SpineNodes(c) &&
      head !in changed
    ensures SpineRep(s, c, head, m') == true
  {
    SpineKeys(s, c, head, m);
    SpineFrame(s, c, head, m, m');
  }

  lemma RotateNodes(s: Side, x: SplayNode, y: SplayNode, a: Tree, b: Tree, d: Tree)
    requires Separate(Mk(s, x, Mk(s, y, a, b), d))
    ensures var t, u := Mk(s, x, Mk(s, y, a, b), d), Mk(s, y, a, Mk(s, x, b, d));
      Nodes(u) == Nodes(t) && Separate(u) && x in Nodes(t) && y in Nodes(t) && x != y
    ensures x !in Nodes(a) && x !in Nodes(b) && x !in Nodes(d) && y !in Nodes(a) && y !in Nodes(b) && y !in Nodes(d)
    ensures InOrder(Mk(s, x, Mk(s, y, a, b), d)) == InOrder(Mk(s, y, a, Mk(s, x, b, d)))
  {
    MkFacts(s, x, Mk(s, y, a, b), d);
    MkFacts(s, y, a, b);
    MkFacts(s, y, a, Mk(s, x, b, d));
    MkFacts(s, x, b, d);
    RotateOrder(s, x, y, a, b, d);
  }

  lemma RotateOrder(s: Side, x: SplayNode, y: SplayNode, a: Tree, b: Tree, d: Tree)
    ensures InOrder(Mk(s, x, Mk(s, y, a, b), d)) == InOrder(Mk(s, y, a, Mk(s, x, b, d)))
  {
    if s == L {
      assert (InOrder(a) + [y] + InOrder(b)) + [x] + InOrder(d) == InOrder(a) + [y] + (InOrder(b) + [x] + InOrder(d));
    } else {
      assert InOrder(d) + [x] + (InOrder(b) + [y] + InOrder(a)) == (InOrder(d) + [x] + InOrder(b)) + [y] + InOrder(a);
    }
  }

  lemma RotateRep(s: Side, x: SplayNode, y: SplayNode, a: Tree, b: Tree, d: Tree, m: Store, m': Store)
    requires RotatedWords(m, m', s, x, y, Count(b) + Count(d) + 1)
    requires Rep(a, Kid(m[y], s), m) && Rep(b, Kid(m[y], Opp(s)), m) && Rep(d, Kid(m[x], Opp(s)), m)
    requires x !in Nodes(a) && x !in Nodes(b) && x !in Nodes(d) && y !in Nodes(a) && y !in Nodes(b) && y !in Nodes(d)
    ensures Loose(Mk(s, y, a, Mk(s, x, b, d)), y, m') == true
  {
    RotateParts(s, x, y, a, b, d, m, m', Count(b) + Count(d) + 1);
    MkRep(s, x, b, d, m');
    MkRep(s, y, a, Mk(s, x, b, d), m');
  }

  lemma RotateParts(s: Side, x: SplayNode, y: SplayNode, a: Tree, b: Tree, d: Tree, m: Store, m': Store, k: int)
    requires RotatedWords(m, m', s, x, y, k)
    requires Rep(a, Kid(m[y], s), m) && Rep(b, Kid(m[y], Opp(s)), m) && Rep(d, Kid(m[x], Opp(s)), m)
    requires x !in Nodes(a) && x !in Nodes(b) && x !in Nodes(d) && y !in Nodes(a) && y !in Nodes(b) && y !in Nodes(d)
    ensures Rep(a, Kid(m'[y], s), m') && Rep(b, Kid(m'[x], s), m') && Rep(d, Kid(m'[x], Opp(s)), m')
  {
    RepNodes(a, Kid(m[y], s), m);
    RepNodes(b, Kid(m[y], Opp(s)), m);
    RepNodes(d, Kid(m[x], Opp(s)), m);
    RepFrame(a, Kid(m[y], s), m, m');
    RepFrame(b, Kid(m[y], Opp(s)), m, m');
    RepFrame(d, Kid(m[x], Opp(s)), m, m');
  }

  /** r->left = t; r = t; t = t->left, or the mirror image. */
  lemma LinkOk(s: Side, c: Spine, o: Spine, x: SplayNode, a: Tree, d: Tree, head: SplayNode, m: Store)
    requires Splaying(s, c, o, Mk(s, x, a, d), head, m) == true && a.Node?
    ensures x in m && Kid(m[x], s) == a.n && Owner(c, head) in m && x != Owner(c, head)
    ensures Splaying(s, Link(x, d, c), o, a, head, SetKid(m, Owner(c, head), s, x))
  {
    MkFacts(s, x, a, d);
    MkRep(s, x, a, d, m);
    OwnerInside(c, head);
    OwnerInside(o, head);
    SpineKeys(s, c, head, m);
    var m' := SetKid(m, Owner(c, head), s, x);
    LinkSpines(s, c, o, head, x, m, m');
    LinkParts(s, x, a, d, Owner(c, head), m, m');
    LinkApart(c, o, x, a, d, head);
  }

  lemma LinkApart(c: Spine, o: Spine, x: SplayNode, a: Tree, d: Tree, head: SplayNode)
    requires Apart(c, o, Node(x, a, d), head) || Apart(c, o, Node(x, d, a), head)
    ensures Apart(Link(x, d, c), o, a, head)
  {
  }

  lemma LinkParts(s: Side, x: SplayNode, a: Tree, d: Tree, w: SplayNode, m: Store, m': Store)
    requires x in m && w in m && w != x && w !in Nodes(a) && w !in Nodes(d) && m' == SetKid(m, w, s, x)
    requires Rep(a, Kid(m[x], s), m) && Rep(d, Kid(m[x], Opp(s)), m) && a.Node?
    ensures Kid(m[x], s) == a.n && Loose(a, a.n, m') && Rep(d, Kid(m'[x], Opp(s)), m') && Kid(m'[w], s) == x
  {
    RepNodes(a, Kid(m[x], s), m);
    RepNodes(d, Kid(m[x], Opp(s)), m);
    RepFrame(a, Kid(m[x], s), m, m');
    RepFrame(d, Kid(m[x], Opp(s)), m, m');
  }

  lemma LinkSpines(s: Side, c: Spine, o: Spine, head: SplayNode, x: SplayNode, m: Store, m': Store)
    requires SpineRep(s, c, head, m) && SpineRep(Opp(s), o, head, m) && Owner(c, head) in m &&
      m' == SetKid(m, Owner(c, head), s, x)
    requires SpineSeparate(c) && SpineSeparate(o) && SpineNodes(c) !! SpineNodes(o) && head !in SpineNodes(c) &&
      head !in SpineNodes(o)
    ensures SpineRep(s, c, head, m') && SpineRep(Opp(s), o, head, m')
  {
    SpineKeys(s, c, head, m);
    SpineKeys(Opp(s), o, head, m);
    SpineFrame(s, c, head, m, m');
    OtherFrame(s, o, head, m, m', Owner(c, head));
  }

  lemma {:induction false} SpineKeys(s: Side, c: Spine, head: SplayNode, m: Store)
    requires SpineRep(s, c, head, m)
    ensures SpineNodes(c) <= m.Keys
  {
    if c.Link? {
      RepNodes(c.sub, Kid(m[c.n], Opp(s)), m);
      SpineKeys(s, c.up, head, m);
    }
  }

  /** A kid on side s changed at a node outside the other spine, or at the head. */
  lemma {:induction false} OtherFrame(s: Side, o: Spine, head: SplayNode, m: Store, m': Store, w: SplayNode)
    requires SpineRep(Opp(s), o, head, m) && SpineNodes(o) <= m.Keys && w in m && w !in SpineNodes(o) && head in m
    requires m'.Keys == m.Keys && (forall n :: n in m && n != w ==> m'[n] == m[n]) &&
      Kid(m'[w], Opp(s)) == Kid(m[w], Opp(s))
    ensures SpineRep(Opp(s), o, head, m')
  {
    if o.Link? {
      RepFrame(o.sub, Kid(m[o.n], s), m, m');
      OtherFrame(s, o.up, head, m, m', w);
      OwnerInside(o.up, head);
    }
  }
}
