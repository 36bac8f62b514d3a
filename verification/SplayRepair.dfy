/** After the descent of a splay: correcting the sizes along the two spines, and assembling. */
module SplayRepair {
  import opened Sides
  import opened SplayShape

  // ----- a spine cut in two: c2 below c1

  ghost function Concat(c2: Spine, c1: Spine): Spine { if c2.End? then c1 else Link(c2.n, c2.sub, Concat(c2.up, c1)) }

  /** The outermost link, the one nearest the head, and what is below it. */
  ghost function Outer(c: Spine): (r: Spine)
    requires c.Link?
    ensures r.Link?
  {
    if c.up.End? then c else Outer(c.up)
  }

  ghost function Inner(c: Spine): Spine
    requires c.Link?
  {
    if c.up.End? then End else Link(c.n, c.sub, Inner(c.up))
  }

  lemma {:induction false} TakeOuter(s: Side, c2: Spine, c1: Spine, x: Tree)
    requires c2.Link?
    ensures Concat(c2, c1) == Concat(Inner(c2), Link(Outer(c2).n, Outer(c2).sub, c1))
    ensures Fill(s, c2, x) == Mk(s, Outer(c2).n, Fill(s, Inner(c2), x), Outer(c2).sub)
    ensures Weight(c2) == Weight(Inner(c2)) + Count(Outer(c2).sub) + 1
  {
    if c2.up.Link? { TakeOuter(s, c2.up, c1, Mk(s, c2.n, x, c2.sub)); }
  }

  lemma {:induction false} ConcatSeparate(c2: Spine, c1: Spine)
    ensures SpineNodes(Concat(c2, c1)) == SpineNodes(c2) + SpineNodes(c1)
    ensures SpineSeparate(Concat(c2, c1)) <==>
      SpineSeparate(c2) && SpineSeparate(c1) && SpineNodes(c2) !! SpineNodes(c1)
  {
    if c2.Link? { ConcatSeparate(c2.up, c1); }
  }

  lemma {:induction false} FillNodes(s: Side, c: Spine, x: Tree)
    ensures Nodes(Fill(s, c, x)) == SpineNodes(c) + Nodes(x) && Count(Fill(s, c, x)) == Weight(c) + Count(x)
    ensures Separate(Fill(s, c, x)) <==> SpineSeparate(c) && Separate(x) && SpineNodes(c) !! Nodes(x)
  {
    if c.Link? {
      FillNodes(s, c.up, Mk(s, c.n, x, c.sub));
      MkFacts(s, c.n, x, c.sub);
    }
  }

  lemma {:induction false} FillOrder(s: Side, c: Spine, x: Tree)
    ensures InOrder(Fill(s, c, x)) == if s == R then LOrder(c) + InOrder(x) else InOrder(x) + ROrder(c)
  {
    if c.End? {
      assert LOrder(c) + InOrder(x) == InOrder(x) == InOrder(x) + ROrder(c);
    } else {
      FillOrder(s, c.up, Mk(s, c.n, x, c.sub));
      if s == R {
        Shift(LOrder(c.up), InOrder(c.sub), [c.n], InOrder(x));
      } else {
        Shift(InOrder(x), [c.n], InOrder(c.sub), ROrder(c.up));
      }
    }
  }

  lemma Shift<T>(a: seq<T>, b: seq<T>, c: seq<T>, d: seq<T>)
    ensures a + (b + c + d) == (a + b + c) + d
    ensures (a + b + c) + d == a + (b + c + d)
  {
  }

  // ----- correcting sizes from the head down

  /** The open spine below p: the links are right, the sizes on it are not looked at. */
  ghost predicate Chain(s: Side, t: Tree, p: SplayNode?, m: Store) {
    if t.Leaf? then p == null
    else p == t.n && t.n in m && Rep(Sub(t, Opp(s)), Kid(m[t.n], Opp(s)), m) && Chain(s, Sub(t, s), Kid(m[t.n], s), m)
  }

  lemma {:induction false} ChainFrame(s: Side, t: Tree, p: SplayNode?, m: Store, m': Store)
    requires Chain(s, t, p, m) && forall n :: n in Nodes(t) ==> n in m && n in m' && m'[n] == m[n]
    ensures Chain(s, t, p, m')
  {
    if t.Node? {
      RepFrame(Sub(t, Opp(s)), Kid(m[t.n], Opp(s)), m, m');
      ChainFrame(s, Sub(t, s), Kid(m[t.n], s), m, m');
    }
  }

  /** The sizes on the spine are right if w nodes hang from its open end. */
  ghost predicate SizedSpine(s: Side, c: Spine, w: nat, head: SplayNode, m: Store) {
    head in m &&
    (c.Link? ==>
       c.n in m && m[c.n].size == w + Count(c.sub) + 1 && Rep(c.sub, Kid(m[c.n], Opp(s)), m) &&
       Owner(c.up, head) in m && Kid(m[Owner(c.up, head)], s) == c.n &&
         SizedSpine(s, c.up, w + Count(c.sub) + 1, head, m))
  }

  lemma {:induction false} SizedFrame(s: Side, c: Spine, w: nat, head: SplayNode, m: Store, m': Store)
    requires SizedSpine(s, c, w, head, m) && SpineSeparate(c) && head !in SpineNodes(c) && OnlyEnd(s, c, head, m, m')
    ensures SizedSpine(s, c, w, head, m')
  {
    if c.Link? {
      OwnerInside(c.up, head);
      RepFrame(c.sub, Kid(m[c.n], Opp(s)), m, m');
      SizedFrame(s, c.up, w + Count(c.sub) + 1, head, m, m');
    }
  }

  /** c1 is corrected, c2 below it is to be; k nodes are to hang from the end. */
  ghost predicate Repairing(s: Side, c2: Spine, c1: Spine, k: nat, head: SplayNode, m: Store) {
    SpineSeparate(Concat(c2, c1)) && head !in SpineNodes(Concat(c2, c1)) &&
      SizedSpine(s, c1, Weight(c2) + k, head, m) &&
    Owner(c1, head) in m && Chain(s, Fill(s, c2, Leaf), Kid(m[Owner(c1, head)], s), m) && SpineNodes(c1) <= m.Keys
  }

  lemma RepairStep(s: Side, c2: Spine, c1: Spine, k: nat, head: SplayNode, m: Store)
    requires Repairing(s, c2, c1, k, head, m) == true && c2.Link?
    ensures var y, sub := Outer(c2).n, Outer(c2).sub;
      y in m && Kid(m[Owner(c1, head)], s) == y && y in SpineNodes(c2) && Rep(sub, Kid(m[y], Opp(s)), m) &&
      Weight(c2) == Weight(Inner(c2)) + Count(sub) + 1 && Concat(c2, c1) == Concat(Inner(c2), Link(y, sub, c1)) &&
      Repairing(s, Inner(c2), Link(y, sub, c1), k, head, SetSize(m, y, Weight(c2) + k))
  {
    var y, sub := Outer(c2).n, Outer(c2).sub;
    var m' := SetSize(m, y, Weight(c2) + k);
    TakeOuter(s, c2, c1, Leaf);
    ConcatSeparate(c2, c1);
    ConcatSeparate(Inner(c2), Link(y, sub, c1));
    FillNodes(s, c2, Leaf);
    FillNodes(s, Inner(c2), Leaf);
    IsMk(s, Fill(s, c2, Leaf));
    OwnerInside(c1, head);
    SubKeys(s, y, Fill(s, Inner(c2), Leaf), sub, m);
    StepFrames(s, y, sub, Inner(c2), c1, Weight(c2) + k, head, m, m');
  }

  lemma SubKeys(s: Side, y: SplayNode, t: Tree, sub: Tree, m: Store)
    requires Chain(s, Mk(s, y, t, sub), y, m)
    ensures y in m && Rep(sub, Kid(m[y], Opp(s)), m) && Chain(s, t, Kid(m[y], s), m) && Nodes(sub) <= m.Keys &&
      Nodes(t) <= m.Keys
  {
    RepNodes(sub, Kid(m[y], Opp(s)), m);
    ChainNodes(s, t, Kid(m[y], s), m);
  }

  lemma {:induction false} ChainNodes(s: Side, t: Tree, p: SplayNode?, m: Store)
    requires Chain(s, t, p, m)
    ensures Nodes(t) <= m.Keys
  {
    if t.Node? {
      RepNodes(Sub(t, Opp(s)), Kid(m[t.n], Opp(s)), m);
      ChainNodes(s, Sub(t, s), Kid(m[t.n], s), m);
    }
  }

  lemma StepFrames(s: Side, y: SplayNode, sub: Tree, c2: Spine, c1: Spine, w: nat, head: SplayNode, m: Store, m': Store)
    requires y in m && m' == SetSize(m, y, w) && SizedSpine(s, c1, w, head, m) && SpineNodes(c1) <= m.Keys &&
      Owner(c1, head) in m
    requires Rep(sub, Kid(m[y], Opp(s)), m) && Nodes(sub) <= m.Keys && Chain(s, Fill(s, c2, Leaf), Kid(m[y], s), m)
    requires Nodes(Fill(s, c2, Leaf)) <= m.Keys && y !in Nodes(Fill(s, c2, Leaf)) && y !in Nodes(sub)
    requires y !in SpineNodes(c1) && SpineSeparate(c1) && head !in SpineNodes(c1) && head != y && Owner(c1, head) != y
    requires Kid(m[Owner(c1, head)], s) == y && w >= Weight(c2) + Count(sub) + 1
    ensures SizedSpine(s, Link(y, sub, c1), w - Count(sub) - 1, head, m')
    ensures Chain(s, Fill(s, c2, Leaf), Kid(m'[y], s), m') && SpineNodes(Link(y, sub, c1)) <= m'.Keys
  {
    SizedFrame(s, c1, w, head, m, m');
    RepFrame(sub, Kid(m[y], Opp(s)), m, m');
    ChainFrame(s, Fill(s, c2, Leaf), Kid(m[y], s), m, m');
  }

  /** An open spine ends in null; then it is a chain. */
  lemma {:induction false} OpenChain(s: Side, c: Spine, x: Tree, head: SplayNode, m: Store)
    requires SpineRep(s, c, head, m) && Owner(c, head) in m && Chain(s, x, Kid(m[Owner(c, head)], s), m)
    ensures Chain(s, Fill(s, c, x), Kid(m[head], s), m)
  {
    if c.Link? {
      IsMk(s, Mk(s, c.n, x, c.sub));
      OpenChain(s, c.up, Mk(s, c.n, x, c.sub), head, m);
    }
  }

  /** A corrected spine with the tree x hung on is a tree in order. */
  lemma {:induction false} Close(s: Side, c: Spine, x: Tree, head: SplayNode, m: Store)
    requires SizedSpine(s, c, Count(x), head, m) && Owner(c, head) in m && Rep(x, Kid(m[Owner(c, head)], s), m)
    ensures Rep(Fill(s, c, x), Kid(m[head], s), m)
  {
    if c.Link? {
      MkRep(s, c.n, x, c.sub, m);
      MkFacts(s, c.n, x, c.sub);
      Close(s, c.up, Mk(s, c.n, x, c.sub), head, m);
    }
  }

  lemma {:induction false} ConcatEnd(c: Spine)
    ensures Concat(c, End) == c
  {
    if c.Link? { ConcatEnd(c.up); }
  }

  /** With its end closed a spine is ready to be corrected. */
  lemma ReadyToRepair(s: Side, c: Spine, k: nat, head: SplayNode, m: Store)
    requires SpineRep(s, c, head, m) && SpineSeparate(c) && head !in SpineNodes(c)
    requires Owner(c, head) in m && Kid(m[Owner(c, head)], s) == null
    ensures Repairing(s, c, End, k, head, m) == true
  {
    ConcatEnd(c);
    OpenChain(s, c, Leaf, head, m);
  }

  lemma RepairEnds(s: Side, c1: Spine, k: nat, head: SplayNode, m: Store)
    requires Repairing(s, End, c1, k, head, m) == true
    ensures SizedSpine(s, c1, k, head, m)
  {
  }

  /** Correcting one spine leaves the other one ready. */
  lemma StillReady(s: Side, c: Spine, k: nat, head: SplayNode, m: Store, m': Store)
    requires Repairing(s, c, End, k, head, m) == true && m'.Keys == m.Keys
    requires forall n :: n in SpineNodes(c) + {head} ==> n in m && m'[n] == m[n]
    ensures Repairing(s, c, End, k, head, m') == true
  {
    ConcatEnd(c);
    FillNodes(s, c, Leaf);
    ChainFrame(s, Fill(s, c, Leaf), Kid(m[head], s), m, m');
  }

  // ----- the end of a splay

  /** The pieces put together. */
  ghost function Joined(cl: Spine, t: Tree, cr: Spine): Tree
    requires t.Node?
  {
    Node(t.n, Fill(R, cl, t.l), Fill(L, cr, t.r))
  }

  lemma JoinedOrder(cl: Spine, t: Tree, cr: Spine)
    requires t.Node?
    ensures InOrder(Joined(cl, t, cr)) == LOrder(cl) + InOrder(t) + ROrder(cr)
    ensures InOrder(Joined(cl, t, cr).l) == LOrder(cl) + InOrder(t.l) &&
      InOrder(Joined(cl, t, cr).r) == InOrder(t.r) + ROrder(cr)
    ensures Count(Joined(cl, t, cr)) == Weight(cl) + Count(t) + Weight(cr)
  {
    FillOrder(R, cl, t.l);
    FillOrder(L, cr, t.r);
    FillNodes(R, cl, t.l);
    FillNodes(L, cr, t.r);
    Middle(LOrder(cl), InOrder(t.l), [t.n], InOrder(t.r), ROrder(cr));
  }

  lemma Middle<T>(a: seq<T>, b: seq<T>, c: seq<T>, d: seq<T>, e: seq<T>)
    ensures (a + b) + c + (d + e) == a + (b + c + d) + e
  {
  }

  lemma JoinedNodes(cl: Spine, t: Tree, cr: Spine, head: SplayNode)
    requires t.Node? && Apart(cl, cr, t, head)
    ensures Separate(Joined(cl, t, cr)) && Nodes(Joined(cl, t, cr)) == SpineNodes(cl) + Nodes(t) + SpineNodes(cr)
    ensures head !in Nodes(Joined(cl, t, cr))
  {
    FillNodes(R, cl, t.l);
    FillNodes(L, cr, t.r);
  }

  /** l->right = t->left; r->left = t->right; t->left = N.right; t->right = N.left */
  ghost function Assembled(m: Store, l: SplayNode, r: SplayNode, t: SplayNode, head: SplayNode): Store
    requires t in m && head in m
  {
    var m1 := SetKid(m, l, R, m[t].left);
    var m2 := SetKid(m1, r, L, m1[t].right);
    var m3 := SetKid(m2, t, L, m2[head].right);
    SetKid(m3, t, R, m3[head].left)
  }

  /** Both spines corrected for what t will hang on them, t's own size right. */
  ghost predicate Corrected(cl: Spine, t: Tree, cr: Spine, head: SplayNode, m: Store) {
    t.Node? && Apart(cl, cr, t, head) && Loose(t, t.n, m) && m[t.n].size == Weight(cl) + Count(t) + Weight(cr) &&
    SizedSpine(R, cl, Count(t.l), head, m) && SizedSpine(L, cr, Count(t.r), head, m) &&
    SpineNodes(cl) <= m.Keys && SpineNodes(cr) <= m.Keys && Nodes(t) <= m.Keys && head in m
  }

  lemma AssembledOk(cl: Spine, t: Tree, cr: Spine, head: SplayNode, m: Store)
    requires Corrected(cl, t, cr, head, m) == true
    ensures Rep(Joined(cl, t, cr), t.n, Assembled(m, Owner(cl, head), Owner(cr, head), t.n, head))
    ensures Assembled(m, Owner(cl, head), Owner(cr, head), t.n, head).Keys == m.Keys
  {
    var l, r := Owner(cl, head), Owner(cr, head);
    OwnerInside(cl, head);
    OwnerInside(cr, head);
    var m1 := SetKid(m, l, R, m[t.n].left);
    var m2 := SetKid(m1, r, L, m1[t.n].right);
    AttachLeft(cl, t, cr, head, m, m1, l);
    AttachRight(cl, t, cr, head, m1, m2, r);
    AttachRoot(cl, t, cr, head, m2, Assembled(m, l, r, t.n, head));
  }

  lemma AttachLeft(cl: Spine, t: Tree, cr: Spine, head: SplayNode, m: Store, m1: Store, l: SplayNode)
    requires Corrected(cl, t, cr, head, m) == true && l == Owner(cl, head) && l in m &&
      m1 == SetKid(m, l, R, m[t.n].left)
    requires l != t.n && (l in SpineNodes(cl) || l == head)
    ensures Corrected(cl, t, cr, head, m1) == true && m1.Keys == m.Keys && m1[t.n] == m[t.n] &&
      Rep(Fill(R, cl, t.l), m1[head].right, m1)
  {
    RepFrame(t.l, m[t.n].left, m, m1);
    RepFrame(t.r, m[t.n].right, m, m1);
    SizedFrame(R, cl, Count(t.l), head, m, m1);
    SizedOther(R, cr, Count(t.r), head, m, m1, l);
    RepNodes(t.l, m[t.n].left, m);
    Close(R, cl, t.l, head, m1);
  }

  /** The other spine hangs from the head's other kid, and none of its nodes is touched. */
  lemma {:induction false} SizedOther(s: Side, o: Spine, w: nat, head: SplayNode, m: Store, m': Store, x: SplayNode)
    requires SizedSpine(Opp(s), o, w, head, m) && SpineNodes(o) <= m.Keys && x in m && x !in SpineNodes(o)
    requires m'.Keys == m.Keys && (forall n :: n in m && n != x ==> m'[n] == m[n]) &&
      Kid(m'[x], Opp(s)) == Kid(m[x], Opp(s))
    ensures SizedSpine(Opp(s), o, w, head, m')
  {
    if o.Link? {
      RepFrame(o.sub, Kid(m[o.n], s), m, m');
      SizedOther(s, o.up, w + Count(o.sub) + 1, head, m, m', x);
      OwnerInside(o.up, head);
    }
  }

  lemma AttachRight(cl: Spine, t: Tree, cr: Spine, head: SplayNode, m: Store, m1: Store, r: SplayNode)
    requires Corrected(cl, t, cr, head, m) == true && r == Owner(cr, head) && r in m &&
      m1 == SetKid(m, r, L, m[t.n].right)
    requires r != t.n && (r in SpineNodes(cr) || r == head) && Rep(Fill(R, cl, t.l), m[head].right, m)
    ensures m1.Keys == m.Keys && m1[t.n] == m[t.n] && m1[head].right == m[head].right
    ensures Rep(Fill(R, cl, t.l), m1[head].right, m1) && Rep(Fill(L, cr, t.r), m1[head].left, m1)
  {
    FillNodes(R, cl, t.l);
    RepFrame(Fill(R, cl, t.l), m[head].right, m, m1);
    RepFrame(t.r, m[t.n].right, m, m1);
    SizedFrame(L, cr, Count(t.r), head, m, m1);
    RepNodes(t.r, m[t.n].right, m);
    Close(L, cr, t.r, head, m1);
  }

  lemma AttachRoot(cl: Spine, t: Tree, cr: Spine, head: SplayNode, m: Store, m': Store)
    requires t.Node? && Apart(cl, cr, t, head) && t.n in m && head in m &&
      m[t.n].size == Weight(cl) + Count(t) + Weight(cr)
    requires Rep(Fill(R, cl, t.l), m[head].right, m) && Rep(Fill(L, cr, t.r), m[head].left, m)
    requires m' == SetKid(SetKid(m, t.n, L, m[head].right), t.n, R, m[head].left)
    ensures Rep(Joined(cl, t, cr), t.n, m')
  {
    FillNodes(R, cl, t.l);
    FillNodes(L, cr, t.r);
    RepNodes(Fill(R, cl, t.l), m[head].right, m);
    RepNodes(Fill(L, cr, t.r), m[head].left, m);
    RepFrame(Fill(R, cl, t.l), m[head].right, m, m');
    RepFrame(Fill(L, cr, t.r), m[head].left, m, m');
  }
}
