/** Why a splay pays: the search path is folded to half its length. */
module SplayDepth {
  import opened Sides
  import opened SplayShape
  import opened SplayRepair
  import opened SplayPath

  /** The nodes a plain search for i looks at. */
  ghost function PathNodes(i: int, t: Tree): set<SplayNode> {
    if t.Leaf? then {}
    else {t.n} + if i == t.n.key then {} else if i < t.n.key then PathNodes(i, t.l) else PathNodes(i, t.r)
  }

  /** How many they are. */
  ghost function Path(i: int, t: Tree): nat {
    if t.Leaf? then 0
    else 1 + if i == t.n.key then 0 else if i < t.n.key then Path(i, t.l) else Path(i, t.r)
  }

  /** n is among the top k levels of t; the root is the first. */
  ghost predicate Within(t: Tree, n: SplayNode, k: nat) {
    k > 0 && t.Node? && (n == t.n || Within(t.l, n, k - 1) || Within(t.r, n, k - 1))
  }

  ghost function Links(c: Spine): nat { if c.End? then 0 else 1 + Links(c.up) }

  ghost function Top(t: Tree): set<SplayNode> { if t.Leaf? then {} else {t.n} }

  /** The nodes of a spine and the roots of what they keep. */
  ghost function Shallow(c: Spine): set<SplayNode> {
    if c.End? then {} else {c.n} + Top(c.sub) + Shallow(c.up)
  }

  /** Under way, t0 being the tree at first: two nodes of the path are gone for each link of a spine, but for one
      link without a rotation, behind which the way turns or ends; and what is gone is near the spines. */
  ghost predicate Folding(i: int, t0: Tree, cl: Spine, t: Tree, cr: Spine) {
    t.Node? &&
    2 * Links(cl) + Path(i, t) <= Path(i, t0) + (if t.n.key < i then 0 else 1) &&
    2 * Links(cr) + Path(i, t) <= Path(i, t0) + (if i < t.n.key then 0 else 1) &&
    PathNodes(i, t0) <= Shallow(cl) + PathNodes(i, t) + Shallow(cr)
  }

  /** At the end. */
  ghost predicate Folded(i: int, t0: Tree, cl: Spine, t: Tree, cr: Spine) {
    t.Node? && 2 * Links(cl) <= Path(i, t0) && 2 * Links(cr) <= Path(i, t0) &&
    PathNodes(i, t0) <= Shallow(cl) + Top(t.l) + {t.n} + Top(t.r) + Shallow(cr)
  }

  lemma FoldBegins(i: int, t: Tree)
    requires t.Node?
    ensures Folding(i, t, End, t, End) == true
  {
  }

  lemma FoldEnds(i: int, t0: Tree, cl: Spine, t: Tree, cr: Spine)
    requires Folding(i, t0, cl, t, cr) && Ended(i, t)
    ensures Folded(i, t0, cl, t, cr) == true
  {
    assert Path(i, t) == 1 && PathNodes(i, t) == {t.n};
  }

  /** A turn to the left with its rotation takes two nodes off the path, and adds one link at most. */
  lemma FoldZigRight(i: int, t0: Tree, cl: Spine, t: Tree, cr: Spine)
    requires Folding(i, t0, cl, t, cr) && i < t.n.key && t.l.Node? && i < t.l.n.key
    ensures var u := Node(t.l.n, t.l.l, Node(t.n, t.l.r, t.r));
      if u.l.Node? then Folding(i, t0, cl, u.l, Link(u.n, u.r, cr)) == true else Folded(i, t0, cl, u, cr) == true
  {
    assert Path(i, t) == 2 + Path(i, t.l.l) && PathNodes(i, t) == {t.n, t.l.n} + PathNodes(i, t.l.l);
  }

  /** One without a rotation takes one. */
  lemma FoldRight(i: int, t0: Tree, cl: Spine, t: Tree, cr: Spine)
    requires Folding(i, t0, cl, t, cr) && i < t.n.key && t.l.Node? && i >= t.l.n.key
    ensures Folding(i, t0, cl, t.l, Link(t.n, t.r, cr)) == true
  {
  }

  lemma FoldZigLeft(i: int, t0: Tree, cl: Spine, t: Tree, cr: Spine)
    requires Folding(i, t0, cl, t, cr) && t.n.key < i && t.r.Node? && t.r.n.key < i
    ensures var u := Node(t.r.n, Node(t.n, t.l, t.r.l), t.r.r);
      if u.r.Node? then Folding(i, t0, Link(u.n, u.l, cl), u.r, cr) == true else Folded(i, t0, cl, u, cr) == true
  {
    assert Path(i, t) == 2 + Path(i, t.r.r) && PathNodes(i, t) == {t.n, t.r.n} + PathNodes(i, t.r.r);
  }

  lemma FoldLeft(i: int, t0: Tree, cl: Spine, t: Tree, cr: Spine)
    requires Folding(i, t0, cl, t, cr) && t.n.key < i && t.r.Node? && t.r.n.key >= i
    ensures Folding(i, t0, Link(t.n, t.l, cl), t.r, cr) == true
  {
  }

  lemma {:induction false} WithinMore(t: Tree, n: SplayNode, k: nat, j: nat)
    requires Within(t, n, k) && k <= j
    ensures Within(t, n, j)
  {
    if n != t.n {
      if Within(t.l, n, k - 1) { WithinMore(t.l, n, k - 1, j - 1); } else { WithinMore(t.r, n, k - 1, j - 1); }
    }
  }

  /** Closing a spine pushes what is hung on down by its links. */
  lemma {:induction false} FillWithin(s: Side, c: Spine, x: Tree, n: SplayNode, k: nat)
    requires Within(x, n, k)
    ensures Within(Fill(s, c, x), n, k + Links(c))
  {
    if c.Link? { FillWithin(s, c.up, Mk(s, c.n, x, c.sub), n, k + 1); }
  }

  lemma {:induction false} FillShallow(s: Side, c: Spine, x: Tree, n: SplayNode)
    requires n in Shallow(c)
    ensures Within(Fill(s, c, x), n, Links(c) + 1)
  {
    var y := Mk(s, c.n, x, c.sub);
    if n in Shallow(c.up) {
      FillShallow(s, c.up, y, n);
      WithinMore(Fill(s, c, x), n, Links(c.up) + 1, Links(c) + 1);
    } else {
      assert n == c.n || Within(c.sub, n, 1);
      assert Within(y, n, 2);
      FillWithin(s, c.up, y, n, 2);
    }
  }

  /** The nodes of the search path end up in the upper half of what the path was, and two levels. */
  lemma PathHalved(i: int, t0: Tree, cl: Spine, t: Tree, cr: Spine, n: SplayNode)
    requires Folded(i, t0, cl, t, cr) && n in PathNodes(i, t0)
    ensures Within(Joined(cl, t, cr), n, Path(i, t0) / 2 + 2)
  {
    var w := Joined(cl, t, cr);
    var k := Path(i, t0) / 2 + 2;
    if n in Shallow(cl) {
      FillShallow(R, cl, t.l, n);
      WithinMore(w.l, n, Links(cl) + 1, k - 1);
    } else if n in Shallow(cr) {
      FillShallow(L, cr, t.r, n);
      WithinMore(w.r, n, Links(cr) + 1, k - 1);
    } else if n in Top(t.l) {
      assert Within(t.l, n, 1);
      FillWithin(R, cl, t.l, n, 1);
      WithinMore(w.l, n, 1 + Links(cl), k - 1);
    } else if n in Top(t.r) {
      assert Within(t.r, n, 1);
      FillWithin(L, cr, t.r, n, 1);
      WithinMore(w.r, n, 1 + Links(cr), k - 1);
    }
  }

  /** Splayed for i, w holds the search path of t0 in its top levels. */
  ghost predicate Halved(i: int, t0: Tree, w: Tree) {
    forall n :: n in PathNodes(i, t0) ==> Within(w, n, Path(i, t0) / 2 + 2)
  }

  lemma AllHalved(i: int, t0: Tree, cl: Spine, t: Tree, cr: Spine)
    requires Folded(i, t0, cl, t, cr) == true
    ensures Halved(i, t0, Joined(cl, t, cr)) == true
  {
    forall n | n in PathNodes(i, t0) ensures Within(Joined(cl, t, cr), n, Path(i, t0) / 2 + 2) {
      PathHalved(i, t0, cl, t, cr, n);
    }
  }
}
