/** splaytree.c: the top-down splay with its size repair, insertion and deletion, in place. */
module Splay {
  import opened Sides
  import opened SplayShape
  import opened SplayRepair
  import opened SplayPath
  import opened SplayDepth
  import opened SplayMap

  class SplayTree {
    var root: SplayNode?

    ghost var m: Store
    ghost var tree: Tree

    ghost predicate Backed()
      reads this, m.Keys
    {
      forall n :: n in m ==> n.left == m[n].left && n.right == m[n].right && n.size == m[n].size
    }

    /** A search tree of the nodes in m, every size right. */
    ghost predicate Valid()
      reads this, m.Keys
    {
      Backed() && Rep(tree, root, m) && Separate(tree) && m.Keys == Nodes(tree) && Sorted(InOrder(tree))
    }

    constructor ()
      ensures Valid() && tree == Leaf
    {
      root, m, tree := null, map[], Leaf;
    }

    method PutLeft(n: SplayNode, v: SplayNode?)
      requires Backed() && n in m
      modifies this`m, n`left
      ensures Backed() && m == SetKid(old(m), n, L, v)
    {
      n.left := v;
      m := SetKid(m, n, L, v);
    }

    method PutRight(n: SplayNode, v: SplayNode?)
      requires Backed() && n in m
      modifies this`m, n`right
      ensures Backed() && m == SetKid(old(m), n, R, v)
    {
      n.right := v;
      m := SetKid(m, n, R, v);
    }

    method PutSize(n: SplayNode, k: int)
      requires Backed() && n in m
      modifies this`m, n`size
      ensures Backed() && m == SetSize(old(m), n, k)
    {
      n.size := k;
      m := SetSize(m, n, k);
    }

    /** node_size(x) */
    function NodeSize(x: SplayNode?): int
      reads x
    {
      if x == null then 0 else x.size
    }

    /** A pointer to a tree in order knows its size. */
    lemma SizeOf(t: Tree, p: SplayNode?)
      requires Backed() && Rep(t, p, m)
      ensures NodeSize(p) == Count(t)
    {
    }

    /** rotate right: y = t->left comes up. */
    method RotateUpLeft(t: SplayNode, ghost tt: Tree) returns (y: SplayNode)
      requires Backed() && Loose(tt, t, m) == true && tt.Node? && tt.n == t && tt.l.Node? && t != tt.l.n
      modifies this`m, m.Keys
      ensures Backed() && y == tt.l.n && y in old(m) && m == Rotated(old(m), L, t, y, Count(tt.l.r) + Count(tt.r) + 1)
    {
      y := t.left;
      SizeOf(tt.r, t.right);
      SizeOf(tt.l.r, y.right);
      PutLeft(t, y.right);
      PutRight(y, t);
      PutSize(t, NodeSize(t.left) + NodeSize(t.right) + 1);
    }

    /** rotate left: y = t->right comes up. */
    method RotateUpRight(t: SplayNode, ghost tt: Tree) returns (y: SplayNode)
      requires Backed() && Loose(tt, t, m) == true && tt.Node? && tt.n == t && tt.r.Node? && t != tt.r.n
      modifies this`m, m.Keys
      ensures Backed() && y == tt.r.n && y in old(m) && m == Rotated(old(m), R, t, y, Count(tt.r.l) + Count(tt.l) + 1)
    {
      y := t.right;
      SizeOf(tt.l, t.left);
      SizeOf(tt.r.l, y.left);
      PutRight(t, y.left);
      PutLeft(y, t);
      PutSize(t, NodeSize(t.left) + NodeSize(t.right) + 1);
    }

    /** One turn of the descent to the left: rotate if the key lies further left still, then link right.
        True when there is no way on. */
    method TurnLeft(t0: SplayNode, r0: SplayNode, r_size0: int, i: int, N: SplayNode, ghost cl: Spine,
          ghost tt0: Tree, ghost cr0: Spine, ghost order: seq<SplayNode>, ghost S: set<SplayNode>, ghost w0: Tree)
      returns (stop: bool, t: SplayNode, r: SplayNode, r_size: int, ghost tt: Tree, ghost cr: Spine)
      requires Backed() && Midway(i, cl, tt0, cr0, N, m, order, S) == true && t0 == tt0.n && i < t0.key
      requires Folding(i, w0, cl, tt0, cr0) == true
      requires r0 == Owner(cr0, N) && r_size0 == Weight(cr0)
      modifies this`m, m.Keys
      ensures Backed() && Midway(i, cl, tt, cr, N, m, order, S) == true && tt.Node? && t == tt.n &&
        Outside(old(m), m, S + {N}) == true
      ensures r == Owner(cr, N) && r_size == Weight(cr)
      ensures if stop then Ended(i, tt) && Folded(i, w0, cl, tt, cr) == true
        else tt < tt0 && Folding(i, w0, cl, tt, cr) == true
    {
      t, r, r_size, tt, cr := t0, r0, r_size0, tt0, cr0;
      Compares(i, cl, tt, cr, N, m, order, S);
      if t.left == null {
        FoldEnds(i, w0, cl, tt, cr);
        stop := true;
        return;
      }
      if Compare(i, t.left.key) < 0 {
        FoldZigRight(i, w0, cl, tt, cr);
        t, tt := ZigLeft(t, i, N, cl, tt, cr, order, S);
        if t.left == null {
          stop := true;
          return;
        }
      } else {
        FoldRight(i, w0, cl, tt, cr);
      }
      stop := false;
      t, r, r_size, tt, cr := HangRight(t, r, r_size, i, N, cl, tt, cr, order, S);
    }

    /** The rotation of a turn to the left. */
    method ZigLeft(t: SplayNode, i: int, ghost N: SplayNode, ghost cl: Spine, ghost tt: Tree, ghost cr: Spine,
          ghost order: seq<SplayNode>, ghost S: set<SplayNode>)
      returns (y: SplayNode, ghost u: Tree)
      requires Backed() && Midway(i, cl, tt, cr, N, m, order, S) == true && tt.Node? && t == tt.n && tt.l.Node? &&
        i < tt.l.n.key
      modifies this`m, m.Keys
      ensures Backed() && Midway(i, cl, u, cr, N, m, order, S) == true && u.Node? && y == u.n && i < y.key
      ensures u == Node(tt.l.n, tt.l.l, Node(t, tt.l.r, tt.r))
      ensures Outside(old(m), m, S + {N}) == true && y.left == Ptr(u.l)
    {
      SplayPath.ZigRight(i, cl, tt, cr, N, m, order, S);
      u := Node(tt.l.n, tt.l.l, Node(t, tt.l.r, tt.r));
      y := RotateUpLeft(t, tt);
    }

    /** link right: r->left = t; r = t; t = t->left; r_size += 1+node_size(r->right) */
    method HangRight(t0: SplayNode, r0: SplayNode, r_size0: int, i: int, ghost N: SplayNode, ghost cl: Spine,
          ghost tt0: Tree, ghost cr0: Spine, ghost order: seq<SplayNode>, ghost S: set<SplayNode>)
      returns (t: SplayNode, r: SplayNode, r_size: int, ghost tt: Tree, ghost cr: Spine)
      requires Backed() && Midway(i, cl, tt0, cr0, N, m, order, S) == true && tt0.Node? && t0 == tt0.n && i < t0.key &&
        tt0.l.Node?
      requires r0 == Owner(cr0, N) && r_size0 == Weight(cr0)
      modifies this`m, m.Keys
      ensures Backed() && Midway(i, cl, tt, cr, N, m, order, S) == true && tt == tt0.l && t == tt.n &&
        cr == Link(tt0.n, tt0.r, cr0) && Outside(old(m), m, S + {N}) == true
      ensures r == Owner(cr, N) && r_size == Weight(cr)
    {
      SplayPath.HangRight(i, cl, tt0, cr0, N, m, order, S);
      tt, cr := tt0.l, Link(tt0.n, tt0.r, cr0);
      PutLeft(r0, t0);
      r := t0;
      t := t0.left;
      SizeOf(tt0.r, r.right);
      r_size := r_size0 + 1 + NodeSize(r.right);
    }

    /** One turn of the descent to the right: rotate if the key lies further right still, then link left.
        True when there is no way on. */
    method TurnRight(t0: SplayNode, l0: SplayNode, l_size0: int, i: int, N: SplayNode, ghost cl0: Spine,
          ghost tt0: Tree, ghost cr: Spine, ghost order: seq<SplayNode>, ghost S: set<SplayNode>, ghost w0: Tree)
      returns (stop: bool, t: SplayNode, l: SplayNode, l_size: int, ghost tt: Tree, ghost cl: Spine)
      requires Backed() && Midway(i, cl0, tt0, cr, N, m, order, S) == true && t0 == tt0.n && i > t0.key
      requires Folding(i, w0, cl0, tt0, cr) == true
      requires l0 == Owner(cl0, N) && l_size0 == Weight(cl0)
      modifies this`m, m.Keys
      ensures Backed() && Midway(i, cl, tt, cr, N, m, order, S) == true && tt.Node? && t == tt.n &&
        Outside(old(m), m, S + {N}) == true
      ensures l == Owner(cl, N) && l_size == Weight(cl)
      ensures if stop then Ended(i, tt) && Folded(i, w0, cl, tt, cr) == true
        else tt < tt0 && Folding(i, w0, cl, tt, cr) == true
    {
      t, l, l_size, tt, cl := t0, l0, l_size0, tt0, cl0;
      Compares(i, cl, tt, cr, N, m, order, S);
      if t.right == null {
        FoldEnds(i, w0, cl, tt, cr);
        stop := true;
        return;
      }
      if Compare(i, t.right.key) > 0 {
        FoldZigLeft(i, w0, cl, tt, cr);
        t, tt := ZigRight(t, i, N, cl, tt, cr, order, S);
        if t.right == null {
          stop := true;
          return;
        }
      } else {
        FoldLeft(i, w0, cl, tt, cr);
      }
      stop := false;
      t, l, l_size, tt, cl := HangLeft(t, l, l_size, i, N, cl, tt, cr, order, S);
    }

    /** The rotation of a turn to the right. */
    method ZigRight(t: SplayNode, i: int, ghost N: SplayNode, ghost cl: Spine, ghost tt: Tree, ghost cr: Spine,
          ghost order: seq<SplayNode>, ghost S: set<SplayNode>)
      returns (y: SplayNode, ghost u: Tree)
      requires Backed() && Midway(i, cl, tt, cr, N, m, order, S) == true && tt.Node? && t == tt.n && tt.r.Node? &&
        i > tt.r.n.key
      modifies this`m, m.Keys
      ensures Backed() && Midway(i, cl, u, cr, N, m, order, S) == true && u.Node? && y == u.n && i > y.key
      ensures u == Node(tt.r.n, Node(t, tt.l, tt.r.l), tt.r.r)
      ensures Outside(old(m), m, S + {N}) == true && y.right == Ptr(u.r)
    {
      SplayPath.ZigLeft(i, cl, tt, cr, N, m, order, S);
      u := Node(tt.r.n, Node(t, tt.l, tt.r.l), tt.r.r);
      y := RotateUpRight(t, tt);
    }

    /** link left: l->right = t; l = t; t = t->right; l_size += 1+node_size(l->left) */
    method HangLeft(t0: SplayNode, l0: SplayNode, l_size0: int, i: int, ghost N: SplayNode, ghost cl0: Spine,
          ghost tt0: Tree, ghost cr: Spine, ghost order: seq<SplayNode>, ghost S: set<SplayNode>)
      returns (t: SplayNode, l: SplayNode, l_size: int, ghost tt: Tree, ghost cl: Spine)
      requires Backed() && Midway(i, cl0, tt0, cr, N, m, order, S) == true && tt0.Node? && t0 == tt0.n && i > t0.key &&
        tt0.r.Node?
      requires l0 == Owner(cl0, N) && l_size0 == Weight(cl0)
      modifies this`m, m.Keys
      ensures Backed() && Midway(i, cl, tt, cr, N, m, order, S) == true && tt == tt0.r && t == tt.n &&
        cl == Link(tt0.n, tt0.l, cl0) && Outside(old(m), m, S + {N}) == true
      ensures l == Owner(cl, N) && l_size == Weight(cl)
    {
      SplayPath.HangLeft(i, cl0, tt0, cr, N, m, order, S);
      tt, cl := tt0.r, Link(tt0.n, tt0.l, cl0);
      PutRight(l0, t0);
      l := t0;
      t := t0.right;
      SizeOf(tt0.l, l.left);
      l_size := l_size0 + 1 + NodeSize(l.left);
    }

    /** The size loop along the right spine of the left tree. */
    method RepairRight(start: SplayNode?, size0: int, ghost c: Spine, ghost k: nat, ghost N: SplayNode)
      requires Backed() && Repairing(R, c, End, k, N, m) == true && N in m && start == m[N].right &&
        size0 == Weight(c) + k
      modifies this`m, m.Keys
      ensures Backed() && SizedSpine(R, c, k, N, m) == true && Outside(old(m), m, SpineNodes(c)) == true
    {
      var y, l_size := start, size0;
      ghost var c2, c1, m0 := c, End, m;
      ConcatEnd(c);
      FirstY(R, c, k, N, m);
      while y != null
        invariant Backed() && Repairing(R, c2, c1, k, N, m) == true && Concat(c2, c1) == c && Owner(c1, N) in m
        invariant y == m[Owner(c1, N)].right && l_size == Weight(c2) + k && Outside(m0, m, SpineNodes(c)) == true
        invariant c2.Link? <==> y != null
        decreases Weight(c2)
      {
        RepairTurn(R, c2, c1, k, N, m0, m, c);
        PutSize(y, l_size);
        SizeOf(Outer(c2).sub, y.left);
        l_size := l_size - (1 + NodeSize(y.left));
        y := y.right;
        c2, c1 := Inner(c2), Link(Outer(c2).n, Outer(c2).sub, c1);
      }
      RepairEnds(R, c1, k, N, m);
    }

    /** The size loop along the left spine of the right tree. */
    method RepairLeft(start: SplayNode?, size0: int, ghost c: Spine, ghost k: nat, ghost N: SplayNode)
      requires Backed() && Repairing(L, c, End, k, N, m) == true && N in m && start == m[N].left &&
        size0 == Weight(c) + k
      modifies this`m, m.Keys
      ensures Backed() && SizedSpine(L, c, k, N, m) == true && Outside(old(m), m, SpineNodes(c)) == true
    {
      var y, r_size := start, size0;
      ghost var c2, c1, m0 := c, End, m;
      ConcatEnd(c);
      FirstY(L, c, k, N, m);
      while y != null
        invariant Backed() && Repairing(L, c2, c1, k, N, m) == true && Concat(c2, c1) == c && Owner(c1, N) in m
        invariant y == m[Owner(c1, N)].left && r_size == Weight(c2) + k && Outside(m0, m, SpineNodes(c)) == true
        invariant c2.Link? <==> y != null
        decreases Weight(c2)
      {
        RepairTurn(L, c2, c1, k, N, m0, m, c);
        PutSize(y, r_size);
        SizeOf(Outer(c2).sub, y.right);
        r_size := r_size - (1 + NodeSize(y.right));
        y := y.left;
        c2, c1 := Inner(c2), Link(Outer(c2).n, Outer(c2).sub, c1);
      }
      RepairEnds(L, c1, k, N, m);
    }

    /** l_size += node_size(t->left) and so on: t's size, and both spines closed and corrected. */
    method CorrectSizes(t: SplayNode, l: SplayNode, r: SplayNode, l_size0: int, r_size0: int, N: SplayNode,
          ghost cl: Spine, ghost tt: Tree, ghost cr: Spine)
      requires Backed() && Splaying(L, cr, cl, tt, N, m) == true && tt.Node? && t == tt.n && l == Owner(cl, N) &&
        r == Owner(cr, N)
      requires l_size0 == Weight(cl) && r_size0 == Weight(cr)
      modifies this`m, m.Keys
      ensures Backed() && Corrected(cl, tt, cr, N, m) == true && Outside(old(m), m, All(cl, tt, cr) + {N}) == true
    {
      ClosedOk(cl, tt, cr, N, m);
      LooseSizes(cl, tt, cr, N, m);
      assert Count(tt) == Count(tt.l) + Count(tt.r) + 1;
      SizeOf(tt.l, t.left);
      SizeOf(tt.r, t.right);
      var l_size, r_size := l_size0 + NodeSize(t.left), r_size0 + NodeSize(t.right);
      ghost var m0 := m;
      CloseEnds(t, l, r, l_size + r_size + 1, All(cl, tt, cr) + {N});
      ghost var m1 := m;
      RepairBoth(l_size, r_size, N, cl, tt, cr);
      OutsideTwice(m0, m1, m, All(cl, tt, cr) + {N}, All(cl, tt, cr));
    }

    /** t->size = l_size + r_size + 1; l->right = r->left = NULL */
    method CloseEnds(t: SplayNode, l: SplayNode, r: SplayNode, k: int, ghost S: set<SplayNode>)
      requires Backed() && t in m && l in m && r in m && t in S && l in S && r in S
      modifies this`m, m.Keys
      ensures Backed() && m == Closed(old(m), l, r, t, k) && Outside(old(m), m, S) == true
    {
      ClosedOutside(m, l, r, t, k, S);
      PutSize(t, k);
      PutRight(l, null);
      PutLeft(r, null);
    }

    method RepairBoth(l_size: int, r_size: int, N: SplayNode, ghost cl: Spine, ghost tt: Tree, ghost cr: Spine)
      requires Backed() && ReadyBoth(cl, tt, cr, N, m) == true && tt.Node? && N in m
      requires l_size == Weight(cl) + Count(tt.l) && r_size == Weight(cr) + Count(tt.r)
      modifies this`m, m.Keys
      ensures Backed() && Corrected(cl, tt, cr, N, m) == true && Outside(old(m), m, All(cl, tt, cr)) == true
    {
      ghost var m0 := m;
      RepairRight(N.right, l_size, cl, Count(tt.l), N);
      FirstRepaired(cl, tt, cr, N, m0, m);
      ghost var m1 := m;
      RepairLeft(N.left, r_size, cr, Count(tt.r), N);
      SecondRepaired(cl, tt, cr, N, m1, m);
    }

    /** assemble */
    method Assemble(t: SplayNode, l: SplayNode, r: SplayNode, N: SplayNode, ghost cl: Spine, ghost tt: Tree,
          ghost cr: Spine)
      requires Backed() && Corrected(cl, tt, cr, N, m) == true && tt.Node? && t == tt.n && l == Owner(cl, N) &&
        r == Owner(cr, N)
      modifies this`m, m.Keys
      ensures Backed() && Rep(Joined(cl, tt, cr), t, m) == true && Outside(old(m), m, All(cl, tt, cr) + {N}) == true
    {
      AssembledOk(cl, tt, cr, N, m);
      AssembledOutside(cl, tt, cr, N, m);
      LinkEnds(t, l, r, N);
    }

    method LinkEnds(t: SplayNode, l: SplayNode, r: SplayNode, N: SplayNode)
      requires Backed() && t in m && l in m && r in m && N in m
      modifies this`m, m.Keys
      ensures Backed() && m == Assembled(old(m), l, r, t, N)
    {
      PutRight(l, t.left);
      PutLeft(r, t.right);
      PutLeft(t, N.right);
      PutRight(t, N.left);
    }

    /** The loop of splaytree_splay: down from t towards i, growing the spines at N. */
    method Descend(t0: SplayNode, i: int, N: SplayNode, ghost tt0: Tree)
      returns (t: SplayNode, l: SplayNode, r: SplayNode, l_size: int, r_size: int, ghost cl: Spine, ghost tt: Tree,
        ghost cr: Spine)
      requires Backed() && Midway(i, End, tt0, End, N, m, InOrder(tt0), Nodes(tt0)) == true && tt0.Node? && t0 == tt0.n
      modifies this`m, m.Keys
      ensures Backed() && Midway(i, cl, tt, cr, N, m, InOrder(tt0), Nodes(tt0)) == true && Ended(i, tt) && t == tt.n
      ensures l == Owner(cl, N) && r == Owner(cr, N) && l_size == Weight(cl) && r_size == Weight(cr)
      ensures Outside(old(m), m, Nodes(tt0) + {N}) == true && Folded(i, tt0, cl, tt, cr) == true
    {
      t, l, r, l_size, r_size := t0, N, N, 0, 0;
      cl, tt, cr := End, tt0, End;
      FoldBegins(i, tt0);
      ghost var order, S, m0 := InOrder(tt0), Nodes(tt0), m;
      while true
        invariant Backed() && Midway(i, cl, tt, cr, N, m, order, S) == true && tt.Node? && t == tt.n
        invariant l == Owner(cl, N) && r == Owner(cr, N) && l_size == Weight(cl) && r_size == Weight(cr)
        invariant Outside(m0, m, S + {N}) == true && Folding(i, tt0, cl, tt, cr) == true
        decreases tt
      {
        Compares(i, cl, tt, cr, N, m, order, S);
        var comp := Compare(i, t.key);
        var stop;
        ghost var m1 := m;
        if comp < 0 {
          stop, t, r, r_size, tt, cr := TurnLeft(t, r, r_size, i, N, cl, tt, cr, order, S, tt0);
          OutsideTwice(m0, m1, m, S + {N}, S + {N});
          if stop {
            break;
          }
        } else if comp > 0 {
          stop, t, l, l_size, tt, cl := TurnRight(t, l, l_size, i, N, cl, tt, cr, order, S, tt0);
          OutsideTwice(m0, m1, m, S + {N}, S + {N});
          if stop {
            break;
          }
        } else {
          FoldEnds(i, tt0, cl, tt, cr);
          break;
        }
      }
    }

    /** splaytree_splay from the dummy head on. */
    method SplayAt(t0: SplayNode, i: int, N: SplayNode, ghost tt0: Tree) returns (t: SplayNode, ghost w: Tree)
      requires Backed() && Midway(i, End, tt0, End, N, m, InOrder(tt0), Nodes(tt0)) == true && tt0.Node? && t0 == tt0.n
      modifies this`m, m.Keys
      ensures Backed() && Rep(w, t, m) == true && Outside(old(m), m, Nodes(tt0) + {N}) == true
      ensures InOrder(w) == InOrder(tt0) && Nodes(w) == Nodes(tt0) && Separate(w) == true && w.Node? && N !in Nodes(w)
      ensures AllLess(InOrder(w.l), i) == true && AllMore(InOrder(w.r), i) == true && Halved(i, tt0, w) == true
    {
      ghost var m0 := m;
      var l, r, l_size, r_size;
      ghost var cl, tt, cr;
      t, l, r, l_size, r_size, cl, tt, cr := Descend(t0, i, N, tt0);
      Divides(i, cl, tt, cr, N, m, InOrder(tt0), Nodes(tt0));
      w := Joined(cl, tt, cr);
      AllHalved(i, tt0, cl, tt, cr);
      MidwaySplays(i, cl, tt, cr, N, m, InOrder(tt0), Nodes(tt0));
      Rebuild(t, l, r, l_size, r_size, N, cl, tt, cr);
    }

    /** The part of splaytree_splay behind its loop. */
    method Rebuild(t: SplayNode, l: SplayNode, r: SplayNode, l_size: int, r_size: int, N: SplayNode, ghost cl: Spine,
          ghost tt: Tree, ghost cr: Spine)
      requires Backed() && Splaying(L, cr, cl, tt, N, m) == true && tt.Node? && t == tt.n && l == Owner(cl, N) &&
        r == Owner(cr, N)
      requires l_size == Weight(cl) && r_size == Weight(cr)
      modifies this`m, m.Keys
      ensures Backed() && Rep(Joined(cl, tt, cr), t, m) == true && Outside(old(m), m, All(cl, tt, cr) + {N}) == true
    {
      ghost var m0 := m;
      CorrectSizes(t, l, r, l_size, r_size, N, cl, tt, cr);
      ghost var m1 := m;
      Assemble(t, l, r, N, cl, tt, cr);
      OutsideTwice(m0, m1, m, All(cl, tt, cr) + {N}, All(cl, tt, cr) + {N});
    }

    /** splaytree_splay(t, i): the same nodes in the same order, every size right, the root next to where i belongs,
        the nodes looked at in half the depth they had. */
    method Splay(t0: SplayNode?, i: int, ghost tt0: Tree) returns (t: SplayNode?, ghost w: Tree)
      requires Backed() && Rep(tt0, t0, m) && Separate(tt0) && Sorted(InOrder(tt0)) && Near(InOrder(tt0), i)
      modifies this`m, m.Keys
      ensures Backed() && Rep(w, t, m) == true && Outside(old(m), m, Nodes(tt0)) == true
      ensures InOrder(w) == InOrder(tt0) && Nodes(w) == Nodes(tt0) && Separate(w) == true
      ensures t == Ptr(w) && (t == null <==> t0 == null)
      ensures w.Node? ==> AllLess(InOrder(w.l), i) == true && AllMore(InOrder(w.r), i) == true
      ensures Halved(i, tt0, w) == true
    {
      if t0 == null {
        return null, Leaf;
      }
      RepNodes(tt0, t0, m);
      ghost var m0 := m;
      var N := new SplayNode(0, 0);
      ghost var m1 := m0[N := Cell(null, null, N.size)];
      RepFrame(tt0, t0, m0, m1);
      Begins(i, tt0, N, m1);
      m := m1;
      t, w := SplayAt(t0, i, N, tt0);
      HeadForgotten(w, t, m0, m1, m, N, Nodes(tt0));
      RepNodes(w, t, m);
      m := m - {N};
    }

    /** The tree as a map from keys to data. */
    ghost function Map(): map<int, int>
      reads this
    {
      Data(Contents(InOrder(tree)))
    }

    /** splaytree_insert(t, i, data): an existing key keeps its old data. */
    method Insert(i: int, data: int)
      requires Valid() && Near(InOrder(tree), i)
      modifies this, m.Keys
      ensures Valid() == true && fresh(m.Keys - old(m.Keys))
      ensures Map() == if i in old(Map()) then old(Map()) else old(Map())[i := data]
    {
      if root != null {
        SplayRoot(i);
        SplayedKeys(tree, i);
        if Compare(i, root.key) == 0 {
          return;
        }
      }
      AddRoot(root, i, data);
    }

    /** t = splaytree_splay(t, i) */
    method SplayRoot(i: int)
      requires Valid() && Near(InOrder(tree), i) && root != null
      modifies this, m.Keys
      ensures Valid() == true && m.Keys == old(m.Keys) && InOrder(tree) == old(InOrder(tree)) && Map() == old(Map())
      ensures tree.Node? && root == tree.n && AllLess(InOrder(tree.l), i) && AllMore(InOrder(tree.r), i)
    {
      root, tree := Splay(root, i, tree);
      RepNodes(tree, root, m);
    }

    /** The part of splaytree_insert that allocates: i is not in the tree, whose root is next to it. */
    method AddRoot(t: SplayNode?, i: int, data: int)
      requires Valid() == true && t == root && AddReady(tree, i) == true
      modifies this, m.Keys
      ensures Valid() == true && fresh(m.Keys - old(m.Keys))
      ensures Map() == old(Map())[i := data]
    {
      ghost var w, m0 := tree, m;
      assert Rep(w, t, m) == true && Separate(w) == true && Sorted(InOrder(w)) == true && t == Ptr(w);
      ghost var before := t != null && i < t.key;
      AddSides(w, i, before);
      var n := HangNew(t, i, data, before, w);
      InsertedEffects(w, n, before, m0, m);
      SetRoot(n, Inserted(w, n, before));
    }

    /** The caller's variable takes the new root. */
    method SetRoot(n: SplayNode?, ghost u: Tree)
      requires Backed() && Rep(u, n, m) == true && Separate(u) == true && m.Keys == Nodes(u) &&
        Sorted(InOrder(u)) == true
      modifies this`root, this`tree
      ensures Valid() == true && tree == u && root == n
    {
      root, tree := n, u;
    }

    method HangNew(t: SplayNode?, i: int, data: int, ghost before: bool, ghost w: Tree) returns (n: SplayNode)
      requires Backed() && Rep(w, t, m) == true && Separate(w) == true
      requires if t == null then !before else Compare(i, t.key) < 0 <==> before
      modifies this`m, m.Keys
      ensures Backed() && fresh(m.Keys - old(m.Keys)) && n.key == i && n.data == data
      ensures n in m && InsertedWords(w, n, before, old(m), m) == true
    {
      ghost var m0 := m;
      RepNodes(w, t, m);
      n := AddNode(i, data);
      if t == null {
        PutSize(n, 1);
      } else {
        HangBelow(n, t, i, before, w, m0);
      }
    }

    /** new = malloc(...) with its key and data, and no children yet */
    method AddNode(i: int, data: int) returns (n: SplayNode)
      requires Backed()
      modifies this`m
      ensures Backed() && fresh(n) && n !in old(m) && n.key == i && n.data == data &&
        m == old(m)[n := Cell(null, null, 0)]
    {
      n := new SplayNode(i, data);
      m := m[n := Cell(null, null, 0)];
    }

    /** The new root's links: t goes below it on its side. */
    method HangBelow(n: SplayNode, t: SplayNode, i: int, ghost before: bool, ghost w: Tree, ghost m0: Store)
      requires Backed() && n !in m0 && m == m0[n := Cell(null, null, 0)] && Rep(w, t, m0) && Separate(w)
      requires Compare(i, t.key) < 0 <==> before
      modifies this`m, m.Keys
      ensures Backed() && InsertedWords(w, n, before, m0, m) == true
    {
      InsertInWords(w, n, if before then R else L, m0, m);
      if Compare(i, t.key) < 0 {
        HangBehind(n, t);
      } else {
        HangBefore(n, t);
      }
    }

    method HangBehind(n: SplayNode, t: SplayNode)
      requires Backed() && n in m && t in m && n != t && Inside(m[t])
      modifies this`m, m.Keys
      ensures Backed() && m == InsertIn(old(m), n, t, R)
    {
      LinkBehind(n, t);
      CountKid(t, t.right);
      CountKids(n);
    }

    method LinkBehind(n: SplayNode, t: SplayNode)
      requires Backed() && n in m && t in m && n != t && Inside(m[t])
      modifies this`m, m.Keys
      ensures Backed() && m == LinkIn(old(m), n, t, R) && Inside(m[t]) && Inside(m[n])
    {
      PutLeft(n, t.left);
      PutRight(n, t);
      PutLeft(t, null);
    }

    method HangBefore(n: SplayNode, t: SplayNode)
      requires Backed() && n in m && t in m && n != t && Inside(m[t])
      modifies this`m, m.Keys
      ensures Backed() && m == InsertIn(old(m), n, t, L)
    {
      LinkBefore(n, t);
      CountKid(t, t.left);
      CountKids(n);
    }

    method LinkBefore(n: SplayNode, t: SplayNode)
      requires Backed() && n in m && t in m && n != t && Inside(m[t])
      modifies this`m, m.Keys
      ensures Backed() && m == LinkIn(old(m), n, t, L) && Inside(m[t]) && Inside(m[n])
    {
      PutRight(n, t.right);
      PutLeft(n, t);
      PutRight(t, null);
    }

    /** n->size = 1 + node_size(n->left) + node_size(n->right) */
    method CountKids(n: SplayNode)
      requires Backed() && n in m && Inside(m[n])
      modifies this`m, n`size
      ensures Backed() && m == SetSize(old(m), n, 1 + SizeIn(old(m), old(m)[n].left) + SizeIn(old(m), old(m)[n].right))
    {
      PutSize(n, 1 + NodeSize(n.left) + NodeSize(n.right));
    }

    /** t->size = 1 + node_size(kid) */
    method CountKid(t: SplayNode, kid: SplayNode?)
      requires Backed() && t in m && (kid != null ==> kid in m)
      modifies this`m, t`size
      ensures Backed() && m == SetSize(old(m), t, 1 + SizeIn(old(m), kid))
    {
      PutSize(t, 1 + NodeSize(kid));
    }

    /** The children recorded in c are nodes of the store. */
    ghost predicate Inside(c: Cell)
      reads this
    {
      (c.left != null ==> c.left in m) && (c.right != null ==> c.right in m)
    }

    /** splaytree_delete(t, i) */
    method Delete(i: int)
      requires Valid() && Near(InOrder(tree), i)
      modifies this, m.Keys
      ensures Valid() == true && m.Keys <= old(m.Keys) && Map() == old(Map()) - {i}
    {
      if root == null {
        return;
      }
      ghost var c0 := Contents(InOrder(tree));
      CountOrder(tree);
      var tsize := root.size;
      SplayRoot(i);
      SplayedKeys(tree, i);
      CountOrder(tree);
      if Compare(i, root.key) == 0 {
        ghost var w := tree;
        RemoveRoot(i, tsize);
        DeletedOrder(w, tree);
      }
      DataWithout(c0, i);
    }

    /** The part of splaytree_delete for a key that was found, now at the root. */
    method RemoveRoot(i: int, tsize: int)
      requires Valid() == true && Near(InOrder(tree), i) && root != null && tree.Node? && root == tree.n &&
        tree.n.key == i
      requires tsize == Count(tree) && AllLess(InOrder(tree.l), i)
      modifies this, m.Keys
      ensures Valid() == true && m.Keys <= old(m.Keys)
      ensures InOrder(tree) == old(InOrder(tree.l) + InOrder(tree.r))
    {
      ghost var w, m0 := tree, m;
      var t := root;
      var x;
      ghost var u, m1;
      x, u, m1 := CutRoot(t, i, w, tsize);
      DeletedEffects(w, u, m0, m1);
      SetRoot(x, Deleted(w, u));
    }

    method CutRoot(t: SplayNode, i: int, ghost w: Tree, tsize: int) returns (x: SplayNode?, ghost u: Tree,
          ghost m1: Store)
      requires Backed() && w.Node? && Rep(w, t, m) == true && Separate(w) == true && Sorted(InOrder(w)) == true &&
        Near(InOrder(w), i) == true
      requires AllLess(InOrder(w.l), i) == true && m.Keys == Nodes(w)
      modifies this`m, m.Keys
      ensures Backed() && Outside(old(m), m1, Nodes(w.l)) == true && Rep(u, Ptr(u), m1) == true && Separate(u) == true
      ensures InOrder(u) == InOrder(w.l) && Nodes(u) == Nodes(w.l) && (u.Node? ==> u.r.Leaf?)
      ensures x == (if u.Leaf? then Ptr(w.r) else u.n)
      ensures t in m1 && m == DeleteIn(m1, t, x, u.Node?, tsize)
    {
      x, u, m1 := JoinLeft(t, i, w);
      DropRoot(t, x, tsize);
    }

    /** The left subtree, splayed by the deleted key, has a root without right child and takes the
        right subtree there; without a left subtree the right one stands alone. */
    method JoinLeft(t: SplayNode, i: int, ghost w: Tree) returns (x: SplayNode?, ghost u: Tree, ghost m1: Store)
      requires Backed() && w.Node? && Rep(w, t, m) == true && Separate(w) == true && Sorted(InOrder(w)) == true &&
        Near(InOrder(w), i) == true
      requires AllLess(InOrder(w.l), i) == true && m.Keys == Nodes(w)
      modifies this`m, m.Keys
      ensures Backed() && Outside(old(m), m1, Nodes(w.l)) == true && Rep(u, Ptr(u), m1) == true && Separate(u) == true
      ensures InOrder(u) == InOrder(w.l) && Nodes(u) == Nodes(w.l) && (u.Node? ==> u.r.Leaf?)
      ensures x == (if u.Leaf? then Ptr(w.r) else u.n) && t in m && t != x && (x != null ==> x in m)
      ensures t in m1 && m == (if u.Node? then SetKid(m1, u.n, R, m1[t].right) else m1)
    {
      u := Leaf;
      ghost var m0 := m;
      LeftReady(w, i, m);
      RootApart(w);
      if t.left == null {
        x := t.right;
        m1 := m;
      } else {
        x, u := Splay(t.left, i, w.l);
        m1 := m;
        NoRightChild(u, i);
        RightStays(w, m0, m);
        PutRight(x, t.right);
      }
    }

    /** t is freed, and the new root, if there is one, gets its size. */
    method DropRoot(t: SplayNode, x: SplayNode?, tsize: int)
      requires Backed() && t in m && t != x && (x != null ==> x in m)
      modifies this`m, m.Keys
      ensures Backed() && m == (if x == null then old(m) - {t} else SetSize(old(m) - {t}, x, tsize - 1))
    {
      m := m - {t};
      if x != null {
        PutSize(x, tsize - 1);
      }
    }

    /** Any run of insertions and deletions of keys from one window answers to a map. */
    method Run(ops: seq<Op>, lo: int)
      requires Valid() && tree == Leaf && Int32(lo) && Int32(lo + 0x7FFF_FFFF)
      requires forall op :: op in ops ==> lo <= op.key <= lo + 0x7FFF_FFFF
      modifies this
      ensures Valid() == true && Map() == Replay(ops)
    {
      assert Map() == map[];
      for k := 0 to |ops|
        invariant Valid() == true && Map() == Replay(ops[..k]) && fresh(m.Keys) && InWindow(Map(), lo)
      {
        assert ops[..k + 1][..k] == ops[..k] && ops[k] in ops;
        WindowNear(InOrder(tree), ops[k].key, lo);
        match ops[k]
        case Insert(key, data) => Insert(key, data);
        case Delete(key) => Delete(key);
      }
      assert ops[..|ops|] == ops;
    }
  }
}
