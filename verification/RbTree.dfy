/** rbtree.c: the operations on nodes in place, proved against the tree they form. */
module RbTree {
  import opened Sides
  import opened RbShape
  import opened RbColor
  import opened RbErase
  import opened RbWalk

  class RbRoot {
    var rb_node: RbNode?

    /** The words of the nodes that belong to the tree, and the tree they form. */
    ghost var m: Store
    ghost var tree: Tree

    /** The nodes hold what m says they hold. */
    ghost predicate Backed()
      reads this, m.Keys
    {
      forall n :: n in m ==>
        n.rb_left == m[n].left && n.rb_right == m[n].right && n.parent == m[n].parent && n.red == m[n].red
    }

    /** A red-black tree, exactly of the nodes in m. */
    ghost predicate Valid()
      reads this, m.Keys
    {
      Backed() && Whole(tree, rb_node, m) && RedBlack(tree) && m.Keys == Nodes(tree)
    }

    /** RB_ROOT */
    constructor ()
      ensures Valid() && tree == Leaf
    {
      rb_node, m, tree := null, map[], Leaf;
      new;
      assert Good(Leaf, 0);
    }

    /** rb_set_red and rb_set_black */
    method Paint(n: RbNode, b: bool)
      requires Backed() && n in m
      modifies this`m, n`red
      ensures Backed() && m == SetRed(old(m), n, b)
    {
      n.red := b;
      m := SetRed(m, n, b);
    }

    /** n->rb_left = v */
    method PutLeft(n: RbNode, v: RbNode?)
      requires Backed() && n in m
      modifies this`m, n`rb_left
      ensures Backed() && m == SetKid(old(m), n, L, v)
    {
      n.rb_left := v;
      m := SetKid(m, n, L, v);
    }

    /** n->rb_right = v */
    method PutRight(n: RbNode, v: RbNode?)
      requires Backed() && n in m
      modifies this`m, n`rb_right
      ensures Backed() && m == SetKid(old(m), n, R, v)
    {
      n.rb_right := v;
      m := SetKid(m, n, R, v);
    }

    /** rb_set_parent(n, v) */
    method PutParent(n: RbNode, v: RbNode?)
      requires Backed() && n in m
      modifies this`m, n`parent
      ensures Backed() && m == SetParent(old(m), n, v)
    {
      n.parent := v;
      m := SetParent(m, n, v);
    }

    /** The link of parent, or the root, that points at x points at y: left child first. */
    method RelinkFromLeft(parent: RbNode?, x: RbNode, y: RbNode?)
      requires Backed() && (parent != null ==> parent in m)
      modifies this`rb_node, this`m, m.Keys
      ensures Backed() && m == Relinked(old(m), parent, L, x, y)
      ensures rb_node == if parent == null then y else old(rb_node)
    {
      if parent != null {
        if x == parent.rb_left {
          PutLeft(parent, y);
        } else {
          PutRight(parent, y);
        }
      } else {
        rb_node := y;
      }
    }

    /** The child that changes sides. */
    method PassChildLeft(node: RbNode, right: RbNode)
      requires Backed() && node in m && right in m && m[node].right == right && node != right
      requires m[right].left != null ==> m[right].left in m && m[right].left != right
      modifies this`m, m.Keys
      ensures Backed() && m == SetParent(SetKid(old(m), node, R, old(m)[right].left), old(m)[right].left, node)
    {
      PutRight(node, right.rb_left);
      if node.rb_right != null {
        PutParent(right.rb_left, node);
      }
    }

    /** __rb_rotate_left */
    method RotateLeft(node: RbNode, ghost y: RbNode, ghost b: RbNode?, ghost par: RbNode?, ghost ps: Side)
      requires Backed() && Turnable(m, L, node, y, b, par, ps)
      modifies this`rb_node, this`m, m.Keys
      ensures Backed() && m == Rotated(old(m), L, node)
      ensures rb_node == if par == null then y else old(rb_node)
    {
      var right := node.rb_right;
      var parent := node.parent;
      PassChildLeft(node, right);
      PutLeft(right, node);
      PutParent(right, parent);
      RelinkFromLeft(parent, node, right);
      PutParent(node, right);
    }

    /** A rotation to the left, seen in the tree. */
    method RotateLeftAt(node: RbNode, ghost c: Ctx, ghost xr: bool, ghost a: Tree, ghost y: RbNode, ghost yr: bool,
          ghost b: Tree, ghost d: Tree)
      requires Backed() && Whole(Plug(c, Mk(L, node, xr, a, Mk(L, y, yr, b, d))), rb_node, m) == true
      modifies this`rb_node, this`m, m.Keys
      ensures Backed() && m.Keys == old(m.Keys)
      ensures var w := Plug(c, Mk(L, y, yr, Mk(L, node, xr, a, b), d));
        Whole(w, rb_node, m) == true && InOrder(w) == InOrder(Plug(c, Mk(L, node, xr, a, Mk(L, y, yr, b, d))))
    {
      RotateInOrder(c, L, node, xr, a, y, yr, b, d);
      RotatePlug(c, L, node, xr, a, y, yr, b, d, rb_node, m);
      RotateClosed(c, L, node, xr, a, y, yr, b, d, rb_node, m);
      RotatedHasBits(m, L, node, y, Ptr(b), CtxNode(c), CtxSide(c));
      RotateLeft(node, y, Ptr(b), CtxNode(c), CtxSide(c));
    }

    /** The link of parent, or the root, that points at x points at y: right child first. */
    method RelinkFromRight(parent: RbNode?, x: RbNode, y: RbNode?)
      requires Backed() && (parent != null ==> parent in m)
      modifies this`rb_node, this`m, m.Keys
      ensures Backed() && m == Relinked(old(m), parent, R, x, y)
      ensures rb_node == if parent == null then y else old(rb_node)
    {
      if parent != null {
        if x == parent.rb_right {
          PutRight(parent, y);
        } else {
          PutLeft(parent, y);
        }
      } else {
        rb_node := y;
      }
    }

    /** The child that changes sides. */
    method PassChildRight(node: RbNode, left: RbNode)
      requires Backed() && node in m && left in m && m[node].left == left && node != left
      requires m[left].right != null ==> m[left].right in m && m[left].right != left
      modifies this`m, m.Keys
      ensures Backed() && m == SetParent(SetKid(old(m), node, L, old(m)[left].right), old(m)[left].right, node)
    {
      PutLeft(node, left.rb_right);
      if node.rb_left != null {
        PutParent(left.rb_right, node);
      }
    }

    /** __rb_rotate_right */
    method RotateRight(node: RbNode, ghost y: RbNode, ghost b: RbNode?, ghost par: RbNode?, ghost ps: Side)
      requires Backed() && Turnable(m, R, node, y, b, par, ps)
      modifies this`rb_node, this`m, m.Keys
      ensures Backed() && m == Rotated(old(m), R, node)
      ensures rb_node == if par == null then y else old(rb_node)
    {
      var left := node.rb_left;
      var parent := node.parent;
      PassChildRight(node, left);
      PutRight(left, node);
      PutParent(left, parent);
      RelinkFromRight(parent, node, left);
      PutParent(node, left);
    }

    /** A rotation to the right, seen in the tree. */
    method RotateRightAt(node: RbNode, ghost c: Ctx, ghost xr: bool, ghost a: Tree, ghost y: RbNode, ghost yr: bool,
          ghost b: Tree, ghost d: Tree)
      requires Backed() && Whole(Plug(c, Mk(R, node, xr, a, Mk(R, y, yr, b, d))), rb_node, m) == true
      modifies this`rb_node, this`m, m.Keys
      ensures Backed() && m.Keys == old(m.Keys)
      ensures var w := Plug(c, Mk(R, y, yr, Mk(R, node, xr, a, b), d));
        Whole(w, rb_node, m) == true && InOrder(w) == InOrder(Plug(c, Mk(R, node, xr, a, Mk(R, y, yr, b, d))))
    {
      RotateInOrder(c, R, node, xr, a, y, yr, b, d);
      RotatePlug(c, R, node, xr, a, y, yr, b, d, rb_node, m);
      RotateClosed(c, R, node, xr, a, y, yr, b, d, rb_node, m);
      RotatedHasBits(m, R, node, y, Ptr(b), CtxNode(c), CtxSide(c));
      RotateRight(node, y, Ptr(b), CtxNode(c), CtxSide(c));
    }

    method PaintAt(n: RbNode, b: bool, ghost c: Ctx, ghost t: Tree)
      requires Backed() && Whole(Plug(c, t), rb_node, m) == true && t.Node? && t.n == n
      modifies this`m, m.Keys
      ensures Backed() && m.Keys == old(m.Keys) && m == SetRed(old(m), n, b)
      ensures Whole(Plug(c, Painted(t, b)), rb_node, m) == true &&
        InOrder(Plug(c, Painted(t, b))) == InOrder(Plug(c, t))
    {
      PaintPlug(c, t, b, rb_node, m);
      Paint(n, b);
    }

    // ----- insertion

    /** Red uncle: blacken parent and uncle, redden the grandparent. */
    method PushUp(uncle: RbNode, parent: RbNode, gparent: RbNode, ghost c: Ctx, ghost t: Tree, ghost h: nat)
      requires Backed() && Whole(Plug(c, t), rb_node, m) == true && RedHere(c, t, h) == true
      requires c.In? && c.red && c.up.In? && !Black(c.up.sib) && parent == c.n && gparent == c.up.n &&
        uncle == c.up.sib.n
      modifies this`m, m.Keys
      ensures Backed() && m.Keys == old(m.Keys)
      ensures Whole(Plug(c.up.up, Pushed(c, t)), rb_node, m) == true && RedHere(c.up.up, Pushed(c, t), h + 1) == true
      ensures InOrder(Plug(c.up.up, Pushed(c, t))) == InOrder(Plug(c, t))
    {
      PushedOk(c, t, h);
      ghost var p, u := Mk(c.s, c.n, c.red, t, c.sib), Painted(c.up.sib, false);
      PaintAt(uncle, false, In(Opp(c.up.s), c.up.n, c.up.red, p, c.up.up), c.up.sib);
      PaintAt(parent, false, In(c.up.s, c.up.n, c.up.red, u, c.up.up), p);
      PaintAt(gparent, true, c.up.up, Mk(c.up.s, c.up.n, c.up.red, Mk(c.s, c.n, false, t, c.sib), u));
    }

    /** Blacken the parent, redden the grandparent. */
    method PaintPair(parent: RbNode, gparent: RbNode, ghost c: Ctx, ghost t: Tree)
      requires Backed() && Whole(Plug(c, t), rb_node, m) == true && c.In? && c.up.In? && parent == c.n &&
        gparent == c.up.n
      modifies this`m, m.Keys
      ensures Backed() && m.Keys == old(m.Keys)
      ensures var w := Plug(c.up.up, Mk(c.up.s, c.up.n, true, Mk(c.s, c.n, false, t, c.sib), c.up.sib));
        Whole(w, rb_node, m) == true && InOrder(w) == InOrder(Plug(c, t))
    {
      PaintAt(parent, false, c.up, Mk(c.s, c.n, c.red, t, c.sib));
      PaintAt(gparent, true, c.up.up, Mk(c.up.s, c.up.n, c.up.red, Mk(c.s, c.n, false, t, c.sib), c.up.sib));
    }

    /** Black uncle, the parent being a left child: rotate the node outside if need be, then the grandparent down. */
    method RaiseFromLeft(x: RbNode, p: RbNode, gparent: RbNode, ghost c0: Ctx, ghost t0: Tree, ghost h: nat)
      returns (node: RbNode, ghost c: Ctx, ghost t: Tree)
      requires Backed() && Whole(Plug(c0, t0), rb_node, m) == true && RedHere(c0, t0, h) == true && t0.Node? &&
        t0.n == x
      requires c0.In? && c0.red && c0.up.In? && c0.up.s == L && Black(c0.up.sib) && p == c0.n && gparent == c0.up.n
      modifies this`rb_node, this`m, m.Keys
      ensures Backed() && m.Keys == old(m.Keys)
      ensures Whole(Plug(c, t), rb_node, m) == true && RedHere(c, t, h) == true && t.Node? && t.n == node && c.In? &&
        !c.red
      ensures InOrder(Plug(c, t)) == InOrder(Plug(c0, t0))
    {
      var parent := p;
      node, c, t := x, c0, t0;
      UncleLook(c, t, h, rb_node, m);
      if parent.rb_right == node {
        OuterOk(c, t, h);
        RotateLeftAt(parent, c.up, c.red, c.sib, node, t.red, t.l, t.r);
        parent, node := node, parent;
        c, t := Outer(c, t).0, Outer(c, t).1;
      }
      RaisedOk(c, t, h);
      PaintPair(parent, gparent, c, t);
      RotateRightAt(gparent, c.up.up, true, c.up.sib, parent, false, c.sib, t);
      c := Raised(c, t);
    }

    /** Black uncle, the parent being a right child: rotate the node outside if need be, then the grandparent down. */
    method RaiseFromRight(x: RbNode, p: RbNode, gparent: RbNode, ghost c0: Ctx, ghost t0: Tree, ghost h: nat)
      returns (node: RbNode, ghost c: Ctx, ghost t: Tree)
      requires Backed() && Whole(Plug(c0, t0), rb_node, m) == true && RedHere(c0, t0, h) == true && t0.Node? &&
        t0.n == x
      requires c0.In? && c0.red && c0.up.In? && c0.up.s == R && Black(c0.up.sib) && p == c0.n && gparent == c0.up.n
      modifies this`rb_node, this`m, m.Keys
      ensures Backed() && m.Keys == old(m.Keys)
      ensures Whole(Plug(c, t), rb_node, m) == true && RedHere(c, t, h) == true && t.Node? && t.n == node && c.In? &&
        !c.red
      ensures InOrder(Plug(c, t)) == InOrder(Plug(c0, t0))
    {
      var parent := p;
      node, c, t := x, c0, t0;
      UncleLook(c, t, h, rb_node, m);
      if parent.rb_left == node {
        OuterOk(c, t, h);
        RotateRightAt(parent, c.up, c.red, c.sib, node, t.red, t.r, t.l);
        parent, node := node, parent;
        c, t := Outer(c, t).0, Outer(c, t).1;
      }
      RaisedOk(c, t, h);
      PaintPair(parent, gparent, c, t);
      RotateLeftAt(gparent, c.up.up, true, c.up.sib, parent, false, c.sib, t);
      c := Raised(c, t);
    }

    /** rb_link_node: a red leaf at the missing child of parent, or at the root. */
    method LinkNode(node: RbNode, parent: RbNode?, left: bool, ghost c: Ctx)
      requires Backed() && Whole(Plug(c, Leaf), rb_node, m) == true && node !in m
      requires parent == CtxNode(c) && (c.In? ==> (left <==> c.s == L))
      modifies this`rb_node, this`m, m.Keys, node
      ensures Backed() && Whole(Plug(c, Node(node, true, Leaf, Leaf)), rb_node, m) == true &&
        m.Keys == old(m.Keys) + {node}
    {
      LinkReady(c, node, rb_node, m);
      InitLeaf(node, parent);
      if parent == null {
        rb_node := node;
      } else if left {
        PutLeft(parent, node);
      } else {
        PutRight(parent, node);
      }
    }

    method InitLeaf(node: RbNode, parent: RbNode?)
      requires Backed() && node !in m
      modifies this`m, node
      ensures Backed() && m == old(m)[node := Cell(null, null, parent, true)]
    {
      node.parent := parent;
      node.red := true;
      node.rb_left, node.rb_right := null, null;
      m := m[node := Cell(null, null, parent, true)];
    }

    /** rb_link_node and rb_insert_color: the node stands where it was hung. */
    method InsertAt(node: RbNode, parent: RbNode?, left: bool, ghost c: Ctx)
      requires Valid() == true && tree == Plug(c, Leaf) && node !in m
      requires parent == CtxNode(c) && (c.In? ==> (left <==> c.s == L))
      modifies this, m.Keys, node
      ensures Valid() == true && m.Keys == old(m.Keys) + {node} && InOrder(tree) == Before(c) + [node] + After(c)
    {
      ghost var h := HoleGood(c, Leaf);
      LinkNode(node, parent, left, c);
      LinkOrder(c, node);
      InsertColor(node, c, Node(node, true, Leaf, Leaf), h);
      WholeNodes(tree, Plug(c, Node(node, true, Leaf, Leaf)));
    }

    /** rb_insert_color: the red node just linked below c may have a red parent. */
    method InsertColor(x: RbNode, ghost c0: Ctx, ghost t0: Tree, ghost h0: nat)
      requires Backed() && Whole(Plug(c0, t0), rb_node, m) == true && RedHere(c0, t0, h0) == true && t0.n == x
      modifies this, m.Keys
      ensures Backed() && m.Keys == old(m.Keys)
      ensures Whole(tree, rb_node, m) == true && RedBlack(tree) == true && InOrder(tree) == InOrder(Plug(c0, t0))
    {
      var node := x;
      ghost var c, t, h := c0, t0, h0;
      ghost var keys, order := m.Keys, InOrder(Plug(c0, t0));
      InsertLook(c, t, h, rb_node, m);
      var parent := node.parent;
      while parent != null && parent.red
        invariant Backed() && m.Keys == keys && InOrder(Plug(c, t)) == order
        invariant Whole(Plug(c, t), rb_node, m) == true && RedHere(c, t, h) == true && t.n == node
        invariant parent == CtxNode(c) && (parent != null ==> parent.red == c.red)
        decreases if c.In? && c.red then Depth(c) + 1 else 0
      {
        node, c, t, h := InsertTurn(node, parent, c, t, h);
        InsertLook(c, t, h, rb_node, m);
        parent := node.parent;
      }
      assert c.In? ==> !c.red;
      BlackenRoot(c, t, h);
    }

    /** One turn of the loop: recolour and go on at the grandparent, or rotate and be done. */
    method InsertTurn(node: RbNode, parent: RbNode, ghost c: Ctx, ghost t: Tree, ghost h: nat)
      returns (node': RbNode, ghost c': Ctx, ghost t': Tree, ghost h': nat)
      requires Backed() && Whole(Plug(c, t), rb_node, m) == true && RedHere(c, t, h) == true && t.n == node
      requires parent == CtxNode(c) && c.red
      modifies this`rb_node, this`m, m.Keys
      ensures Backed() && m.Keys == old(m.Keys) && InOrder(Plug(c', t')) == InOrder(Plug(c, t))
      ensures Whole(Plug(c', t'), rb_node, m) == true && RedHere(c', t', h') == true && t'.n == node'
      ensures (if c'.In? && c'.red then Depth(c') + 1 else 0) < Depth(c) + 1
    {
      UncleLook(c, t, h, rb_node, m);
      var gparent := parent.parent;
      if parent == gparent.rb_left {
        var uncle := gparent.rb_right;
        if uncle != null && uncle.red {
          PushUp(uncle, parent, gparent, c, t, h);
          node', c', t', h' := gparent, c.up.up, Pushed(c, t), h + 1;
        } else {
          h' := h;
          node', c', t' := RaiseFromLeft(node, parent, gparent, c, t, h);
        }
      } else {
        var uncle := gparent.rb_left;
        if uncle != null && uncle.red {
          PushUp(uncle, parent, gparent, c, t, h);
          node', c', t', h' := gparent, c.up.up, Pushed(c, t), h + 1;
        } else {
          h' := h;
          node', c', t' := RaiseFromRight(node, parent, gparent, c, t, h);
        }
      }
    }

    /** The end of rb_insert_color. */
    method BlackenRoot(ghost c: Ctx, ghost t: Tree, ghost h: nat)
      requires Backed() && Whole(Plug(c, t), rb_node, m) == true && RedHere(c, t, h) == true && (c.In? ==> !c.red)
      modifies this`m, this`tree, m.Keys
      ensures Backed() && m.Keys == old(m.Keys)
      ensures Whole(tree, rb_node, m) == true && RedBlack(tree) == true && InOrder(tree) == InOrder(Plug(c, t))
    {
      InsertEnds(c, t, h);
      RootTree(c, t, rb_node, m);
      tree := Painted(Plug(c, t), false);
      PaintAt(rb_node, false, Top, Plug(c, t));
    }

    // ----- erasure

    /** Black sibling with black children: it turns red. */
    method PassUp(other: RbNode, ghost c: Ctx, ghost t: Tree, ghost h: nat) returns (ghost h': nat)
      requires Backed() && Whole(Plug(c, t), rb_node, m) == true && Short(c, t, h) == true && c.In? && Black(t)
      requires c.sib.Node? && Black(c.sib) && Black(Near(c)) && Black(Far(c)) && other == c.sib.n
      modifies this`m, m.Keys
      ensures Backed() && m.Keys == old(m.Keys)
      ensures var u := Mk(c.s, c.n, c.red, t, Painted(c.sib, true));
        Whole(Plug(c.up, u), rb_node, m) == true && Short(c.up, u, h') == true &&
          InOrder(Plug(c.up, u)) == InOrder(Plug(c, t))
    {
      PassedUp(c, t, h);
      h' :| Short(c.up, Mk(c.s, c.n, c.red, t, Painted(c.sib, true)), h');
      PaintAt(other, true, In(Opp(c.s), c.n, c.red, t, c.up), c.sib);
    }

    /** Red sibling on the right: it is rotated up. */
    method SwingLeft(other: RbNode, parent: RbNode, ghost c: Ctx, ghost t: Tree, ghost h: nat)
      requires Backed() && Whole(Plug(c, t), rb_node, m) == true && Short(c, t, h) == true && c.In? && Black(t) &&
        c.s == L
      requires c.sib.Node? && c.sib.red && other == c.sib.n && parent == c.n
      modifies this`rb_node, this`m, m.Keys
      ensures Backed() && m.Keys == old(m.Keys) && Swung(c).sib.Node? && Black(Swung(c).sib)
      ensures Whole(Plug(Swung(c), t), rb_node, m) == true && Short(Swung(c), t, h) == true
      ensures InOrder(Plug(Swung(c), t)) == InOrder(Plug(c, t))
    {
      SwungOk(c, t, h);
      PaintAt(other, false, In(Opp(c.s), c.n, c.red, t, c.up), c.sib);
      PaintAt(parent, true, c.up, Mk(c.s, c.n, c.red, t, Painted(c.sib, false)));
      RotateLeftAt(parent, c.up, true, t, other, false, Near(c), Far(c));
    }

    /** Only the near nephew is red: it is rotated up over the sibling. */
    method TurnLeft(other: RbNode, ghost c: Ctx, ghost t: Tree, ghost h: nat)
      requires Backed() && Whole(Plug(c, t), rb_node, m) == true && Short(c, t, h) == true && c.In? && Black(t) &&
        c.s == L
      requires c.sib.Node? && Black(c.sib) && !Black(Near(c)) && Black(Far(c)) && other == c.sib.n
      modifies this`rb_node, this`m, m.Keys
      ensures Backed() && m.Keys == old(m.Keys) && Turned(c).sib.Node? && Black(Turned(c).sib) && !Black(Far(Turned(c)))
      ensures Whole(Plug(Turned(c), t), rb_node, m) == true && Short(Turned(c), t, h) == true
      ensures InOrder(Plug(Turned(c), t)) == InOrder(Plug(c, t))
    {
      TurnedOk(c, t, h);
      SiblingLook(c, t, h, rb_node, m);
      ghost var near, up := Near(c), In(Opp(c.s), c.n, c.red, t, c.up);
      PaintAt(other.rb_left, false, In(c.s, c.sib.n, c.sib.red, Far(c), up), near);
      PaintAt(other, true, up, Mk(c.s, c.sib.n, c.sib.red, Painted(near, false), Far(c)));
      RotateRightAt(other, up, true, Far(c), near.n, false, near.r, near.l);
    }

    /** The far nephew is red: the sibling is rotated up, and nothing is missing any more. */
    method MendLeft(other: RbNode, parent: RbNode, ghost c: Ctx, ghost t: Tree, ghost h: nat)
      requires Backed() && Whole(Plug(c, t), rb_node, m) == true && Short(c, t, h) == true && c.In? && Black(t) &&
        c.s == L
      requires c.sib.Node? && Black(c.sib) && !Black(Far(c)) && other == c.sib.n && parent == c.n
      modifies this`rb_node, this`m, m.Keys
      ensures Backed() && m.Keys == old(m.Keys)
      ensures var w := Plug(c.up, Mended(c, t));
        Whole(w, rb_node, m) == true && RedBlack(w) == true && InOrder(w) == InOrder(Plug(c, t))
    {
      MendedOk(c, t, h);
      SiblingLook(c, t, h, rb_node, m);
      ghost var up := In(Opp(c.s), c.n, c.red, t, c.up);
      var far := other.rb_right;
      PaintAt(other, parent.red, up, c.sib);
      PaintAt(parent, false, c.up, Mk(c.s, c.n, c.red, t, Painted(c.sib, c.red)));
      PaintAt(far, false, In(Opp(c.s), c.sib.n, c.red, Near(c), In(Opp(c.s), c.n, false, t, c.up)), Far(c));
      RotateLeftAt(parent, c.up, false, t, other, c.red, Near(c), Painted(Far(c), false));
    }

    /** Red sibling on the left: it is rotated up. */
    method SwingRight(other: RbNode, parent: RbNode, ghost c: Ctx, ghost t: Tree, ghost h: nat)
      requires Backed() && Whole(Plug(c, t), rb_node, m) == true && Short(c, t, h) == true && c.In? && Black(t) &&
        c.s == R
      requires c.sib.Node? && c.sib.red && other == c.sib.n && parent == c.n
      modifies this`rb_node, this`m, m.Keys
      ensures Backed() && m.Keys == old(m.Keys) && Swung(c).sib.Node? && Black(Swung(c).sib)
      ensures Whole(Plug(Swung(c), t), rb_node, m) == true && Short(Swung(c), t, h) == true
      ensures InOrder(Plug(Swung(c), t)) == InOrder(Plug(c, t))
    {
      SwungOk(c, t, h);
      PaintAt(other, false, In(Opp(c.s), c.n, c.red, t, c.up), c.sib);
      PaintAt(parent, true, c.up, Mk(c.s, c.n, c.red, t, Painted(c.sib, false)));
      RotateRightAt(parent, c.up, true, t, other, false, Near(c), Far(c));
    }

    /** Only the near nephew is red: it is rotated up over the sibling. */
    method TurnRight(other: RbNode, ghost c: Ctx, ghost t: Tree, ghost h: nat)
      requires Backed() && Whole(Plug(c, t), rb_node, m) == true && Short(c, t, h) == true && c.In? && Black(t) &&
        c.s == R
      requires c.sib.Node? && Black(c.sib) && !Black(Near(c)) && Black(Far(c)) && other == c.sib.n
      modifies this`rb_node, this`m, m.Keys
      ensures Backed() && m.Keys == old(m.Keys) && Turned(c).sib.Node? && Black(Turned(c).sib) && !Black(Far(Turned(c)))
      ensures Whole(Plug(Turned(c), t), rb_node, m) == true && Short(Turned(c), t, h) == true
      ensures InOrder(Plug(Turned(c), t)) == InOrder(Plug(c, t))
    {
      TurnedOk(c, t, h);
      SiblingLook(c, t, h, rb_node, m);
      ghost var near, up := Near(c), In(Opp(c.s), c.n, c.red, t, c.up);
      PaintAt(other.rb_right, false, In(c.s, c.sib.n, c.sib.red, Far(c), up), near);
      PaintAt(other, true, up, Mk(c.s, c.sib.n, c.sib.red, Painted(near, false), Far(c)));
      RotateLeftAt(other, up, true, Far(c), near.n, false, near.l, near.r);
    }

    /** The far nephew is red: the sibling is rotated up, and nothing is missing any more. */
    method MendRight(other: RbNode, parent: RbNode, ghost c: Ctx, ghost t: Tree, ghost h: nat)
      requires Backed() && Whole(Plug(c, t), rb_node, m) == true && Short(c, t, h) == true && c.In? && Black(t) &&
        c.s == R
      requires c.sib.Node? && Black(c.sib) && !Black(Far(c)) && other == c.sib.n && parent == c.n
      modifies this`rb_node, this`m, m.Keys
      ensures Backed() && m.Keys == old(m.Keys)
      ensures var w := Plug(c.up, Mended(c, t));
        Whole(w, rb_node, m) == true && RedBlack(w) == true && InOrder(w) == InOrder(Plug(c, t))
    {
      MendedOk(c, t, h);
      SiblingLook(c, t, h, rb_node, m);
      ghost var up := In(Opp(c.s), c.n, c.red, t, c.up);
      var far := other.rb_left;
      PaintAt(other, parent.red, up, c.sib);
      PaintAt(parent, false, c.up, Mk(c.s, c.n, c.red, t, Painted(c.sib, c.red)));
      PaintAt(far, false, In(Opp(c.s), c.sib.n, c.red, Near(c), In(Opp(c.s), c.n, false, t, c.up)), Far(c));
      RotateRightAt(parent, c.up, false, t, other, c.red, Near(c), Painted(Far(c), false));
    }

    /** Black sibling with a red child: turned so that the far one is red, and mended. */
    method CloseLeft(other0: RbNode, parent: RbNode, ghost c0: Ctx, ghost t: Tree, ghost h: nat) returns (ghost w: Tree)
      requires Backed() && Whole(Plug(c0, t), rb_node, m) == true && Short(c0, t, h) == true && c0.In? && Black(t) &&
        c0.s == L
      requires c0.sib.Node? && Black(c0.sib) && other0 == c0.sib.n && parent == c0.n &&
        !(Black(Near(c0)) && Black(Far(c0)))
      modifies this`rb_node, this`m, m.Keys
      ensures Backed() && m.Keys == old(m.Keys)
      ensures Whole(w, rb_node, m) == true && RedBlack(w) == true && InOrder(w) == InOrder(Plug(c0, t))
    {
      ghost var c := c0;
      var other := other0;
      SiblingLook(c, t, h, rb_node, m);
      if other.rb_right == null || !other.rb_right.red {
        TurnLeft(other, c, t, h);
        c := Turned(c);
        SiblingLook(c, t, h, rb_node, m);
        other := parent.rb_right;
      }
      MendLeft(other, parent, c, t, h);
      w := Plug(c.up, Mended(c, t));
    }

    /** One turn of the loop for a left child: true when nothing is missing any more, else the parent is next. */
    method FixLeft(parent: RbNode, ghost c0: Ctx, ghost t0: Tree, ghost h0: nat)
      returns (mended: bool, ghost c: Ctx, ghost t: Tree, ghost h: nat)
      requires Backed() && Whole(Plug(c0, t0), rb_node, m) == true && Short(c0, t0, h0) == true && Black(t0)
      requires c0.In? && c0.s == L && parent == c0.n
      modifies this`rb_node, this`m, m.Keys
      ensures Backed() && m.Keys == old(m.Keys) && Whole(Plug(c, t), rb_node, m) == true
      ensures InOrder(Plug(c, t)) == InOrder(Plug(c0, t0))
      ensures if mended then c.Top? && RedBlack(t) == true
        else Short(c, t, h) == true && t.Node? && t.n == parent && (t.red || Depth(c) < Depth(c0))
    {
      c, t, h := c0, t0, h0;
      SiblingLook(c, t, h, rb_node, m);
      var other := parent.rb_right;
      if other.red {
        SwingLeft(other, parent, c, t, h);
        c := Swung(c);
        SiblingLook(c, t, h, rb_node, m);
        other := parent.rb_right;
      }
      if (other.rb_left == null || !other.rb_left.red) && (other.rb_right == null || !other.rb_right.red) {
        h := PassUp(other, c, t, h);
        c, t := c.up, Mk(c.s, c.n, c.red, t, Painted(c.sib, true));
        mended := false;
      } else {
        t := CloseLeft(other, parent, c, t, h);
        c := Top;
        mended := true;
      }
    }

    /** Black sibling with a red child: turned so that the far one is red, and mended. */
    method CloseRight(other0: RbNode, parent: RbNode, ghost c0: Ctx, ghost t: Tree, ghost h: nat)
        returns (ghost w: Tree)
      requires Backed() && Whole(Plug(c0, t), rb_node, m) == true && Short(c0, t, h) == true && c0.In? && Black(t) &&
        c0.s == R
      requires c0.sib.Node? && Black(c0.sib) && other0 == c0.sib.n && parent == c0.n &&
        !(Black(Near(c0)) && Black(Far(c0)))
      modifies this`rb_node, this`m, m.Keys
      ensures Backed() && m.Keys == old(m.Keys)
      ensures Whole(w, rb_node, m) == true && RedBlack(w) == true && InOrder(w) == InOrder(Plug(c0, t))
    {
      ghost var c := c0;
      var other := other0;
      SiblingLook(c, t, h, rb_node, m);
      if other.rb_left == null || !other.rb_left.red {
        TurnRight(other, c, t, h);
        c := Turned(c);
        SiblingLook(c, t, h, rb_node, m);
        other := parent.rb_left;
      }
      MendRight(other, parent, c, t, h);
      w := Plug(c.up, Mended(c, t));
    }

    /** One turn of the loop for a right child: true when nothing is missing any more, else the parent is next. */
    method FixRight(parent: RbNode, ghost c0: Ctx, ghost t0: Tree, ghost h0: nat)
      returns (mended: bool, ghost c: Ctx, ghost t: Tree, ghost h: nat)
      requires Backed() && Whole(Plug(c0, t0), rb_node, m) == true && Short(c0, t0, h0) == true && Black(t0)
      requires c0.In? && c0.s == R && parent == c0.n
      modifies this`rb_node, this`m, m.Keys
      ensures Backed() && m.Keys == old(m.Keys) && Whole(Plug(c, t), rb_node, m) == true
      ensures InOrder(Plug(c, t)) == InOrder(Plug(c0, t0))
      ensures if mended then c.Top? && RedBlack(t) == true
        else Short(c, t, h) == true && t.Node? && t.n == parent && (t.red || Depth(c) < Depth(c0))
    {
      c, t, h := c0, t0, h0;
      SiblingLook(c, t, h, rb_node, m);
      var other := parent.rb_left;
      if other.red {
        SwingRight(other, parent, c, t, h);
        c := Swung(c);
        SiblingLook(c, t, h, rb_node, m);
        other := parent.rb_left;
      }
      if (other.rb_left == null || !other.rb_left.red) && (other.rb_right == null || !other.rb_right.red) {
        h := PassUp(other, c, t, h);
        c, t := c.up, Mk(c.s, c.n, c.red, t, Painted(c.sib, true));
        mended := false;
      } else {
        t := CloseRight(other, parent, c, t, h);
        c := Top;
        mended := true;
      }
    }

    /** __rb_erase_color: one black node is missing on the way to node, which may be null. */
    method EraseColor(x: RbNode?, p: RbNode?, ghost c0: Ctx, ghost t0: Tree, ghost h0: nat)
      requires Backed() && Whole(Plug(c0, t0), rb_node, m) == true && Short(c0, t0, h0) == true
      requires x == Ptr(t0) && p == CtxNode(c0)
      modifies this, m.Keys
      ensures Backed() && m.Keys == old(m.Keys)
      ensures Whole(tree, rb_node, m) == true && RedBlack(tree) == true && InOrder(tree) == InOrder(Plug(c0, t0))
    {
      var node, parent := x, p;
      ghost var c, t, h := c0, t0, h0;
      ghost var keys, order := m.Keys, InOrder(Plug(c0, t0));
      ghost var mended := false;
      EraseLook(c, t, h, rb_node, m);
      while (node == null || !node.red) && node != rb_node
        invariant Backed() && m.Keys == keys && InOrder(Plug(c, t)) == order && Whole(Plug(c, t), rb_node, m) == true
        invariant Short(c, t, h) == true && node == Ptr(t) && parent == CtxNode(c) && !mended
        invariant (c.Top? <==> node == rb_node) && (node != null ==> node in m && node.red == t.red)
        decreases if Black(t) then Depth(c) + 1 else 0
      {
        EraseLook(c, t, h, rb_node, m);
        var done;
        if parent.rb_left == node {
          done, c, t, h := FixLeft(parent, c, t, h);
        } else {
          done, c, t, h := FixRight(parent, c, t, h);
        }
        if done {
          node := rb_node;
          mended := true;
          break;
        }
        node := parent;
        EraseLook(c, t, h, rb_node, m);
        Look(c, t, rb_node, m);
        parent := node.parent;
      }
      if !mended { EraseEnds(c, t, h); }
      BlackenFocus(node, c, t);
    }

    /** The end of __rb_erase_color. */
    method BlackenFocus(node: RbNode?, ghost c: Ctx, ghost t: Tree)
      requires Backed() && Whole(Plug(c, t), rb_node, m) == true && node == Ptr(t)
      requires RedBlack(Plug(c, Painted(t, false))) == true || (c.Top? && RedBlack(t))
      modifies this`m, this`tree, m.Keys
      ensures Backed() && m.Keys == old(m.Keys)
      ensures Whole(tree, rb_node, m) == true && RedBlack(tree) == true && InOrder(tree) == InOrder(Plug(c, t))
    {
      tree := Plug(c, Painted(t, false));
      if node != null {
        PaintAt(node, false, c, t);
      }
      assert c.Top? && Black(t) ==> tree == t;
    }

    /** rb_erase */
    method Erase(node: RbNode)
      requires Valid() && node in m
      modifies this, m.Keys
      ensures Valid() && m.Keys == old(m.Keys) - {node} && InOrder(tree) == Without(old(InOrder(tree)), node)
    {
      ghost var c, t := Locate(Top, tree, node);
      Look(c, t, rb_node, m);
      if node.rb_left != null && node.rb_right != null {
        EraseInner(node, c, t);
      } else {
        EraseOuter(node, if node.rb_left == null then node.rb_right else node.rb_left, c, t);
      }
    }

    /** At most one child: it takes the node's place. */
    method EraseOuter(node: RbNode, child: RbNode?, ghost c: Ctx, ghost t: Tree)
      requires Valid() == true && tree == Plug(c, t) && t.Node? && t.n == node && (t.l.Leaf? || t.r.Leaf?) &&
        child == Ptr(Only(t))
      modifies this, m.Keys
      ensures Valid() == true && m.Keys == old(m.Keys) - {node} && InOrder(tree) == Without(old(InOrder(tree)), node)
    {
      ghost var w := tree;
      OuterReady(c, t, rb_node, m);
      ghost var h := CutColors(c, t);
      var parent := node.parent;
      var red := node.red;
      if child != null {
        PutParent(child, parent);
      }
      RelinkFromLeft(parent, node, child);
      m := m - {node};
      Rebalance(red, child, parent, c, Only(t), h);
    }

    /** The label color of rb_erase. */
    method Rebalance(red: bool, child: RbNode?, parent: RbNode?, ghost c: Ctx, ghost k: Tree, ghost h: nat)
      requires Backed() && Whole(Plug(c, k), rb_node, m) == true && m.Keys == Nodes(Plug(c, k))
      requires if red then RedBlack(Plug(c, k)) == true else Short(c, k, h) == true
      requires child == Ptr(k) && (!red ==> parent == CtxNode(c))
      modifies this, m.Keys
      ensures Valid() == true && m.Keys == old(m.Keys) && InOrder(tree) == InOrder(Plug(c, k))
    {
      if !red {
        EraseColor(child, parent, c, k, h);
      } else {
        tree := Plug(c, k);
      }
      WholeNodes(tree, Plug(c, k));
    }

    /** Down the left children from start, the root of the subtree r below c. */
    method Leftmost(start: RbNode, ghost c: Ctx, ghost r: Tree) returns (node: RbNode, ghost yc: Ctx, ghost yt: Tree)
      requires Backed() && Whole(Plug(c, r), rb_node, m) == true && r.Node? && r.n == start
      ensures r == Plug(yc, yt) && AllLeft(yc) && yt.Node? && yt.l.Leaf? && yt.n == node && node in m
    {
      node, yc, yt := start, Top, r;
      LookDown(c, yc, yt, rb_node, m);
      while node.rb_left != null
        invariant r == Plug(yc, yt) && AllLeft(yc) && yt.Node? && yt.n == node && node in m
        invariant node.rb_left == Ptr(yt.l)
        decreases yt
      {
        node := node.rb_left;
        yc, yt := In(L, yt.n, yt.red, yt.r, yc), yt.l;
        LookDown(c, yc, yt, rb_node, m);
      }
    }

    /** The links rb_erase rewrites for a node z with two children and its successor. */
    method SpliceNodes(z: RbNode, node: RbNode, ghost k: RbNode?, ghost p: RbNode)
      returns (child: RbNode?, parent: RbNode, red: bool)
      requires Backed() && Around(m, z, node, k, p) == true && z in m && node in m
      modifies this`rb_node, this`m, m.Keys
      ensures Backed() && m == SpliceIn(old(m), z, node)
      ensures rb_node == if old(m)[z].parent == null then node else old(rb_node)
      ensures child == k && parent == (if p == z then node else p) && red == old(m)[node].red
    {
      ghost var m0 := m;
      RelinkFromLeft(z.parent, z, node);
      RelinkedElsewhere(m0, z, node, k, p);
      child := node.rb_right;
      parent := node.parent;
      red := node.red;
      if parent == z {
        parent := node;
      } else {
        MoveChildUp(z, node, child, parent);
      }
      TakeLinks(node, z, m0[z]);
    }

    /** The node takes over z's parent and colour, and its left child. */
    method TakeLinks(node: RbNode, z: RbNode, ghost w: Cell)
      requires Backed() && z in m && m[z] == w && node in m && z != node && w.left != null && w.left in m && w.left != z
      modifies this`m, m.Keys
      ensures Backed()
      ensures m == SetParent(SetKid(SetRed(SetParent(old(m), node, w.parent), node, w.red), node, L, w.left), w.left,
        node)
    {
      PutParent(node, z.parent);
      Paint(node, z.red);
      PutLeft(node, z.rb_left);
      PutParent(z.rb_left, node);
    }

    /** The successor's child takes its place, and it takes over z's right child. */
    method MoveChildUp(z: RbNode, node: RbNode, child: RbNode?, parent: RbNode)
      requires Backed() && z in m && node in m && parent in m && z != node && z != parent && z != child
      requires (child != null ==> child in m) && m[z].right != null && m[z].right in m
      modifies this`m, m.Keys
      ensures Backed() && m == MoveChild(old(m), z, node, child, parent)
    {
      if child != null {
        PutParent(child, parent);
      }
      PutLeft(parent, child);
      PutRight(node, z.rb_right);
      PutParent(z.rb_right, node);
    }

    /** Two children: the successor takes the node's place. */
    method EraseInner(z: RbNode, ghost c: Ctx, ghost t: Tree)
      requires Valid() == true && tree == Plug(c, t) && t.Node? && t.n == z && t.l.Node? && t.r.Node?
      modifies this, m.Keys
      ensures Valid() == true && m.Keys == old(m.Keys) - {z} && InOrder(tree) == Without(old(InOrder(tree)), z)
    {
      var child, parent, red;
      ghost var hole, k, h;
      child, parent, red, hole, k, h := SpliceOut(z, c, t);
      Rebalance(red, child, parent, hole, k, h);
    }

    /** What rb_erase does before the label color, for a node with two children. */
    method SpliceOut(z: RbNode, ghost c: Ctx, ghost t: Tree)
      returns (child: RbNode?, parent: RbNode, red: bool, ghost hole: Ctx, ghost k: Tree, ghost h: nat)
      requires Valid() == true && tree == Plug(c, t) && t.Node? && t.n == z && t.l.Node? && t.r.Node?
      modifies this`rb_node, this`m, m.Keys
      ensures Backed() && Whole(Plug(hole, k), rb_node, m) == true &&
        m.Keys == old(m.Keys) - {z} == Nodes(Plug(hole, k))
      ensures InOrder(Plug(hole, k)) == Without(old(InOrder(tree)), z)
      ensures if red then RedBlack(Plug(hole, k)) == true else Short(hole, k, h) == true
      ensures child == Ptr(k) && parent == CtxNode(hole)
    {
      var node;
      ghost var yc, yt;
      node, yc, yt, h := FindSuccessor(z, c, t);
      hole, k := NewHole(c, t, yc, yt), yt.r;
      child, parent, red := SpliceAt(z, node, c, t, yc, yt, h);
    }

    method SpliceAt(z: RbNode, node: RbNode, ghost c: Ctx, ghost t: Tree, ghost yc: Ctx, ghost yt: Tree, ghost h: nat)
      returns (child: RbNode?, parent: RbNode, red: bool)
      requires Backed() && t.Node? && t.n == z && yt.Node? && yt.n == node &&
        SpliceReady(c, t, yc, yt, rb_node, m, h) == true
      modifies this`rb_node, this`m, m.Keys
      ensures Backed() && m.Keys == old(m.Keys) - {z} && SplicedOut(c, t, yc, yt, rb_node, m, h) == true
      ensures child == Ptr(yt.r) && parent == CtxNode(NewHole(c, t, yc, yt)) && red == yt.red
    {
      ghost var p := CtxNode(OldHole(c, t, yc));
      SpliceEffects(c, t, yc, yt, rb_node, m, h, p);
      child, parent, red := SpliceNodes(z, node, Ptr(yt.r), p);
      m := m - {z};
    }

    /** node = node->rb_right, then down its left children: the successor, and what splicing it in will give. */
    method FindSuccessor(z: RbNode, ghost c: Ctx, ghost t: Tree)
      returns (node: RbNode, ghost yc: Ctx, ghost yt: Tree, ghost h: nat)
      requires Valid() == true && tree == Plug(c, t) && t.Node? && t.n == z && t.l.Node? && t.r.Node?
      ensures yt.Node? && node == yt.n && SpliceReady(c, t, yc, yt, rb_node, m, h) == true
    {
      Look(c, t, rb_node, m);
      node, yc, yt := Leftmost(z.rb_right, In(R, t.n, t.red, t.l, c), t.r);
      h := InnerAll(c, t, yc, yt, rb_node, m);
    }

    // ----- walking

    /** Down the right children from start, the root of the subtree r below c. */
    method Rightmost(start: RbNode, ghost c: Ctx, ghost r: Tree) returns (node: RbNode, ghost yc: Ctx, ghost yt: Tree)
      requires Backed() && Whole(Plug(c, r), rb_node, m) == true && r.Node? && r.n == start
      ensures r == Plug(yc, yt) && AllRight(yc) && yt.Node? && yt.r.Leaf? && yt.n == node && node in m
    {
      node, yc, yt := start, Top, r;
      LookDown(c, yc, yt, rb_node, m);
      while node.rb_right != null
        invariant r == Plug(yc, yt) && AllRight(yc) && yt.Node? && yt.n == node && node in m
        invariant node.rb_right == Ptr(yt.r)
        decreases yt
      {
        node := node.rb_right;
        yc, yt := In(R, yt.n, yt.red, yt.l, yc), yt.r;
        LookDown(c, yc, yt, rb_node, m);
      }
    }

    /** rb_first */
    method FirstNode() returns (n: RbNode?)
      requires Valid()
      ensures n == Head(InOrder(tree))
    {
      n := rb_node;
      RepNodes(tree, rb_node, null, m);
      if n != null {
        ghost var c, t;
        n, c, t := Leftmost(n, Top, tree);
        LeftEnd(c, t);
      }
    }

    /** rb_next */
    method Next(start: RbNode) returns (n: RbNode?)
      requires Valid() && start in m
      ensures n == Follow(InOrder(tree), start)
      ensures n != null ==> n in m
    {
      ghost var c, t := Locate(Top, tree, start);
      Look(c, t, rb_node, m);
      Neighbours(c, t);
      if start.parent == start {
        return null;
      }
      if start.rb_right != null {
        ghost var yc, yt;
        n, yc, yt := Leftmost(start.rb_right, In(R, t.n, t.red, t.l, c), t.r);
        LeftEnd(yc, yt);
        return;
      }
      n := ClimbRight(start, c, t);
    }

    /** Up while the node is a right child: to the first ancestor that lies behind it. */
    method ClimbRight(start: RbNode, ghost c0: Ctx, ghost t0: Tree) returns (parent: RbNode?)
      requires Backed() && Whole(Plug(c0, t0), rb_node, m) == true && t0.Node? && t0.n == start
      ensures parent == Head(After(c0)) && (parent != null ==> parent in m)
    {
      var node := start;
      ghost var c, t := c0, t0;
      Look(c, t, rb_node, m);
      parent := node.parent;
      while parent != null && node == parent.rb_right
        invariant Whole(Plug(c, t), rb_node, m) == true && t.Node? && t.n == node && After(c) == After(c0)
        invariant parent == CtxNode(c) &&
          (parent != null ==> parent in m && Kid(m[parent], c.s) == node && Kid(m[parent], Opp(c.s)) != node)
        decreases c
      {
        node := parent;
        c, t := c.up, Mk(c.s, c.n, c.red, t, c.sib);
        Look(c, t, rb_node, m);
        parent := node.parent;
      }
      assert c.In? ==> c.s == L;
    }

    /** rb_last */
    method LastNode() returns (n: RbNode?)
      requires Valid()
      ensures n == Last(InOrder(tree))
    {
      n := rb_node;
      RepNodes(tree, rb_node, null, m);
      if n != null {
        ghost var c, t;
        n, c, t := Rightmost(n, Top, tree);
        RightEnd(c, t);
      }
    }

    /** rb_prev */
    method Prev(start: RbNode) returns (n: RbNode?)
      requires Valid() && start in m
      ensures n == Precede(InOrder(tree), start)
      ensures n != null ==> n in m
    {
      ghost var c, t := Locate(Top, tree, start);
      Look(c, t, rb_node, m);
      Neighbours(c, t);
      if start.parent == start {
        return null;
      }
      if start.rb_left != null {
        ghost var yc, yt;
        n, yc, yt := Rightmost(start.rb_left, In(L, t.n, t.red, t.r, c), t.l);
        RightEnd(yc, yt);
        return;
      }
      n := ClimbLeft(start, c, t);
    }

    /** Up while the node is a left child: to the first ancestor that lies before it. */
    method ClimbLeft(start: RbNode, ghost c0: Ctx, ghost t0: Tree) returns (parent: RbNode?)
      requires Backed() && Whole(Plug(c0, t0), rb_node, m) == true && t0.Node? && t0.n == start
      ensures parent == Last(Before(c0)) && (parent != null ==> parent in m)
    {
      var node := start;
      ghost var c, t := c0, t0;
      Look(c, t, rb_node, m);
      parent := node.parent;
      while parent != null && node == parent.rb_left
        invariant Whole(Plug(c, t), rb_node, m) == true && t.Node? && t.n == node && Before(c) == Before(c0)
        invariant parent == CtxNode(c) &&
          (parent != null ==> parent in m && Kid(m[parent], c.s) == node && Kid(m[parent], Opp(c.s)) != node)
        decreases c
      {
        node := parent;
        c, t := c.up, Mk(c.s, c.n, c.red, t, c.sib);
        Look(c, t, rb_node, m);
        parent := node.parent;
      }
      assert c.In? ==> c.s == R;
    }

    /** The walk from rb_first by rb_next: every node once, in order. */
    method WalkForward() returns (visited: seq<RbNode>)
      requires Valid()
      ensures visited == InOrder(tree)
    {
      InOrderDistinct(tree);
      InOrderNodes(tree);
      ghost var order := InOrder(tree);
      visited := [];
      var n := FirstNode();
      while n != null
        invariant visited <= order && n == (if |visited| < |order| then order[|visited|] else null)
        decreases |order| - |visited|
      {
        FollowAt(order, |visited|);
        assert n in Elements(order);
        visited := visited + [n];
        n := Next(n);
      }
    }

    /** The walk from rb_last by rb_prev: the same backwards. */
    method WalkBackward() returns (visited: seq<RbNode>)
      requires Valid()
      ensures visited == Backwards(InOrder(tree))
    {
      InOrderDistinct(tree);
      InOrderNodes(tree);
      ghost var order := InOrder(tree);
      ghost var k: nat := |order|;
      visited := [];
      var n := LastNode();
      while n != null
        invariant k <= |order| && n == (if k > 0 then order[k - 1] else null) && visited == Backwards(order[k..])
        decreases k
      {
        FollowAt(order, k - 1);
        assert n in Elements(order);
        BackwardsStep(order, k);
        visited := visited + [n];
        n := Prev(n);
        k := k - 1;
        assert visited == Backwards(order[k..]);
      }
      assert order[0..] == order;
    }

    // ----- replacing

    /** rb_replace_node: other takes the place of the victim, colour and all. */
    method ReplaceNode(victim: RbNode, other: RbNode)
      requires Valid() && victim in m && other !in m
      modifies this, m.Keys, other
      ensures Valid() == true && m.Keys == old(m.Keys) - {victim} + {other}
      ensures InOrder(tree) == Renamed(old(InOrder(tree)), victim, other)
    {
      ghost var c, t := Locate(Top, tree, victim);
      ReplaceLook(c, t, other, rb_node, m);
      ReplaceEffects(c, t, other, rb_node, m);
      TakePlace(victim, other);
      tree := Plug(c, t.(n := other));
    }

    method TakePlace(victim: RbNode, other: RbNode)
      requires Backed() && victim in m && other !in m
      requires m[victim].parent != null ==> m[victim].parent in m && m[victim].parent != victim
      requires m[victim].left != null ==> m[victim].left in m && m[victim].left != victim
      requires m[victim].right != null ==> m[victim].right in m && m[victim].right != victim
      modifies this`rb_node, this`m, m.Keys, other
      ensures Backed() && m == Replaced(old(m), victim, other) - {victim}
      ensures rb_node == if old(m)[victim].parent == null then other else old(rb_node)
    {
      RelinkFromLeft(victim.parent, victim, other);
      if victim.rb_left != null {
        PutParent(victim.rb_left, other);
      }
      if victim.rb_right != null {
        PutParent(victim.rb_right, other);
      }
      CopyNode(victim, other);
    }

    /** *new = *victim; the victim is out of the tree now. */
    method CopyNode(victim: RbNode, other: RbNode)
      requires Backed() && victim in m && other !in m
      modifies this`m, other
      ensures Backed() && m == old(m)[other := old(m)[victim]] - {victim}
    {
      other.rb_left, other.rb_right, other.parent, other.red := victim.rb_left, victim.rb_right, victim.parent,
        victim.red;
      m := m[other := m[victim]] - {victim};
    }
  }
}
