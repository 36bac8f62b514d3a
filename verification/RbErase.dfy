/** Taking a node out of a tree in memory: cutting out a node with at most one child,
    putting one node in another's place, and the two together for a node with two children. */
module RbErase {
  import opened Sides
  import opened RbShape
  import opened RbColor

  // ----- cutting out a node with at most one child

  /** The child k of y is hung below y's parent. */
  ghost function CutOut(m: Store, y: RbNode, k: RbNode?, par: RbNode?): Store {
    Relinked(SetParent(m, k, par), par, L, y, k)
  }

  ghost predicate CutBits(m: Store, m': Store, c: Ctx, k: Tree) {
    m'.Keys == m.Keys &&
    (k.Node? ==> k.n in m && m'[k.n] == m[k.n].(parent := CtxNode(c))) &&
    (c.In? ==> c.n in m && m'[c.n] == WithKid(m[c.n], c.s, Ptr(k))) &&
    forall n :: n in m && n != Ptr(k) && n != CtxNode(c) ==> m'[n] == m[n]
  }

  lemma CutHasBits(m: Store, c: Ctx, y: RbNode, k: Tree)
    requires c.In? ==> c.n in m && Kid(m[c.n], c.s) == y && Kid(m[c.n], Opp(c.s)) != y && Ptr(k) != c.n
    requires k.Node? ==> k.n in m
    ensures CutBits(m, CutOut(m, y, Ptr(k), CtxNode(c)), c, k)
  {
  }

  /** One of t's subtrees is empty; this is the other. */
  ghost function Only(t: Tree): Tree
    requires t.Node?
  {
    if t.l.Leaf? then t.r else t.l
  }

  lemma CutOk(c: Ctx, t: Tree, root: RbNode?, m: Store)
    requires Whole(Plug(c, t), root, m) && t.Node? && (t.l.Leaf? || t.r.Leaf?)
    ensures Whole(Plug(c, Only(t)), if c.Top? then Ptr(Only(t)) else root, CutOut(m, t.n, Ptr(Only(t)), CtxNode(c)))
  {
    var k, m' := Only(t), CutOut(m, t.n, Ptr(Only(t)), CtxNode(c));
    PlugRep(c, t, root, m);
    PlugSeparate(c, t);
    PlugSeparate(c, k);
    Look(c, t, root, m);
    assert k.Node? ==> k.n in Nodes(k);
    RepNodes(k, Ptr(k), t.n, m);
    CutHasBits(m, c, t.n, k);
    CutRep(c, t, k, root, m, m');
    PlugRep(c, k, if c.Top? then Ptr(k) else root, m');
  }

  /** What is left is the tree without the node. */
  lemma CutNodes(c: Ctx, t: Tree)
    requires Separate(Plug(c, t)) && t.Node? && (t.l.Leaf? || t.r.Leaf?)
    ensures t.n !in Nodes(Plug(c, Only(t))) && Nodes(Plug(c, t)) == Nodes(Plug(c, Only(t))) + {t.n}
  {
    PlugSeparate(c, t);
    PlugNodes(c, t);
    PlugNodes(c, Only(t));
  }

  lemma CutOrder(c: Ctx, t: Tree)
    requires t.Node? && (t.l.Leaf? || t.r.Leaf?)
    ensures InOrder(Plug(c, t)) == Before(c) + InOrder(t.l) + [t.n] + InOrder(t.r) + After(c)
    ensures InOrder(Plug(c, Only(t))) == Before(c) + InOrder(t.l) + InOrder(t.r) + After(c)
  {
    PlugInOrder(c, t);
    PlugInOrder(c, Only(t));
    Regroup(Before(c), InOrder(t.l), [t.n], InOrder(t.r), After(c));
    OnlyOrder(t);
    Assoc3(Before(c), InOrder(t.l), InOrder(t.r));
  }

  lemma OnlyOrder(t: Tree)
    requires t.Node? && (t.l.Leaf? || t.r.Leaf?)
    ensures InOrder(Only(t)) == InOrder(t.l) + InOrder(t.r)
  {
  }

  lemma Assoc3(a: seq<RbNode>, b: seq<RbNode>, c: seq<RbNode>)
    ensures a + (b + c) == a + b + c
  {
  }

  lemma CutRep(c: Ctx, t: Tree, k: Tree, root: RbNode?, m: Store, m': Store)
    requires t.Node? && CtxRep(c, t.n, root, m) && Rep(k, Ptr(k), t.n, m) && Separate(k) && CtxSeparate(c)
    requires Nodes(k) !! CtxNodes(c) && CutBits(m, m', c, k)
    ensures Rep(k, Ptr(k), CtxNode(c), m') && CtxRep(c, Ptr(k), if c.Top? then Ptr(k) else root, m')
  {
    RepNodes(k, Ptr(k), t.n, m);
    CtxRepNodes(c, t.n, root, m);
    assert k.Node? ==> k.n in Nodes(k);
    assert c.In? ==> c.n in CtxNodes(c);
    Reparented(k, Ptr(k), t.n, CtxNode(c), m, m');
    CtxRelinked(c, t.n, Ptr(k), root, m, m', CtxSide(c));
  }

  /** Which rule a cut breaks: none if the node was red, else one black node is missing. */
  lemma CutColors(c: Ctx, t: Tree) returns (h: nat)
    requires RedBlack(Plug(c, t)) && t.Node? && (t.l.Leaf? || t.r.Leaf?)
    ensures if t.red then RedBlack(Plug(c, Only(t))) else Short(c, Only(t), h)
  {
    var h' := HoleGood(c, t);
    if t.red {
      PlugGood(c, Only(t), h');
      h := h';
    } else {
      h := h' - 1;
    }
  }

  // ----- one node in the place of another

  /** y gets the words of z, and z's relatives point at y. */
  ghost function Replaced(m: Store, z: RbNode, y: RbNode): Store
    requires z in m
  {
    var m1 := Relinked(m, m[z].parent, L, z, y);
    var m2 := SetParent(SetParent(m1, m[z].left, y), m[z].right, y);
    m2[y := m[z]]
  }

  ghost predicate ReplacedBits(m: Store, m': Store, c: Ctx, t: Tree, y: RbNode)
    requires t.Node?
  {
    t.n in m && m'.Keys == m.Keys + {y} && m'[y] == m[t.n] &&
    (t.l.Node? ==> t.l.n in m && m'[t.l.n] == m[t.l.n].(parent := y)) &&
    (t.r.Node? ==> t.r.n in m && m'[t.r.n] == m[t.r.n].(parent := y)) &&
    (c.In? ==> c.n in m && m'[c.n] == WithKid(m[c.n], c.s, y)) &&
    forall n :: n in m && n != y && n != Ptr(t.l) && n != Ptr(t.r) && n != CtxNode(c) ==> m'[n] == m[n]
  }

  lemma ReplacedHasBits(m: Store, c: Ctx, t: Tree, y: RbNode)
    requires t.Node? && t.n in m && m[t.n] == Cell(Ptr(t.l), Ptr(t.r), CtxNode(c), t.red)
    requires c.In? ==> c.n in m && Kid(m[c.n], c.s) == t.n && Kid(m[c.n], Opp(c.s)) != t.n
    requires t.l.Node? ==> t.l.n in m && t.l.n != y && t.l.n != CtxNode(c)
    requires t.r.Node? ==> t.r.n in m && t.r.n != y && t.r.n != CtxNode(c) && t.r.n != Ptr(t.l)
    requires t.n != y && CtxNode(c) != y
    ensures ReplacedBits(m, Replaced(m, t.n, y), c, t, y)
  {
  }

  lemma ReplaceOk(c: Ctx, t: Tree, y: RbNode, root: RbNode?, m: Store)
    requires Whole(Plug(c, t), root, m) && t.Node? && y !in Nodes(Plug(c, t))
    ensures t.n in m
    ensures Whole(Plug(c, t.(n := y)), if c.Top? then y else root, Replaced(m, t.n, y))
  {
    Look(c, t, root, m);
    var u, m' := t.(n := y), Replaced(m, t.n, y);
    PlugNodes(c, t);
    PlugRep(c, t, root, m);
    PlugSeparate(c, t);
    PlugSeparate(c, u);
    ReplacedApart(c, t, y);
    RepNodes(t, t.n, CtxNode(c), m);
    ReplacedHasBits(m, c, t, y);
    ReplaceRep(c, t, y, root, m, m');
    PlugRep(c, u, if c.Top? then y else root, m');
  }

  lemma ReplacedOrder(c: Ctx, t: Tree, y: RbNode)
    requires t.Node?
    ensures InOrder(Plug(c, t)) == Before(c) + InOrder(t.l) + [t.n] + InOrder(t.r) + After(c)
    ensures InOrder(Plug(c, t.(n := y))) == Before(c) + InOrder(t.l) + [y] + InOrder(t.r) + After(c)
  {
    PlugInOrder(c, t);
    PlugInOrder(c, t.(n := y));
    Regroup(Before(c), InOrder(t.l), [t.n], InOrder(t.r), After(c));
    Regroup(Before(c), InOrder(t.l), [y], InOrder(t.r), After(c));
  }

  lemma ReplacedApart(c: Ctx, t: Tree, y: RbNode)
    requires t.Node? && Separate(t) && Nodes(t) !! CtxNodes(c) && y !in Nodes(t) && y !in CtxNodes(c)
    ensures t.l.Node? ==> t.l.n != y && t.l.n != CtxNode(c) && t.l.n in Nodes(t)
    ensures t.r.Node? ==> t.r.n != y && t.r.n != CtxNode(c) && t.r.n != Ptr(t.l) && t.r.n in Nodes(t)
    ensures t.n != y && CtxNode(c) != y
    ensures Separate(t.(n := y)) && Nodes(t.(n := y)) !! CtxNodes(c)
  {
    assert t.l.Node? ==> t.l.n in Nodes(t.l);
    assert t.r.Node? ==> t.r.n in Nodes(t.r);
    assert c.In? ==> c.n in CtxNodes(c);
  }

  lemma ReplaceRep(c: Ctx, t: Tree, y: RbNode, root: RbNode?, m: Store, m': Store)
    requires t.Node? && CtxRep(c, t.n, root, m) && Rep(t, t.n, CtxNode(c), m) && Separate(t) && CtxSeparate(c)
    requires Nodes(t) !! CtxNodes(c) && y !in Nodes(t) && y !in CtxNodes(c) && ReplacedBits(m, m', c, t, y)
    ensures Rep(t.(n := y), y, CtxNode(c), m') && CtxRep(c, y, if c.Top? then y else root, m')
  {
    RepNodes(t, t.n, CtxNode(c), m);
    CtxRepNodes(c, t.n, root, m);
    ReplacedApart(c, t, y);
    assert c.In? ==> c.n in CtxNodes(c);
    ReplaceSubtrees(c, t, y, m, m');
    CtxRelinked(c, t.n, y, root, m, m', CtxSide(c));
  }

  lemma ReplaceSubtrees(c: Ctx, t: Tree, y: RbNode, m: Store, m': Store)
    requires t.Node? && Rep(t, t.n, CtxNode(c), m) && Separate(t) && Nodes(t) <= m.Keys
    requires Nodes(t) !! CtxNodes(c) && y !in Nodes(t) && ReplacedBits(m, m', c, t, y)
    ensures Rep(t.l, m[t.n].left, y, m') && Rep(t.r, m[t.n].right, y, m')
  {
    assert t.l.Node? ==> t.l.n in Nodes(t.l);
    assert t.r.Node? ==> t.r.n in Nodes(t.r);
    assert c.In? ==> c.n in CtxNodes(c);
    RepNodes(t.l, m[t.n].left, t.n, m);
    RepNodes(t.r, m[t.n].right, t.n, m);
    Reparented(t.l, m[t.n].left, t.n, y, m, m');
    Reparented(t.r, m[t.n].right, t.n, y, m, m');
  }

  // ----- a node with two children: its successor is cut out and takes its place

  ghost function Append(c: Ctx, base: Ctx): Ctx { if c.Top? then base else c.(up := Append(c.up, base)) }

  lemma {:induction false} AppendPlug(c: Ctx, base: Ctx, t: Tree)
    ensures Plug(Append(c, base), t) == Plug(base, Plug(c, t))
    ensures CtxNode(Append(c, base)) == if c.Top? then CtxNode(base) else c.n
  {
    if c.In? { AppendPlug(c.up, base, Mk(c.s, c.n, c.red, t, c.sib)); }
  }

  ghost predicate AllLeft(c: Ctx) { c.In? ==> c.s == L && AllLeft(c.up) }

  lemma {:induction false} NothingBefore(c: Ctx)
    requires AllLeft(c)
    ensures Before(c) == []
  {
    if c.In? { NothingBefore(c.up); }
  }

  /** y is the leftmost node in the right subtree of the node z of t. */
  ghost predicate Successor(t: Tree, yc: Ctx, yt: Tree) {
    t.Node? && t.l.Node? && t.r == Plug(yc, yt) && AllLeft(yc) && yt.Node? && yt.l.Leaf?
  }

  /** The tree with the successor cut out and put in z's place. */
  ghost function Spliced(t: Tree, yc: Ctx, yt: Tree): Tree
    requires t.Node? && yt.Node?
  {
    Node(yt.n, t.red, t.l, Plug(yc, yt.r))
  }

  /** The surroundings of what the successor leaves behind, in the old tree and in the new. */
  ghost function OldHole(c: Ctx, t: Tree, yc: Ctx): Ctx
    requires t.Node?
  {
    Append(yc, In(R, t.n, t.red, t.l, c))
  }

  ghost function NewHole(c: Ctx, t: Tree, yc: Ctx, yt: Tree): Ctx
    requires t.Node? && yt.Node?
  {
    Append(yc, In(R, yt.n, t.red, t.l, c))
  }

  lemma HolePlug(c: Ctx, t: Tree, yc: Ctx, yt: Tree)
    requires Successor(t, yc, yt)
    ensures Plug(OldHole(c, t, yc), yt) == Plug(c, t) && OldHole(c, t, yc).In?
    ensures Plug(OldHole(c, t, yc), yt.r) == Plug(c, t.(r := Plug(yc, yt.r)))
    ensures Plug(NewHole(c, t, yc, yt), yt.r) == Plug(c, Spliced(t, yc, yt))
    ensures CtxNode(OldHole(c, t, yc)) == if yc.Top? then t.n else yc.n
    ensures CtxNode(NewHole(c, t, yc, yt)) == if yc.Top? then yt.n else yc.n
  {
    AppendPlug(yc, In(R, t.n, t.red, t.l, c), yt);
    AppendPlug(yc, In(R, t.n, t.red, t.l, c), yt.r);
    AppendPlug(yc, In(R, yt.n, t.red, t.l, c), yt.r);
  }

  /** The splice loses z and nothing else. */
  lemma SpliceOrder(c: Ctx, t: Tree, yc: Ctx, yt: Tree)
    requires Successor(t, yc, yt)
    ensures InOrder(Plug(c, t)) == Before(c) + InOrder(t.l) + [t.n] + InOrder(t.r) + After(c)
    ensures InOrder(Plug(c, Spliced(t, yc, yt))) == Before(c) + InOrder(t.l) + InOrder(t.r) + After(c)
  {
    ReplacedOrder(c, t, t.n);
    ReplacedOrder(c, Spliced(t, yc, yt), yt.n);
    SuccessorFirst(t, yc, yt);
    var b, d := Before(c) + InOrder(t.l), InOrder(Plug(yc, yt.r));
    assert b + [yt.n] + d == b + ([yt.n] + d);
  }

  lemma SuccessorFirst(t: Tree, yc: Ctx, yt: Tree)
    requires Successor(t, yc, yt)
    ensures InOrder(t.r) == [yt.n] + InOrder(Plug(yc, yt.r))
  {
    PlugInOrder(yc, yt);
    PlugInOrder(yc, yt.r);
    NothingBefore(yc);
    assert InOrder(yt) == [yt.n] + InOrder(yt.r);
  }

  /** Colours stay where they were, so the splice breaks no more than the cut. */
  lemma SpliceColors(c: Ctx, t: Tree, yc: Ctx, yt: Tree) returns (h: nat)
    requires RedBlack(Plug(c, t)) && Successor(t, yc, yt)
    ensures if yt.red then RedBlack(Plug(c, Spliced(t, yc, yt))) else Short(NewHole(c, t, yc, yt), yt.r, h)
  {
    HolePlug(c, t, yc, yt);
    h := HoleGood(OldHole(c, t, yc), yt);
    SameColors(yc, In(R, t.n, t.red, t.l, c), In(R, yt.n, t.red, t.l, c), h);
    if yt.red {
      PlugGood(NewHole(c, t, yc, yt), yt.r, h);
    } else {
      h := h - 1;
    }
  }

  lemma {:induction false} SameColors(c: Ctx, base: Ctx, base': Ctx, h: nat)
    requires base.In? && base'.In? && base' == base.(n := base'.n)
    ensures CtxGood(Append(c, base), h) <==> CtxGood(Append(c, base'), h)
    ensures Append(c, base).In? && Append(c, base').In? && Append(c, base).red == Append(c, base').red
  {
    if c.In? { SameColors(c.up, base, base', if c.red then h else h + 1); }
  }

  /** The statements of rb_erase for a node with two children, in order. */
  ghost function SpliceIn(m: Store, z: RbNode, y: RbNode): Store
    requires z in m && y in m
  {
    var m1 := Relinked(m, m[z].parent, L, z, y);
    var m2 := if m[y].parent == z then m1 else MoveChild(m1, z, y, m[y].right, m[y].parent);
    var m3 := SetKid(SetRed(SetParent(m2, y, m[z].parent), y, m[z].red), y, L, m[z].left);
    SetParent(m3, m[z].left, y)
  }

  ghost function MoveChild(m: Store, z: RbNode, y: RbNode, child: RbNode?, parent: RbNode?): Store
    requires z in m
  {
    SetParent(SetKid(SetKid(SetParent(m, child, parent), parent, L, child), y, R, m[z].right), m[z].right, y)
  }

  /** The nodes around a splice are distinct: z and its relatives, y, its child k and its parent p. */
  ghost predicate Around(m: Store, z: RbNode, y: RbNode, k: RbNode?, p: RbNode) {
    z in m && y in m && p in m && y != z && m[y].right == k && m[y].parent == p && m[y].left == null &&
    k != z && k != y && k != p && k != m[z].left &&
      (k != null ==> k in m && m[k].parent == y && k != m[z].right && k != m[z].parent) &&
    m[z].left != null && m[z].left in m && m[z].left != z && m[z].left != y && m[z].left != m[z].right &&
      m[z].left != p &&
    m[z].right != null && m[z].right in m && m[z].right != z && m[z].parent != z && m[z].parent != y &&
      m[z].parent != p &&
    (m[z].parent != null ==> m[z].parent in m && m[z].parent != m[z].left && m[z].parent != m[z].right) &&
    p != y && (p == z <==> m[z].right == y) && Kid(m[p], if p == z then R else L) == y &&
      (p != z ==> m[p].right != y) &&
    (p == z ==> m[p].left != y)
  }

  /** Pointing z's parent at y changes neither y nor z. */
  lemma RelinkedElsewhere(m: Store, z: RbNode, y: RbNode, k: RbNode?, p: RbNode)
    requires Around(m, z, y, k, p)
    ensures var m1 := Relinked(m, m[z].parent, L, z, y);
      m1.Keys == m.Keys && m1[z] == m[z] && m1[y] == m[y] && m[y].right == k && m[y].parent == p && p in m && z in m &&
        y in m && z != y &&
      (k != null ==> k in m && k != z) && m[z].left != null && m[z].left in m && m[z].left != z &&
      m[z].right != null && m[z].right in m && m[z].right != z && (m[z].parent != null ==> m[z].parent in m)
    ensures p != z ==> var m2 := MoveChild(Relinked(m, m[z].parent, L, z, y), z, y, k, p);
      m2.Keys == m.Keys && m2[z] == m[z]
  {
  }

  /** C's statements have the effect of the cut followed by the replacement, but for z itself. */
  lemma SpliceWords(m: Store, z: RbNode, y: RbNode, k: RbNode?, p: RbNode)
    requires Around(m, z, y, k, p)
    ensures var m' := CutOut(m, y, k, p);
      z in m' && SpliceIn(m, z, y).Keys == Replaced(m', z, y).Keys == m.Keys &&
      forall n :: n in m && n != z ==> SpliceIn(m, z, y)[n] == Replaced(m', z, y)[n]
  {
    if p == z {
      SpliceWordsNear(m, z, y, k);
    } else {
      SpliceWordsFar(m, z, y, k, p);
    }
  }

  lemma SpliceWordsNear(m: Store, z: RbNode, y: RbNode, k: RbNode?)
    requires Around(m, z, y, k, z)
    ensures var m' := CutOut(m, y, k, z);
      z in m' && SpliceIn(m, z, y).Keys == Replaced(m', z, y).Keys == m.Keys &&
      forall n :: n in m && n != z ==> SpliceIn(m, z, y)[n] == Replaced(m', z, y)[n]
  {
    SpliceKeysNear(m, z, y, k);
    forall n | n in m && n != z ensures SpliceIn(m, z, y)[n] == Replaced(CutOut(m, y, k, z), z, y)[n] {
      SpliceNearAt(m, z, y, k, n);
    }
  }

  lemma SpliceKeysNear(m: Store, z: RbNode, y: RbNode, k: RbNode?)
    requires Around(m, z, y, k, z)
    ensures z in CutOut(m, y, k, z) && SpliceIn(m, z, y).Keys == Replaced(CutOut(m, y, k, z), z, y).Keys == m.Keys
  {
  }

  lemma SpliceNearAt(m: Store, z: RbNode, y: RbNode, k: RbNode?, n: RbNode)
    requires Around(m, z, y, k, z) && n in m && n != z
    requires z in CutOut(m, y, k, z) && n in SpliceIn(m, z, y) && n in Replaced(CutOut(m, y, k, z), z, y)
    ensures SpliceIn(m, z, y)[n] == Replaced(CutOut(m, y, k, z), z, y)[n]
  {
  }

  /** The new words of the node n when y, not z's own child, is spliced in for z. */
  ghost function SplicedWord(m: Store, z: RbNode, y: RbNode, k: RbNode?, p: RbNode, n: RbNode): Cell
    requires z in m && n in m
  {
    if n == y then m[z]
    else if n == p then (if p == m[z].right then m[n].(left := k, parent := y) else m[n].(left := k))
    else if n == k then m[n].(parent := p)
    else if n == m[z].left || n == m[z].right then m[n].(parent := y)
    else if n == m[z].parent then WithKid(m[n], if m[n].left == z then L else R, y)
    else m[n]
  }

  lemma SpliceWordsFar(m: Store, z: RbNode, y: RbNode, k: RbNode?, p: RbNode)
    requires Around(m, z, y, k, p) && p != z
    ensures var m' := CutOut(m, y, k, p);
      z in m' && SpliceIn(m, z, y).Keys == Replaced(m', z, y).Keys == m.Keys &&
      forall n :: n in m && n != z ==> SpliceIn(m, z, y)[n] == Replaced(m', z, y)[n]
  {
    SpliceInFar(m, z, y, k, p);
    CutReplaceFar(m, z, y, k, p);
  }

  lemma SpliceInFar(m: Store, z: RbNode, y: RbNode, k: RbNode?, p: RbNode)
    requires Around(m, z, y, k, p) && p != z
    ensures SpliceIn(m, z, y).Keys == m.Keys
    ensures forall n :: n in m && n != z ==> SpliceIn(m, z, y)[n] == SplicedWord(m, z, y, k, p, n)
  {
    SpliceKeysFar(m, z, y, k, p);
    forall n | n in m && n != z ensures SpliceIn(m, z, y)[n] == SplicedWord(m, z, y, k, p, n) {
      SpliceFarAt(m, z, y, k, p, n);
    }
  }

  lemma SpliceKeysFar(m: Store, z: RbNode, y: RbNode, k: RbNode?, p: RbNode)
    requires Around(m, z, y, k, p) && p != z
    ensures SpliceIn(m, z, y).Keys == m.Keys
  {
  }

  lemma SpliceFarAt(m: Store, z: RbNode, y: RbNode, k: RbNode?, p: RbNode, n: RbNode)
    requires Around(m, z, y, k, p) && p != z && n in m && n != z && n in SpliceIn(m, z, y)
    ensures SpliceIn(m, z, y)[n] == SplicedWord(m, z, y, k, p, n)
  {
    var m1 := Relinked(m, m[z].parent, L, z, y);
    RelinkedElsewhere(m, z, y, k, p);
    var m2 := MoveChild(m1, z, y, k, p);
    MoveChildAt(m1, z, y, k, p, n);
    MoveChildAt(m1, z, y, k, p, y);
    TakeLinksAt(m2, y, m[z], n);
  }

  lemma MoveChildAt(m: Store, z: RbNode, y: RbNode, k: RbNode?, p: RbNode, n: RbNode)
    requires z in m && y in m && p in m && n in m && y != p && k != y && k != p && m[z].right != null && m[z].right in m
    requires m[z].right != y && m[z].right != k && (k != null ==> k in m)
    ensures var m', r := MoveChild(m, z, y, k, p), m[z].right;
      m'.Keys == m.Keys &&
      m'[n] == if n == y then m[n].(right := r)
               else if n == p then (if p == r then m[n].(left := k, parent := y) else m[n].(left := k))
               else if n == k then m[n].(parent := p)
               else if n == r then m[n].(parent := y)
               else m[n]
  {
  }

  lemma TakeLinksAt(m: Store, y: RbNode, w: Cell, n: RbNode)
    requires y in m && n in m && w.left != y
    ensures var m' := SetParent(SetKid(SetRed(SetParent(m, y, w.parent), y, w.red), y, L, w.left), w.left, y);
      m'.Keys == m.Keys &&
      m'[n] == if n == y then m[n].(parent := w.parent, red := w.red, left := w.left)
               else if n == w.left then m[n].(parent := y)
               else m[n]
  {
  }

  lemma CutReplaceFar(m: Store, z: RbNode, y: RbNode, k: RbNode?, p: RbNode)
    requires Around(m, z, y, k, p) && p != z
    ensures z in CutOut(m, y, k, p) && Replaced(CutOut(m, y, k, p), z, y).Keys == m.Keys
    ensures forall n :: n in m && n != z ==> Replaced(CutOut(m, y, k, p), z, y)[n] == SplicedWord(m, z, y, k, p, n)
  {
    CutReplaceKeys(m, z, y, k, p);
    forall n | n in m && n != z ensures Replaced(CutOut(m, y, k, p), z, y)[n] == SplicedWord(m, z, y, k, p, n) {
      CutReplaceAt(m, z, y, k, p, n);
    }
  }

  lemma CutReplaceKeys(m: Store, z: RbNode, y: RbNode, k: RbNode?, p: RbNode)
    requires Around(m, z, y, k, p) && p != z
    ensures z in CutOut(m, y, k, p) && Replaced(CutOut(m, y, k, p), z, y).Keys == m.Keys
  {
  }

  lemma CutReplaceAt(m: Store, z: RbNode, y: RbNode, k: RbNode?, p: RbNode, n: RbNode)
    requires Around(m, z, y, k, p) && p != z && n in m && n != z
    requires z in CutOut(m, y, k, p) && n in Replaced(CutOut(m, y, k, p), z, y)
    ensures Replaced(CutOut(m, y, k, p), z, y)[n] == SplicedWord(m, z, y, k, p, n)
  {
  }

  /** A node with two children is gone, its successor in its place. */
  lemma SpliceOk(c: Ctx, t: Tree, yc: Ctx, yt: Tree, root: RbNode?, m: Store)
    requires Whole(Plug(c, t), root, m) && Successor(t, yc, yt)
    ensures t.n in m && yt.n in m
    ensures Whole(Plug(c, Spliced(t, yc, yt)), if c.Top? then yt.n else root, SpliceIn(m, t.n, yt.n))
    ensures t.n !in Nodes(Plug(c, Spliced(t, yc, yt))) &&
      Nodes(Plug(c, t)) == Nodes(Plug(c, Spliced(t, yc, yt))) + {t.n}
  {
    SplicedAround(c, t, yc, yt, root, m);
    SpliceByParts(c, t, yc, yt, root, m);
    SplicedNodes(c, t, yc, yt);
    var m2 := Replaced(CutOut(m, yt.n, Ptr(yt.r), CtxNode(OldHole(c, t, yc))), t.n, yt.n);
    var w, root' := Plug(c, Spliced(t, yc, yt)), if c.Top? then yt.n else root;
    SpliceWords(m, t.n, yt.n, Ptr(yt.r), CtxNode(OldHole(c, t, yc)));
    RepNodes(w, root', null, m2);
    RepFrame(w, root', null, m2, SpliceIn(m, t.n, yt.n));
  }

  lemma SpliceByParts(c: Ctx, t: Tree, yc: Ctx, yt: Tree, root: RbNode?, m: Store)
    requires Whole(Plug(c, t), root, m) && Successor(t, yc, yt)
    ensures var m1 := CutOut(m, yt.n, Ptr(yt.r), CtxNode(OldHole(c, t, yc)));
      t.n in m1 && Whole(Plug(c, Spliced(t, yc, yt)), if c.Top? then yt.n else root, Replaced(m1, t.n, yt.n))
  {
    HolePlug(c, t, yc, yt);
    CutOk(OldHole(c, t, yc), yt, root, m);
    CutNodes(OldHole(c, t, yc), yt);
    ReplaceOk(c, t.(r := Plug(yc, yt.r)), yt.n, root, CutOut(m, yt.n, Ptr(yt.r), CtxNode(OldHole(c, t, yc))));
  }

  lemma SplicedNodes(c: Ctx, t: Tree, yc: Ctx, yt: Tree)
    requires Separate(Plug(c, t)) && Successor(t, yc, yt)
    ensures t.n !in Nodes(Plug(c, Spliced(t, yc, yt))) &&
      Nodes(Plug(c, t)) == Nodes(Plug(c, Spliced(t, yc, yt))) + {t.n}
  {
    PlugSeparate(c, t);
    PlugNodes(c, t);
    PlugNodes(c, Spliced(t, yc, yt));
    PlugNodes(yc, yt);
    PlugNodes(yc, yt.r);
  }

  /** The parts of the tree around a splice: below z on the left, below y, between z and y, and outside. */
  ghost predicate Regions(z: RbNode, y: RbNode, A: set<RbNode>, B: set<RbNode>, C: set<RbNode>, D: set<RbNode>) {
    z != y && z !in A && z !in B && z !in C && z !in D && y !in A && y !in B && y !in C && y !in D &&
    A !! B && A !! C && A !! D && B !! C && B !! D && C !! D
  }

  lemma RegionsOf(c: Ctx, t: Tree, yc: Ctx, yt: Tree)
    requires Separate(Plug(c, t)) && Successor(t, yc, yt)
    ensures Regions(t.n, yt.n, Nodes(t.l), Nodes(yt.r), CtxNodes(yc), CtxNodes(c))
  {
    PlugSeparate(c, t);
    PlugSeparate(yc, yt);
    PlugNodes(yc, yt);
  }

  lemma AroundFromParts(m: Store, z: RbNode, y: RbNode, k: RbNode?, p: RbNode, A: set<RbNode>, B: set<RbNode>,
        C: set<RbNode>, D: set<RbNode>)
    requires Regions(z, y, A, B, C, D) && A <= m.Keys && B <= m.Keys && C <= m.Keys && D <= m.Keys && z in m && y in m
    requires m[y] == Cell(null, k, p, m[y].red) && (k != null ==> k in B && m[k].parent == y)
    requires m[z].left != null && m[z].left in A && m[z].right != null
    requires m[z].parent != null ==> m[z].parent in D
    requires if p == z then m[z].right == y else p in C && m[z].right in C && m[p].left == y && m[p].right != y
    ensures Around(m, z, y, k, p)
  {
  }

  /** The nodes a splice touches, by their places in the tree. */
  lemma SplicedAround(c: Ctx, t: Tree, yc: Ctx, yt: Tree, root: RbNode?, m: Store)
    requires Whole(Plug(c, t), root, m) && Successor(t, yc, yt)
    ensures t.n in m && yt.n in m && CtxNode(OldHole(c, t, yc)) != null
    ensures Around(m, t.n, yt.n, Ptr(yt.r), CtxNode(OldHole(c, t, yc)))
  {
    var hole := OldHole(c, t, yc);
    HolePlug(c, t, yc, yt);
    RegionsOf(c, t, yc, yt);
    SpliceLook(c, t, yc, yt, root, m);
    AroundFromParts(m, t.n, yt.n, Ptr(yt.r), CtxNode(hole), Nodes(t.l), Nodes(yt.r), CtxNodes(yc), CtxNodes(c));
  }

  lemma SpliceLook(c: Ctx, t: Tree, yc: Ctx, yt: Tree, root: RbNode?, m: Store)
    requires Whole(Plug(c, t), root, m) && Successor(t, yc, yt)
    ensures Nodes(t.l) <= m.Keys && Nodes(yt.r) <= m.Keys && CtxNodes(yc) <= m.Keys && CtxNodes(c) <= m.Keys
    ensures t.n in m && m[t.n] == Cell(t.l.n, Ptr(t.r), CtxNode(c), t.red) && t.l.n in Nodes(t.l) && t.r.Node?
    ensures yt.n in m && m[yt.n] == Cell(null, Ptr(yt.r), if yc.Top? then t.n else yc.n, yt.red)
    ensures yc.In? ==> yc.n in m && m[yc.n].left == yt.n && m[yc.n].right != yt.n
    ensures yt.r.Node? ==> yt.r.n in Nodes(yt.r) && yt.r.n in m && m[yt.r.n].parent == yt.n
    ensures if yc.Top? then t.r.n == yt.n else t.r.n in CtxNodes(yc)
    ensures c.In? ==> c.n in CtxNodes(c)
  {
    Rooted(yc, yt);
    SpliceKeys(c, t, yc, yt, root, m);
    Look(c, t, root, m);
    SuccessorLook(c, t, yc, yt, root, m);
  }

  lemma SuccessorLook(c: Ctx, t: Tree, yc: Ctx, yt: Tree, root: RbNode?, m: Store)
    requires Whole(Plug(c, t), root, m) && Successor(t, yc, yt)
    ensures yt.n in m && m[yt.n] == Cell(null, Ptr(yt.r), if yc.Top? then t.n else yc.n, yt.red)
    ensures yc.In? ==> yc.n in m && m[yc.n].left == yt.n && m[yc.n].right != yt.n
    ensures yt.r.Node? ==> yt.r.n in m && m[yt.r.n].parent == yt.n
  {
    HolePlug(c, t, yc, yt);
    Look(OldHole(c, t, yc), yt, root, m);
    if yt.r.Node? { Look(In(R, yt.n, yt.red, yt.l, OldHole(c, t, yc)), yt.r, root, m); }
  }

  lemma SpliceKeys(c: Ctx, t: Tree, yc: Ctx, yt: Tree, root: RbNode?, m: Store)
    requires Whole(Plug(c, t), root, m) && Successor(t, yc, yt)
    ensures Nodes(t.l) <= m.Keys && Nodes(yt.r) <= m.Keys && CtxNodes(yc) <= m.Keys && CtxNodes(c) <= m.Keys
  {
    PlugNodes(c, t);
    PlugNodes(yc, yt);
    RepNodes(Plug(c, t), root, null, m);
  }

  lemma {:induction false} Rooted(c: Ctx, t: Tree)
    requires t.Node?
    ensures Plug(c, t).Node? && (c.Top? ==> Plug(c, t).n == t.n) && (c.In? ==> Plug(c, t).n in CtxNodes(c))
  {
    if c.In? { Rooted(c.up, Mk(c.s, c.n, c.red, t, c.sib)); }
  }

  // ----- sequences of distinct nodes

  ghost function Without(s: seq<RbNode>, n: RbNode): seq<RbNode> {
    if s == [] then [] else if s[0] == n then Without(s[1..], n) else [s[0]] + Without(s[1..], n)
  }

  lemma {:induction false} WithoutNone(s: seq<RbNode>, n: RbNode)
    requires n !in s
    ensures Without(s, n) == s
  {
    if s != [] { WithoutNone(s[1..], n); }
  }

  lemma {:induction false} WithoutSplit(a: seq<RbNode>, b: seq<RbNode>, n: RbNode)
    ensures Without(a + b, n) == Without(a, n) + Without(b, n)
  {
    if a == [] {
      assert a + b == b;
    } else {
      WithoutSplit(a[1..], b, n);
      var s := a + b;
      assert s[1..] == a[1..] + b && s[0] == a[0] && s != [];
    }
  }

  lemma WithoutOne(a: seq<RbNode>, n: RbNode, b: seq<RbNode>)
    requires n !in a && n !in b
    ensures Without(a + [n] + b, n) == a + b
  {
    WithoutSplit(a + [n], b, n);
    WithoutSplit(a, [n], n);
    WithoutNone(a, n);
    WithoutNone(b, n);
    WithoutItself(n);
    assert a + [] == a;
  }

  lemma WithoutItself(n: RbNode)
    ensures Without([n], n) == []
  {
    assert [n][1..] == [];
  }

  lemma WithoutMiddle(a: seq<RbNode>, b: seq<RbNode>, n: RbNode, d: seq<RbNode>, e: seq<RbNode>)
    requires n !in a && n !in b && n !in d && n !in e
    ensures Without(a + b + [n] + d + e, n) == a + b + d + e
  {
    WithoutOne(a + b, n, d + e);
    MiddleOut(a, b, n, d, e);
  }

  lemma MiddleOut(a: seq<RbNode>, b: seq<RbNode>, n: RbNode, d: seq<RbNode>, e: seq<RbNode>)
    ensures a + b + [n] + d + e == (a + b) + [n] + (d + e) && a + b + d + e == (a + b) + (d + e)
  {
  }

  ghost function Elements(s: seq<RbNode>): set<RbNode> { set n | n in s }

  lemma {:induction false} InOrderNodes(t: Tree)
    ensures Elements(InOrder(t)) == Nodes(t)
  {
    if t.Node? {
      InOrderNodes(t.l);
      InOrderNodes(t.r);
    }
  }

  lemma {:induction false} CtxOrderNodes(c: Ctx)
    ensures forall n :: n in Before(c) || n in After(c) ==> n in CtxNodes(c)
  {
    if c.In? {
      InOrderNodes(c.sib);
      assert forall n :: n in InOrder(c.sib) ==> n in Elements(InOrder(c.sib));
      CtxOrderNodes(c.up);
    }
  }

  /** A node's neighbours in the order do not contain it again. */
  lemma OnceInOrder(c: Ctx, t: Tree)
    requires Separate(Plug(c, t)) && t.Node?
    ensures t.n !in Before(c) && t.n !in InOrder(t.l) && t.n !in InOrder(t.r) && t.n !in After(c)
  {
    PlugSeparate(c, t);
    InOrderNodes(t.l);
    InOrderNodes(t.r);
    CtxOrderNodes(c);
    assert t.n !in Elements(InOrder(t.l)) && t.n !in Elements(InOrder(t.r));
  }

  /** Both ways of erasing take exactly z out of the order. */
  lemma ErasedOrder(c: Ctx, t: Tree, w: Tree)
    requires Separate(Plug(c, t)) && t.Node? && InOrder(w) == Before(c) + InOrder(t.l) + InOrder(t.r) + After(c)
    ensures InOrder(w) == Without(InOrder(Plug(c, t)), t.n)
  {
    OnceInOrder(c, t);
    PlugInOrder(c, t);
    Regroup(Before(c), InOrder(t.l), [t.n], InOrder(t.r), After(c));
    WithoutMiddle(Before(c), InOrder(t.l), t.n, InOrder(t.r), After(c));
  }

  /** The place of a node in the tree. */
  lemma {:induction false} Locate(c: Ctx, t: Tree, n: RbNode) returns (c': Ctx, t': Tree)
    requires n in Nodes(t)
    ensures Plug(c', t') == Plug(c, t) && t'.Node? && t'.n == n
    decreases t
  {
    if t.n == n {
      c', t' := c, t;
    } else if n in Nodes(t.l) {
      c', t' := Locate(In(L, t.n, t.red, t.r, c), t.l, n);
    } else {
      c', t' := Locate(In(R, t.n, t.red, t.l, c), t.r, n);
    }
  }

  /** A node no longer in the tree may be forgotten. */
  lemma Forgotten(w: Tree, root: RbNode?, m: Store, z: RbNode)
    requires Whole(w, root, m) && z !in Nodes(w)
    ensures Whole(w, root, m - {z})
  {
    RepNodes(w, root, null, m);
    RepFrame(w, root, null, m, m - {z});
  }

  /** Everything a cut needs and gives, the forgotten node included. */
  lemma OuterReady(c: Ctx, t: Tree, root: RbNode?, m: Store)
    requires Whole(Plug(c, t), root, m) && m.Keys == Nodes(Plug(c, t)) && t.Node? && (t.l.Leaf? || t.r.Leaf?)
    ensures t.n in m && m[t.n].parent == CtxNode(c) && m[t.n].red == t.red
    ensures CtxNode(c) != null ==> CtxNode(c) in m && CtxNode(c) != t.n
    ensures Ptr(Only(t)) != null ==> Ptr(Only(t)) in m && Ptr(Only(t)) != t.n
    ensures var m' := CutOut(m, t.n, Ptr(Only(t)), CtxNode(c)) - {t.n};
      Whole(Plug(c, Only(t)), if c.Top? then Ptr(Only(t)) else root, m') == true &&
      m'.Keys == m.Keys - {t.n} == Nodes(Plug(c, Only(t)))
    ensures InOrder(Plug(c, Only(t))) == Without(InOrder(Plug(c, t)), t.n)
  {
    OuterLook(c, t, root, m);
    CutOk(c, t, root, m);
    CutNodes(c, t);
    CutErases(c, t);
    Forgotten(Plug(c, Only(t)), if c.Top? then Ptr(Only(t)) else root, CutOut(m, t.n, Ptr(Only(t)), CtxNode(c)), t.n);
  }

  lemma CutErases(c: Ctx, t: Tree)
    requires Separate(Plug(c, t)) && t.Node? && (t.l.Leaf? || t.r.Leaf?)
    ensures InOrder(Plug(c, Only(t))) == Without(InOrder(Plug(c, t)), t.n)
  {
    CutOrder(c, t);
    ErasedOrder(c, t, Plug(c, Only(t)));
  }

  lemma OuterLook(c: Ctx, t: Tree, root: RbNode?, m: Store)
    requires Whole(Plug(c, t), root, m) && m.Keys == Nodes(Plug(c, t)) && t.Node? && (t.l.Leaf? || t.r.Leaf?)
    ensures t.n in m && m[t.n].parent == CtxNode(c) && m[t.n].red == t.red
    ensures CtxNode(c) != null ==> CtxNode(c) in m && CtxNode(c) != t.n
    ensures Ptr(Only(t)) != null ==> Ptr(Only(t)) in m && Ptr(Only(t)) != t.n
    ensures CutOut(m, t.n, Ptr(Only(t)), CtxNode(c)).Keys == m.Keys
  {
    Look(c, t, root, m);
    PlugSeparate(c, t);
    PlugNodes(c, t);
    assert Only(t).Node? ==> Only(t).n in Nodes(Only(t));
    assert c.In? ==> c.n in CtxNodes(c);
  }

  /** Trees of the same order have the same nodes. */
  lemma WholeNodes(t: Tree, u: Tree)
    requires InOrder(t) == InOrder(u)
    ensures Nodes(t) == Nodes(u)
  {
    InOrderNodes(t);
    InOrderNodes(u);
  }

  /** The words of a node on the way down a subtree. */
  lemma LookDown(c: Ctx, yc: Ctx, yt: Tree, root: RbNode?, m: Store)
    requires Whole(Plug(c, Plug(yc, yt)), root, m)
    ensures yt.Node? ==> yt.n in m && m[yt.n].left == Ptr(yt.l) && m[yt.n].right == Ptr(yt.r) && m[yt.n].red == yt.red
  {
    AppendPlug(yc, c, yt);
    Look(Append(yc, c), yt, root, m);
  }

  /** What a splice gives. */
  lemma InnerReady(c: Ctx, t: Tree, yc: Ctx, yt: Tree, root: RbNode?, m: Store)
    requires Whole(Plug(c, t), root, m) && m.Keys == Nodes(Plug(c, t)) && Successor(t, yc, yt)
    ensures t.n in m && yt.n in m
    ensures var m' := SpliceIn(m, t.n, yt.n) - {t.n};
      Whole(Plug(c, Spliced(t, yc, yt)), if c.Top? then yt.n else root, m') == true &&
      m'.Keys == m.Keys - {t.n} == Nodes(Plug(c, Spliced(t, yc, yt)))
    ensures InOrder(Plug(c, Spliced(t, yc, yt))) == Without(InOrder(Plug(c, t)), t.n)
    ensures Plug(NewHole(c, t, yc, yt), yt.r) == Plug(c, Spliced(t, yc, yt))
  {
    SpliceOk(c, t, yc, yt, root, m);
    SplicedAround(c, t, yc, yt, root, m);
    SpliceWords(m, t.n, yt.n, Ptr(yt.r), CtxNode(OldHole(c, t, yc)));
    SpliceOrder(c, t, yc, yt);
    ErasedOrder(c, t, Plug(c, Spliced(t, yc, yt)));
    HolePlug(c, t, yc, yt);
    Forgotten(Plug(c, Spliced(t, yc, yt)), if c.Top? then yt.n else root, SpliceIn(m, t.n, yt.n), t.n);
  }

  /** What a splice needs: p is the successor's parent. */
  lemma InnerLook(c: Ctx, t: Tree, yc: Ctx, yt: Tree, root: RbNode?, m: Store)
    requires Whole(Plug(c, t), root, m) && Successor(t, yc, yt)
    ensures var p := CtxNode(OldHole(c, t, yc));
      p != null && Around(m, t.n, yt.n, Ptr(yt.r), p) == true && t.n in m && yt.n in m && m[yt.n].red == yt.red &&
        m[t.n].parent == CtxNode(c) &&
      CtxNode(NewHole(c, t, yc, yt)) == (if p == t.n then yt.n else p)
  {
    SplicedAround(c, t, yc, yt, root, m);
    SpliceLook(c, t, yc, yt, root, m);
    HolePlug(c, t, yc, yt);
    RegionsOf(c, t, yc, yt);
  }

  /** The words around the successor, and the tree its splicing in for t's node leaves. */
  ghost predicate SpliceReady(c: Ctx, t: Tree, yc: Ctx, yt: Tree, root: RbNode?, m: Store, h: nat)
    requires t.Node? && yt.Node?
  {
    var p, hole := CtxNode(OldHole(c, t, yc)), NewHole(c, t, yc, yt);
    p != null && Around(m, t.n, yt.n, Ptr(yt.r), p) && m[yt.n].red == yt.red && m[t.n].parent == CtxNode(c) &&
    CtxNode(hole) == (if p == t.n then yt.n else p) &&
    var w, m' := Plug(hole, yt.r), SpliceIn(m, t.n, yt.n) - {t.n};
    Whole(w, if c.Top? then yt.n else root, m') && m'.Keys == m.Keys - {t.n} == Nodes(w) &&
    InOrder(w) == Without(InOrder(Plug(c, t)), t.n) && if yt.red then RedBlack(w) else Short(hole, yt.r, h)
  }

  lemma InnerAll(c: Ctx, t: Tree, yc: Ctx, yt: Tree, root: RbNode?, m: Store) returns (h: nat)
    requires Whole(Plug(c, t), root, m) && m.Keys == Nodes(Plug(c, t)) && Successor(t, yc, yt) && RedBlack(Plug(c, t))
    ensures SpliceReady(c, t, yc, yt, root, m, h) == true
  {
    InnerLook(c, t, yc, yt, root, m);
    InnerReady(c, t, yc, yt, root, m);
    h := SpliceColors(c, t, yc, yt);
  }

  /** What the splicing reads and leaves. */
  lemma SpliceEffects(c: Ctx, t: Tree, yc: Ctx, yt: Tree, root: RbNode?, m: Store, h: nat, p: RbNode?)
    requires t.Node? && yt.Node? && SpliceReady(c, t, yc, yt, root, m, h) == true && p == CtxNode(OldHole(c, t, yc))
    ensures p != null && Around(m, t.n, yt.n, Ptr(yt.r), p) == true && t.n in m && yt.n in m && m[yt.n].red == yt.red
    ensures (m[t.n].parent == null <==> c.Top?) && CtxNode(NewHole(c, t, yc, yt)) == (if p == t.n then yt.n else p)
    ensures SplicedOut(c, t, yc, yt, if c.Top? then yt.n else root, SpliceIn(m, t.n, yt.n) - {t.n}, h) == true
    ensures (SpliceIn(m, t.n, yt.n) - {t.n}).Keys == m.Keys - {t.n}
  {
  }

  ghost predicate SplicedOut(c: Ctx, t: Tree, yc: Ctx, yt: Tree, root: RbNode?, m: Store, h: nat)
    requires t.Node? && yt.Node?
  {
    var hole := NewHole(c, t, yc, yt);
    var w := Plug(hole, yt.r);
    Whole(w, root, m) && m.Keys == Nodes(w) && InOrder(w) == Without(InOrder(Plug(c, t)), t.n) &&
    if yt.red then RedBlack(w) else Short(hole, yt.r, h)
  }

  // ----- linking a new leaf

  ghost function Linked(m: Store, n: RbNode, par: RbNode?, s: Side): Store {
    SetKid(m[n := Cell(null, null, par, true)], par, s, n)
  }

  lemma LinkOk(c: Ctx, n: RbNode, root: RbNode?, m: Store)
    requires Whole(Plug(c, Leaf), root, m) && n !in m
    ensures Whole(Plug(c, Node(n, true, Leaf, Leaf)), if c.Top? then n else root, Linked(m, n, CtxNode(c), CtxSide(c)))
  {
    var t := Node(n, true, Leaf, Leaf);
    var m' := Linked(m, n, CtxNode(c), CtxSide(c));
    PlugRep(c, Leaf, root, m);
    PlugSeparate(c, Leaf);
    PlugSeparate(c, t);
    CtxRepNodes(c, null, root, m);
    assert c.In? ==> c.n in CtxNodes(c);
    CtxRelinked(c, null, n, root, m, m', CtxSide(c));
    PlugRep(c, t, if c.Top? then n else root, m');
  }

  /** What rb_link_node needs and gives. */
  lemma LinkReady(c: Ctx, n: RbNode, root: RbNode?, m: Store)
    requires Whole(Plug(c, Leaf), root, m) && n !in m
    ensures CtxNode(c) != null ==> CtxNode(c) in m
    ensures Whole(Plug(c, Node(n, true, Leaf, Leaf)), if c.Top? then n else root,
                  Linked(m, n, CtxNode(c), CtxSide(c))) == true
    ensures Linked(m, n, CtxNode(c), CtxSide(c)).Keys == m.Keys + {n}
  {
    LinkOk(c, n, root, m);
    Look(c, Leaf, root, m);
  }

  lemma LinkOrder(c: Ctx, n: RbNode)
    ensures InOrder(Plug(c, Node(n, true, Leaf, Leaf))) == Before(c) + [n] + After(c)
    ensures InOrder(Plug(c, Leaf)) == Before(c) + After(c)
    ensures Nodes(Plug(c, Node(n, true, Leaf, Leaf))) == Nodes(Plug(c, Leaf)) + {n}
  {
    var t := Node(n, true, Leaf, Leaf);
    PlugInOrder(c, Leaf);
    PlugInOrder(c, t);
    assert InOrder(t) == [n];
    PlugNodes(c, Leaf);
    PlugNodes(c, t);
  }
}
