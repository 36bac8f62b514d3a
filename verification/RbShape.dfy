/** Red-black trees as they lie in memory: nodes with parent pointers, the tree they
    form, the tree with a hole, and what painting and rotating do to them. */
module RbShape {
  import opened Sides

  /** struct rb_node inside the record it is embedded in; the colour and the parent share
      a word in the source and are two fields here. */
  class RbNode {
    const name: string
    const db: nat
    var rb_left: RbNode?
    var rb_right: RbNode?
    var parent: RbNode?
    var red: bool

    constructor (name: string, db: nat)
      ensures this.name == name && this.db == db
    {
      this.name, this.db := name, db;
      rb_left, rb_right, parent, red := null, null, null, true;
    }
  }

  /** The words of one node. */
  datatype Cell = Cell(left: RbNode?, right: RbNode?, parent: RbNode?, red: bool)

  type Store = map<RbNode, Cell>

  ghost function Kid(c: Cell, s: Side): RbNode? { if s == L then c.left else c.right }

  ghost function WithKid(c: Cell, s: Side, v: RbNode?): Cell { if s == L then c.(left := v) else c.(right := v) }

  ghost function SetKid(m: Store, n: RbNode?, s: Side, v: RbNode?): Store {
    if n != null && n in m then m[n := WithKid(m[n], s, v)] else m
  }

  ghost function SetParent(m: Store, n: RbNode?, v: RbNode?): Store {
    if n != null && n in m then m[n := m[n].(parent := v)] else m
  }

  ghost function SetRed(m: Store, n: RbNode?, b: bool): Store {
    if n != null && n in m then m[n := m[n].(red := b)] else m
  }

  // ----- trees

  datatype Tree = Leaf | Node(n: RbNode, red: bool, l: Tree, r: Tree)

  /** A node with a on side s and b on the other. */
  ghost function Mk(s: Side, n: RbNode, red: bool, a: Tree, b: Tree): Tree {
    if s == L then Node(n, red, a, b) else Node(n, red, b, a)
  }

  ghost function Ptr(t: Tree): RbNode? { if t.Leaf? then null else t.n }

  ghost function Nodes(t: Tree): set<RbNode> {
    match t
    case Leaf => {}
    case Node(n, _, l, r) => {n} + Nodes(l) + Nodes(r)
  }

  ghost function InOrder(t: Tree): seq<RbNode> {
    match t
    case Leaf => []
    case Node(n, _, l, r) => InOrder(l) + [n] + InOrder(r)
  }

  ghost predicate Separate(t: Tree) {
    match t
    case Leaf => true
    case Node(n, _, l, r) =>
      n !in Nodes(l) && n !in Nodes(r) && Nodes(l) !! Nodes(r) && Separate(l) && Separate(r)
  }

  /** The tree hangs below the pointer p, its root recording par as parent. */
  ghost predicate Rep(t: Tree, p: RbNode?, par: RbNode?, m: Store) {
    match t
    case Leaf => p == null
    case Node(n, red, l, r) =>
      p == n && n in m && m[n].parent == par && m[n].red == red && Rep(l, m[n].left, n, m) && Rep(r, m[n].right, n, m)
  }

  lemma {:induction false} RepFrame(t: Tree, p: RbNode?, par: RbNode?, m: Store, m': Store)
    requires Rep(t, p, par, m) && forall n :: n in Nodes(t) ==> n in m && n in m' && m[n] == m'[n]
    ensures Rep(t, p, par, m')
  {
    if t.Node? {
      RepFrame(t.l, m[t.n].left, t.n, m, m');
      RepFrame(t.r, m[t.n].right, t.n, m, m');
    }
  }

  lemma {:induction false} RepNodes(t: Tree, p: RbNode?, par: RbNode?, m: Store)
    requires Rep(t, p, par, m)
    ensures Nodes(t) <= m.Keys && p == Ptr(t)
  {
    if t.Node? {
      RepNodes(t.l, m[t.n].left, t.n, m);
      RepNodes(t.r, m[t.n].right, t.n, m);
    }
  }

  /** Two trees side by side below n. */
  lemma RepMk(s: Side, n: RbNode, red: bool, a: Tree, b: Tree, p: RbNode?, par: RbNode?, m: Store)
    ensures Rep(Mk(s, n, red, a, b), p, par, m) <==>
      p == n && n in m && m[n].parent == par && m[n].red == red &&
      Rep(a, Kid(m[n], s), n, m) && Rep(b, Kid(m[n], Opp(s)), n, m)
    ensures Nodes(Mk(s, n, red, a, b)) == {n} + Nodes(a) + Nodes(b)
    ensures Separate(Mk(s, n, red, a, b)) <==>
      n !in Nodes(a) && n !in Nodes(b) && Nodes(a) !! Nodes(b) && Separate(a) && Separate(b)
  {
  }

  // ----- the tree with a hole

  datatype Ctx = Top | In(s: Side, n: RbNode, red: bool, sib: Tree, up: Ctx)

  ghost function Plug(c: Ctx, t: Tree): Tree {
    match c
    case Top => t
    case In(s, n, red, sib, up) => Plug(up, Mk(s, n, red, t, sib))
  }

  /** The parent of what fills the hole. */
  ghost function CtxNode(c: Ctx): RbNode? { if c.Top? then null else c.n }

  ghost function CtxNodes(c: Ctx): set<RbNode> {
    match c
    case Top => {}
    case In(_, n, _, sib, up) => {n} + Nodes(sib) + CtxNodes(up)
  }

  ghost function Before(c: Ctx): seq<RbNode> {
    match c
    case Top => []
    case In(s, n, _, sib, up) => if s == L then Before(up) else Before(up) + InOrder(sib) + [n]
  }

  ghost function After(c: Ctx): seq<RbNode> {
    match c
    case Top => []
    case In(s, n, _, sib, up) => if s == L then [n] + InOrder(sib) + After(up) else After(up)
  }

  lemma {:induction false} PlugInOrder(c: Ctx, t: Tree)
    ensures InOrder(Plug(c, t)) == Before(c) + InOrder(t) + After(c)
  {
    match c
    case Top =>
    case In(s, n, red, sib, up) =>
      PlugInOrder(up, Mk(s, n, red, t, sib));
      if s == L {
        Regroup(Before(up), InOrder(t), [n], InOrder(sib), After(up));
      } else {
        Regroup(Before(up), InOrder(sib), [n], InOrder(t), After(up));
      }
  }

  lemma Regroup<T>(a: seq<T>, b: seq<T>, c: seq<T>, d: seq<T>, e: seq<T>)
    ensures a + (b + c + d) + e == a + b + (c + d + e) == (a + b + c) + d + e == a + b + c + d + e
  {
  }

  lemma {:induction false} PlugNodes(c: Ctx, t: Tree)
    ensures Nodes(Plug(c, t)) == CtxNodes(c) + Nodes(t)
  {
    match c
    case Top =>
    case In(s, n, red, sib, up) => PlugNodes(up, Mk(s, n, red, t, sib));
  }

  ghost predicate CtxSeparate(c: Ctx) {
    match c
    case Top => true
    case In(_, n, _, sib, up) =>
      Separate(sib) && n !in Nodes(sib) && n !in CtxNodes(up) && Nodes(sib) !! CtxNodes(up) && CtxSeparate(up)
  }

  lemma {:induction false} PlugSeparate(c: Ctx, t: Tree)
    ensures Separate(Plug(c, t)) <==> Separate(t) && CtxSeparate(c) && Nodes(t) !! CtxNodes(c)
  {
    match c
    case Top =>
    case In(s, n, red, sib, up) =>
      PlugSeparate(up, Mk(s, n, red, t, sib));
      RepMk(s, n, red, t, sib, null, null, map[]);
  }

  /** The surroundings of the hole hang below root and point at hole. */
  ghost predicate CtxRep(c: Ctx, hole: RbNode?, root: RbNode?, m: Store) {
    match c
    case Top => hole == root
    case In(s, n, red, sib, up) =>
      n in m && Kid(m[n], s) == hole && m[n].red == red && m[n].parent == CtxNode(up) &&
      Rep(sib, Kid(m[n], Opp(s)), n, m) && CtxRep(up, n, root, m)
  }

  lemma {:induction false} CtxFrame(c: Ctx, hole: RbNode?, root: RbNode?, m: Store, m': Store)
    requires CtxRep(c, hole, root, m) && forall n :: n in CtxNodes(c) ==> n in m && n in m' && m[n] == m'[n]
    ensures CtxRep(c, hole, root, m')
  {
    if c.In? {
      RepFrame(c.sib, Kid(m[c.n], Opp(c.s)), c.n, m, m');
      CtxFrame(c.up, c.n, root, m, m');
    }
  }

  lemma {:induction false} CtxRepNodes(c: Ctx, hole: RbNode?, root: RbNode?, m: Store)
    requires CtxRep(c, hole, root, m)
    ensures CtxNodes(c) <= m.Keys
  {
    if c.In? {
      RepNodes(c.sib, Kid(m[c.n], Opp(c.s)), c.n, m);
      CtxRepNodes(c.up, c.n, root, m);
    }
  }

  /** A tree is in memory exactly when a part of it and its surroundings are. */
  lemma {:induction false} PlugRep(c: Ctx, t: Tree, root: RbNode?, m: Store)
    ensures Rep(Plug(c, t), root, null, m) <==> Rep(t, Ptr(t), CtxNode(c), m) && CtxRep(c, Ptr(t), root, m)
  {
    match c
    case Top =>
      if Rep(t, root, null, m) { RepNodes(t, root, null, m); }
    case In(s, n, red, sib, up) =>
      PlugRep(up, Mk(s, n, red, t, sib), root, m);
      RepMk(s, n, red, t, sib, n, CtxNode(up), m);
      if n in m && Rep(t, Kid(m[n], s), n, m) { RepNodes(t, Kid(m[n], s), n, m); }
  }

  /** The whole tree w is in memory, each node once. */
  ghost predicate Whole(w: Tree, root: RbNode?, m: Store) {
    Rep(w, root, null, m) && Separate(w)
  }

  // ----- painting

  ghost function Painted(t: Tree, b: bool): Tree { if t.Leaf? then t else t.(red := b) }

  /** rb_set_red and rb_set_black on the node that fills the hole. */
  lemma PaintPlug(c: Ctx, t: Tree, b: bool, root: RbNode?, m: Store)
    requires Whole(Plug(c, t), root, m) && t.Node?
    ensures t.n in m && m[t.n].red == t.red && Whole(Plug(c, Painted(t, b)), root, SetRed(m, t.n, b))
    ensures InOrder(Plug(c, Painted(t, b))) == InOrder(Plug(c, t))
  {
    var m' := SetRed(m, t.n, b);
    PlugRep(c, t, root, m);
    PlugSeparate(c, t);
    PlugSeparate(c, Painted(t, b));
    PaintedHere(t, CtxNode(c), b, m);
    CtxRepNodes(c, t.n, root, m);
    CtxFrame(c, t.n, root, m, m');
    PlugRep(c, Painted(t, b), root, m');
    PlugInOrder(c, t);
    PlugInOrder(c, Painted(t, b));
  }

  lemma PaintedHere(t: Tree, par: RbNode?, b: bool, m: Store)
    requires Rep(t, Ptr(t), par, m) && Separate(t) && t.Node?
    ensures Rep(Painted(t, b), t.n, par, SetRed(m, t.n, b)) && Separate(Painted(t, b)) &&
      Nodes(Painted(t, b)) == Nodes(t)
    ensures InOrder(Painted(t, b)) == InOrder(t)
  {
    var m' := SetRed(m, t.n, b);
    RepNodes(t.l, m[t.n].left, t.n, m);
    RepNodes(t.r, m[t.n].right, t.n, m);
    RepFrame(t.l, m[t.n].left, t.n, m, m');
    RepFrame(t.r, m[t.n].right, t.n, m, m');
  }

  // ----- rotating

  /** The link at par that held x holds y, or the root if x had no parent. */
  ghost function Relinked(m: Store, par: RbNode?, s: Side, x: RbNode, y: RbNode?): Store {
    if par != null && par in m then SetKid(m, par, if Kid(m[par], s) == x then s else Opp(s), y) else m
  }

  /** __rb_rotate_left (s == L) and __rb_rotate_right (s == R), statement by statement. */
  ghost function Rotated(m: Store, s: Side, x: RbNode): Store
    requires x in m && Kid(m[x], Opp(s)) != null && Kid(m[x], Opp(s)) in m
  {
    var y, par := Kid(m[x], Opp(s)), m[x].parent;
    var b := Kid(m[y], s);
    var m1 := SetParent(SetKid(m, x, Opp(s), b), b, x);
    var m2 := SetParent(SetKid(m1, y, s, x), y, par);
    SetParent(Relinked(m2, par, s, x, y), x, y)
  }

  /** What a rotation changes, node by node. */
  ghost predicate RotatedBits(m: Store, m': Store, s: Side, x: RbNode, y: RbNode, b: RbNode?, par: RbNode?, ps: Side) {
    m'.Keys == m.Keys && x in m && y in m &&
    m'[x] == WithKid(m[x], Opp(s), b).(parent := y) &&
    m'[y] == WithKid(m[y], s, x).(parent := par) &&
    (b != null ==> b in m && m'[b] == m[b].(parent := x)) &&
    (par != null ==> par in m && m'[par] == WithKid(m[par], ps, y)) &&
    forall n :: n in m && n != x && n != y && n != b && n != par ==> m'[n] == m[n]
  }

  /** x has a child y to rotate with; y's inner child is b, and x is the child of par on side ps. */
  ghost predicate Turnable(m: Store, s: Side, x: RbNode, y: RbNode, b: RbNode?, par: RbNode?, ps: Side) {
    x in m && y in m && Kid(m[x], Opp(s)) == y && Kid(m[y], s) == b && m[x].parent == par &&
    (b != null ==> b in m) &&
    (par != null ==> par in m && Kid(m[par], ps) == x && Kid(m[par], Opp(ps)) != x) &&
    x != y && x != b && y != b && par != x && par != y && (b != null ==> b != par)
  }

  lemma RotatedHasBits(m: Store, s: Side, x: RbNode, y: RbNode, b: RbNode?, par: RbNode?, ps: Side)
    requires Turnable(m, s, x, y, b, par, ps)
    ensures RotatedBits(m, Rotated(m, s, x), s, x, y, b, par, ps)
  {
  }

  /** Rotating at x: its child y takes its place, y's inner subtree changes sides. */
  lemma RotatePlug(c: Ctx, s: Side, x: RbNode, xr: bool, a: Tree, y: RbNode, yr: bool, b: Tree, d: Tree,
        root: RbNode?, m: Store)
    requires Whole(Plug(c, Mk(s, x, xr, a, Mk(s, y, yr, b, d))), root, m)
    ensures x in m && Kid(m[x], Opp(s)) == y && y in m
    ensures Whole(Plug(c, Mk(s, y, yr, Mk(s, x, xr, a, b), d)), if c.Top? then y else root, Rotated(m, s, x))
  {
    var t, u := Mk(s, x, xr, a, Mk(s, y, yr, b, d)), Mk(s, y, yr, Mk(s, x, xr, a, b), d);
    RotateSeparate(c, s, x, xr, a, y, yr, b, d);
    PlugRep(c, t, root, m);
    PlugSeparate(c, t);
    RepMk(s, x, xr, a, Mk(s, y, yr, b, d), x, CtxNode(c), m);
    RepMk(s, y, yr, b, d, y, x, m);
    RotateBits(c, s, x, a, y, b, d, root, m);
    RotateRep(c, s, x, xr, a, y, yr, b, d, root, m, Rotated(m, s, x));
    PlugRep(c, u, if c.Top? then y else root, Rotated(m, s, x));
  }

  ghost function CtxSide(c: Ctx): Side { if c.Top? then L else c.s }

  lemma RotateBits(c: Ctx, s: Side, x: RbNode, a: Tree, y: RbNode, b: Tree, d: Tree, root: RbNode?, m: Store)
    requires CtxRep(c, x, root, m) && x in m && y in m && m[x].parent == CtxNode(c)
    requires Kid(m[x], Opp(s)) == y && Rep(b, Kid(m[y], s), y, m)
    requires x != y && x !in CtxNodes(c) && y !in CtxNodes(c) && x !in Nodes(b) && y !in Nodes(b) &&
      Nodes(b) !! CtxNodes(c)
    ensures RotatedBits(m, Rotated(m, s, x), s, x, y, Ptr(b), CtxNode(c), CtxSide(c))
  {
    RepNodes(b, Kid(m[y], s), y, m);
    if c.In? { RepNodes(c.sib, Kid(m[c.n], Opp(c.s)), c.n, m); }
    RotatedHasBits(m, s, x, y, Ptr(b), CtxNode(c), CtxSide(c));
  }

  /** The five parts a rotation moves about share no node. */
  ghost predicate Parts(s: set<RbNode>, x: RbNode, a: Tree, y: RbNode, b: Tree, d: Tree) {
    x != y && x !in s && y !in s && x !in Nodes(a) && x !in Nodes(b) && x !in Nodes(d) &&
    y !in Nodes(a) && y !in Nodes(b) && y !in Nodes(d) &&
    Nodes(a) !! Nodes(b) && Nodes(a) !! Nodes(d) && Nodes(b) !! Nodes(d) &&
    Nodes(a) !! s && Nodes(b) !! s && Nodes(d) !! s && Separate(a) && Separate(b) && Separate(d)
  }

  lemma RotateSeparate(c: Ctx, s: Side, x: RbNode, xr: bool, a: Tree, y: RbNode, yr: bool, b: Tree, d: Tree)
    requires Separate(Plug(c, Mk(s, x, xr, a, Mk(s, y, yr, b, d))))
    ensures Separate(Plug(c, Mk(s, y, yr, Mk(s, x, xr, a, b), d)))
    ensures Parts(CtxNodes(c), x, a, y, b, d) && CtxSeparate(c)
  {
    PlugSeparate(c, Mk(s, x, xr, a, Mk(s, y, yr, b, d)));
    PlugSeparate(c, Mk(s, y, yr, Mk(s, x, xr, a, b), d));
    OuterParts(s, x, xr, a, y, yr, b, d, CtxNodes(c));
    InnerParts(s, x, xr, a, y, yr, b, d, CtxNodes(c));
  }

  lemma OuterParts(s: Side, x: RbNode, xr: bool, a: Tree, y: RbNode, yr: bool, b: Tree, d: Tree, o: set<RbNode>)
    requires var t := Mk(s, x, xr, a, Mk(s, y, yr, b, d)); Separate(t) && Nodes(t) !! o
    ensures Parts(o, x, a, y, b, d)
  {
    RepMk(s, x, xr, a, Mk(s, y, yr, b, d), null, null, map[]);
    RepMk(s, y, yr, b, d, null, null, map[]);
  }

  lemma InnerParts(s: Side, x: RbNode, xr: bool, a: Tree, y: RbNode, yr: bool, b: Tree, d: Tree, o: set<RbNode>)
    requires Parts(o, x, a, y, b, d)
    ensures var u := Mk(s, y, yr, Mk(s, x, xr, a, b), d); Separate(u) && Nodes(u) !! o
  {
    RepMk(s, y, yr, Mk(s, x, xr, a, b), d, null, null, map[]);
    RepMk(s, x, xr, a, b, null, null, map[]);
  }

  lemma RotateRep(c: Ctx, s: Side, x: RbNode, xr: bool, a: Tree, y: RbNode, yr: bool, b: Tree, d: Tree,
        root: RbNode?, m: Store, m': Store)
    requires CtxRep(c, x, root, m) && x in m && y in m && m[x].red == xr && m[y].red == yr && Kid(m[x], Opp(s)) == y
    requires Rep(a, Kid(m[x], s), x, m) && Rep(b, Kid(m[y], s), y, m) && Rep(d, Kid(m[y], Opp(s)), y, m)
    requires RotatedBits(m, m', s, x, y, Ptr(b), CtxNode(c), CtxSide(c))
    requires Parts(CtxNodes(c), x, a, y, b, d) && CtxSeparate(c)
    ensures Rep(Mk(s, y, yr, Mk(s, x, xr, a, b), d), y, CtxNode(c), m')
    ensures CtxRep(c, y, if c.Top? then y else root, m')
  {
    RotateSubtrees(c, s, x, a, y, b, d, m, m');
    RepMk(s, y, yr, Mk(s, x, xr, a, b), d, y, CtxNode(c), m');
    RepMk(s, x, xr, a, b, x, y, m');
    CtxRepNodes(c, x, root, m);
    assert b.Node? ==> b.n in Nodes(b);
    CtxRelinked(c, x, y, root, m, m', CtxSide(c));
  }

  lemma RotateSubtrees(c: Ctx, s: Side, x: RbNode, a: Tree, y: RbNode, b: Tree, d: Tree, m: Store, m': Store)
    requires x in m && y in m && RotatedBits(m, m', s, x, y, Ptr(b), CtxNode(c), CtxSide(c))
    requires Rep(a, Kid(m[x], s), x, m) && Rep(b, Kid(m[y], s), y, m) && Rep(d, Kid(m[y], Opp(s)), y, m)
    requires x !in Nodes(a) && x !in Nodes(b) && x !in Nodes(d) && y !in Nodes(a) && y !in Nodes(b) && y !in Nodes(d)
    requires Nodes(a) !! Nodes(b) && Nodes(b) !! Nodes(d) && Separate(b)
    requires Nodes(a) !! CtxNodes(c) && Nodes(b) !! CtxNodes(c) && Nodes(d) !! CtxNodes(c)
    ensures Rep(a, Kid(m[x], s), x, m') && Rep(b, Kid(m[y], s), x, m') && Rep(d, Kid(m[y], Opp(s)), y, m')
  {
    RepNodes(a, Kid(m[x], s), x, m);
    RepNodes(b, Kid(m[y], s), y, m);
    RepNodes(d, Kid(m[y], Opp(s)), y, m);
    assert b.Node? ==> b.n in Nodes(b);
    assert c.In? ==> c.n in CtxNodes(c);
    RepFrame(a, Kid(m[x], s), x, m, m');
    RepFrame(d, Kid(m[y], Opp(s)), y, m, m');
    Reparented(b, Kid(m[y], s), y, x, m, m');
  }

  /** A subtree under a new parent. */
  lemma Reparented(t: Tree, p: RbNode?, par: RbNode?, par': RbNode?, m: Store, m': Store)
    requires Rep(t, p, par, m) && Separate(t)
    requires t.Node? ==> t.n in m' && m'[t.n] == m[t.n].(parent := par')
    requires forall n :: n in Nodes(t) && n != p ==> n in m && n in m' && m'[n] == m[n]
    ensures Rep(t, p, par', m')
  {
    if t.Node? {
      RepFrame(t.l, m[t.n].left, t.n, m, m');
      RepFrame(t.r, m[t.n].right, t.n, m, m');
    }
  }

  /** The surroundings after x was replaced by y in the link that points into the hole. */
  lemma CtxRelinked(c: Ctx, x: RbNode?, y: RbNode?, root: RbNode?, m: Store, m': Store, ps: Side)
    requires CtxRep(c, x, root, m) && CtxSeparate(c) && ps == CtxSide(c)
    requires c.In? ==> c.n in m' && m'[c.n] == WithKid(m[c.n], ps, y)
    requires forall n :: n in CtxNodes(c) && n != CtxNode(c) ==> n in m && n in m' && m'[n] == m[n]
    ensures CtxRep(c, y, if c.Top? then y else root, m')
  {
    if c.In? {
      RepFrame(c.sib, Kid(m[c.n], Opp(c.s)), c.n, m, m');
      CtxFrame(c.up, c.n, root, m, m');
    }
  }

  /** A rotation changes no order. */
  lemma RotateInOrder(c: Ctx, s: Side, x: RbNode, xr: bool, a: Tree, y: RbNode, yr: bool, b: Tree, d: Tree)
    ensures InOrder(Plug(c, Mk(s, x, xr, a, Mk(s, y, yr, b, d)))) ==
      InOrder(Plug(c, Mk(s, y, yr, Mk(s, x, xr, a, b), d)))
  {
    PlugInOrder(c, Mk(s, x, xr, a, Mk(s, y, yr, b, d)));
    PlugInOrder(c, Mk(s, y, yr, Mk(s, x, xr, a, b), d));
    SameOrder(s, x, xr, a, y, yr, b, d);
  }

  lemma SameOrder(s: Side, x: RbNode, xr: bool, a: Tree, y: RbNode, yr: bool, b: Tree, d: Tree)
    ensures InOrder(Mk(s, x, xr, a, Mk(s, y, yr, b, d))) == InOrder(Mk(s, y, yr, Mk(s, x, xr, a, b), d))
  {
    if s == L {
      assert InOrder(a) + [x] + (InOrder(b) + [y] + InOrder(d)) == (InOrder(a) + [x] + InOrder(b)) + [y] + InOrder(d);
    } else {
      assert (InOrder(d) + [y] + InOrder(b)) + [x] + InOrder(a) == InOrder(d) + [y] + (InOrder(b) + [x] + InOrder(a));
    }
  }

  /** The nodes a rotation touches are all in memory, and distinct. */
  lemma RotateClosed(c: Ctx, s: Side, x: RbNode, xr: bool, a: Tree, y: RbNode, yr: bool, b: Tree, d: Tree,
        root: RbNode?, m: Store)
    requires Whole(Plug(c, Mk(s, x, xr, a, Mk(s, y, yr, b, d))), root, m)
    ensures Turnable(m, s, x, y, Ptr(b), CtxNode(c), CtxSide(c))
  {
    var t := Mk(s, x, xr, a, Mk(s, y, yr, b, d));
    RotateSeparate(c, s, x, xr, a, y, yr, b, d);
    PlugRep(c, t, root, m);
    RepMk(s, x, xr, a, Mk(s, y, yr, b, d), x, CtxNode(c), m);
    RepMk(s, y, yr, b, d, y, x, m);
    RepNodes(b, Kid(m[y], s), y, m);
    if c.In? { RepNodes(c.sib, Kid(m[c.n], Opp(c.s)), c.n, m); }
    Look(c, t, root, m);
  }

  /** The tree around a node has a root. */
  lemma RootTree(c: Ctx, t: Tree, root: RbNode?, m: Store)
    requires Whole(Plug(c, t), root, m) && t.Node?
    ensures Plug(c, t).Node? && Plug(c, t).n == root
  {
    Look(c, t, root, m);
    RepNodes(Plug(c, t), root, null, m);
  }

  ghost function Depth(c: Ctx): nat { if c.Top? then 0 else 1 + Depth(c.up) }

  // ----- reading pointers

  /** What the pointers around the node that fills the hole say. */
  lemma Look(c: Ctx, t: Tree, root: RbNode?, m: Store)
    requires Whole(Plug(c, t), root, m)
    ensures t.Node? ==> t.n in m && m[t.n] == Cell(Ptr(t.l), Ptr(t.r), CtxNode(c), t.red)
    ensures c.In? ==> c.n in m && Kid(m[c.n], c.s) == Ptr(t) && Kid(m[c.n], Opp(c.s)) == Ptr(c.sib)
    ensures c.In? ==> m[c.n].red == c.red && m[c.n].parent == CtxNode(c.up)
    ensures c.In? && t.Node? ==> Ptr(c.sib) != t.n && c.n != t.n
    ensures c.Top? ==> root == Ptr(t)
    ensures c.In? ==> root != null && (t.Node? ==> root != t.n)
  {
    PlugRep(c, t, root, m);
    PlugSeparate(c, t);
    if t.Node? {
      RepNodes(t.l, m[t.n].left, t.n, m);
      RepNodes(t.r, m[t.n].right, t.n, m);
    }
    if c.In? {
      RepNodes(c.sib, Kid(m[c.n], Opp(c.s)), c.n, m);
      RootInCtx(c, Ptr(t), root, m);
      assert t.Node? ==> t.n in Nodes(t);
    }
  }

  lemma {:induction false} RootInCtx(c: Ctx, hole: RbNode?, root: RbNode?, m: Store)
    requires CtxRep(c, hole, root, m) && c.In?
    ensures root != null && root in CtxNodes(c)
  {
    if c.up.In? { RootInCtx(c.up, c.n, root, m); }
  }

  /** The sibling's own words. */
  lemma LookAside(c: Ctx, t: Tree, root: RbNode?, m: Store)
    requires Whole(Plug(c, t), root, m) && c.In? && c.sib.Node?
    ensures c.sib.n in m && m[c.sib.n] == Cell(Ptr(c.sib.l), Ptr(c.sib.r), c.n, c.sib.red)
  {
    PlugRep(c, t, root, m);
    RepNodes(c.sib.l, m[c.sib.n].left, c.sib.n, m);
    RepNodes(c.sib.r, m[c.sib.n].right, c.sib.n, m);
  }
}
