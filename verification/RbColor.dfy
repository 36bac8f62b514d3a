/** The red-black rules, and why each case of the two fix-up loops restores them. */
module RbColor {
  import opened Powers
  import opened Sides
  import opened RbShape

  ghost predicate Black(t: Tree) { t.Leaf? || !t.red }

  /** No red node has a red child, and every path down meets h black nodes. */
  ghost predicate Good(t: Tree, h: nat) {
    match t
    case Leaf => h == 0
    case Node(_, red, l, r) =>
      if red then Black(l) && Black(r) && Good(l, h) && Good(r, h) else h > 0 && Good(l, h - 1) && Good(r, h - 1)
  }

  /** A red-black tree: the rules hold and the root is black. */
  ghost predicate RedBlack(t: Tree) { Black(t) && exists h :: Good(t, h) }

  /** The surroundings of a hole follow the rules if it is filled with black height h; the
      colours across the hole's edge are not looked at. */
  ghost predicate CtxGood(c: Ctx, h: nat) {
    match c
    case Top => true
    case In(_, _, red, sib, up) =>
      if red then Black(sib) && Good(sib, h) && up.In? && !up.red && CtxGood(up, h)
        else Good(sib, h) && CtxGood(up, h + 1)
  }

  /** Below c a tree of this colour breaks no rule. */
  ghost predicate EdgeOk(c: Ctx, red: bool) { red ==> c.In? && !c.red }

  lemma GoodMk(s: Side, n: RbNode, red: bool, a: Tree, b: Tree, h: nat)
    ensures Good(Mk(s, n, red, a, b), h) <==>
      if red then Black(a) && Black(b) && Good(a, h) && Good(b, h) else h > 0 && Good(a, h - 1) && Good(b, h - 1)
  {
  }

  lemma {:induction false} PlugGood(c: Ctx, t: Tree, h: nat)
    requires CtxGood(c, h) && Good(t, h) && EdgeOk(c, !Black(t))
    ensures RedBlack(Plug(c, t))
  {
    if c.In? {
      var h' := if c.red then h else h + 1;
      GoodMk(c.s, c.n, c.red, t, c.sib, h');
      PlugGood(c.up, Mk(c.s, c.n, c.red, t, c.sib), h');
    }
  }

  lemma {:induction false} HoleGood(c: Ctx, t: Tree) returns (h: nat)
    requires RedBlack(Plug(c, t))
    ensures CtxGood(c, h) && Good(t, h) && EdgeOk(c, !Black(t))
  {
    match c
    case Top =>
      h :| Good(t, h);
    case In(s, n, red, sib, up) =>
      var h' := HoleGood(up, Mk(s, n, red, t, sib));
      GoodMk(s, n, red, t, sib, h');
      h := if red then h' else h' - 1;
  }

  // ----- rb_insert_color

  /** The red node t may be red below a red parent; all else is well. */
  ghost predicate RedHere(c: Ctx, t: Tree, h: nat) {
    t.Node? && t.red && CtxGood(c, h) && Good(t, h)
  }

  /** A red parent is not the root: there is a black grandparent. */
  lemma Grandparent(c: Ctx, t: Tree, h: nat)
    requires RedHere(c, t, h) && c.In? && c.red
    ensures c.up.In? && !c.up.red && Good(c.sib, h) && Black(c.sib) && Good(c.up.sib, h) && CtxGood(c.up.up, h + 1)
  {
    assert CtxGood(c.up, h);
  }

  /** Red uncle: push the blackness of the grandparent down. */
  ghost function Pushed(c: Ctx, t: Tree): Tree
    requires c.In? && c.up.In?
  {
    Mk(c.up.s, c.up.n, true, Mk(c.s, c.n, false, t, c.sib), Painted(c.up.sib, false))
  }

  lemma PushedOk(c: Ctx, t: Tree, h: nat)
    requires RedHere(c, t, h) && c.In? && c.red && c.up.In? && !Black(c.up.sib)
    ensures RedHere(c.up.up, Pushed(c, t), h + 1)
  {
    Grandparent(c, t, h);
    var p, u := Mk(c.s, c.n, false, t, c.sib), Painted(c.up.sib, false);
    GoodMk(c.s, c.n, false, t, c.sib, h + 1);
    assert Good(u, h + 1);
    GoodMk(c.up.s, c.up.n, true, p, u, h + 1);
  }

  /** Black uncle, inner grandchild: the rotation at the parent makes it an outer one. */
  ghost function Outer(c: Ctx, t: Tree): (Ctx, Tree)
    requires c.In? && c.up.In? && t.Node?
  {
    var s := c.up.s;
    var inner, outer := if s == L then t.l else t.r, if s == L then t.r else t.l;
    // the parent, now below, with the inner part of t
    (In(s, t.n, t.red, outer, c.up), Mk(s, c.n, c.red, c.sib, inner))
  }

  lemma OuterOk(c: Ctx, t: Tree, h: nat)
    requires RedHere(c, t, h) && c.In? && c.red && c.up.In? && c.s != c.up.s
    ensures var (c', t') := Outer(c, t); RedHere(c', t', h) && c'.In? && c'.red && c'.up == c.up && c'.s == c.up.s
  {
    Grandparent(c, t, h);
    var s := c.up.s;
    var inner := if s == L then t.l else t.r;
    GoodMk(s, c.n, c.red, c.sib, inner, h);
  }

  /** Black uncle, outer grandchild: the parent takes the grandparent's place and colour. */
  ghost function Raised(c: Ctx, t: Tree): Ctx
    requires c.In? && c.up.In?
  {
    In(c.s, c.n, false, Mk(c.s, c.up.n, true, c.sib, c.up.sib), c.up.up)
  }

  lemma RaisedOk(c: Ctx, t: Tree, h: nat)
    requires RedHere(c, t, h) && c.In? && c.red && c.up.In? && c.s == c.up.s && Black(c.up.sib)
    ensures RedHere(Raised(c, t), t, h) && !Raised(c, t).red
  {
    Grandparent(c, t, h);
    GoodMk(c.s, c.up.n, true, c.sib, c.up.sib, h);
  }

  /** With a black parent, or none, blackening the root ends the repair. */
  lemma InsertEnds(c: Ctx, t: Tree, h: nat)
    requires RedHere(c, t, h) && (c.In? ==> !c.red)
    ensures RedBlack(Painted(Plug(c, t), false))
    ensures c.In? ==> RedBlack(Plug(c, t))
  {
    if c.Top? {
      assert Good(Painted(t, false), h + 1);
    } else {
      PlugGood(c, t, h);
      assert Painted(Plug(c, t), false) == Plug(c, t);
    }
  }

  /** The pointers an insertion's fix-up reads. */
  lemma InsertLook(c: Ctx, t: Tree, h: nat, root: RbNode?, m: Store)
    requires Whole(Plug(c, t), root, m) && RedHere(c, t, h)
    ensures t.n in m && m[t.n].parent == CtxNode(c) && (c.In? ==> c.n in m && m[c.n].red == c.red)
    ensures c.Top? ==> root == t.n
  {
    Look(c, t, root, m);
  }

  lemma UncleLook(c: Ctx, t: Tree, h: nat, root: RbNode?, m: Store)
    requires Whole(Plug(c, t), root, m) && RedHere(c, t, h) && c.In? && c.red
    ensures c.up.In? && c.n in m && c.up.n in m && m[c.n].parent == c.up.n && Depth(c) == Depth(c.up.up) + 2
    ensures Kid(m[c.up.n], L) == c.n <==> c.up.s == L
    ensures Kid(m[c.up.n], Opp(c.up.s)) == Ptr(c.up.sib)
    ensures c.up.sib.Node? ==> c.up.sib.n in m && m[c.up.sib.n].red == c.up.sib.red
    ensures Kid(m[c.n], Opp(c.up.s)) == t.n <==> c.s != c.up.s
  {
    Grandparent(c, t, h);
    Look(c, t, root, m);
    var p := Mk(c.s, c.n, c.red, t, c.sib);
    Look(c.up, p, root, m);
    if c.up.sib.Node? { LookAside(c.up, p, root, m); }
  }

  // ----- __rb_erase_color

  /** One black node is missing on the way to t; blackening t, if it is red, would do. */
  ghost predicate Short(c: Ctx, t: Tree, h: nat) {
    CtxGood(c, h + 1) && if Black(t) then Good(t, h) else Good(Painted(t, false), h + 1)
  }

  /** At the root, or at a red node, blackening ends the repair. */
  lemma EraseEnds(c: Ctx, t: Tree, h: nat)
    requires Short(c, t, h) && (c.Top? || !Black(t))
    ensures RedBlack(Plug(c, Painted(t, false)))
  {
    if !Black(t) {
      PlugGood(c, Painted(t, false), h + 1);
    } else {
      assert Painted(t, false) == t;
    }
  }

  /** The sibling of a black node with a black missing is never null. */
  lemma Sibling(c: Ctx, t: Tree, h: nat)
    requires Short(c, t, h) && c.In? && Black(t)
    ensures Good(c.sib, h + 1) && c.sib.Node?
    ensures !Black(c.sib) ==> !c.red && Near(c).Node? && Far(c).Node?
    ensures Black(c.sib) ==> Good(Near(c), h) && Good(Far(c), h)
  {
    assert Good(c.sib, h + 1);
    assert !Black(c.sib) ==> Good(c.sib.l, h + 1) && Good(c.sib.r, h + 1);
  }

  /** The children of the sibling, on the side of the hole and away from it. */
  ghost function Near(c: Ctx): Tree
    requires c.In? && c.sib.Node?
  {
    if c.s == L then c.sib.l else c.sib.r
  }

  ghost function Far(c: Ctx): Tree
    requires c.In? && c.sib.Node?
  {
    if c.s == L then c.sib.r else c.sib.l
  }

  /** Red sibling: rotated up and painted black, the parent red, the near nephew is the new sibling. */
  ghost function Swung(c: Ctx): Ctx
    requires c.In? && c.sib.Node?
  {
    In(c.s, c.n, true, Near(c), In(c.s, c.sib.n, false, Far(c), c.up))
  }

  lemma SwungOk(c: Ctx, t: Tree, h: nat)
    requires Short(c, t, h) && c.In? && Black(t) && c.sib.Node? && !Black(c.sib)
    ensures Short(Swung(c), t, h) && Swung(c).sib.Node? && Black(Swung(c).sib)
  {
    Sibling(c, t, h);
  }

  /** Black sibling with black children: painted red, it is one short as well, and so is the parent. */
  lemma PassedUp(c: Ctx, t: Tree, h: nat)
    requires Short(c, t, h) && c.In? && Black(t) && c.sib.Node? && Black(c.sib) && Black(Near(c)) && Black(Far(c))
    ensures exists h' :: Short(c.up, Mk(c.s, c.n, c.red, t, Painted(c.sib, true)), h')
  {
    var sib' := Painted(c.sib, true);
    assert Good(sib', h);
    if c.red {
      GoodMk(c.s, c.n, false, t, sib', h + 1);
      assert Painted(Mk(c.s, c.n, c.red, t, sib'), false) == Mk(c.s, c.n, false, t, sib');
      assert Short(c.up, Mk(c.s, c.n, c.red, t, sib'), h);
    } else {
      GoodMk(c.s, c.n, false, t, sib', h + 1);
      assert Short(c.up, Mk(c.s, c.n, c.red, t, sib'), h + 1);
    }
  }

  /** Far nephew black, near one red: a rotation at the sibling makes the far one red. */
  ghost function Turned(c: Ctx): Ctx
    requires c.In? && c.sib.Node? && Near(c).Node?
  {
    var near := Near(c);
    var a, b := if c.s == L then near.l else near.r, if c.s == L then near.r else near.l;
    In(c.s, c.n, c.red, Mk(c.s, near.n, false, a, Mk(c.s, c.sib.n, true, b, Far(c))), c.up)
  }

  lemma TurnedOk(c: Ctx, t: Tree, h: nat)
    requires Short(c, t, h) && c.In? && Black(t) && c.sib.Node? && Black(c.sib) && !Black(Near(c)) && Black(Far(c))
    ensures Short(Turned(c), t, h) && Turned(c).sib.Node? && Black(Turned(c).sib) && !Black(Far(Turned(c)))
  {
    Sibling(c, t, h);
    var near := Near(c);
    var a, b := if c.s == L then near.l else near.r, if c.s == L then near.r else near.l;
    GoodMk(c.s, c.sib.n, true, b, Far(c), h);
    GoodMk(c.s, near.n, false, a, Mk(c.s, c.sib.n, true, b, Far(c)), h + 1);
  }

  /** Far nephew red: the sibling takes the parent's place and colour, and both its children are black. */
  ghost function Mended(c: Ctx, t: Tree): Tree
    requires c.In? && c.sib.Node?
  {
    Mk(c.s, c.sib.n, c.red, Mk(c.s, c.n, false, t, Near(c)), Painted(Far(c), false))
  }

  lemma MendedOk(c: Ctx, t: Tree, h: nat)
    requires Short(c, t, h) && c.In? && Black(t) && c.sib.Node? && Black(c.sib) && !Black(Far(c))
    ensures RedBlack(Plug(c.up, Mended(c, t)))
  {
    Sibling(c, t, h);
    var far := Painted(Far(c), false);
    assert Good(far, h + 1);
    GoodMk(c.s, c.n, false, t, Near(c), h + 1);
    var h' := if c.red then h + 1 else h + 2;
    GoodMk(c.s, c.sib.n, c.red, Mk(c.s, c.n, false, t, Near(c)), far, h');
    PlugGood(c.up, Mended(c, t), h');
  }

  /** The pointers the fix-up of an erasure reads. */
  lemma EraseLook(c: Ctx, t: Tree, h: nat, root: RbNode?, m: Store)
    requires Whole(Plug(c, t), root, m) && Short(c, t, h)
    ensures c.Top? <==> root == Ptr(t)
    ensures t.Node? ==> t.n in m && m[t.n].red == t.red
    ensures c.In? ==> c.n in m && m[c.n].red == c.red && m[c.n].parent == CtxNode(c.up)
    ensures c.In? && Black(t) ==> (Kid(m[c.n], L) == Ptr(t) <==> c.s == L)
  {
    Look(c, t, root, m);
    if c.In? && Black(t) { Sibling(c, t, h); }
  }

  lemma SiblingLook(c: Ctx, t: Tree, h: nat, root: RbNode?, m: Store)
    requires Whole(Plug(c, t), root, m) && Short(c, t, h) && c.In? && Black(t)
    ensures c.sib.Node? && c.n in m && c.sib.n in m && Kid(m[c.n], Opp(c.s)) == c.sib.n
    ensures m[c.sib.n].red == c.sib.red && m[c.n].red == c.red
    ensures Kid(m[c.sib.n], c.s) == Ptr(Near(c)) && Kid(m[c.sib.n], Opp(c.s)) == Ptr(Far(c))
    ensures Near(c).Node? ==> Near(c).n in m && m[Near(c).n].red == Near(c).red
    ensures Far(c).Node? ==> Far(c).n in m && m[Far(c).n].red == Far(c).red
  {
    Sibling(c, t, h);
    Look(c, t, root, m);
    LookAside(c, t, root, m);
    var c' := In(Opp(c.s), c.n, c.red, t, c.up);
    Look(In(c.s, c.sib.n, c.sib.red, Far(c), c'), Near(c), root, m);
    Look(In(Opp(c.s), c.sib.n, c.sib.red, Near(c), c'), Far(c), root, m);
  }

  // ----- height

  ghost function Count(t: Tree): nat { if t.Leaf? then 0 else Count(t.l) + 1 + Count(t.r) }

  ghost function Height(t: Tree): nat {
    if t.Leaf? then 0 else 1 + if Height(t.l) > Height(t.r) then Height(t.l) else Height(t.r)
  }

  lemma {:induction false} GoodSize(t: Tree, h: nat)
    requires Good(t, h)
    ensures Pow2(h) <= Count(t) + 1
    ensures Height(t) <= 2 * h + if Black(t) then 0 else 1
  {
    if t.Node? {
      var h' := if t.red then h else h - 1;
      GoodSize(t.l, h');
      GoodSize(t.r, h');
    }
  }

  /** Height is at most twice the binary logarithm of the size plus one. */
  lemma HeightBound(t: Tree)
    requires RedBlack(t)
    ensures exists h :: Height(t) <= 2 * h && Pow2(h) <= Count(t) + 1
  {
    var h :| Good(t, h);
    GoodSize(t, h);
  }
}
