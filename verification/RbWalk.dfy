/** Stepping through a tree in order, and putting one node in another's place. */
module RbWalk {
  import opened Sides
  import opened RbShape
  import opened RbColor
  import opened RbErase

  ghost function Head(s: seq<RbNode>): RbNode? { if s == [] then null else s[0] }

  ghost function Last(s: seq<RbNode>): RbNode? { if s == [] then null else s[|s| - 1] }

  /** The element behind n, and the one before it. */
  ghost function Follow(s: seq<RbNode>, n: RbNode): RbNode? {
    if s == [] then null else if s[0] == n then Head(s[1..]) else Follow(s[1..], n)
  }

  ghost function Precede(s: seq<RbNode>, n: RbNode): RbNode? {
    if s == [] then null else if s[|s| - 1] == n then Last(s[..|s| - 1]) else Precede(s[..|s| - 1], n)
  }

  lemma {:induction false} FollowSplit(a: seq<RbNode>, n: RbNode, b: seq<RbNode>)
    requires n !in a
    ensures Follow(a + [n] + b, n) == Head(b)
  {
    var s := a + [n] + b;
    if a == [] {
      assert s[0] == n && s[1..] == b;
    } else {
      assert s[0] == a[0] && s[1..] == a[1..] + [n] + b;
      FollowSplit(a[1..], n, b);
    }
  }

  lemma {:induction false} PrecedeSplit(a: seq<RbNode>, n: RbNode, b: seq<RbNode>)
    requires n !in b
    ensures Precede(a + [n] + b, n) == Last(a)
  {
    var s := a + [n] + b;
    if b == [] {
      assert s[|s| - 1] == n && s[..|s| - 1] == a;
    } else {
      assert s[|s| - 1] == b[|b| - 1] && s[..|s| - 1] == a + [n] + b[..|b| - 1];
      PrecedeSplit(a, n, b[..|b| - 1]);
    }
  }

  ghost predicate Distinct(s: seq<RbNode>) { forall i, j :: 0 <= i < j < |s| ==> s[i] != s[j] }

  lemma FollowAt(s: seq<RbNode>, i: nat)
    requires Distinct(s) && i < |s|
    ensures Follow(s, s[i]) == (if i + 1 < |s| then s[i + 1] else null)
    ensures Precede(s, s[i]) == (if i > 0 then s[i - 1] else null)
  {
    var a, b := s[..i], s[i + 1..];
    assert s == a + [s[i]] + b;
    FollowSplit(a, s[i], b);
    PrecedeSplit(a, s[i], b);
  }

  /** The two steps undo each other wherever both are defined. */
  lemma StepsInverse(s: seq<RbNode>, n: RbNode)
    requires Distinct(s) && n in s
    ensures Follow(s, n) != null ==> Precede(s, Follow(s, n)) == n
    ensures Precede(s, n) != null ==> Follow(s, Precede(s, n)) == n
  {
    var i :| 0 <= i < |s| && s[i] == n;
    FollowAt(s, i);
    if i + 1 < |s| { FollowAt(s, i + 1); }
    if i > 0 { FollowAt(s, i - 1); }
  }

  lemma DistinctJoin(a: seq<RbNode>, n: RbNode, b: seq<RbNode>)
    requires Distinct(a) && Distinct(b) && n !in a && n !in b && forall x :: x in a ==> x !in b
    ensures Distinct(a + [n] + b)
  {
    var s := a + [n] + b;
    forall i, j | 0 <= i < j < |s| ensures s[i] != s[j] {
      assert s[i] == if i < |a| then a[i] else if i == |a| then n else b[i - |a| - 1];
      assert s[j] == if j < |a| then a[j] else if j == |a| then n else b[j - |a| - 1];
      if i < |a| { assert a[i] in a; }
      if j > |a| { assert b[j - |a| - 1] in b; }
    }
  }

  lemma {:induction false} InOrderDistinct(t: Tree)
    requires Separate(t)
    ensures Distinct(InOrder(t))
  {
    if t.Node? {
      InOrderDistinct(t.l);
      InOrderDistinct(t.r);
      InOrderNodes(t.l);
      InOrderNodes(t.r);
      Apart(t);
      DistinctJoin(InOrder(t.l), t.n, InOrder(t.r));
    }
  }

  lemma Apart(t: Tree)
    requires t.Node? && Separate(t)
    ensures t.n !in InOrder(t.l) && t.n !in InOrder(t.r) && forall x :: x in InOrder(t.l) ==> x !in InOrder(t.r)
  {
    InOrderNodes(t.l);
    InOrderNodes(t.r);
    assert t.n !in Elements(InOrder(t.l)) && t.n !in Elements(InOrder(t.r));
    forall x | x in InOrder(t.l) ensures x !in InOrder(t.r) {
      assert x in Elements(InOrder(t.l)) && x !in Elements(InOrder(t.r));
    }
  }

  // ----- the ends of a subtree

  ghost predicate AllRight(c: Ctx) { c.In? ==> c.s == R && AllRight(c.up) }

  lemma {:induction false} NothingAfter(c: Ctx)
    requires AllRight(c)
    ensures After(c) == []
  {
    if c.In? { NothingAfter(c.up); }
  }

  lemma LeftEnd(yc: Ctx, yt: Tree)
    requires AllLeft(yc) && yt.Node? && yt.l.Leaf?
    ensures |InOrder(Plug(yc, yt))| > 0 && InOrder(Plug(yc, yt))[0] == yt.n
  {
    PlugInOrder(yc, yt);
    NothingBefore(yc);
  }

  lemma RightEnd(yc: Ctx, yt: Tree)
    requires AllRight(yc) && yt.Node? && yt.r.Leaf?
    ensures |InOrder(Plug(yc, yt))| > 0 && Last(InOrder(Plug(yc, yt))) == yt.n
  {
    PlugInOrder(yc, yt);
    NothingAfter(yc);
    assert InOrder(yt) == InOrder(yt.l) + [yt.n];
  }

  /** What follows a node, and what precedes it. */
  lemma Neighbours(c: Ctx, t: Tree)
    requires Separate(Plug(c, t)) && t.Node?
    ensures Follow(InOrder(Plug(c, t)), t.n) == if t.r.Leaf? then Head(After(c)) else Head(InOrder(t.r))
    ensures Precede(InOrder(Plug(c, t)), t.n) == if t.l.Leaf? then Last(Before(c)) else Last(InOrder(t.l))
  {
    OnceInOrder(c, t);
    PlugInOrder(c, t);
    Regroup(Before(c), InOrder(t.l), [t.n], InOrder(t.r), After(c));
    MiddleOut(Before(c), InOrder(t.l), t.n, InOrder(t.r), After(c));
    FollowSplit(Before(c) + InOrder(t.l), t.n, InOrder(t.r) + After(c));
    PrecedeSplit(Before(c) + InOrder(t.l), t.n, InOrder(t.r) + After(c));
    Ends(t.l, t.r, Before(c), After(c));
  }

  lemma Ends(l: Tree, r: Tree, a: seq<RbNode>, e: seq<RbNode>)
    ensures Head(InOrder(r) + e) == if r.Leaf? then Head(e) else Head(InOrder(r))
    ensures Last(a + InOrder(l)) == if l.Leaf? then Last(a) else Last(InOrder(l))
  {
    if r.Leaf? { assert InOrder(r) + e == e; }
    if l.Leaf? { assert a + InOrder(l) == a; }
  }

  ghost function Backwards(s: seq<RbNode>): seq<RbNode> { if s == [] then [] else Backwards(s[1..]) + [s[0]] }

  lemma BackwardsStep(s: seq<RbNode>, k: nat)
    requires 0 < k <= |s|
    ensures Backwards(s[k - 1..]) == Backwards(s[k..]) + [s[k - 1]]
  {
    assert s[k - 1..][1..] == s[k..];
  }

  // ----- replacing

  ghost function Renamed(s: seq<RbNode>, v: RbNode, n: RbNode): seq<RbNode> {
    if s == [] then [] else [if s[0] == v then n else s[0]] + Renamed(s[1..], v, n)
  }

  lemma {:induction false} RenamedNone(s: seq<RbNode>, v: RbNode, n: RbNode)
    requires v !in s
    ensures Renamed(s, v, n) == s
  {
    if s != [] { RenamedNone(s[1..], v, n); }
  }

  lemma {:induction false} RenamedSplit(a: seq<RbNode>, b: seq<RbNode>, v: RbNode, n: RbNode)
    ensures Renamed(a + b, v, n) == Renamed(a, v, n) + Renamed(b, v, n)
  {
    var s := a + b;
    if a == [] {
      assert s == b;
    } else {
      RenamedSplit(a[1..], b, v, n);
      assert s[1..] == a[1..] + b && s[0] == a[0] && s != [];
    }
  }

  lemma RenamedMiddle(a: seq<RbNode>, b: seq<RbNode>, v: RbNode, d: seq<RbNode>, e: seq<RbNode>, n: RbNode)
    requires v !in a && v !in b && v !in d && v !in e
    ensures Renamed(a + b + [v] + d + e, v, n) == a + b + [n] + d + e
  {
    RenamedFront(a, b, v, n);
    RenamedSplit(a + b + [v] + d, e, v, n);
    RenamedSplit(a + b + [v], d, v, n);
    RenamedNone(d, v, n);
    RenamedNone(e, v, n);
  }

  lemma RenamedFront(a: seq<RbNode>, b: seq<RbNode>, v: RbNode, n: RbNode)
    requires v !in a && v !in b
    ensures Renamed(a + b + [v], v, n) == a + b + [n]
  {
    RenamedSplit(a + b, [v], v, n);
    RenamedNone(a + b, v, n);
  }

  lemma ReplacedRenames(c: Ctx, t: Tree, y: RbNode)
    requires Separate(Plug(c, t)) && t.Node?
    ensures InOrder(Plug(c, t.(n := y))) == Renamed(InOrder(Plug(c, t)), t.n, y)
  {
    OnceInOrder(c, t);
    ReplacedOrder(c, t, y);
    RenamedMiddle(Before(c), InOrder(t.l), t.n, InOrder(t.r), After(c), y);
  }

  /** The words rb_replace_node reads. */
  lemma ReplaceLook(c: Ctx, t: Tree, y: RbNode, root: RbNode?, m: Store)
    requires Whole(Plug(c, t), root, m) && m.Keys == Nodes(Plug(c, t)) && t.Node? && y !in m
    ensures t.n in m && m[t.n] == Cell(Ptr(t.l), Ptr(t.r), CtxNode(c), t.red)
    ensures CtxNode(c) != null ==> CtxNode(c) in m && CtxNode(c) != t.n
    ensures t.l.Node? ==> t.l.n in m && t.l.n != t.n
    ensures t.r.Node? ==> t.r.n in m && t.r.n != t.n
  {
    Look(c, t, root, m);
    ReplaceNodes(c, t, y);
  }

  /** What rb_replace_node gives. */
  lemma ReplaceReady(c: Ctx, t: Tree, y: RbNode, root: RbNode?, m: Store)
    requires Whole(Plug(c, t), root, m) && m.Keys == Nodes(Plug(c, t)) && t.Node? && y !in m
    ensures t.n in m
    ensures var w, m' := Plug(c, t.(n := y)), Replaced(m, t.n, y) - {t.n};
      Whole(w, if c.Top? then y else root, m') && m'.Keys == m.Keys - {t.n} + {y} == Nodes(w)
  {
    ReplaceOk(c, t, y, root, m);
    ReplaceNodes(c, t, y);
    ReplacedKeys(m, t.n, y);
    Forgotten(Plug(c, t.(n := y)), if c.Top? then y else root, Replaced(m, t.n, y), t.n);
  }

  lemma ReplacedKeys(m: Store, z: RbNode, y: RbNode)
    requires z in m
    ensures Replaced(m, z, y).Keys == m.Keys + {y}
  {
  }

  lemma ReplacedColors(c: Ctx, t: Tree, y: RbNode)
    requires RedBlack(Plug(c, t)) && t.Node?
    ensures RedBlack(Plug(c, t.(n := y)))
  {
    var h := HoleGood(c, t);
    PlugGood(c, t.(n := y), h);
  }

  lemma ReplaceEffects(c: Ctx, t: Tree, y: RbNode, root: RbNode?, m: Store)
    requires Whole(Plug(c, t), root, m) && m.Keys == Nodes(Plug(c, t)) && t.Node? && y !in m && RedBlack(Plug(c, t))
    ensures t.n in m
    ensures var w, m' := Plug(c, t.(n := y)), Replaced(m, t.n, y) - {t.n};
      Whole(w, if c.Top? then y else root, m') == true && m'.Keys == m.Keys - {t.n} + {y} == Nodes(w) &&
      RedBlack(w) == true && InOrder(w) == Renamed(InOrder(Plug(c, t)), t.n, y)
  {
    ReplaceReady(c, t, y, root, m);
    ReplacedColors(c, t, y);
    ReplacedRenames(c, t, y);
  }

  lemma ReplaceNodes(c: Ctx, t: Tree, y: RbNode)
    requires Separate(Plug(c, t)) && t.Node? && y !in Nodes(Plug(c, t))
    ensures Nodes(Plug(c, t.(n := y))) == Nodes(Plug(c, t)) - {t.n} + {y} && t.n != y
    ensures y !in Nodes(t) && y !in CtxNodes(c)
    ensures t.l.Node? ==> t.l.n in Nodes(Plug(c, t)) && t.l.n != t.n
    ensures t.r.Node? ==> t.r.n in Nodes(Plug(c, t)) && t.r.n != t.n
    ensures c.In? ==> c.n in Nodes(Plug(c, t)) && c.n != t.n
  {
    PlugSeparate(c, t);
    PlugNodes(c, t);
    PlugNodes(c, t.(n := y));
  }
}
