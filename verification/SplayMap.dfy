/** The map a splay tree stands for, and what insertion and deletion do to tree and map. */
module SplayMap {
  import opened Sides
  import opened SplayShape
  import opened SplayRepair
  import opened SplayPath

  // ----- the map of a sorted sequence

  ghost function Contents(s: seq<SplayNode>): map<int, SplayNode> {
    if s == [] then map[] else Contents(s[..|s| - 1])[s[|s| - 1].key := s[|s| - 1]]
  }

  /** Keys to data. */
  ghost function Data(c: map<int, SplayNode>): map<int, int> { map k | k in c :: c[k].data }

  lemma {:induction false} ContentsExact(s: seq<SplayNode>)
    requires Sorted(s)
    ensures forall n :: n in s ==> n.key in Contents(s) && Contents(s)[n.key] == n
    ensures forall k :: k in Contents(s) ==> Contents(s)[k] in s && Contents(s)[k].key == k
  {
    if s != [] {
      var last, rest := s[|s| - 1], s[..|s| - 1];
      assert s == rest + [last] + [];
      SortedParts(rest, last, []);
      ContentsExact(rest);
      forall n | n in rest ensures n.key != last.key { assert n.key < last.key; }
    }
  }

  /** A sorted sequence with exactly these nodes under their keys is this map. */
  lemma SameContents(s: seq<SplayNode>, k: map<int, SplayNode>)
    requires Sorted(s)
    requires forall n :: n in s ==> n.key in k && k[n.key] == n
    requires forall x :: x in k ==> k[x] in s && k[x].key == x
    ensures Contents(s) == k
  {
    ContentsExact(s);
    var c := Contents(s);
    forall x | x in c ensures x in k && k[x] == c[x] {
      var n := c[x];
      assert n in s && n.key == x;
    }
    forall x | x in k ensures x in c && c[x] == k[x] {
      var n := k[x];
      assert n in s && n.key == x;
    }
  }

  lemma SortedJoin(a: seq<SplayNode>, n: SplayNode, b: seq<SplayNode>)
    requires Sorted(a + b) && AllLess(a, n.key) && AllMore(b, n.key)
    ensures Sorted(a + [n] + b)
  {
    var s, t := a + [n] + b, a + b;
    forall i, j | 0 <= i < j < |s| ensures s[i].key < s[j].key {
      var i', j' := if i < |a| then i else i - 1, if j < |a| then j else j - 1;
      assert i != |a| ==> s[i] == t[i'] && (i < |a| ==> s[i] in a) && (i > |a| ==> s[i] in b);
      assert j != |a| ==> s[j] == t[j'] && (j < |a| ==> s[j] in a) && (j > |a| ==> s[j] in b);
    }
  }

  /** A new key joins the map where it belongs. */
  lemma Joins(a: seq<SplayNode>, n: SplayNode, b: seq<SplayNode>)
    requires Sorted(a + b) && AllLess(a, n.key) && AllMore(b, n.key)
    ensures Sorted(a + [n] + b) && n.key !in Contents(a + b)
    ensures Contents(a + [n] + b) == Contents(a + b)[n.key := n]
  {
    SortedJoin(a, n, b);
    ContentsExact(a + b);
    var s, t := a + [n] + b, a + b;
    forall x | x in t ensures x in s && x.key != n.key { assert x in a || x in b; }
    assert forall x :: x in s ==> x == n || x in t;
    assert n in s;
    SameContents(s, Contents(t)[n.key := n]);
  }

  /** A key leaves the map with its node. */
  lemma Leaves(a: seq<SplayNode>, n: SplayNode, b: seq<SplayNode>)
    requires Sorted(a + [n] + b)
    ensures Sorted(a + b) && n.key in Contents(a + [n] + b) && Contents(a + b) == Contents(a + [n] + b) - {n.key}
  {
    var s, t := a + [n] + b, a + b;
    SortedParts(a, n, b);
    forall i, j | 0 <= i < j < |t| ensures t[i].key < t[j].key {
      assert t[i] == s[if i < |a| then i else i + 1] && t[j] == s[if j < |a| then j else j + 1];
    }
    Joins(a, n, b);
    assert Contents(t) == Contents(t)[n.key := n] - {n.key};
  }

  /** The root is the key, or the key is nowhere. */
  lemma RootDecides(w: Tree, i: int)
    requires w.Node? && Sorted(InOrder(w)) && AllLess(InOrder(w.l), i) && AllMore(InOrder(w.r), i)
    ensures i in Contents(InOrder(w)) <==> w.n.key == i
    ensures i in Contents(InOrder(w)) ==> Contents(InOrder(w))[i] == w.n
  {
    ContentsExact(InOrder(w));
    assert w.n in InOrder(w);
    forall n | n in InOrder(w) && n.key == i ensures n == w.n { InRoot(w, n); }
  }

  lemma InRoot(w: Tree, n: SplayNode)
    requires w.Node? && n in InOrder(w)
    ensures n in InOrder(w.l) || n == w.n || n in InOrder(w.r)
  {
  }

  /** No key of the tree lies strictly between i and the root's key. */
  lemma RootNext(w: Tree, i: int, n: SplayNode)
    requires w.Node? && Sorted(InOrder(w)) && AllLess(InOrder(w.l), i) && AllMore(InOrder(w.r), i) && n in InOrder(w)
    ensures !(i < n.key < w.n.key) && !(w.n.key < n.key < i)
  {
    SortedParts(InOrder(w.l), w.n, InOrder(w.r));
    assert n in InOrder(w.l) || n == w.n || n in InOrder(w.r);
  }

  // ----- insertion

  /** The tree with n as new root: the old root goes below it, on the side of its key. */
  ghost function Inserted(w: Tree, n: SplayNode, before: bool): Tree {
    if w.Leaf? then Node(n, Leaf, Leaf)
    else if before then Node(n, w.l, Node(w.n, Leaf, w.r)) else Node(n, Node(w.n, w.l, Leaf), w.r)
  }

  /** What lies before and behind the new root. */
  ghost function Parts(w: Tree, before: bool): (seq<SplayNode>, seq<SplayNode>) {
    if w.Leaf? then ([], [])
    else if before then (InOrder(w.l), [w.n] + InOrder(w.r)) else (InOrder(w.l) + [w.n], InOrder(w.r))
  }

  lemma InsertedOrder(w: Tree, n: SplayNode, before: bool)
    requires Sorted(InOrder(w))
    requires w.Node? ==>
      AllLess(InOrder(w.l), n.key) && AllMore(InOrder(w.r), n.key) && if before then n.key < w.n.key
      else w.n.key < n.key
    ensures var u := Inserted(w, n, before);
      Sorted(InOrder(u)) && n.key !in Contents(InOrder(w)) && Contents(InOrder(u)) == Contents(InOrder(w))[n.key := n]
  {
    var (a, b) := Parts(w, before);
    InsertedSeq(w, n, before);
    Joins(a, n, b);
  }

  lemma InsertedNodes(w: Tree, n: SplayNode, before: bool)
    requires Separate(w) && n !in Nodes(w)
    ensures Separate(Inserted(w, n, before)) && Nodes(Inserted(w, n, before)) == Nodes(w) + {n}
  {
  }

  lemma InsertedSeq(w: Tree, n: SplayNode, before: bool)
    ensures var (a, b) := Parts(w, before); InOrder(Inserted(w, n, before)) == a + [n] + b && InOrder(w) == a + b
  {
    if w.Node? {
      if before {
        assert InOrder(Node(w.n, Leaf, w.r)) == [w.n] + InOrder(w.r);
        assert InOrder(w.l) + ([w.n] + InOrder(w.r)) == InOrder(w);
      } else {
        assert InOrder(Node(w.n, w.l, Leaf)) == InOrder(w.l) + [w.n];
      }
    }
  }

  /** The words of the new node and of the old root after an insertion. */
  ghost predicate InsertedWords(w: Tree, n: SplayNode, before: bool, m: Store, m': Store) {
    n !in m && m'.Keys == m.Keys + {n} &&
    if w.Leaf? then m'[n] == Cell(null, null, 1)
    else
      (w.n in m && m'[n].size == Count(w) + 1 &&
       (if before then m'[n].left == m[w.n].left && m'[n].right == w.n &&
         m'[w.n] == Cell(null, m[w.n].right, 1 + Count(w.r))
        else m'[n].right == m[w.n].right && m'[n].left == w.n && m'[w.n] == Cell(m[w.n].left, null, 1 + Count(w.l))) &&
       forall x :: x in m && x != w.n ==> m'[x] == m[x])
  }

  lemma InsertedOk(w: Tree, n: SplayNode, before: bool, m: Store, m': Store)
    requires Rep(w, Ptr(w), m) && Separate(w) && InsertedWords(w, n, before, m, m')
    ensures Rep(Inserted(w, n, before), n, m')
  {
    if w.Node? {
      RepNodes(w.l, m[w.n].left, m);
      RepNodes(w.r, m[w.n].right, m);
      RepFrame(w.l, m[w.n].left, m, m');
      RepFrame(w.r, m[w.n].right, m, m');
      OldRoot(w, before, m, m');
    }
  }

  lemma OldRoot(w: Tree, before: bool, m: Store, m': Store)
    requires w.Node? && w.n in m && w.n in m' && Rep(w.l, m[w.n].left, m') && Rep(w.r, m[w.n].right, m')
    requires m'[w.n] == if before then Cell(null, m[w.n].right, 1 + Count(w.r))
      else Cell(m[w.n].left, null, 1 + Count(w.l))
    ensures Rep(if before then Node(w.n, Leaf, w.r) else Node(w.n, w.l, Leaf), w.n, m')
  {
  }

  /** The sizes read while inserting. */
  lemma ChildSizes(w: Tree, m: Store)
    requires w.Node? && Rep(w, w.n, m) && Separate(w)
    ensures w.n in m && m[w.n] == Cell(Ptr(w.l), Ptr(w.r), Count(w)) && Count(w) == Count(w.l) + Count(w.r) + 1
    ensures w.l.Node? ==> w.l.n in m && m[w.l.n].size == Count(w.l) && w.l.n != w.n
    ensures w.r.Node? ==> w.r.n in m && m[w.r.n].size == Count(w.r) && w.r.n != w.n
  {
    RepNodes(w.l, m[w.n].left, m);
    RepNodes(w.r, m[w.n].right, m);
    assert w.l.Node? ==> w.l.n in Nodes(w.l);
    assert w.r.Node? ==> w.r.n in Nodes(w.r);
  }

  /** After a splay comparing i with the root's key tells where i stands. */
  lemma SplayedKeys(w: Tree, i: int)
    requires w.Node? && Sorted(InOrder(w)) && Near(InOrder(w), i) && AllLess(InOrder(w.l), i) &&
      AllMore(InOrder(w.r), i)
    ensures Compare(i, w.n.key) == 0 <==> i == w.n.key
    ensures Compare(i, w.n.key) < 0 <==> i < w.n.key
    ensures i in Contents(InOrder(w)) <==> i == w.n.key
  {
    assert w.n in InOrder(w);
    CompareSign(i, w.n.key);
    RootDecides(w, i);
  }

  lemma InsertedData(c: map<int, SplayNode>, n: SplayNode)
    ensures Data(c[n.key := n]) == Data(c)[n.key := n.data]
    ensures n.key in Data(c) <==> n.key in c
  {
  }

  ghost function SizeIn(m: Store, p: SplayNode?): int { if p != null && p in m then m[p].size else 0 }

  /** The statements of splaytree_insert for a non-empty tree; s is the side of the new root t goes to. */
  ghost function LinkIn(m: Store, n: SplayNode, t: SplayNode, s: Side): (m': Store)
    requires n in m && t in m
    ensures m'.Keys == m.Keys
  {
    SetKid(SetKid(SetKid(m, n, Opp(s), Kid(m[t], Opp(s))), n, s, t), t, Opp(s), null)
  }

  ghost function InsertIn(m: Store, n: SplayNode, t: SplayNode, s: Side): Store
    requires n in m && t in m
  {
    var m2 := LinkIn(m, n, t, s);
    var m3 := SetSize(m2, t, 1 + SizeIn(m2, Kid(m2[t], s)));
    SetSize(m3, n, 1 + SizeIn(m3, m3[n].left) + SizeIn(m3, m3[n].right))
  }

  lemma InsertInWords(w: Tree, n: SplayNode, s: Side, m: Store, m1: Store)
    requires w.Node? && Rep(w, w.n, m) && Separate(w) && n !in m && m1.Keys == m.Keys + {n} && forall x :: x in m ==>
      m1[x] == m[x]
    ensures w.n in m1 && InsertedWords(w, n, s == R, m, InsertIn(m1, n, w.n, s))
  {
    ChildSizes(w, m);
  }

  /** The tree has been splayed by i, which is not in it. */
  ghost predicate AddReady(w: Tree, i: int) {
    Near(InOrder(w), i) && (w.Node? ==> AllLess(InOrder(w.l), i) && AllMore(InOrder(w.r), i) && w.n.key != i)
  }

  /** On which side of the root i belongs. */
  ghost predicate Aside(w: Tree, i: int, before: bool) {
    w.Node? ==> AllLess(InOrder(w.l), i) && AllMore(InOrder(w.r), i) && if before then i < w.n.key else w.n.key < i
  }

  lemma AddSides(w: Tree, i: int, before: bool)
    requires AddReady(w, i) == true && Sorted(InOrder(w)) == true && (before <==> w.Node? && i < w.n.key)
    ensures w.Node? ==> (Compare(i, w.n.key) < 0 <==> before)
    ensures Aside(w, i, before) == true
  {
    if w.Node? { SplayedKeys(w, i); }
  }

  lemma InsertedEffects(w: Tree, n: SplayNode, before: bool, m: Store, m': Store)
    requires Rep(w, Ptr(w), m) == true && Separate(w) == true && m.Keys == Nodes(w) && Sorted(InOrder(w)) == true
    requires InsertedWords(w, n, before, m, m') == true
    requires Aside(w, n.key, before) == true
    ensures var u := Inserted(w, n, before);
      Rep(u, n, m') == true && Separate(u) == true && m'.Keys == Nodes(u) && Sorted(InOrder(u)) == true &&
      Data(Contents(InOrder(u))) == Data(Contents(InOrder(w)))[n.key := n.data]
  {
    InsertedOk(w, n, before, m, m');
    InsertedNodes(w, n, before);
    InsertedOrder(w, n, before);
    InsertedData(Contents(InOrder(w)), n);
  }

  // ----- deletion

  /** Splayed by a key above all of its own, a tree has a root without right child. */
  lemma NoRightChild(u: Tree, i: int)
    requires u.Node? && AllLess(InOrder(u), i) && AllMore(InOrder(u.r), i)
    ensures u.r.Leaf?
  {
    assert forall n :: n in InOrder(u.r) ==> n in InOrder(u);
    if InOrder(u.r) != [] { HasFirst(InOrder(u.r)); }
    CountOrder(u.r);
  }

  lemma HasFirst(s: seq<SplayNode>)
    requires s != []
    ensures s[0] in s
  {
  }

  /** The tree without its root: u, the left subtree splayed, takes the right one. */
  ghost function Deleted(w: Tree, u: Tree): Tree
    requires w.Node?
  {
    if u.Leaf? then w.r else Node(u.n, u.l, w.r)
  }

  lemma DeletedOrder(w: Tree, v: Tree)
    requires w.Node? && Sorted(InOrder(w)) && InOrder(v) == InOrder(w.l) + InOrder(w.r)
    ensures Sorted(InOrder(v)) && w.n.key in Contents(InOrder(w)) &&
      Contents(InOrder(v)) == Contents(InOrder(w)) - {w.n.key}
  {
    Leaves(InOrder(w.l), w.n, InOrder(w.r));
  }

  lemma DeletedSeq(w: Tree, u: Tree)
    requires w.Node? && InOrder(u) == InOrder(w.l) && (u.Node? ==> u.r.Leaf?)
    ensures InOrder(Deleted(w, u)) == InOrder(w.l) + InOrder(w.r) && Count(Deleted(w, u)) == Count(w) - 1
    ensures Count(u) == Count(w.l)
  {
    CountOrder(u);
    CountOrder(w.l);
    if u.Leaf? {
      assert InOrder(w.l) + InOrder(w.r) == InOrder(w.r);
    } else {
      assert InOrder(u) == InOrder(u.l) + [u.n];
    }
  }

  lemma DeletedNodes(w: Tree, u: Tree)
    requires w.Node? && Separate(w) && Nodes(u) == Nodes(w.l) && Separate(u) && (u.Node? ==> u.r.Leaf?)
    ensures Separate(Deleted(w, u)) && Nodes(Deleted(w, u)) == Nodes(w) - {w.n}
  {
  }

  lemma {:induction false} CountOrder(t: Tree)
    ensures Count(t) == |InOrder(t)|
  {
    if t.Node? {
      CountOrder(t.l);
      CountOrder(t.r);
    }
  }

  lemma DeletedOk(w: Tree, u: Tree, m: Store, m': Store)
    requires w.Node? && Rep(w.r, Ptr(w.r), m) && Rep(u, Ptr(u), m) && Separate(u) && Nodes(u) !! Nodes(w.r)
    requires w.n !in Nodes(u) && w.n !in Nodes(w.r) && w.n in m && (u.Node? ==> u.r.Leaf?) && m'.Keys == m.Keys - {w.n}
    requires u.Node? ==> u.n in m' && m'[u.n] == Cell(m[u.n].left, Ptr(w.r), Count(u) + Count(w.r))
    requires forall x :: x in m' && x != Ptr(u) ==> m'[x] == m[x]
    ensures Rep(Deleted(w, u), Ptr(Deleted(w, u)), m')
  {
    RepNodes(w.r, Ptr(w.r), m);
    RepNodes(u, Ptr(u), m);
    RepFrame(w.r, Ptr(w.r), m, m');
    if u.Node? { RepFrame(u.l, m[u.n].left, m, m'); }
  }

  /** The left subtree is ready to be splayed by the deleted key. */
  lemma LeftReady(w: Tree, i: int, m: Store)
    requires w.Node? && Rep(w, w.n, m) && Separate(w) && Sorted(InOrder(w)) && Near(InOrder(w), i)
    ensures w.n in m && Rep(w.l, m[w.n].left, m) == true && Separate(w.l) && Sorted(InOrder(w.l)) &&
      Near(InOrder(w.l), i)
    ensures m[w.n].left == Ptr(w.l) && m[w.n].right == Ptr(w.r) && Nodes(w.l) <= m.Keys
  {
    SortedParts(InOrder(w.l), w.n, InOrder(w.r));
    RepNodes(w.l, m[w.n].left, m);
    RepNodes(w.r, m[w.n].right, m);
    assert forall n :: n in InOrder(w.l) ==> n in InOrder(w);
  }

  lemma RootApart(w: Tree)
    requires w.Node? && Separate(w)
    ensures w.n !in Nodes(w.l) && Ptr(w.r) != w.n && (w.r.Node? ==> w.r.n in Nodes(w)) && Nodes(w.l) <= Nodes(w)
  {
    assert w.r.Node? ==> w.r.n in Nodes(w.r);
  }

  lemma DataWithout(c: map<int, SplayNode>, i: int)
    ensures Data(c - {i}) == Data(c) - {i}
    ensures i !in c ==> Data(c) - {i} == Data(c)
  {
  }

  /** x->right = t->right; x->size = tsize-1; t is gone */
  ghost function DeleteIn(m: Store, t: SplayNode, x: SplayNode?, join: bool, tsize: int): Store
    requires t in m
  {
    if x == null then m - {t}
    else SetSize(if join then SetKid(m, x, R, m[t].right) - {t} else m - {t}, x, tsize - 1)
  }

  /** m0 before the left subtree was splayed, m after. */
  lemma DeletedEffects(w: Tree, u: Tree, m0: Store, m: Store)
    requires w.Node? && Rep(w, w.n, m0) == true && Separate(w) == true && m0.Keys == Nodes(w) &&
      Sorted(InOrder(w)) == true
    requires Outside(m0, m, Nodes(w.l)) == true && Rep(u, Ptr(u), m) == true && Separate(u) == true &&
      InOrder(u) == InOrder(w.l) && Nodes(u) == Nodes(w.l)
    requires u.Node? ==> u.r.Leaf?
    ensures w.n in m
    ensures var v, x := Deleted(w, u), if u.Leaf? then Ptr(w.r) else u.n;
      var m' := DeleteIn(m, w.n, x, u.Node?, Count(w));
      x == Ptr(v) && Rep(v, x, m') == true && Separate(v) == true && m'.Keys == Nodes(v) && m'.Keys <= m.Keys &&
        Sorted(InOrder(v)) == true &&
      InOrder(v) == InOrder(w.l) + InOrder(w.r)
  {
    DeletedNodes(w, u);
    DeletedSeq(w, u);
    DeletedOrder(w, Deleted(w, u));
    RightStays(w, m0, m);
    JoinedRep(w, u, m);
  }

  lemma RightStays(w: Tree, m0: Store, m: Store)
    requires w.Node? && Rep(w, w.n, m0) && Separate(w) && m0.Keys == Nodes(w) && Outside(m0, m, Nodes(w.l))
    ensures w.n in m && m[w.n] == m0[w.n] && m[w.n].right == Ptr(w.r) && Rep(w.r, Ptr(w.r), m) && m.Keys == Nodes(w)
  {
    RepNodes(w.r, m0[w.n].right, m0);
    RepFrame(w.r, m0[w.n].right, m0, m);
  }

  lemma JoinedRep(w: Tree, u: Tree, m: Store)
    requires w.Node? && Separate(w) && m.Keys == Nodes(w) && m[w.n].right == Ptr(w.r) && Rep(w.r, Ptr(w.r), m)
    requires Rep(u, Ptr(u), m) && Separate(u) && Nodes(u) == Nodes(w.l) && Count(u) == Count(w.l) &&
      (u.Node? ==> u.r.Leaf?)
    ensures var v, x := Deleted(w, u), if u.Leaf? then Ptr(w.r) else u.n;
      var m' := DeleteIn(m, w.n, x, u.Node?, Count(w)); x == Ptr(v) && Rep(v, x, m') && m'.Keys == m.Keys - {w.n}
  {
    var x := if u.Leaf? then Ptr(w.r) else u.n;
    assert u.Node? ==> u.n in Nodes(u);
    assert w.r.Node? ==> w.r.n in Nodes(w.r) && m[w.r.n].size == Count(w.r);
    assert Count(w) == Count(w.l) + Count(w.r) + 1;
    DeletedOk(w, u, m, DeleteIn(m, w.n, x, u.Node?, Count(w)));
  }

  // ----- any run

  datatype Op = Insert(key: int, data: int) | Delete(key: int)

  /** What a run makes of the empty map. */
  ghost function Replay(ops: seq<Op>): map<int, int> {
    if ops == [] then map[]
    else
      var before := Replay(ops[..|ops| - 1]);
      match ops[|ops| - 1]
      case Insert(k, d) => if k in before then before else before[k := d]
      case Delete(k) => before - {k}
  }

  ghost predicate InWindow(k: map<int, int>, lo: int) { forall x :: x in k ==> lo <= x <= lo + 0x7FFF_FFFF }

  /** Keys of one window of 2^31 values can always be compared. */
  lemma WindowNear(s: seq<SplayNode>, i: int, lo: int)
    requires Sorted(s) && InWindow(Data(Contents(s)), lo) && Int32(lo) && Int32(lo + 0x7FFF_FFFF) &&
      lo <= i <= lo + 0x7FFF_FFFF
    ensures Near(s, i)
  {
    ContentsExact(s);
    forall n | n in s ensures Int32(n.key) && Int32(i - n.key) { assert n.key in Data(Contents(s)); }
  }
}
