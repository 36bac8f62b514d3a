/** The registry of open databases: a red-black tree of names, and the map it refines. */
module Registry {
  import opened Powers
  import opened Sides
  import opened Chars
  import opened RbShape
  import opened RbColor
  import opened RbErase
  import opened RbWalk
  import opened RbTree

  // ----- strcmp

  /** The difference of the first characters that differ; the end of a string counts as zero. */
  function Strcmp(a: string, b: string): int {
    if a == [] && b == [] then 0
    else if a == [] then 0 - b[0] as int
    else if b == [] then a[0] as int
    else if a[0] != b[0] then a[0] as int - b[0] as int
    else Strcmp(a[1..], b[1..])
  }

  lemma {:induction false} StrcmpEqual(a: string, b: string)
    requires NulFree(a) && NulFree(b)
    ensures Strcmp(a, b) == 0 <==> a == b
  {
    if a != [] && b != [] && a[0] == b[0] {
      StrcmpEqual(a[1..], b[1..]);
      assert a == [a[0]] + a[1..] && b == [b[0]] + b[1..];
    }
  }

  /** The first character in which they differ decides, and before it the end of the shorter one. */
  lemma {:induction false} StrcmpFirst(a: string, b: string, k: nat)
    requires k <= |a| && k <= |b| && a[..k] == b[..k]
    ensures k < |a| && k < |b| && a[k] != b[k] ==> Strcmp(a, b) == a[k] as int - b[k] as int
    ensures k == |a| < |b| && NulFree(b) ==> Strcmp(a, b) < 0
    ensures k == |b| < |a| && NulFree(a) ==> Strcmp(a, b) > 0
  {
    if k > 0 {
      assert a[..k][0] == b[..k][0] && a[1..][..k - 1] == a[..k][1..] && b[1..][..k - 1] == b[..k][1..];
      StrcmpFirst(a[1..], b[1..], k - 1);
    }
  }

  lemma {:induction false} StrcmpOpposite(a: string, b: string)
    ensures Strcmp(a, b) == -Strcmp(b, a)
  {
    if a != [] && b != [] && a[0] == b[0] { StrcmpOpposite(a[1..], b[1..]); }
  }

  lemma {:induction false} StrcmpTransitive(a: string, b: string, c: string)
    requires NulFree(a) && NulFree(b) && NulFree(c) && Strcmp(a, b) < 0 && Strcmp(b, c) < 0
    ensures Strcmp(a, c) < 0
  {
    if a != [] && b != [] && c != [] && a[0] == b[0] && b[0] == c[0] { StrcmpTransitive(a[1..], b[1..], c[1..]); }
  }

  // ----- trees ordered by name

  /** In order, names increase. */
  ghost predicate Sorted(s: seq<RbNode>) {
    (forall i :: 0 <= i < |s| ==> NulFree(s[i].name)) &&
    forall i, j :: 0 <= i < j < |s| ==> Strcmp(s[i].name, s[j].name) < 0
  }

  /** All names of a sequence lie below, or above, a name. */
  ghost predicate Below(s: seq<RbNode>, name: string) { forall n :: n in s ==> Strcmp(n.name, name) < 0 }

  ghost predicate Above(s: seq<RbNode>, name: string) { forall n :: n in s ==> Strcmp(name, n.name) < 0 }

  lemma SortedSplit(a: seq<RbNode>, n: RbNode, b: seq<RbNode>)
    requires Sorted(a + [n] + b)
    ensures Sorted(a) && Sorted(b) && NulFree(n.name) && Below(a, n.name) && Above(b, n.name)
  {
    var s := a + [n] + b;
    assert s[|a|] == n;
    assert forall i :: 0 <= i < |a| ==> s[i] == a[i];
    assert forall i :: 0 <= i < |b| ==> s[|a| + 1 + i] == b[i];
  }

  lemma SortedJoin(a: seq<RbNode>, n: RbNode, b: seq<RbNode>)
    requires Sorted(a + b) && NulFree(n.name) && Below(a, n.name) && Above(b, n.name)
    ensures Sorted(a + [n] + b)
  {
    var s, t := a + [n] + b, a + b;
    forall i | 0 <= i < |s| ensures NulFree(s[i].name) {
      assert i != |a| ==> s[i] == t[if i < |a| then i else i - 1];
    }
    forall i, j | 0 <= i < j < |s| ensures Strcmp(s[i].name, s[j].name) < 0 {
      var i', j' := if i < |a| then i else i - 1, if j < |a| then j else j - 1;
      assert i != |a| ==> s[i] == t[i'] && (i < |a| ==> s[i] in a) && (i > |a| ==> s[i] in b);
      assert j != |a| ==> s[j] == t[j'] && (j < |a| ==> s[j] in a) && (j > |a| ==> s[j] in b);
    }
  }

  // ----- the map

  ghost function Contents(s: seq<RbNode>): map<string, RbNode> {
    if s == [] then map[] else Contents(s[..|s| - 1])[s[|s| - 1].name := s[|s| - 1]]
  }

  /** With increasing names the map holds each node under its name, and nothing else. */
  lemma {:induction false} ContentsExact(s: seq<RbNode>)
    requires Sorted(s)
    ensures forall n :: n in s ==> n.name in Contents(s) && Contents(s)[n.name] == n
    ensures forall k :: k in Contents(s) ==> Contents(s)[k] in s && Contents(s)[k].name == k
  {
    if s != [] {
      var last, rest := s[|s| - 1], s[..|s| - 1];
      assert s == rest + [last] + [];
      SortedSplit(rest, last, []);
      ContentsExact(rest);
      StrcmpSelf(last.name);
      forall n | n in rest ensures n.name != last.name { assert Strcmp(n.name, last.name) < 0; }
    }
  }

  lemma StrcmpSelf(a: string)
    requires NulFree(a)
    ensures Strcmp(a, a) == 0
  {
    StrcmpEqual(a, a);
  }

  /** Sequences with the same nodes, both sorted, are the same map. */
  lemma SameContents(s: seq<RbNode>, k: map<string, RbNode>)
    requires Sorted(s)
    requires forall n :: n in s ==> n.name in k && k[n.name] == n
    requires forall name :: name in k ==> k[name] in s && k[name].name == name
    ensures Contents(s) == k
  {
    ContentsExact(s);
  }

  // ----- searching

  /** What lies before the hole is smaller than name, what lies behind is larger. */
  ghost predicate Narrowed(c: Ctx, name: string) { Below(Before(c), name) && Above(After(c), name) }

  lemma NarrowLeft(c: Ctx, t: Tree, name: string)
    requires t.Node? && Sorted(InOrder(Plug(c, t))) && Narrowed(c, name) && NulFree(name) && Strcmp(name, t.n.name) < 0
    ensures Narrowed(In(L, t.n, t.red, t.r, c), name)
  {
    Around(c, t);
    forall n | n in InOrder(t.r) ensures Strcmp(name, n.name) < 0 {
      StrcmpTransitive(name, t.n.name, n.name);
    }
  }

  lemma NarrowRight(c: Ctx, t: Tree, name: string)
    requires t.Node? && Sorted(InOrder(Plug(c, t))) && Narrowed(c, name) && NulFree(name) && Strcmp(name, t.n.name) > 0
    ensures Narrowed(In(R, t.n, t.red, t.l, c), name)
  {
    Around(c, t);
    StrcmpOpposite(name, t.n.name);
    forall n | n in InOrder(t.l) ensures Strcmp(n.name, name) < 0 {
      StrcmpTransitive(n.name, t.n.name, name);
    }
  }

  /** The names in the subtrees of a node lie on their sides of its name. */
  lemma Around(c: Ctx, t: Tree)
    requires t.Node? && Sorted(InOrder(Plug(c, t)))
    ensures NulFree(t.n.name) && Below(InOrder(t.l), t.n.name) && Above(InOrder(t.r), t.n.name)
    ensures forall n :: n in InOrder(t.l) ==> NulFree(n.name)
    ensures forall n :: n in InOrder(t.r) ==> NulFree(n.name)
  {
    PlugInOrder(c, t);
    Regroup(Before(c), InOrder(t.l), [t.n], InOrder(t.r), After(c));
    MiddleOut(Before(c), InOrder(t.l), t.n, InOrder(t.r), After(c));
    SortedSplit(Before(c) + InOrder(t.l), t.n, InOrder(t.r) + After(c));
    assert forall n :: n in InOrder(t.l) ==> n in Before(c) + InOrder(t.l);
    assert forall n :: n in InOrder(t.r) ==> n in InOrder(t.r) + After(c);
    assert forall n :: n in Before(c) + InOrder(t.l) ==> NulFree(n.name);
    assert forall n :: n in InOrder(t.r) + After(c) ==> NulFree(n.name);
  }

  /** A name narrowed down to an empty place is in no node. */
  lemma NotFound(c: Ctx, name: string)
    requires Sorted(InOrder(Plug(c, Leaf))) && Narrowed(c, name) && NulFree(name)
    ensures name !in Contents(InOrder(Plug(c, Leaf)))
  {
    PlugInOrder(c, Leaf);
    ContentsExact(InOrder(Plug(c, Leaf)));
    StrcmpSelf(name);
    assert Before(c) + [] + After(c) == Before(c) + After(c);
    forall n | n in Before(c) + After(c) ensures n.name != name {
      assert n in Before(c) || n in After(c);
    }
  }

  lemma Found(c: Ctx, t: Tree, name: string)
    requires t.Node? && Sorted(InOrder(Plug(c, t))) && NulFree(name) && Strcmp(name, t.n.name) == 0
    ensures name in Contents(InOrder(Plug(c, t))) && Contents(InOrder(Plug(c, t)))[name] == t.n
  {
    Around(c, t);
    StrcmpEqual(name, t.n.name);
    ContentsExact(InOrder(Plug(c, t)));
    PlugInOrder(c, t);
    assert t.n in InOrder(t);
  }

  /** A node hung where its name was narrowed down to keeps the order, and joins the map. */
  lemma Inserted(c: Ctx, n: RbNode)
    requires Sorted(InOrder(Plug(c, Leaf))) && Narrowed(c, n.name) && NulFree(n.name)
    ensures Sorted(Before(c) + [n] + After(c))
    ensures Contents(Before(c) + [n] + After(c)) == Contents(InOrder(Plug(c, Leaf)))[n.name := n]
  {
    LinkOrder(c, n);
    NotFound(c, n.name);
    SortedJoin(Before(c), n, After(c));
    ContentsExact(Before(c) + After(c));
    var s := Before(c) + [n] + After(c);
    assert forall x :: x in s <==> x == n || x in Before(c) + After(c);
    SameContents(s, Contents(Before(c) + After(c))[n.name := n]);
  }

  /** Taking a node out of the order takes its name out of the map. */
  lemma Removed(s: seq<RbNode>, n: RbNode)
    requires Sorted(s) && n in s
    ensures Sorted(Without(s, n)) && Contents(Without(s, n)) == Contents(s) - {n.name}
  {
    var i :| 0 <= i < |s| && s[i] == n;
    var a, b := s[..i], s[i + 1..];
    assert s == a + [n] + b;
    SortedClose(a, n, b);
    WithoutOne(a, n, b);
    RemovedMap(a, n, b);
  }

  lemma RemovedMap(a: seq<RbNode>, n: RbNode, b: seq<RbNode>)
    requires Sorted(a + [n] + b) && Sorted(a + b) && n !in a && n !in b
    ensures Contents(a + b) == Contents(a + [n] + b) - {n.name}
  {
    var s := a + [n] + b;
    ContentsExact(s);
    assert n in s;
    forall x | x in a + b ensures x in s && x.name != n.name {
      assert Contents(s)[x.name] == x && Contents(s)[n.name] == n;
    }
    forall name | name in Contents(s) - {n.name} ensures Contents(s)[name] in a + b { }
    SameContents(a + b, Contents(s) - {n.name});
  }

  lemma SortedClose(a: seq<RbNode>, n: RbNode, b: seq<RbNode>)
    requires Sorted(a + [n] + b)
    ensures Sorted(a + b) && n !in a && n !in b
  {
    var s, t := a + [n] + b, a + b;
    SortedSplit(a, n, b);
    StrcmpSelf(n.name);
    forall i, j | 0 <= i < j < |t| ensures Strcmp(t[i].name, t[j].name) < 0 {
      var i', j' := if i < |a| then i else i + 1, if j < |a| then j else j + 1;
      assert t[i] == s[i'] && t[j] == s[j'];
    }
    forall i | 0 <= i < |t| ensures NulFree(t[i].name) { assert t[i] == s[if i < |a| then i else i + 1]; }
  }

  // ----- the operations

  ghost predicate Valid(root: RbRoot)
    reads root, root.m.Keys
  {
    root.Valid() && Sorted(InOrder(root.tree))
  }

  /** The registry as a map. */
  ghost function Map(root: RbRoot): map<string, RbNode>
    reads root
  {
    Contents(InOrder(root.tree))
  }

  /** reveldb_search_db, counting the nodes it looks at. */
  method SearchDb(root: RbRoot, dbname: string) returns (db: RbNode?, ghost steps: nat)
    requires Valid(root) && NulFree(dbname)
    ensures db == if dbname in Map(root) then Map(root)[dbname] else null
    ensures steps <= Height(root.tree)
  {
    var node := root.rb_node;
    ghost var c, t := Top, root.tree;
    Look(c, t, root.rb_node, root.m);
    steps := 0;
    while node != null
      invariant root.tree == Plug(c, t) && node == Ptr(t) && Narrowed(c, dbname) && (node != null ==> node in root.m)
      invariant steps + Height(t) <= Height(root.tree)
      decreases t
    {
      steps := steps + 1;
      Look(c, t, root.rb_node, root.m);
      var result := Strcmp(dbname, node.name);
      if result < 0 {
        NarrowLeft(c, t, dbname);
        node := node.rb_left;
        c, t := In(L, t.n, t.red, t.r, c), t.l;
      } else if result > 0 {
        NarrowRight(c, t, dbname);
        node := node.rb_right;
        c, t := In(R, t.n, t.red, t.l, c), t.r;
      } else {
        Found(c, t, dbname);
        return node, steps;
      }
      Look(c, t, root.rb_node, root.m);
    }
    NotFound(c, dbname);
    db := null;
  }

  /** The loop of reveldb_insert_db: to the node of that name, or to the missing child where it belongs. */
  method FindPlace(root: RbRoot, name: string) returns (found: bool, parent: RbNode?, left: bool, ghost c: Ctx)
    requires Valid(root) && NulFree(name)
    ensures found <==> name in Map(root)
    ensures !found ==>
      root.tree == Plug(c, Leaf) && parent == CtxNode(c) && (c.In? ==> (left <==> c.s == L)) && Narrowed(c, name)
  {
    var node := root.rb_node;
    parent, left := null, false;
    c := Top;
    ghost var t := root.tree;
    Look(c, t, root.rb_node, root.m);
    while node != null
      invariant root.tree == Plug(c, t) && node == Ptr(t) && Narrowed(c, name) && (node != null ==> node in root.m)
      invariant parent == CtxNode(c) && (c.In? ==> (left <==> c.s == L))
      decreases t
    {
      Look(c, t, root.rb_node, root.m);
      var result := Strcmp(name, node.name);
      parent := node;
      if result < 0 {
        NarrowLeft(c, t, name);
        left := true;
        node := node.rb_left;
        c, t := In(L, t.n, t.red, t.r, c), t.l;
      } else if result > 0 {
        NarrowRight(c, t, name);
        left := false;
        node := node.rb_right;
        c, t := In(R, t.n, t.red, t.l, c), t.r;
      } else {
        Found(c, t, name);
        found := true;
        return;
      }
      Look(c, t, root.rb_node, root.m);
    }
    NotFound(c, name);
    found := false;
  }

  /** reveldb_insert_db: 1 and the node registered when its name was free, 0 and nothing changed otherwise. */
  method InsertDb(root: RbRoot, db: RbNode) returns (r: int)
    requires Valid(root) && NulFree(db.name)
    modifies root, root.m.Keys, db
    ensures Valid(root) == true && root.m.Keys <= old(root.m.Keys) + {db}
    ensures r == if db.name in old(Map(root)) then 0 else 1
    ensures Map(root) == if r == 1 then old(Map(root))[db.name := db] else old(Map(root))
  {
    var found, parent, left;
    ghost var c;
    found, parent, left, c := FindPlace(root, db.name);
    if found {
      return 0;
    }
    Inserted(c, db);
    Unlinked(root, db);
    root.InsertAt(db, parent, left, c);
    r := 1;
  }

  /** A node whose name is not registered is not in the tree. */
  lemma Unlinked(root: RbRoot, db: RbNode)
    requires Valid(root) && db.name !in Map(root)
    ensures db !in root.m
  {
    ContentsExact(InOrder(root.tree));
    InOrderNodes(root.tree);
    assert db in InOrder(root.tree) <==> db in Elements(InOrder(root.tree));
  }

  /** rb_erase on a registered node. */
  method EraseDb(root: RbRoot, db: RbNode)
    requires Valid(root) && db in root.m
    modifies root, root.m.Keys
    ensures Valid(root) == true && root.m.Keys == old(root.m.Keys) - {db}
    ensures Map(root) == old(Map(root)) - {db.name}
  {
    InOrderNodes(root.tree);
    assert db in Elements(InOrder(root.tree));
    Removed(InOrder(root.tree), db);
    root.Erase(db);
  }

  // ----- any run

  datatype Op = Insert(db: RbNode) | Search(name: string) | Erase(name: string)

  /** The map after an operation, and what the operation answers: the node found, or the node whose name was free. */
  ghost function Replay(k: map<string, RbNode>, op: Op): (map<string, RbNode>, RbNode?) {
    match op
    case Insert(db) => if db.name in k then (k, null) else (k[db.name := db], db)
    case Search(name) => (k, if name in k then k[name] else null)
    case Erase(name) => (k - {name}, if name in k then k[name] else null)
  }

  /** The map and the answers after a whole run. */
  ghost function ReplayAll(k: map<string, RbNode>, ops: seq<Op>): (map<string, RbNode>, seq<RbNode?>) {
    if ops == [] then (k, [])
    else
      var (before, answers) := ReplayAll(k, ops[..|ops| - 1]);
      var (after, answer) := Replay(before, ops[|ops| - 1]);
      (after, answers + [answer])
  }

  ghost predicate Named(op: Op) {
    match op
    case Insert(db) => NulFree(db.name)
    case Search(name) => NulFree(name)
    case Erase(name) => NulFree(name)
  }

  ghost function Handed(ops: seq<Op>): set<RbNode> { set op | op in ops && op.Insert? :: op.db }

  /** Any run of inserts, searches and erasures, of nodes registered before or not, answers as the map does. */
  method Run(root: RbRoot, ops: seq<Op>) returns (answers: seq<RbNode?>)
    requires Valid(root) && forall op :: op in ops ==> Named(op)
    modifies root, root.m.Keys, Handed(ops)
    ensures Valid(root) == true && (Map(root), answers) == ReplayAll(old(Map(root)), ops)
  {
    answers := [];
    ghost var keys, k := root.m.Keys, Map(root);
    for i := 0 to |ops|
      invariant Valid(root) == true && root.m.Keys <= keys + Handed(ops)
      invariant (Map(root), answers) == ReplayAll(k, ops[..i])
    {
      OneMore(k, ops, i);
      var answer := Step(root, ops[i]);
      answers := answers + [answer];
    }
    assert ops[..|ops|] == ops;
  }

  lemma OneMore(k: map<string, RbNode>, ops: seq<Op>, i: nat)
    requires i < |ops|
    ensures ops[i] in ops && Handed([ops[i]]) <= Handed(ops)
    ensures var (before, answers) := ReplayAll(k, ops[..i]);
      ReplayAll(k, ops[..i + 1]) == (Replay(before, ops[i]).0, answers + [Replay(before, ops[i]).1])
  {
    assert ops[..i + 1][..i] == ops[..i];
  }

  method Step(root: RbRoot, op: Op) returns (answer: RbNode?)
    requires Valid(root) == true && Named(op)
    modifies root, root.m.Keys, Handed([op])
    ensures Valid(root) == true && root.m.Keys <= old(root.m.Keys) + Handed([op])
    ensures (Map(root), answer) == Replay(old(Map(root)), op)
  {
    match op
    case Insert(db) =>
      assert op in [op];
      var r := InsertDb(root, db);
      answer := if r == 1 then db else null;
    case Search(name) =>
      ghost var steps;
      answer, steps := SearchDb(root, name);
    case Erase(name) =>
      ghost var steps;
      answer, steps := SearchDb(root, name);
      if answer != null {
        Registered(root, name);
        EraseDb(root, answer);
      } else {
        assert Map(root) - {name} == Map(root);
      }
  }

  lemma Registered(root: RbRoot, name: string)
    requires Valid(root) && name in Map(root)
    ensures Map(root)[name] in root.m && Map(root)[name].name == name
  {
    ContentsExact(InOrder(root.tree));
    InOrderNodes(root.tree);
    assert Map(root)[name] in Elements(InOrder(root.tree));
  }

  /** No search takes more than twice the binary logarithm of the number of databases plus one. */
  lemma SearchSteps(root: RbRoot)
    requires Valid(root)
    ensures exists h: nat :: Height(root.tree) <= 2 * h && Pow2(h) <= |InOrder(root.tree)| + 1
  {
    HeightBound(root.tree);
    CountInOrder(root.tree);
  }

  lemma {:induction false} CountInOrder(t: Tree)
    ensures Count(t) == |InOrder(t)|
  {
    if t.Node? {
      CountInOrder(t.l);
      CountInOrder(t.r);
    }
  }
}
