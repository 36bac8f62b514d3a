/** The searches of tmalloc_large and tmalloc_small: along the bit path of the request,
    remembering the deepest right subtree passed by, then down the leftmost path. */
module BestFit {
  import opened Memory
  import opened Powers
  import opened TreeIndex
  import opened Trie
  import opened TrieHeap
  import opened TrieWalk

  /** Unsigned subtraction of size_t values. */
  function Sub64(a: nat, b: nat): nat {
    (a + SIZE_T - b) % SIZE_T
  }

  /** v is no worse a fit than p. */
  ghost predicate Beats(h: Heads, v: nat, p: nat) { v != 0 && Size(h, v) <= Size(h, p) }

  /** The candidate v and the remainder it would leave; no candidate shows as v == 0 and -nb. */
  ghost predicate Candidate(U: set<nat>, h: Heads, nb: nat, v: nat, rsize: nat) {
    (v == 0 && rsize == SIZE_T - nb) || (v != 0 && v in U && Size(h, v) == nb + rsize)
  }

  /** The wrap-around test trem < rsize accepts exactly the chunks that fit and fit better:
      a chunk too small leaves a remainder of at least -nb. */
  lemma WrapTest(U: set<nat>, h: Heads, nb: nat, v: nat, rsize: nat, t: nat)
    requires 0 < nb < SIZE_T && Candidate(U, h, nb, v, rsize) && Size(h, t) < SIZE_T
    requires v != 0 ==> Size(h, v) < SIZE_T
    ensures Sub64(Size(h, t), nb) < rsize <==> nb <= Size(h, t) && (v == 0 || Size(h, t) < Size(h, v))
    ensures nb <= Size(h, t) ==> Sub64(Size(h, t), nb) == Size(h, t) - nb
  {
    var s := Size(h, t);
    if nb <= s {
      assert s + SIZE_T - nb == SIZE_T + (s - nb);
    } else {
      assert 0 <= s + SIZE_T - nb < SIZE_T;
    }
  }

  /** v is the smallest chunk of U that fits, or null when none does; rsize is what it would leave. */
  ghost predicate BestOf(U: set<nat>, h: Heads, nb: nat, v: nat, rsize: nat) {
    Candidate(U, h, nb, v, rsize) && forall p :: p in U && nb <= Size(h, p) ==> Beats(h, v, p)
  }

  ghost predicate SizesBelow(t: Trie, h: Heads) {
    forall p :: p in Members(t) ==> 0 < p && Size(h, p) < SIZE_T
  }

  // ----- down the leftmost path

  /** Every chunk of the bin that fits is still below t, or beaten by v, or larger than
      everything below t (which then all fits). */
  ghost predicate MinSearch(b: Tree, nb: nat, v: nat, rsize: nat, t: Trie, T: nat, par: nat, lo: nat, d: nat) {
    Rep(t, T, par, b.i, b.m) && Ok(t, lo, d, b.h) && Members(t) <= Members(b.t) && SizesBelow(b.t, b.h) &&
    Candidate(Members(b.t), b.h, nb, v, rsize) &&
    (AllFit(t, b.h, nb) || (v != 0 && AllBeaten(b, nb, v))) &&
    forall p :: p in Members(b.t) && nb <= Size(b.h, p) ==>
      p in Members(t) || Beats(b.h, v, p) || (t.Node? && lo + Width(d) <= Size(b.h, p))
  }

  ghost predicate AllFit(t: Trie, h: Heads, nb: nat) {
    forall p :: p in Members(t) ==> nb <= Size(h, p)
  }

  ghost predicate AllBeaten(b: Tree, nb: nat, v: nat) {
    forall p :: p in Members(b.t) && nb <= Size(b.h, p) ==> Beats(b.h, v, p)
  }

  /** leftmost_child(t) */
  function LeftmostChild(m: Links, T: nat): nat {
    if At(m, T).child0 != 0 then At(m, T).child0 else At(m, T).child1
  }

  /** The candidate after looking at T. */
  function Better(h: Heads, nb: nat, v: nat, rsize: nat, T: nat): (nat, nat) {
    var trem := Sub64(Size(h, T), nb);
    if trem < rsize then (T, trem) else (v, rsize)
  }

  lemma MinSearchEnd(b: Tree, nb: nat, v: nat, rsize: nat, t: Trie, par: nat, lo: nat, d: nat)
    requires MinSearch(b, nb, v, rsize, t, 0, par, lo, d)
    ensures BestOf(Members(b.t), b.h, nb, v, rsize)
  {
    assert t.Nil?;
  }

  /** A search with a candidate or a node before it finds something. */
  lemma MinSearchFinds(b: Tree, nb: nat, v: nat, rsize: nat, t: Trie, T: nat, par: nat, lo: nat, d: nat, v': nat,
        r': nat)
    requires MinSearch(b, nb, v, rsize, t, T, par, lo, d) && BestOf(Members(b.t), b.h, nb, v', r')
    ensures v != 0 || T != 0 ==> v' != 0
  {
    if v != 0 {
      assert v in Members(b.t);
    } else if T != 0 {
      assert T in Elements(t.ring);
    }
  }

  /** Where all sizes fit, the search may start at the root. */
  lemma MinSearchStart(b: Tree, nb: nat)
    requires TreeRep(b) && SizesBelow(b.t, b.h) && AllFit(b.t, b.h, nb) && 0 < nb < SIZE_T
    ensures MinSearch(b, nb, 0, SIZE_T - nb, b.t, b.root, b.slot, b.lo, b.d)
  {
  }

  /** Looking at the node T: the better candidate beats the whole ring of T. */
  lemma Looked(b: Tree, nb: nat, v: nat, rsize: nat, t: Trie, T: nat, par: nat, lo: nat, d: nat)
    requires 0 < nb < SIZE_T && t.Node? && Rep(t, T, par, b.i, b.m) && Ok(t, lo, d, b.h)
    requires Members(t) <= Members(b.t) && SizesBelow(b.t, b.h) && Candidate(Members(b.t), b.h, nb, v, rsize)
    ensures T in Members(t) && Size(b.h, T) < SIZE_T
    ensures var (v', r') := Better(b.h, nb, v, rsize, T);
      Candidate(Members(b.t), b.h, nb, v', r') &&
      (forall p :: p in t.ring && nb <= Size(b.h, p) ==> Beats(b.h, v', p)) &&
      (forall p :: Beats(b.h, v, p) ==> Beats(b.h, v', p)) &&
      (nb <= Size(b.h, T) ==> v' != 0 && Size(b.h, v') <= Size(b.h, T)) &&
      (r' == 0 ==> v' != 0)
  {
    assert T in t.ring && T in Elements(t.ring);
    WrapTest(Members(b.t), b.h, nb, v, rsize, T);
  }

  /** The subtrie the leftmost walk continues in, and its span. */
  ghost function LmTrie(t: Trie, d: nat): Trie
    requires t.Node?
  {
    if d == 0 || t.left.Node? then t.left else t.right
  }

  ghost function LmLo(t: Trie, lo: nat, d: nat): nat
    requires t.Node?
  {
    if d == 0 || t.left.Node? then lo else lo + Width(d - 1)
  }

  function LmDepth(d: nat): nat { if d == 0 then 0 else d - 1 }

  /** The children of a node, as tries of their own. */
  lemma LeftIn(b: Tree, t: Trie, T: nat, par: nat, lo: nat, d: nat)
    requires t.Node? && Rep(t, T, par, b.i, b.m) && Ok(t, lo, d, b.h) && d > 0
    ensures Rep(t.left, At(b.m, T).child0, T, b.i, b.m) && Ok(t.left, lo, d - 1, b.h)
    ensures Members(t.left) <= Members(t) && (t.left.Nil? <==> At(b.m, T).child0 == 0)
  {
    ChildrenRep(t, T, par, b.i, b.m);
  }

  lemma RightIn(b: Tree, t: Trie, T: nat, par: nat, lo: nat, d: nat)
    requires t.Node? && Rep(t, T, par, b.i, b.m) && Ok(t, lo, d, b.h) && d > 0
    ensures Rep(t.right, At(b.m, T).child1, T, b.i, b.m) && Ok(t.right, lo + Width(d - 1), d - 1, b.h)
    ensures Members(t.right) <= Members(t) && (t.right.Nil? <==> At(b.m, T).child1 == 0)
  {
    ChildrenRep(t, T, par, b.i, b.m);
  }

  lemma RightBound(b: Tree, t: Trie, lo: nat, d: nat)
    requires t.Node? && Ok(t, lo, d, b.h) && d > 0
    ensures forall p :: p in Members(t.right) ==> lo + Width(d - 1) <= Size(b.h, p)
  {
    OkBounds(t.right, lo + Width(d - 1), d - 1, b.h);
  }

  /** It is represented and spans what it should. */
  ghost predicate LmGood(b: Tree, t: Trie, T: nat, lo: nat, d: nat)
    requires t.Node?
  {
    Rep(LmTrie(t, d), LeftmostChild(b.m, T), T, b.i, b.m) && Ok(LmTrie(t, d), LmLo(t, lo, d), LmDepth(d), b.h) &&
    Members(LmTrie(t, d)) <= Members(t)
  }

  lemma LmBottom(b: Tree, t: Trie, T: nat, par: nat, lo: nat)
    requires t.Node? && Rep(t, T, par, b.i, b.m) && Ok(t, lo, 0, b.h)
    ensures LmGood(b, t, T, lo, 0)
  {
    ChildrenRep(t, T, par, b.i, b.m);
  }

  lemma LmLeft(b: Tree, t: Trie, T: nat, par: nat, lo: nat, d: nat)
    requires t.Node? && t.left.Node? && Rep(t, T, par, b.i, b.m) && Ok(t, lo, d, b.h) && d > 0
    ensures LmGood(b, t, T, lo, d)
  {
    LeftIn(b, t, T, par, lo, d);
  }

  lemma LmRight(b: Tree, t: Trie, T: nat, par: nat, lo: nat, d: nat)
    requires t.Node? && t.left.Nil? && Rep(t, T, par, b.i, b.m) && Ok(t, lo, d, b.h) && d > 0
    ensures LmGood(b, t, T, lo, d)
  {
    LeftIn(b, t, T, par, lo, d);
    RightIn(b, t, T, par, lo, d);
  }

  lemma LmIn(b: Tree, t: Trie, T: nat, par: nat, lo: nat, d: nat)
    requires t.Node? && Rep(t, T, par, b.i, b.m) && Ok(t, lo, d, b.h)
    ensures LmGood(b, t, T, lo, d)
  {
    if d == 0 {
      LmBottom(b, t, T, par, lo);
    } else if t.left.Node? {
      LmLeft(b, t, T, par, lo, d);
    } else {
      LmRight(b, t, T, par, lo, d);
    }
  }

  lemma MinSearchStep(b: Tree, nb: nat, v: nat, rsize: nat, t: Trie, T: nat, par: nat, lo: nat, d: nat)
    requires 0 < nb < SIZE_T && MinSearch(b, nb, v, rsize, t, T, par, lo, d) && T != 0
    ensures t.Node? && Size(b.h, T) < SIZE_T && LmTrie(t, d) < t
    ensures var (v', r') := Better(b.h, nb, v, rsize, T);
      MinSearch(b, nb, v', r', LmTrie(t, d), LeftmostChild(b.m, T), T, LmLo(t, lo, d), LmDepth(d))
  {
    Looked(b, nb, v, rsize, t, T, par, lo, d);
    HeadSize(t, lo, d, b.h, T, par, b.i, b.m);
    if d > 0 { RightBound(b, t, lo, d); }
    LmIn(b, t, T, par, lo, d);
    MinSearchCovers(b, nb, v, Better(b.h, nb, v, rsize, T).0, t, lo, d);
  }

  lemma MinSearchCovers(b: Tree, nb: nat, v: nat, v': nat, t: Trie, lo: nat, d: nat)
    requires t.Node? && Ok(t, lo, d, b.h)
    requires d > 0 ==> forall p :: p in Members(t.right) ==> lo + Width(d - 1) <= Size(b.h, p)
    requires AllFit(t, b.h, nb) || (v != 0 && AllBeaten(b, nb, v))
    requires v != 0 ==> v' != 0
    requires Members(LmTrie(t, d)) <= Members(t) && (AllFit(t, b.h, nb) ==> nb <= t.size)
    requires forall p :: p in t.ring && nb <= Size(b.h, p) ==> Beats(b.h, v', p)
    requires forall p :: Beats(b.h, v, p) ==> Beats(b.h, v', p)
    requires nb <= t.size ==> v' != 0 && Size(b.h, v') <= t.size
    requires forall p :: p in Members(b.t) && nb <= Size(b.h, p) ==>
      p in Members(t) || Beats(b.h, v, p) || lo + Width(d) <= Size(b.h, p)
    ensures AllFit(LmTrie(t, d), b.h, nb) || (v' != 0 && AllBeaten(b, nb, v'))
    ensures forall p :: p in Members(b.t) && nb <= Size(b.h, p) ==>
      p in Members(LmTrie(t, d)) || Beats(b.h, v', p) ||
        (LmTrie(t, d).Node? && LmLo(t, lo, d) + Width(LmDepth(d)) <= Size(b.h, p))
  {
    forall p | p in Members(b.t) && nb <= Size(b.h, p)
      ensures p in Members(LmTrie(t, d)) || Beats(b.h, v', p) ||
        (LmTrie(t, d).Node? && LmLo(t, lo, d) + Width(LmDepth(d)) <= Size(b.h, p))
    {
      if p in Members(t) {
        assert p in t.ring || p in Members(t.left) ||
          p in Members(t.right) by { assert p in t.ring || p !in Elements(t.ring); }
      }
    }
  }

  // ----- along the bit path of the request

  /** The walk for nb stands at t; rst is the deepest right subtree it passed by. Every
      chunk that fits is below t or rst, or beaten by v, or larger than everything in rst. */
  ghost predicate PathSearch(b: Tree, nb: nat, v: nat, rsize: nat, t: Trie, T: nat, par: nat, lo: nat, d: nat,
        rst: Trie, RT: nat, rpar: nat, rlo: nat, rd: nat) {
    Rep(t, T, par, b.i, b.m) && Ok(t, lo, d, b.h) && Members(t) <= Members(b.t) && lo <= nb < lo + Width(d) &&
    RestGood(b, rst, RT, rpar, rlo, rd) && lo + Width(d) <= rlo && SizesBelow(b.t, b.h) &&
    Candidate(Members(b.t), b.h, nb, v, rsize) && PathCovers(b, nb, v, t, rst, rlo + Width(rd))
  }

  ghost predicate PathCovers(b: Tree, nb: nat, v: nat, t: Trie, rst: Trie, rhi: nat) {
    forall p :: p in Members(b.t) && nb <= Size(b.h, p) ==>
      p in Members(t) || p in Members(rst) || Beats(b.h, v, p) || (rst.Node? && rhi <= Size(b.h, p))
  }

  lemma PathStart(b: Tree, nb: nat)
    requires TreeRep(b) && SizesBelow(b.t, b.h) && 0 < nb < SIZE_T && b.lo <= nb < b.lo + Width(b.d)
    ensures PathSearch(b, nb, 0, SIZE_T - nb, b.t, b.root, b.slot, b.lo, b.d,
                       Nil, 0, 0, b.lo + Width(b.d), 0)
  {
  }

  /** The path is used up: what remains to be searched is rst. */
  lemma PathEnd(b: Tree, nb: nat, v: nat, rsize: nat, t: Trie, par: nat, lo: nat, d: nat, rst: Trie, RT: nat,
        rpar: nat, rlo: nat, rd: nat)
    requires PathSearch(b, nb, v, rsize, t, 0, par, lo, d, rst, RT, rpar, rlo, rd)
    ensures MinSearch(b, nb, v, rsize, rst, RT, rpar, rlo, rd)
  {
    assert t.Nil?;
    OkBounds(rst, rlo, rd, b.h);
  }

  /** The right subtree to remember after passing the node t on the side bit. */
  function Remembered(m: Links, T: nat, bit: nat, RT: nat): nat {
    var rt := At(m, T).child1;
    if rt != 0 && rt != Child(m, T, bit) then rt else RT
  }

  /** The deepest right subtree passed by, after the node t: rst before, and t's own if it is passed. */
  ghost predicate Passes(t: Trie, bit: nat)
    requires t.Node?
  {
    bit == 0 && t.right.Node?
  }

  ghost function RestTrie(t: Trie, bit: nat, rst: Trie): Trie
    requires t.Node?
  {
    if Passes(t, bit) then t.right else rst
  }

  ghost function RestPar(t: Trie, T: nat, bit: nat, rpar: nat): nat
    requires t.Node?
  {
    if Passes(t, bit) then T else rpar
  }

  ghost function RestLo(t: Trie, lo: nat, d: nat, bit: nat, rlo: nat): nat
    requires t.Node?
  {
    if d > 0 && Passes(t, bit) then lo + Width(d - 1) else rlo
  }

  ghost function RestDepth(t: Trie, d: nat, bit: nat, rd: nat): nat
    requires t.Node?
  {
    if d > 0 && Passes(t, bit) then d - 1 else rd
  }

  ghost predicate RestGood(b: Tree, rst: Trie, RT: nat, rpar: nat, rlo: nat, rd: nat) {
    Rep(rst, RT, rpar, b.i, b.m) && Ok(rst, rlo, rd, b.h) && Members(rst) <= Members(b.t)
  }

  lemma RestTaken(b: Tree, t: Trie, T: nat, par: nat, lo: nat, d: nat)
    requires t.Node? && Rep(t, T, par, b.i, b.m) && Ok(t, lo, d, b.h) && Members(t) <= Members(b.t)
    requires d > 0 && t.right.Node?
    ensures RestGood(b, t.right, At(b.m, T).child1, T, lo + Width(d - 1), d - 1)
  {
    RightIn(b, t, T, par, lo, d);
  }

  lemma RestStep(b: Tree, t: Trie, T: nat, par: nat, lo: nat, d: nat, bit: nat, rst: Trie, RT: nat, rpar: nat,
        rlo: nat, rd: nat)
    requires t.Node? && Rep(t, T, par, b.i, b.m) && Ok(t, lo, d, b.h) && Members(t) <= Members(b.t) && Separate(t)
    requires d > 0 && RestGood(b, rst, RT, rpar, rlo, rd)
    ensures RestGood(b, RestTrie(t, bit, rst), Remembered(b.m, T, bit, RT), RestPar(t, T, bit, rpar),
                     RestLo(t, lo, d, bit, rlo), RestDepth(t, d, bit, rd))
  {
    RightIsRemembered(b, t, T, par, bit);
    if Passes(t, bit) { RestTaken(b, t, T, par, lo, d); }
  }

  lemma PathStep(b: Tree, nb: nat, v: nat, rsize: nat, t: Trie, T: nat, par: nat, lo: nat, d: nat, rst: Trie,
        RT: nat, rpar: nat, rlo: nat, rd: nat, bit: nat, v': nat, r': nat)
    requires PathSearch(b, nb, v, rsize, t, T, par, lo, d, rst, RT, rpar, rlo, rd) && t.Node? && Separate(t)
    requires 0 < nb < SIZE_T && Size(b.h, T) < SIZE_T && (v', r') == Better(b.h, nb, v, rsize, T)
    requires d > 0 && bit == if nb < lo + Width(d - 1) then 0 else 1
    ensures PathSearch(b, nb, v', r', StepTrie(t, bit), Child(b.m, T, bit), T, StepLo(lo, d, bit), d - 1,
                       RestTrie(t, bit, rst), Remembered(b.m, T, bit, RT), RestPar(t, T, bit, rpar),
                       RestLo(t, lo, d, bit, rlo), RestDepth(t, d, bit, rd))
  {
    RestStep(b, t, T, par, lo, d, bit, rst, RT, rpar, rlo, rd);
    PathChild(b, nb, t, T, par, lo, d, bit);
    PathCoversStill(b, nb, v, rsize, t, T, par, lo, d, rst, RT, rpar, rlo, rd, bit, v', r');
  }

  /** The child on the side of the next bit spans nb. */
  lemma PathChild(b: Tree, nb: nat, t: Trie, T: nat, par: nat, lo: nat, d: nat, bit: nat)
    requires t.Node? && Rep(t, T, par, b.i, b.m) && Ok(t, lo, d, b.h) && Members(t) <= Members(b.t)
    requires d > 0 && lo <= nb < lo + Width(d) && bit == if nb < lo + Width(d - 1) then 0 else 1
    ensures Rep(StepTrie(t, bit), Child(b.m, T, bit), T, b.i, b.m) &&
      Ok(StepTrie(t, bit), StepLo(lo, d, bit), d - 1, b.h)
    ensures Members(StepTrie(t, bit)) <= Members(b.t)
    ensures StepLo(lo, d, bit) <= nb < StepLo(lo, d, bit) + Width(d - 1) <= lo + Width(d)
  {
    if bit == 0 { LeftIn(b, t, T, par, lo, d); } else { RightIn(b, t, T, par, lo, d); }
  }

  lemma PathCoversStill(b: Tree, nb: nat, v: nat, rsize: nat, t: Trie, T: nat, par: nat, lo: nat, d: nat, rst: Trie,
        RT: nat, rpar: nat, rlo: nat, rd: nat, bit: nat, v': nat, r': nat)
    requires PathSearch(b, nb, v, rsize, t, T, par, lo, d, rst, RT, rpar, rlo, rd) && t.Node?
    requires 0 < nb < SIZE_T && (v', r') == Better(b.h, nb, v, rsize, T) && Size(b.h, T) < SIZE_T
    requires d > 0 && bit == if nb < lo + Width(d - 1) then 0 else 1
    ensures Candidate(Members(b.t), b.h, nb, v', r')
    ensures PathCovers(b, nb, v', StepTrie(t, bit), RestTrie(t, bit, rst),
      RestLo(t, lo, d, bit, rlo) + Width(RestDepth(t, d, bit, rd)))
  {
    Looked(b, nb, v, rsize, t, T, par, lo, d);
    OkBounds(t.left, lo, d - 1, b.h);
    OkBounds(rst, rlo, rd, b.h);
    PathStepCovers(b, nb, v, v', t, lo, d, bit, rst, rlo, rd, RestTrie(t, bit, rst), RestLo(t, lo, d, bit, rlo),
      RestDepth(t, d, bit, rd));
  }

  lemma RightIsRemembered(b: Tree, t: Trie, T: nat, par: nat, bit: nat)
    requires t.Node? && Rep(t, T, par, b.i, b.m) && Separate(t)
    ensures bit == 0 && t.right.Node? <==> At(b.m, T).child1 != 0 && At(b.m, T).child1 != Child(b.m, T, bit)
  {
    ChildrenRep(t, T, par, b.i, b.m);
    if t.right.Node? { assert At(b.m, T).child1 in Elements(t.right.ring); }
    if t.left.Node? { assert At(b.m, T).child0 in Elements(t.left.ring); }
  }

  lemma PathStepCovers(b: Tree, nb: nat, v: nat, v': nat, t: Trie, lo: nat, d: nat, bit: nat, rst: Trie, rlo: nat,
        rd: nat, rst': Trie, rlo': nat, rd': nat)
    requires t.Node? && d > 0 && lo + Width(d) <= rlo && PathCovers(b, nb, v, t, rst, rlo + Width(rd))
    requires bit == if nb < lo + Width(d - 1) then 0 else 1
    requires forall p :: p in Members(t.left) ==> Size(b.h, p) < lo + Width(d - 1)
    requires forall p :: p in Members(rst) ==> rlo <= Size(b.h, p)
    requires forall p :: p in t.ring && nb <= Size(b.h, p) ==> Beats(b.h, v', p)
    requires forall p :: Beats(b.h, v, p) ==> Beats(b.h, v', p)
    requires if bit == 0 && t.right.Node? then rst' == t.right && rlo' == lo + Width(d - 1) && rd' == d - 1
      else rst' == rst && rlo' == rlo && rd' == rd
    ensures PathCovers(b, nb, v', StepTrie(t, bit), rst', rlo' + Width(rd'))
  {
    forall p | p in Members(b.t) && nb <= Size(b.h, p)
      ensures p in Members(StepTrie(t, bit)) || p in Members(rst') || Beats(b.h, v', p) ||
        (rst'.Node? && rlo' + Width(rd') <= Size(b.h, p))
    {
      if p in Members(t) {
        assert p in t.ring || p in Members(t.left) ||
          p in Members(t.right) by { assert p in t.ring || p !in Elements(t.ring); }
      }
    }
  }

  /** At the finest depth a node has no children, so the walk ends whichever way it turns. */
  lemma PathBottom(b: Tree, nb: nat, v: nat, rsize: nat, t: Trie, T: nat, par: nat, lo: nat, rst: Trie, RT: nat,
        rpar: nat, rlo: nat, rd: nat, bit: nat, v': nat, r': nat)
    requires PathSearch(b, nb, v, rsize, t, T, par, lo, 0, rst, RT, rpar, rlo, rd) && t.Node?
    requires 0 < nb < SIZE_T && Size(b.h, T) < SIZE_T && (v', r') == Better(b.h, nb, v, rsize, T)
    ensures Child(b.m, T, bit) == 0 && Remembered(b.m, T, bit, RT) == RT
    ensures MinSearch(b, nb, v', r', rst, RT, rpar, rlo, rd)
  {
    Looked(b, nb, v, rsize, t, T, par, lo, 0);
    ChildrenRep(t, T, par, b.i, b.m);
    OkBounds(rst, rlo, rd, b.h);
    forall p | p in Members(b.t) && nb <= Size(b.h, p)
      ensures p in Members(rst) || Beats(b.h, v', p) || (rst.Node? && rlo + Width(rd) <= Size(b.h, p))
    {
      if p in Members(t) { assert p in Elements(t.ring); }
    }
  }

  /** The loop invariant of the walk along the path of nb. */
  ghost predicate PathTurn(b: Tree, nb: nat, v: nat, rsize: nat, t: Trie, T: nat, par: nat, lo: nat, d: nat,
        rst: Trie, RT: nat, rpar: nat, rlo: nat, rd: nat, k: nat) {
    PathSearch(b, nb, v, rsize, t, T, par, lo, d, rst, RT, rpar, rlo, rd) && t.Node? && Separate(t) &&
    Steers(k, nb, lo, d) && 0 < nb < SIZE_T && Size(b.h, T) < SIZE_T
  }

  lemma PathTurnBegins(b: Tree, nb: nat, k: nat)
    requires TreeRep(b) && SizesBelow(b.t, b.h) && 0 < nb < SIZE_T && b.t.Node? && Steers(k, nb, b.lo, b.d)
    ensures PathTurn(b, nb, 0, SIZE_T - nb, b.t, b.root, b.slot, b.lo, b.d, Nil, 0, 0, b.lo + Width(b.d), 0, k) == true
  {
    PathStart(b, nb);
    OkSeparate(b.t, b.lo, b.d, b.h);
    assert b.root in Elements(b.t.ring);
  }

  /** One turn of the walk: (v', r') is the candidate after looking at the node. */
  lemma PathTurns(b: Tree, nb: nat, v: nat, rsize: nat, t: Trie, T: nat, par: nat, lo: nat, d: nat, rst: Trie,
        RT: nat, rpar: nat, rlo: nat, rd: nat, k: nat, v': nat, r': nat)
    requires PathTurn(b, nb, v, rsize, t, T, par, lo, d, rst, RT, rpar, rlo, rd, k) == true
    requires (v', r') == Better(b.h, nb, v, rsize, T)
    ensures var bit := TopBit(k);
      Child(b.m, T, bit) == 0 ==>
        MinSearch(b, nb, v', r', RestTrie(t, bit, rst), Remembered(b.m, T, bit, RT), RestPar(t, T, bit, rpar),
                  RestLo(t, lo, d, bit, rlo), RestDepth(t, d, bit, rd)) == true
    ensures var bit := TopBit(k);
      Child(b.m, T, bit) != 0 ==>
        (d > 0 &&
         PathTurn(b, nb, v', r', StepTrie(t, bit), Child(b.m, T, bit), T, StepLo(lo, d, bit), d - 1,
                  RestTrie(t, bit, rst), Remembered(b.m, T, bit, RT), RestPar(t, T, bit, rpar),
                  RestLo(t, lo, d, bit, rlo), RestDepth(t, d, bit, rd), NextBits(k)) == true)
  {
    var bit := TopBit(k);
    if d == 0 {
      PathBottom(b, nb, v, rsize, t, T, par, lo, rst, RT, rpar, rlo, rd, bit, v', r');
      assert t.right.Nil?;
    } else {
      BitStep(k, nb, lo, d);
      PathStep(b, nb, v, rsize, t, T, par, lo, d, rst, RT, rpar, rlo, rd, bit, v', r');
      PathTurned(b, nb, v', r', StepTrie(t, bit), Child(b.m, T, bit), T, StepLo(lo, d, bit), d - 1,
                 RestTrie(t, bit, rst), Remembered(b.m, T, bit, RT), RestPar(t, T, bit, rpar),
                 RestLo(t, lo, d, bit, rlo), RestDepth(t, d, bit, rd), NextBits(k));
    }
  }

  /** An exact fit ends the search wherever it stands. */
  lemma PathExact(b: Tree, nb: nat, v: nat, rsize: nat, t: Trie, T: nat, par: nat, lo: nat, d: nat, rst: Trie,
        RT: nat, rpar: nat, rlo: nat, rd: nat, k: nat)
    requires PathTurn(b, nb, v, rsize, t, T, par, lo, d, rst, RT, rpar, rlo, rd, k) == true
    requires Sub64(Size(b.h, T), nb) == 0 < rsize
    ensures MinSearch(b, nb, T, 0, t, T, par, lo, d) == true
  {
    Looked(b, nb, v, rsize, t, T, par, lo, d);
  }

  /** Arrived below: the walk ends at a missing child and may go on from a present one. */
  lemma PathTurned(b: Tree, nb: nat, v: nat, rsize: nat, t: Trie, T: nat, par: nat, lo: nat, d: nat, rst: Trie,
        RT: nat, rpar: nat, rlo: nat, rd: nat, k: nat)
    requires PathSearch(b, nb, v, rsize, t, T, par, lo, d, rst, RT, rpar, rlo, rd) && Separate(t)
    requires Steers(k, nb, lo, d) && 0 < nb < SIZE_T
    ensures T == 0 ==> MinSearch(b, nb, v, rsize, rst, RT, rpar, rlo, rd)
    ensures T != 0 ==> PathTurn(b, nb, v, rsize, t, T, par, lo, d, rst, RT, rpar, rlo, rd, k)
  {
    if T == 0 {
      PathEnd(b, nb, v, rsize, t, par, lo, d, rst, RT, rpar, rlo, rd);
    } else {
      assert T in Elements(t.ring);
    }
  }

  /** The state of the walk: the candidate, the trie at t with its span, the subtree remembered, the bits to come. */
  datatype Walk = Walk(v: nat, rsize: nat, sub: Trie, t: nat, par: nat, lo: nat, d: nat,
                       r: Trie, rst: nat, rpar: nat, rlo: nat, rd: nat, bits: nat)

  ghost predicate Walking(b: Tree, nb: nat, w: Walk) {
    PathTurn(b, nb, w.v, w.rsize, w.sub, w.t, w.par, w.lo, w.d, w.r, w.rst, w.rpar, w.rlo, w.rd, w.bits)
  }

  ghost function WalkFrom(b: Tree, nb: nat, bits: nat): Walk
    requires nb <= SIZE_T
  {
    Walk(0, SIZE_T - nb, b.t, b.root, b.slot, b.lo, b.d, Nil, 0, 0, b.lo + Width(b.d), 0, bits)
  }

  ghost function Walked(b: Tree, nb: nat, w: Walk): (w': Walk)
    ensures w'.t == Child(b.m, w.t, TopBit(w.bits)) && w'.rst == Remembered(b.m, w.t, TopBit(w.bits), w.rst)
    ensures (w'.v, w'.rsize) == Better(b.h, nb, w.v, w.rsize, w.t)
  {
    var bit, better := TopBit(w.bits), Better(b.h, nb, w.v, w.rsize, w.t);
    if !w.sub.Node? || w.d == 0 then
      w.(v := better.0, rsize := better.1, t := Child(b.m, w.t, bit), rst := Remembered(b.m, w.t, bit, w.rst))
    else
      Walk(better.0, better.1, StepTrie(w.sub, bit), Child(b.m, w.t, bit), w.t, StepLo(w.lo, w.d, bit), w.d - 1,
           RestTrie(w.sub, bit, w.r), Remembered(b.m, w.t, bit, w.rst), RestPar(w.sub, w.t, bit, w.rpar),
           RestLo(w.sub, w.lo, w.d, bit, w.rlo), RestDepth(w.sub, w.d, bit, w.rd), NextBits(w.bits))
  }

  ghost predicate WalkFound(b: Tree, nb: nat, w: Walk) {
    MinSearch(b, nb, w.v, w.rsize, w.r, w.rst, w.rpar, w.rlo, w.rd)
  }

  lemma WalkTurns(b: Tree, nb: nat, w: Walk)
    requires Walking(b, nb, w) == true
    ensures Walked(b, nb, w).t == 0 ==> WalkFound(b, nb, Walked(b, nb, w)) == true
    ensures Walked(b, nb, w).t != 0 ==>
      Walking(b, nb, Walked(b, nb, w)) == true && Walked(b, nb, w).d < w.d && Walked(b, nb, w).bits == NextBits(w.bits)
  {
    var better := Better(b.h, nb, w.v, w.rsize, w.t);
    PathTurns(b, nb, w.v, w.rsize, w.sub, w.t, w.par, w.lo, w.d, w.r, w.rst, w.rpar, w.rlo, w.rd, w.bits, better.0,
      better.1);
    if w.d == 0 {
      PathBottom(b, nb, w.v, w.rsize, w.sub, w.t, w.par, w.lo, w.r, w.rst, w.rpar, w.rlo, w.rd, TopBit(w.bits),
        better.0, better.1);
    }
  }

  lemma WalkExact(b: Tree, nb: nat, w: Walk)
    requires Walking(b, nb, w) == true && Sub64(Size(b.h, w.t), nb) == 0 < w.rsize
    ensures MinSearch(b, nb, w.t, 0, w.sub, w.t, w.par, w.lo, w.d) == true
  {
    PathExact(b, nb, w.v, w.rsize, w.sub, w.t, w.par, w.lo, w.d, w.r, w.rst, w.rpar, w.rlo, w.rd, w.bits);
  }
}
