/** Circular doubly linked lists threaded through fd and bk: the small bins (with
    the bin header as first element) and the chains of equal-sized tree chunks. */
module Ring {
  import opened Memory

  ghost predicate Distinct(s: seq<nat>) {
    forall i, j :: 0 <= i < j < |s| ==> s[i] != s[j]
  }

  function After(s: seq<nat>, k: nat): nat
    requires k < |s|
  {
    if k + 1 < |s| then s[k + 1] else s[0]
  }

  ghost predicate IsRing(s: seq<nat>, m: Links) {
    |s| > 0 && Distinct(s) &&
    forall k {:trigger After(s, k)} :: 0 <= k < |s| ==> At(m, s[k]).fd == After(s, k) && At(m, After(s, k)).bk == s[k]
  }

  /** m and n carry the same ring links at p. */
  predicate SameRing(m: Links, n: Links, p: nat) {
    At(m, p).fd == At(n, p).fd && At(m, p).bk == At(n, p).bk
  }

  /** A ring does not notice changes elsewhere. */
  lemma Frame(s: seq<nat>, m: Links, n: Links)
    requires IsRing(s, m) && forall p :: p in s ==> SameRing(m, n, p)
    ensures IsRing(s, n)
  {
    forall k | 0 <= k < |s| ensures At(n, s[k]).fd == After(s, k) && At(n, After(s, k)).bk == s[k] {
      assert s[k] in s && After(s, k) in s;
    }
  }

  // ----- linking x in after the first element

  function Inserted(s: seq<nat>, x: nat): seq<nat>
    requires |s| > 0
  {
    [s[0], x] + s[1..]
  }

  /** The ring words of n are those of m with x linked in between B and F. */
  ghost predicate LinkedIn(m: Links, n: Links, B: nat, x: nat, F: nat) {
    At(n, x).fd == F && At(n, x).bk == B && At(n, B).fd == x && At(n, F).bk == x &&
    (F != B ==> At(n, B).bk == At(m, B).bk && At(n, F).fd == At(m, F).fd) &&
    forall p :: p != B && p != x && p != F ==> At(n, p) == At(m, p)
  }

  /** B->fd = P; F->bk = P; P->fd = F; P->bk = B */
  function Linked(m: Links, B: nat, x: nat, F: nat): Links {
    SetBk(SetFd(SetBk(SetFd(m, B, x), F, x), x, F), x, B)
  }

  lemma LinkedWords(m: Links, B: nat, x: nat, F: nat)
    requires x != B && x != F
    ensures LinkedIn(m, Linked(m, B, x, F), B, x, F)
  {
  }

  lemma Insert(s: seq<nat>, m: Links, x: nat, n: Links)
    requires IsRing(s, m) && x !in s && LinkedIn(m, n, s[0], x, At(m, s[0]).fd)
    ensures IsRing(Inserted(s, x), n)
  {
    var t := Inserted(s, x);
    assert At(m, s[0]).fd == After(s, 0);
    forall k | 0 <= k < |t| ensures At(n, t[k]).fd == After(t, k) && At(n, After(t, k)).bk == t[k] {
      if k >= 2 { assert t[k] == s[k - 1] && After(t, k) == After(s, k - 1); }
    }
  }

  /** A header alone: whatever its stale links were, inserting into an empty bin makes a ring. */
  lemma InsertEmpty(h: nat, m: Links, x: nat)
    requires x != h
    ensures IsRing([h, x], Linked(m, h, x, h))
  {
    LinkedWords(m, h, x, h);
  }

  // ----- unlinking

  /** F->bk = B; B->fd = F */
  function Joined(m: Links, B: nat, F: nat): Links { SetFd(SetBk(m, F, B), B, F) }

  lemma JoinedWords(m: Links, B: nat, F: nat)
    ensures var n := Joined(m, B, F);
      At(n, B).fd == F && At(n, F).bk == B &&
      (B != F ==> At(n, B).bk == At(m, B).bk && At(n, F).fd == At(m, F).fd) &&
      (forall p :: p != B && p != F ==> At(n, p) == At(m, p)) &&
      (forall p :: At(n, p).(fd := 0, bk := 0) == At(m, p).(fd := 0, bk := 0))
  {
  }

  function Removed(s: seq<nat>, k: nat): seq<nat>
    requires k < |s|
  {
    s[..k] + s[k + 1..]
  }

  lemma Neighbours(s: seq<nat>, m: Links, k: nat)
    requires IsRing(s, m) && k < |s|
    ensures At(m, s[k]).fd == After(s, k)
    ensures At(m, s[k]).bk == if k == 0 then s[|s| - 1] else s[k - 1]
  {
    var j := if k == 0 then |s| - 1 else k - 1;
    assert After(s, j) == s[k];
  }

  lemma RemovedAt(s: seq<nat>, k: nat, i: nat)
    requires k < |s| && i + 1 < |s|
    ensures |Removed(s, k)| == |s| - 1
    ensures Removed(s, k)[i] == if i < k then s[i] else s[i + 1]
  {
  }

  lemma RemovedDistinct(s: seq<nat>, k: nat)
    requires k < |s| && Distinct(s)
    ensures Distinct(Removed(s, k))
    ensures forall p :: p in Removed(s, k) <==> p in s && p != s[k]
  {
    forall p | p in s && p != s[k] ensures p in Removed(s, k) {
      var j :| 0 <= j < |s| && s[j] == p;
      assert Removed(s, k)[if j < k then j else j - 1] == p;
    }
  }

  lemma Remove(s: seq<nat>, m: Links, k: nat, n: Links)
    requires IsRing(s, m) && 0 < k < |s| && n == Joined(m, s[k - 1], After(s, k))
    ensures IsRing(Removed(s, k), n)
  {
    var t := Removed(s, k);
    RemovedDistinct(s, k);
    JoinedWords(m, s[k - 1], After(s, k));
    forall i | 0 <= i < |t| ensures At(n, t[i]).fd == After(t, i) && At(n, After(t, i)).bk == t[i] {
      RemovedLink(s, m, n, k, i);
    }
  }

  lemma RemovedLink(s: seq<nat>, m: Links, n: Links, k: nat, i: nat)
    requires IsRing(s, m) && 0 < k < |s| && i + 1 < |s|
    requires At(n, s[k - 1]).fd == After(s, k) && At(n, After(s, k)).bk == s[k - 1]
    requires forall p :: p != s[k - 1] ==> At(n, p).fd == At(m, p).fd
    requires forall p :: p != After(s, k) ==> At(n, p).bk == At(m, p).bk
    ensures |Removed(s, k)| == |s| - 1
    ensures var t := Removed(s, k); At(n, t[i]).fd == After(t, i) && At(n, After(t, i)).bk == t[i]
  {
    var t := Removed(s, k);
    RemovedAt(s, k, i);
    if i + 2 < |s| { RemovedAt(s, k, i + 1); } else { RemovedAt(s, k, 0); }
    if i == k - 1 {
      assert t[i] == s[k - 1] && After(t, i) == After(s, k);
    } else {
      var j := if i < k then i else i + 1;
      assert t[i] == s[j] && After(t, i) == After(s, j);
      AfterInjective(s, j, k);
    }
  }

  lemma AfterInjective(s: seq<nat>, i: nat, j: nat)
    requires Distinct(s) && i < |s| && j < |s| && i != j
    ensures After(s, i) != After(s, j)
  {
  }

  /** The last element moved to the front: the same ring read from there. */
  function Rotated(s: seq<nat>): seq<nat>
    requires |s| > 0
  {
    [s[|s| - 1]] + s[..|s| - 1]
  }

  lemma Rotate(s: seq<nat>, m: Links)
    requires IsRing(s, m)
    ensures IsRing(Rotated(s), m)
  {
    var t := Rotated(s);
    forall k | 0 <= k < |t| ensures At(m, t[k]).fd == After(t, k) && At(m, After(t, k)).bk == t[k] {
      var j := if k == 0 then |s| - 1 else k - 1;
      assert t[k] == s[j] && After(t, k) == After(s, j);
    }
  }
}
