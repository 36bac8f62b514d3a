/** The 32-bit bin maps of the allocator, one bit per bin, with the word tricks of
    the source: isolate the least set bit, mask everything to the left of a bit,
    shift the bins below a request away. A word is its 32 bits, least significant
    first; negation is the two's complement one, checked against arithmetic below. */
module Bitmap {
  import opened Powers

  const WORD := 32

  type Word = w: seq<bool> | |w| == WORD
    witness [false, false, false, false, false, false, false, false,
             false, false, false, false, false, false, false, false,
             false, false, false, false, false, false, false, false,
             false, false, false, false, false, false, false, false]

  function Zero(): Word { seq(WORD, j requires 0 <= j < WORD => false) }

  function And(a: Word, b: Word): Word { seq(WORD, j requires 0 <= j < WORD => a[j] && b[j]) }

  function Or(a: Word, b: Word): Word { seq(WORD, j requires 0 <= j < WORD => a[j] || b[j]) }

  function Not(a: Word): Word { seq(WORD, j requires 0 <= j < WORD => !a[j]) }

  function Shl(a: Word, n: nat): Word { seq(WORD, j requires 0 <= j < WORD => n <= j && a[j - n]) }

  function Shr(a: Word, n: nat): Word { seq(WORD, j requires 0 <= j < WORD => j + n < WORD && a[j + n]) }

  /** Some bit below place j is set: the carry out of negating the bits below j is zero. */
  predicate AnyBelow(a: Word, j: nat)
    requires j <= WORD
  {
    exists k :: 0 <= k < j && a[k]
  }

  /** Unsigned negation: complement and add one. */
  function Neg(a: Word): Word {
    seq(WORD, j requires 0 <= j < WORD => if AnyBelow(a, j) then !a[j] else a[j])
  }

  // ----- Neg against arithmetic

  /** The number the low n bits spell. */
  function Value(a: Word, n: nat): nat
    requires n <= WORD
  {
    if n == 0 then 0 else Value(a, n - 1) + if a[n - 1] then Pow2(n - 1) else 0
  }

  lemma {:induction false} NegIsNegation(a: Word, n: nat)
    requires n <= WORD
    ensures Value(a, n) + Value(Neg(a), n) == if AnyBelow(a, n) then Pow2(n) else 0
  {
    if n > 0 {
      NegIsNegation(a, n - 1);
      assert Neg(a)[n - 1] == if AnyBelow(a, n - 1) then !a[n - 1] else a[n - 1];
      assert AnyBelow(a, n) <==> AnyBelow(a, n - 1) || a[n - 1] by {
        if a[n - 1] { assert 0 <= n - 1 < n; }
      }
    }
  }

  // ----- the macros

  function Idx2Bit(i: nat): Word
    requires i < WORD
  {
    Shl(One(), i)
  }

  function One(): Word { seq(WORD, j requires 0 <= j < WORD => j == 0) }

  function Mark(m: Word, i: nat): Word
    requires i < WORD
  {
    Or(m, Idx2Bit(i))
  }

  function Clear(m: Word, i: nat): Word
    requires i < WORD
  {
    And(m, Not(Idx2Bit(i)))
  }

  function LeastBit(x: Word): Word { And(x, Neg(x)) }

  function LeftBits(x: Word): Word { Or(Shl(x, 1), Neg(Shl(x, 1))) }

  /** compute_bit2idx: count of trailing zeros. */
  function Bit2Idx(x: Word, from: nat): nat
    requires from <= WORD
    decreases WORD - from
  {
    if from == WORD || x[from] then from else Bit2Idx(x, from + 1)
  }

  lemma Idx2BitAt(i: nat)
    requires i < WORD
    ensures forall j :: 0 <= j < WORD ==> (Idx2Bit(i)[j] <==> i == j)
  {
  }

  lemma MarkClear(m: Word, i: nat)
    requires i < WORD
    ensures Mark(m, i) == m[i := true]
    ensures Clear(m, i) == m[i := false]
  {
    Idx2BitAt(i);
  }

  /** i is the least marked place of m. */
  predicate IsLeast(m: Word, i: nat) {
    i < WORD && m[i] && forall j :: 0 <= j < i ==> !m[j]
  }

  lemma {:induction false} Bit2IdxScan(x: Word, i: nat, from: nat)
    requires from <= i < WORD && x[i]
    requires forall j :: from <= j < i ==> !x[j]
    ensures Bit2Idx(x, from) == i
    decreases i - from
  {
    if from < i { Bit2IdxScan(x, i, from + 1); }
  }

  lemma {:induction false} LeastBelow(m: Word, k: nat) returns (i: nat)
    requires k < WORD && m[k]
    ensures i <= k && IsLeast(m, i)
    decreases k
  {
    if j :| 0 <= j < k && m[j] {
      i := LeastBelow(m, j);
    } else {
      i := k;
    }
  }

  /** Isolating the least set bit of a non-zero map and converting it back gives the
      least marked bin. */
  lemma LeastMarked(m: Word)
    requires m != Zero()
    ensures IsLeast(m, Bit2Idx(LeastBit(m), 0))
  {
    var k :| 0 <= k < WORD && m[k];
    var i := LeastBelow(m, k);
    var x := LeastBit(m);
    assert x[i];
    forall j | 0 <= j < i ensures !x[j] { }
    Bit2IdxScan(x, i, 0);
  }

  /** left_bits(idx2bit(i)) & m keeps exactly the marks above i. */
  lemma MarksAbove(m: Word, i: nat)
    requires i < WORD
    ensures forall j :: 0 <= j < WORD ==> (And(LeftBits(Idx2Bit(i)), m)[j] <==> i < j && m[j])
  {
    var x := Shl(Idx2Bit(i), 1);
    forall j | 0 <= j < WORD ensures LeftBits(Idx2Bit(i))[j] <==> i < j {
      assert x[j] <==> j == i + 1;
      if i + 1 < j { assert AnyBelow(x, j) by { assert x[i + 1]; } }
    }
  }

  /** The mask used for the next non-empty small bin: shifting the map down and back up
      loses nothing above idx. */
  lemma SmallMarksAbove(m: Word, idx: nat)
    requires idx < WORD
    ensures forall j :: 0 <= j < WORD ==>
      (And(Shl(Shr(m, idx), idx), LeftBits(Idx2Bit(idx)))[j] <==> idx < j && m[j])
  {
    MarksAbove(m, idx);
    var all := And(LeftBits(Idx2Bit(idx)), m);
    forall j | 0 <= j < WORD
      ensures And(Shl(Shr(m, idx), idx), LeftBits(Idx2Bit(idx)))[j] <==> idx < j && m[j]
    {
      assert all[j] <==> LeftBits(Idx2Bit(idx))[j] && m[j];
      if !m[j] && idx <= j { assert !Shl(Shr(m, idx), idx)[j]; }
      MarksAboveOnly(idx, j);
    }
  }

  lemma MarksAboveOnly(i: nat, j: nat)
    requires i < WORD && j < WORD
    ensures LeftBits(Idx2Bit(i))[j] <==> i < j
  {
    var ones := Not(Zero());
    MarksAbove(ones, i);
    assert And(LeftBits(Idx2Bit(i)), ones)[j] == LeftBits(Idx2Bit(i))[j];
  }

  /** The map shifted down by idx: its low bits speak of bins idx and idx + 1, and it is
      zero when no bin from idx on is marked. */
  lemma ShiftedMarks(m: Word, idx: nat)
    requires idx < WORD
    ensures Shr(m, idx)[0] <==> m[idx]
    ensures Shr(m, idx)[1] <==> idx + 1 < WORD && m[idx + 1]
    ensures Shr(m, idx) == Zero() <==> forall j :: idx <= j < WORD ==> !m[j]
  {
    forall j | idx <= j < WORD ensures m[j] == Shr(m, idx)[j - idx] { }
    if Shr(m, idx) == Zero() {
      forall j | idx <= j < WORD ensures !m[j] { assert !Zero()[j - idx]; }
    }
    assert (forall j :: idx <= j < WORD ==> !m[j]) ==> Shr(m, idx) == Zero();
  }

  /** The least bit of the marks above idx is the next marked bin. */
  lemma NextMarked(m: Word, idx: nat)
    requires idx < WORD && !m[idx] && Shr(m, idx) != Zero()
    ensures var i := Bit2Idx(LeastBit(And(Shl(Shr(m, idx), idx), LeftBits(Idx2Bit(idx)))), 0);
      idx < i < WORD && m[i] && forall j :: idx <= j < i ==> !m[j]
  {
    ShiftedMarks(m, idx);
    var k :| idx <= k < WORD && m[k];
    var left := And(Shl(Shr(m, idx), idx), LeftBits(Idx2Bit(idx)));
    SmallMarksAbove(m, idx);
    assert left[k];
    LeastMarked(left);
    var i := Bit2Idx(LeastBit(left), 0);
    assert IsLeast(left, i);
    forall j | idx <= j < i ensures !m[j] { assert !left[j]; }
  }
}
