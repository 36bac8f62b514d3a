/** Which large bin holds a size, and how the bits of a size steer the descent
    through the trie of that bin. */
module TreeIndex {
  import opened Powers

  const NTREEBINS: nat := 32
  const WORD32: nat := 0x1_0000_0000
  const TOP_BIT: nat := 0x8000_0000_0000_0000

  // ----- compute_tree_index

  function Sub32(a: nat, b: nat): nat
    requires a < WORD32 && b < WORD32
  {
    (a + WORD32 - b) % WORD32
  }

  /** z & bit, for bit a power of two. */
  function MaskBit(z: nat, bit: nat): nat
    requires bit > 0
  {
    (z / bit) % 2 * bit
  }

  function Shl32(y: nat, n: nat): nat { y * Pow2(n) % WORD32 }

  /** One step of the search: the shift it picks and the shifted word. */
  function Stage(y: nat, t: nat, bit: nat): (nat, nat)
    requires y < WORD32 && t < WORD32 && bit > 0
  {
    var k := MaskBit(Sub32(y, t) / 0x1_0000, bit);
    (k, Shl32(y, k))
  }

  /** The branch-free search for the highest set bit of X, 0 < X <= 0xFFFF. */
  function HighestBit(X: nat): int
    requires 0 < X <= 0xFFFF
  {
    var (n, y1) := Stage(X, 0x100, 8);
    var (k1, y2) := Stage(y1, 0x1000, 4);
    var (k2, y3) := Stage(y2, 0x4000, 2);
    14 - (n + k1 + k2) + y3 / 0x8000
  }

  /** Subtract, shift down 16, mask: tests y < t. */
  lemma BelowTest(y: nat, t: nat, bit: nat)
    requires y < 0x1_0000 && t < 0x1_0000 && (bit == 2 || bit == 4 || bit == 8)
    ensures MaskBit(Sub32(y, t) / 0x1_0000, bit) == if y < t then bit else 0
  {
    if y < t {
      assert Sub32(y, t) / 0x1_0000 == 0xFFFF;
      assert (0xFFFF / bit) % 2 == 1;
    } else {
      assert Sub32(y, t) / 0x1_0000 == 0;
    }
  }

  /** A step multiplies by Pow2 of its shift, stays below 2^16 and reaches the next threshold. */
  lemma StageStep(y: nat, t: nat, bit: nat, least: nat)
    requires (bit == 8 && t == 0x100 && least == 1) || (bit == 4 && t == 0x1000 && least == 0x100) ||
      (bit == 2 && t == 0x4000 && least == 0x1000)
    requires least <= y < 0x1_0000
    ensures Stage(y, t, bit).0 == if y < t then bit else 0
    ensures Stage(y, t, bit).1 == y * Pow2(Stage(y, t, bit).0)
    ensures t <= Stage(y, t, bit).1 < 0x1_0000
  {
    BelowTest(y, t, bit);
    assert Pow2(0) == 1 && Pow2(2) == 4;
    Pow2Of16();
    var k := if y < t then bit else 0;
    assert y * Pow2(k) == if k == 8 then y * 256 else if k == 4 then y * 16 else if k == 2 then y * 4 else y;
  }

  lemma HighestBitCorrect(X: nat)
    requires 0 < X <= 0xFFFF
    ensures 0 <= HighestBit(X) <= 15
    ensures Pow2(HighestBit(X)) <= X < 2 * Pow2(HighestBit(X))
  {
    Pow2Of16();
    assert Pow2(2) == 4 && Pow2(14) == 0x4000 && Pow2(15) == 0x8000 by {
      assert Pow2(16) == 2 * Pow2(15) == 4 * Pow2(14);
    }
    var (n, y1) := Stage(X, 0x100, 8);
    StageStep(X, 0x100, 8, 1);
    var (k1, y2) := Stage(y1, 0x1000, 4);
    StageStep(y1, 0x1000, 4, 0x100);
    var (k2, y3) := Stage(y2, 0x4000, 2);
    StageStep(y2, 0x4000, 2, 0x1000);
    var s := n + k1 + k2;
    assert y3 == X * Pow2(s) by {
      Pow2Add(n, k1);
      Pow2Add(n + k1, k2);
      MulAssoc(X, Pow2(n), Pow2(k1));
      MulAssoc(X, Pow2(n + k1), Pow2(k2));
    }
    assert s <= 14;
    FromShifted(X, s, y3, HighestBit(X));
  }

  lemma MulAssoc(a: nat, b: nat, c: nat)
    ensures a * b * c == a * (b * c)
  {
  }

  lemma FromShifted(X: nat, s: nat, y: nat, k: int)
    requires s <= 14 && y == X * Pow2(s) && 0x4000 <= y < 0x1_0000
    requires Pow2(14) == 0x4000 && Pow2(15) == 0x8000
    requires k == 14 - s + y / 0x8000
    ensures 0 <= k && Pow2(k) <= X < 2 * Pow2(k)
    ensures k <= 15
  {
    assert k + s == 14 || k + s == 15;
    Pow2Add(k, s);
    assert Pow2(k) * Pow2(s) <= X * Pow2(s) < 2 * (Pow2(k) * Pow2(s));
    MulAssoc(2, Pow2(k), Pow2(s));
    MulLtInverse(X, 2 * Pow2(k), Pow2(s));
    assert (X + 1) * Pow2(s) == X * Pow2(s) + Pow2(s);
    MulLtInverse(Pow2(k), X + 1, Pow2(s));
  }

  /** S >> n */
  function Shr(S: nat, n: nat): nat { if n == 0 then S else Shr(S / 2, n - 1) }

  lemma {:induction false} ShrTwoOrThree(S: nat, n: nat)
    requires 2 * Pow2(n) <= S < 4 * Pow2(n)
    ensures Shr(S, n) == if S < 3 * Pow2(n) then 2 else 3
  {
    if n > 0 { ShrTwoOrThree(S / 2, n - 1); }
  }

  function ComputeTreeIndex(S: nat): int {
    var X := S / 256;
    if X == 0 then 0
    else if X > 0xFFFF then NTREEBINS - 1
    else
      var K := HighestBit(X);
      HighestBitCorrect(X);
      2 * K + Shr(S, K + 7) % 2
  }

  /** minsize_for_tree_index(i) */
  function MinSize(i: nat): nat { Pow2(i / 2 + 8) + if i % 2 == 1 then Pow2(i / 2 + 7) else 0 }

  lemma MinSizeAt(k: nat)
    ensures MinSize(2 * k) == 2 * Pow2(k + 7)
    ensures MinSize(2 * k + 1) == 3 * Pow2(k + 7)
    ensures MinSize(2 * k + 2) == 4 * Pow2(k + 7)
  {
    assert Pow2(k + 8) == 2 * Pow2(k + 7) && Pow2(k + 9) == 2 * Pow2(k + 8);
    assert (2 * k) / 2 == k && (2 * k + 1) / 2 == k && (2 * k + 2) / 2 == k + 1;
  }

  /** compute_tree_index picks the one bin whose size range holds S. */
  lemma TreeIndexRange(S: nat)
    requires 256 <= S
    ensures 0 <= ComputeTreeIndex(S) < NTREEBINS
    ensures MinSize(ComputeTreeIndex(S)) <= S
    ensures ComputeTreeIndex(S) < NTREEBINS - 1 ==> S < MinSize(ComputeTreeIndex(S) + 1)
  {
    var X := S / 256;
    if X > 0xFFFF {
      LastBinStart();
    } else {
      var K := HighestBit(X);
      HighestBitCorrect(X);
      MidRange(S, K);
    }
  }

  lemma LastBinStart()
    ensures MinSize(31) <= 0x1_0000 * 256
  {
    Pow2Of16();
    Pow2Add(16, 8);
    assert Pow2(24) == 2 * Pow2(23) == 4 * Pow2(22);
  }

  lemma MidRange(S: nat, K: nat)
    requires Pow2(K) <= S / 256 < 2 * Pow2(K)
    ensures var i := 2 * K + Shr(S, K + 7) % 2;
      MinSize(i) <= S < MinSize(i + 1)
  {
    assert 2 * Pow2(K + 7) == 256 * Pow2(K) by { Pow2Of16(); Pow2Add(K, 8); }
    ShrTwoOrThree(S, K + 7);
    MinSizeAt(K);
  }

  lemma {:induction false} MinSizeMonotone(i: nat, j: nat)
    requires i <= j
    ensures MinSize(i) <= MinSize(j)
  {
    if i < j {
      MinSizeMonotone(i, j - 1);
      MinSizeAt((j - 1) / 2);
      assert j - 1 == 2 * ((j - 1) / 2) || j - 1 == 2 * ((j - 1) / 2) + 1;
    }
  }

  /** The size ranges of distinct bins do not meet, so the range determines the bin. */
  lemma TreeIndexUnique(S: nat, i: nat)
    requires 256 <= S && i < NTREEBINS
    requires MinSize(i) <= S && (i < NTREEBINS - 1 ==> S < MinSize(i + 1))
    ensures ComputeTreeIndex(S) == i
  {
    TreeIndexRange(S);
    var j := ComputeTreeIndex(S);
    if i < j { MinSizeMonotone(i + 1, j); }
    if j < i { MinSizeMonotone(j + 1, i); }
  }

  /** A larger bin holds larger sizes. */
  lemma TreeIndexMonotone(S: nat, T: nat)
    requires 256 <= S && 256 <= T && ComputeTreeIndex(S) < ComputeTreeIndex(T)
    ensures S < T
  {
    TreeIndexRange(S);
    TreeIndexRange(T);
    MinSizeMonotone(ComputeTreeIndex(S) + 1, ComputeTreeIndex(T));
  }

  // ----- the bits of a size below the root of a bin

  /** Number of sizes, in bytes, a trie node d levels above the finest can span. */
  function Width(d: nat): (w: nat)
    ensures w > 0
  {
    if d == 0 then 8 else 2 * Width(d - 1)
  }

  lemma {:induction false} WidthMultipleOf8(d: nat)
    ensures Width(d) % 8 == 0
  {
    if d > 0 { WidthMultipleOf8(d - 1); }
  }

  lemma {:induction false} WidthIsPow2(d: nat)
    ensures Width(d) == Pow2(d + 3)
  {
    if d == 0 { assert Pow2(3) == 8; } else { WidthIsPow2(d - 1); }
  }

  /** First size and depth of the trie of bin i; the last bin has no upper end. */
  function BinLo(i: nat): nat { if i == NTREEBINS - 1 then 0 else MinSize(i) }

  function BinDepth(i: nat): nat { if i == NTREEBINS - 1 then 61 else i / 2 + 4 }

  /** leftshift_for_tree_index(i) */
  function LeftShift(i: nat): nat
    requires i < NTREEBINS
  {
    if i == NTREEBINS - 1 then 0 else 63 - (i / 2 + 6)
  }

  /** The shifted size the descent starts from. */
  function StartBits(S: nat, i: nat): nat
    requires i < NTREEBINS
  {
    S * Pow2(LeftShift(i)) % SIZE_T
  }

  /** sizebits >> 63 & 1, and sizebits <<= 1 */
  function TopBit(k: nat): nat { if k >= TOP_BIT then 1 else 0 }

  function NextBits(k: nat): nat { 2 * k % SIZE_T }

  /** k holds the bits of S - lo that are still to be read at depth d. */
  ghost predicate Steers(k: nat, S: nat, lo: nat, d: nat) {
    lo <= S < lo + Width(d) && k * Width(d) == (S - lo) * SIZE_T
  }

  lemma BinSpan(S: nat)
    requires 256 <= S < SIZE_T
    ensures var i := ComputeTreeIndex(S);
      0 <= i < NTREEBINS && BinLo(i) <= S < BinLo(i) + Width(BinDepth(i)) && BinLo(i) % 8 == 0
  {
    TreeIndexRange(S);
    var i := ComputeTreeIndex(S);
    WidthIsPow2(BinDepth(i));
    if i == NTREEBINS - 1 {
      Pow2Of64();
    } else {
      BinLoMultiple(i);
    }
  }

  lemma BinLoMultiple(i: nat)
    requires i < NTREEBINS - 1
    ensures BinLo(i) == if i % 2 == 1 then 3 * Width(BinDepth(i)) else 2 * Width(BinDepth(i))
    ensures BinLo(i) % 8 == 0
    ensures MinSize(i + 1) == BinLo(i) + Width(BinDepth(i))
  {
    var k := i / 2;
    var odd := i % 2 == 1;
    assert i == if odd then 2 * k + 1 else 2 * k;
    WidthMultipleOf8(k + 4);
    BinLoAt(k, Width(k + 4));
  }

  lemma BinLoAt(k: nat, w: nat)
    requires w == Width(k + 4) && w % 8 == 0
    ensures MinSize(2 * k) == 2 * w && MinSize(2 * k + 1) == 3 * w && MinSize(2 * k + 2) == 4 * w
    ensures (2 * w) % 8 == 0 && (3 * w) % 8 == 0
  {
    MinSizeAt(k);
    WidthIsPow2(k + 4);
    assert (k + 4) + 3 == k + 7;
    var m := w / 8;
    assert w == 8 * m;
  }

  lemma StartSteers(S: nat)
    requires 256 <= S < SIZE_T
    ensures var i := ComputeTreeIndex(S);
      0 <= i < NTREEBINS && Steers(StartBits(S, i), S, BinLo(i), BinDepth(i))
  {
    BinSpan(S);
    var i := ComputeTreeIndex(S);
    if i == NTREEBINS - 1 {
      WidthIsPow2(61);
      Pow2Of64();
      assert Pow2(0) == 1;
    } else {
      StartSteersBounded(S, i);
    }
  }

  lemma StartSteersBounded(S: nat, i: nat)
    requires i < NTREEBINS - 1 && BinLo(i) <= S < BinLo(i) + Width(BinDepth(i))
    ensures Steers(StartBits(S, i), S, BinLo(i), BinDepth(i))
  {
    var w, u := Width(BinDepth(i)), Pow2(LeftShift(i));
    WidthIsPow2(BinDepth(i));
    Pow2Of64();
    BinLoMultiple(i);
    Pow2Add(i / 2 + 7, LeftShift(i));
    ShiftOut(S, BinLo(i), if i % 2 == 1 then 3 else 2, w, u);
  }

  /** Shifting out the leading bits of S leaves the offset of S in its bin. */
  lemma ShiftOut(S: nat, lo: nat, q: nat, w: nat, u: nat)
    requires w * u == SIZE_T && lo == q * w && lo <= S < lo + w
    ensures S * u % SIZE_T == (S - lo) * u
    ensures (S * u % SIZE_T) * w == (S - lo) * SIZE_T
  {
    var r := (S - lo) * u;
    assert S * u == q * SIZE_T + r by {
      assert S * u == lo * u + r;
      assert lo * u == q * (w * u);
    }
    assert 0 <= r < SIZE_T by {
      assert w * u - r == (w - (S - lo)) * u;
      assert (w - (S - lo)) * u > 0;
    }
    assert (q * SIZE_T + r) % SIZE_T == r;
    assert r * w == (S - lo) * (w * u);
  }

  /** The top bit says which half S is in, and shifting left steers within that half. */
  lemma SteerStep(k: nat, S: nat, lo: nat, d: nat)
    requires d > 0 && Steers(k, S, lo, d)
    ensures TopBit(k) == (if S < lo + Width(d - 1) then 0 else 1)
    ensures Steers(NextBits(k), S, if S < lo + Width(d - 1) then lo else lo + Width(d - 1), d - 1)
  {
    var w := Width(d - 1);
    var h := S - lo;
    assert k * (2 * w) == h * SIZE_T;
    Halves(k, h, w);
    if h < w {
      assert NextBits(k) == 2 * k;
      assert (2 * k) * w == k * (2 * w);
    } else {
      assert NextBits(k) == 2 * k - SIZE_T;
      MulDistribute(2 * k, SIZE_T, w);
      assert (2 * k) * w == k * (2 * w);
    }
  }

  lemma MulDistribute(a: nat, b: nat, c: nat)
    requires b <= a
    ensures (a - b) * c == a * c - b * c
  {
  }

  lemma Halves(k: nat, h: nat, w: nat)
    requires w > 0 && h < 2 * w && k * (2 * w) == h * SIZE_T
    ensures k < SIZE_T
    ensures k < TOP_BIT <==> h < w
  {
    MulLe(h + 1, 2 * w, SIZE_T);
    assert SIZE_T * (2 * w) == (2 * w) * SIZE_T;
    MulLtInverse(k, SIZE_T, 2 * w);
    assert TOP_BIT * (2 * w) == w * SIZE_T;
    if h < w {
      MulLe(h + 1, w, SIZE_T);
      MulLtInverse(k, TOP_BIT, 2 * w);
    } else {
      MulLe(w, h, SIZE_T);
      assert (k + 1) * (2 * w) == k * (2 * w) + 2 * w;
      MulLtInverse(TOP_BIT, k + 1, 2 * w);
    }
  }
}
