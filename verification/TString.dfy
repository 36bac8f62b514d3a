/** The growable string: a buffer with room for a terminator, edited in place, and inserting
    parts of itself. */
module TString {
  import JsonText
  import Powers

  // ----- buffers as values

  /** Copying n bytes from src to dst inside one buffer. */
  ghost function Moved(a: seq<char>, dst: nat, src: nat, n: nat): (b: seq<char>)
    requires dst + n <= |a| && src + n <= |a|
    ensures |b| == |a|
  {
    a[..dst] + a[src..src + n] + a[dst + n..]
  }

  /** Copying bytes from elsewhere to dst. */
  ghost function Stored(a: seq<char>, dst: nat, v: seq<char>): (b: seq<char>)
    requires dst + |v| <= |a|
    ensures |b| == |a|
  {
    a[..dst] + v + a[dst + |v|..]
  }

  /** The byte at j once the bytes from dst + lo up to dst + hi have been copied. */
  ghost function Copied(a: seq<char>, dst: nat, src: nat, lo: nat, hi: nat, j: nat): char
    requires src + hi <= |a| && j < |a|
  {
    if dst + lo <= j < dst + hi then a[src + j - dst] else a[j]
  }

  lemma MovedAt(a: seq<char>, dst: nat, src: nat, n: nat, i: nat)
    requires dst + n <= |a| && src + n <= |a| && i < |a|
    ensures Moved(a, dst, src, n)[i] == Copied(a, dst, src, 0, n, i)
  {
  }

  lemma StoredAt(a: seq<char>, dst: nat, v: seq<char>, i: nat)
    requires dst + |v| <= |a| && i < |a|
    ensures Stored(a, dst, v)[i] == if dst <= i < dst + |v| then v[i - dst] else a[i]
  {
  }

  /** A gap of |v| bytes opened at pos and filled with v. */
  lemma GapFilled(a: seq<char>, b: seq<char>, pos: nat, len: nat, v: seq<char>)
    requires pos <= len && len + |v| <= |a| && |b| == |a|
    requires forall i :: 0 <= i < pos ==> b[i] == a[i]
    requires forall i :: 0 <= i < |v| ==> b[pos + i] == v[i]
    requires forall i :: pos + |v| <= i < len + |v| ==> b[i] == a[i - |v|]
    ensures b[..len + |v|] == a[..pos] + v + a[pos..len]
  {
    var x, y := b[..len + |v|], a[..pos] + v + a[pos..len];
    assert |x| == |y|;
    forall i | 0 <= i < |x| ensures x[i] == y[i] {
      if pos <= i < pos + |v| { assert b[pos + (i - pos)] == v[i - pos]; }
    }
  }

  const MAX: nat := 0xFFFF_FFFF

  /** _nearest_power: the least doubling of base that reaches num; the shifts stay inside 32 bits. */
  method NearestPower(base: nat, num: nat) returns (n: nat)
    requires 0 < base <= MAX && num <= MAX
    ensures num <= n <= MAX
    ensures num <= MAX / 2 ==> (exists k: nat :: n == base * Powers.Pow2(k)) && (n == base || n < 2 * num)
  {
    if num > MAX / 2 {
      return MAX;
    }
    n := base;
    ghost var k: nat := 0;
    assert n == base * Powers.Pow2(0);
    while n < num
      invariant 0 < n <= MAX && (n == base || n < 2 * num) && n == base * Powers.Pow2(k)
      decreases num - n
    {
      Doubled(base, k);
      n := 2 * n;
      k := k + 1;
    }
  }

  lemma Doubled(base: nat, k: nat)
    ensures 2 * (base * Powers.Pow2(k)) == base * Powers.Pow2(k + 1)
  {
    assert Powers.Pow2(k + 1) == 2 * Powers.Pow2(k);
  }

  /** The bytes to insert: somewhere else, or inside the string itself. */
  datatype Source = Outside(bytes: seq<char>) | Inside(offset: nat)

  /** Lengths are kept in an int32_t. */
  const LIMIT: nat := 0x7FFF_FFFF

  lemma MovedNothing(a: seq<char>, dst: nat, src: nat)
    requires dst <= |a| && src <= |a|
    ensures Moved(a, dst, src, 0) == a
  {
  }

  /** The part of the inserted slice that lies before the gap. */
  function Precount(pos: nat, offset: nat, n: nat): nat {
    if offset < pos then (if n < pos - offset then n else pos - offset) else 0
  }

  lemma PrecountFits(pos: nat, offset: nat, n: nat)
    ensures var pre := Precount(pos, offset, n); pre <= n && (n - pre == 0 || pos <= offset + pre)
  {
  }

  /** The three copies of a self-insertion: open the gap, fill it from before it, then from behind it. */
  ghost function SelfCopied(a: seq<char>, pos: nat, offset: nat, n: nat, len: nat): seq<char>
    requires pos <= len && offset + n <= len && len + n <= |a|
  {
    SliceCopied(Moved(a, pos + n, pos, len - pos), pos, offset, n)
  }

  ghost function SliceCopied(a1: seq<char>, pos: nat, offset: nat, n: nat): seq<char>
    requires pos + n <= |a1| && offset + n + n <= |a1|
  {
    var pre := Precount(pos, offset, n);
    Moved(Moved(a1, pos, offset, pre), pos + pre, offset + pre + n, n - pre)
  }

  /** Whatever its place, the slice arrives in the gap as it was. */
  lemma SelfInserted(a: seq<char>, pos: nat, offset: nat, n: nat, len: nat)
    requires pos <= len && offset + n <= len && len + n <= |a|
    ensures |SelfCopied(a, pos, offset, n, len)| == |a|
    ensures SelfCopied(a, pos, offset, n, len)[..len + n] == a[..pos] + a[offset..offset + n] + a[pos..len]
  {
    var pre, a1 := Precount(pos, offset, n), Moved(a, pos + n, pos, len - pos);
    var a2, b := Moved(a1, pos, offset, pre), SelfCopied(a, pos, offset, n, len);
    SelfBefore(a, a1, pos, offset, n, len);
    PrecountFits(pos, offset, n);
    SelfAfter(a, a2, b, pos, offset, n, len);
    GapWords(a, b, pos, offset, n, len);
  }

  lemma GapWords(a: seq<char>, b: seq<char>, pos: nat, offset: nat, n: nat, len: nat)
    requires pos <= len && offset + n <= len && len + n <= |a| == |b|
    requires forall i :: 0 <= i < len + n ==> b[i] == SelfWord(a, pos, offset, n, i)
    ensures b[..len + n] == a[..pos] + a[offset..offset + n] + a[pos..len]
  {
    GapFilled(a, b, pos, len, a[offset..offset + n]);
  }

  /** The byte the first two copies leave at i. */
  ghost function FirstWord(a: seq<char>, pos: nat, offset: nat, n: nat, i: nat): char
    requires offset + n <= |a| && pos <= |a| && i < |a|
  {
    if pos <= i < pos + Precount(pos, offset, n) then a[offset + (i - pos)] else if pos + n <= i then a[i - n] else a[i]
  }

  /** The byte a self-insertion leaves at i. */
  ghost function SelfWord(a: seq<char>, pos: nat, offset: nat, n: nat, i: nat): char
    requires offset + n <= |a| && pos <= |a| && i < |a|
  {
    if i < pos then a[i] else if i < pos + n then a[offset + (i - pos)] else a[i - n]
  }

  lemma SelfBefore(a: seq<char>, a1: seq<char>, pos: nat, offset: nat, n: nat, len: nat)
    requires pos <= len && offset + n <= len && len + n <= |a| && a1 == Moved(a, pos + n, pos, len - pos)
    ensures forall i :: 0 <= i < len + n ==>
      Moved(a1, pos, offset, Precount(pos, offset, n))[i] == FirstWord(a, pos, offset, n, i)
  {
    var pre := Precount(pos, offset, n);
    forall i | 0 <= i < len + n ensures Moved(a1, pos, offset, pre)[i] == FirstWord(a, pos, offset, n, i) {
      SelfBeforeAt(a, a1, Moved(a1, pos, offset, pre), pos, offset, n, len, i);
    }
  }

  lemma SelfBeforeAt(a: seq<char>, a1: seq<char>, a2: seq<char>, pos: nat, offset: nat, n: nat, len: nat, i: nat)
    requires pos <= len && offset + n <= len && len + n <= |a| == |a1| == |a2| && i < len + n
    requires a1 == Moved(a, pos + n, pos, len - pos) && a2 == Moved(a1, pos, offset, Precount(pos, offset, n))
    ensures a2[i] == FirstWord(a, pos, offset, n, i)
  {
    var pre := Precount(pos, offset, n);
    MovedAt(a1, pos, offset, pre, i);
    MovedAt(a, pos + n, pos, len - pos, if pos <= i < pos + pre then offset + (i - pos) else i);
  }

  lemma SelfAfter(a: seq<char>, a2: seq<char>, b: seq<char>, pos: nat, offset: nat, n: nat, len: nat)
    requires pos <= len && offset + n <= len && len + n <= |a| == |a2| == |b|
    requires forall i :: 0 <= i < len + n ==> a2[i] == FirstWord(a, pos, offset, n, i)
    requires var pre := Precount(pos, offset, n); b == Moved(a2, pos + pre, offset + pre + n, n - pre)
    ensures forall i :: 0 <= i < len + n ==> b[i] == SelfWord(a, pos, offset, n, i)
  {
    var pre := Precount(pos, offset, n);
    PrecountFits(pos, offset, n);
    forall i | 0 <= i < len + n ensures b[i] == SelfWord(a, pos, offset, n, i) {
      MovedAt(a2, pos + pre, offset + pre + n, n - pre, i);
      if pos + pre <= i < pos + n { assert a2[offset + n + (i - pos)] == FirstWord(a, pos, offset, n,
        offset + n + (i - pos)); }
    }
  }

  /** Inserting bytes from elsewhere. */
  lemma OtherInserted(a: seq<char>, pos: nat, v: seq<char>, len: nat)
    requires pos <= len && len + |v| <= |a|
    ensures var b := Stored(Moved(a, pos + |v|, pos, len - pos), pos, v);
      |b| == |a| && b[..len + |v|] == a[..pos] + v + a[pos..len]
  {
    var a1 := Moved(a, pos + |v|, pos, len - pos);
    var b := Stored(a1, pos, v);
    forall i | 0 <= i < len + |v|
      ensures b[i] == if i < pos then a[i] else if i < pos + |v| then v[i - pos] else a[i - |v|]
    {
      StoredAt(a1, pos, v, i);
      MovedAt(a, pos + |v|, pos, len - pos, i);
    }
    GapFilled(a, b, pos, len, v);
  }

  /** strlen of what begins a buffer */
  function StrLen(t: seq<char>): (n: nat)
    ensures n <= |t| && (n < |t| ==> t[n] == '\0') && forall i :: 0 <= i < n ==> t[i] != '\0'
  {
    if t == [] || t[0] == '\0' then 0 else 1 + StrLen(t[1..])
  }

  /** The insertion point asked for, and the number of bytes. */
  function Place(pos: int, len: nat): int { if pos < 0 then len else pos }

  function Amount(s: seq<char>, val: Source, len: int): nat {
    if len >= 0 then len
    else
      match val
      case Outside(bytes) => StrLen(bytes)
      case Inside(o) => if o <= |s| then StrLen(s[o..]) else 0
  }

  /** The bytes an insertion takes. */
  function Taken(s: seq<char>, val: Source, n: nat): seq<char>
    requires Enough(s, val, n)
  {
    match val case Outside(bytes) => bytes[..n] case Inside(o) => s[o..o + n]
  }

  /** The source holds that many bytes. */
  predicate Enough(s: seq<char>, val: Source, n: nat) {
    match val case Outside(bytes) => n <= |bytes| case Inside(o) => o + n <= |s|
  }

  function Inserted(s: seq<char>, pos: nat, v: seq<char>): seq<char>
    requires pos <= |s|
  {
    s[..pos] + v + s[pos..]
  }

  /** A negative place is the end. */
  lemma InsertedAt(s: seq<char>, pos: int, v: seq<char>, i: nat)
    requires pos <= |s|
    ensures pos < 0 ==> Inserted(s, Place(pos, |s|), v) == s + v
    ensures pos >= 0 ==> |Inserted(s, Place(pos, |s|), v)| == |s| + |v|
    ensures pos >= 0 && i < |s| + |v| ==>
      Inserted(s, Place(pos, |s|), v)[i] == if i < pos then s[i] else if i < pos + |v| then v[i - pos] else s[i - |v|]
  {
  }

  // ----- buffers in place

  /** memmove inside a buffer: the ranges may overlap. */
  method Memmove(b: array<char>, dst: nat, src: nat, n: nat)
    requires dst + n <= b.Length && src + n <= b.Length
    modifies b
    ensures b[..] == Moved(old(b[..]), dst, src, n)
  {
    if dst <= src {
      CopyUp(b, dst, src, n);
    } else {
      CopyDown(b, dst, src, n);
    }
  }

  /** memcpy inside a buffer: the ranges must not overlap. */
  method Memcpy(b: array<char>, dst: nat, src: nat, n: nat)
    requires dst + n <= b.Length && src + n <= b.Length
    requires dst + n <= src || src + n <= dst
    modifies b
    ensures b[..] == Moved(old(b[..]), dst, src, n)
  {
    CopyUp(b, dst, src, n);
  }

  /** Byte by byte from the front: right unless the target begins inside the source. */
  method CopyUp(b: array<char>, dst: nat, src: nat, n: nat)
    requires dst + n <= b.Length && src + n <= b.Length && (dst <= src || src + n <= dst)
    modifies b
    ensures b[..] == Moved(old(b[..]), dst, src, n)
  {
    ghost var a := b[..];
    var i := 0;
    while i < n
      invariant i <= n
      invariant forall j :: 0 <= j < b.Length ==> b[j] == Copied(a, dst, src, 0, i, j)
    {
      b[dst + i] := b[src + i];
      i := i + 1;
    }
    MovedIs(a, b[..], dst, src, n);
  }

  /** From the back: right unless the source begins inside the target. */
  method CopyDown(b: array<char>, dst: nat, src: nat, n: nat)
    requires dst + n <= b.Length && src + n <= b.Length && src <= dst
    modifies b
    ensures b[..] == Moved(old(b[..]), dst, src, n)
  {
    ghost var a := b[..];
    var i := n;
    while i > 0
      invariant 0 <= i <= n
      invariant forall j :: 0 <= j < b.Length ==> b[j] == Copied(a, dst, src, i, n, j)
    {
      i := i - 1;
      b[dst + i] := b[src + i];
    }
    MovedIs(a, b[..], dst, src, n);
  }

  lemma MovedIs(a: seq<char>, b: seq<char>, dst: nat, src: nat, n: nat)
    requires dst + n <= |a| && src + n <= |a| && |b| == |a|
    requires forall j :: 0 <= j < |b| ==> b[j] == Copied(a, dst, src, 0, n, j)
    ensures b == Moved(a, dst, src, n)
  {
    forall j | 0 <= j < |a| ensures b[j] == Moved(a, dst, src, n)[j] { MovedAt(a, dst, src, n, j); }
  }

  /** memcpy from elsewhere */
  method Store(b: array<char>, dst: nat, v: seq<char>)
    requires dst + |v| <= b.Length
    modifies b
    ensures b[..] == Stored(old(b[..]), dst, v)
  {
    ghost var a := b[..];
    var i := 0;
    while i < |v|
      invariant i <= |v|
      invariant forall j :: 0 <= j < b.Length ==> b[j] == if dst <= j < dst + i then v[j - dst] else a[j]
    {
      b[dst + i] := v[i];
      i := i + 1;
    }
    forall j | 0 <= j < |a| ensures b[j] == Stored(a, dst, v)[j] { StoredAt(a, dst, v, j); }
    assert b[..] == Stored(a, dst, v);
  }

  lemma SliceOfPrefix(a: seq<char>, s: seq<char>, pos: nat, offset: nat, n: nat, len: nat)
    requires len <= |a| && a[..len] == s && pos <= len && offset + n <= len
    ensures a[..pos] == s[..pos] && a[pos..len] == s[pos..] && a[offset..offset + n] == s[offset..offset + n]
  {
    assert a[..pos] == a[..len][..pos];
    assert a[pos..len] == a[..len][pos..];
    SliceOfSlice(a, offset, n, len);
  }

  lemma SliceOfSlice(a: seq<char>, offset: nat, n: nat, len: nat)
    requires offset + n <= len <= |a|
    ensures a[..len][offset..offset + n] == a[offset..offset + n]
  {
    var x, y := a[..len][offset..offset + n], a[offset..offset + n];
    assert |x| == |y|;
    forall i | 0 <= i < n ensures x[i] == y[i] { assert a[..len][offset + i] == a[offset + i]; }
  }

  lemma StoredOne(a: seq<char>, pos: nat, v: seq<char>)
    requires |v| == 1 && pos < |a|
    ensures a[pos := v[0]] == Stored(a, pos, v)
  {
  }

  /** What an overwrite leaves of s. */
  ghost function Overwritten(s: seq<char>, pos: nat, v: seq<char>): seq<char>
    requires pos <= |s|
  {
    s[..pos] + v + if pos + |v| < |s| then s[pos + |v|..] else []
  }

  lemma OverwrittenAt(s: seq<char>, pos: nat, v: seq<char>, i: nat)
    requires pos <= |s|
    ensures |Overwritten(s, pos, v)| == if pos + |v| > |s| then pos + |v| else |s|
    ensures i < |Overwritten(s, pos, v)| ==>
      Overwritten(s, pos, v)[i] == if i < pos then s[i] else if i < pos + |v| then v[i - pos] else s[i]
  {
    var front, tail := s[..pos] + v, if pos + |v| < |s| then s[pos + |v|..] else [];
    assert Overwritten(s, pos, v) == front + tail;
    if i >= |front| && i < |s| { assert tail[i - |front|] == s[i]; }
  }

  lemma OverwrittenIs(a: seq<char>, s: seq<char>, pos: nat, v: seq<char>, b: seq<char>)
    requires pos <= |s| < |a| && a[..|s|] == s && pos + |v| < |a| && |b| == |a|
    requires forall i :: 0 <= i < pos + |v| ==> b[i] == Stored(a, pos, v)[i]
    requires pos + |v| <= |s| ==> b == Stored(a, pos, v)
    ensures b[..if pos + |v| > |s| then pos + |v| else |s|] == Overwritten(s, pos, v)
  {
    var x := b[..if pos + |v| > |s| then pos + |v| else |s|];
    OverwrittenAt(s, pos, v, 0);
    forall i | 0 <= i < |x| ensures x[i] == Overwritten(s, pos, v)[i] {
      StoredAt(a, pos, v, i);
      OverwrittenAt(s, pos, v, i);
    }
  }

  /** s without the n bytes from pos on. */
  ghost function Cut(s: seq<char>, pos: nat, n: nat): seq<char>
    requires pos + n <= |s|
  {
    s[..pos] + s[pos + n..]
  }

  lemma ErasedIs(a: seq<char>, b: seq<char>, pos: nat, n: nat, len: nat)
    requires pos + n <= len < |a| && b == Moved(a, pos, pos + n, len - (pos + n))
    ensures b[..len - n] == Cut(a[..len], pos, n)
  {
    var x, y := b[..len - n], Cut(a[..len], pos, n);
    assert |x| == |y|;
    forall i | 0 <= i < |x| ensures x[i] == y[i] {
      MovedAt(a, pos, pos + n, len - (pos + n), i);
    }
  }

  /** The last bytes of a character are written, those that i and wc stand for are not. */
  ghost predicate Writing(a: seq<char>, b: seq<char>, pos: nat, whole: seq<char>, wc: nat, i: nat, first: nat,
        done: seq<char>)
    requires first <= 0xFC
  {
    pos + i + 1 + |done| <= |a| && whole == Unichar(wc, i + 1, first) + done && b == Stored(a, pos + i + 1, done)
  }

  lemma WritingBegins(a: seq<char>, pos: nat, wc: nat, charlen: nat, first: nat)
    requires 0 < charlen && first <= 0xFC && pos + charlen <= |a|
    ensures Writing(a, a, pos, Unichar(wc, charlen, first), wc, charlen - 1, first, []) == true
  {
    assert Unichar(wc, charlen, first) + [] == Unichar(wc, charlen, first);
    assert a[..pos + charlen] + [] + a[pos + charlen..] == a;
  }

  lemma WritingGoesOn(a: seq<char>, b: seq<char>, pos: nat, whole: seq<char>, wc: nat, i: nat, first: nat,
        done: seq<char>)
    requires first <= 0xFC && i > 0 && Writing(a, b, pos, whole, wc, i, first, done)
    ensures pos + i < |b|
    ensures var c := (0x80 + wc % 0x40) as char;
      Writing(a, b[pos + i := c], pos, whole, wc / 0x40, i - 1, first, [c] + done) == true
  {
    var c := (0x80 + wc % 0x40) as char;
    StoredMore(a, pos + i, c, done);
    assert Unichar(wc / 0x40, i, first) + [c] + done == Unichar(wc / 0x40, i, first) + ([c] + done);
  }

  lemma WritingEnds(a: seq<char>, b: seq<char>, pos: nat, whole: seq<char>, wc: nat, first: nat, done: seq<char>)
    requires first <= 0xFC && Writing(a, b, pos, whole, wc, 0, first, done)
    ensures pos + |whole| <= |a| && pos < |b| && b[pos := ((wc + first) % 0x100) as char] == Stored(a, pos, whole)
  {
    StoredMore(a, pos, ((wc + first) % 0x100) as char, done);
  }

  /** The bytes of a character, written from the last one forward. */
  method PutUnichar(b: array<char>, pos: nat, wc0: nat, charlen: nat, first: nat)
    requires 0 < charlen && first <= 0xFC && pos + charlen <= b.Length
    modifies b
    ensures |Unichar(wc0, charlen, first)| == charlen && b[..] == Stored(old(b[..]), pos, Unichar(wc0, charlen, first))
  {
    ghost var a := b[..];
    ghost var whole := Unichar(wc0, charlen, first);
    var wc: nat, i: nat := wc0, charlen - 1;
    UnicharLength(wc, charlen, first);
    WritingBegins(a, pos, wc, charlen, first);
    ghost var done: seq<char> := [];
    while i > 0
      invariant Writing(a, b[..], pos, whole, wc, i, first, done) == true
    {
      WritingGoesOn(a, b[..], pos, whole, wc, i, first, done);
      b[pos + i] := (0x80 + wc % 0x40) as char;
      done := [(0x80 + wc % 0x40) as char] + done;
      wc := wc / 0x40;
      i := i - 1;
    }
    WritingEnds(a, b[..], pos, whole, wc, first, done);
    b[pos] := ((wc + first) % 0x100) as char;
  }

  lemma StoredMore(a: seq<char>, pos: nat, c: char, done: seq<char>)
    requires pos + 1 + |done| <= |a|
    ensures |Stored(a, pos + 1, done)| == |a| && Stored(a, pos + 1, done)[pos := c] == Stored(a, pos, [c] + done)
  {
  }

  /** Room at pos: the rest of the string moves up. */
  method OpenGap(b: array<char>, pos: nat, n: nat, len: nat)
    requires pos <= len && len + n <= b.Length
    modifies b
    ensures b[..] == Moved(old(b[..]), pos + n, pos, len - pos)
  {
    if pos < len {
      Memmove(b, pos + n, pos, len - pos);
    } else {
      MovedNothing(b[..], pos + n, pos);
    }
  }

  /** The gap is filled with the part of the slice that lay before it, then with the part that moved up;
      neither copy overlaps. */
  method CopyParts(b: array<char>, pos: nat, offset: nat, n: nat, len: nat)
    requires pos <= len && offset + n <= len && len + n <= b.Length
    modifies b
    ensures b[..] == SelfCopied(old(b[..]), pos, offset, n, len)
  {
    OpenGap(b, pos, n, len);
    CopySlice(b, pos, offset, n);
  }

  method CopySlice(b: array<char>, pos: nat, offset: nat, n: nat)
    requires pos + n <= b.Length && offset + n + n <= b.Length
    modifies b
    ensures b[..] == SliceCopied(old(b[..]), pos, offset, n)
  {
    ghost var a1 := b[..];
    PrecountFits(pos, offset, n);
    var precount := CopyBefore(b, pos, offset, n);
    ghost var a2 := b[..];
    var dst, src := pos + precount, offset + precount + n;
    CopyAfter(b, dst, src, n - precount);
    SliceCopiedIs(a1, a2, b[..], pos, offset, n, precount, dst, src);
  }

  lemma SliceCopiedIs(a1: seq<char>, a2: seq<char>, a3: seq<char>, pos: nat, offset: nat, n: nat, pre: nat, dst: nat,
        src: nat)
    requires pos + n <= |a1| && offset + n + n <= |a1| == |a2|
    requires pre == Precount(pos, offset, n) && dst == pos + pre && src == offset + pre + n
    requires a2 == Moved(a1, pos, offset, pre) && a3 == Moved(a2, dst, src, n - pre)
    ensures a3 == SliceCopied(a1, pos, offset, n)
  {
  }

  /** The part of the slice before the gap, if any. */
  method CopyBefore(b: array<char>, pos: nat, offset: nat, n: nat) returns (precount: nat)
    requires pos + n <= b.Length && offset + n <= b.Length
    modifies b
    ensures precount == Precount(pos, offset, n) && b[..] == Moved(old(b[..]), pos, offset, precount)
  {
    precount := 0;
    if offset < pos {
      precount := if n < pos - offset then n else pos - offset;
      Memcpy(b, pos, offset, precount);
    } else {
      MovedNothing(b[..], pos, offset);
    }
  }

  /** The part that moved up, if any. */
  method CopyAfter(b: array<char>, dst: nat, src: nat, n: nat)
    requires (n == 0 || dst + n <= src) && dst + n <= b.Length && src + n <= b.Length
    modifies b
    ensures b[..] == Moved(old(b[..]), dst, src, n)
  {
    if n > 0 {
      Memcpy(b, dst, src, n);
    } else {
      MovedNothing(b[..], dst, src);
    }
  }

  /** What follows the erased bytes moves down, unless nothing does. */
  method CloseGap(b: array<char>, pos: nat, from: nat, len: nat, len0: int)
    requires pos <= from <= len <= b.Length && (len0 < 0 ==> from == len)
    modifies b
    ensures b[..] == Moved(old(b[..]), pos, from, len - from)
  {
    if len0 >= 0 && from < len {
      Memmove(b, pos, from, len - from);
    } else {
      MovedNothing(b[..], pos, from);
    }
  }

  /** Bytes from elsewhere into the gap. */
  method Fill(b: array<char>, pos: nat, v: seq<char>)
    requires 0 < |v| && pos + |v| <= b.Length
    modifies b
    ensures b[..] == Stored(old(b[..]), pos, v)
  {
    if |v| == 1 {
      StoredOne(b[..], pos, v);
      b[pos] := v[0];
    } else {
      Store(b, pos, v);
    }
  }

  // ----- UTF-8

  /** (wc & 0x3f) | 0x80, from the last byte forward; the first byte carries the mark of the length. */
  function Unichar(wc: nat, charlen: nat, first: nat): seq<char>
    requires 0 < charlen && first <= 0xFC
  {
    if charlen == 1 then [((wc + first) % 0x100) as char]
    else Unichar(wc / 0x40, charlen - 1, first) + [(0x80 + wc % 0x40) as char]
  }

  function CharLen(wc: nat): nat {
    if wc < 0x80 then 1 else if wc < 0x800 then 2 else if wc < 0x1_0000 then 3
    else if wc < 0x20_0000 then 4 else if wc < 0x400_0000 then 5 else 6
  }

  function FirstMark(charlen: nat): nat {
    if charlen == 1 then 0 else if charlen == 2 then 0xC0 else if charlen == 3 then 0xE0
    else if charlen == 4 then 0xF0 else if charlen == 5 then 0xF8 else 0xFC
  }

  /** The bytes of a character. */
  function Encoded(wc: nat): seq<char> { Unichar(wc, CharLen(wc), FirstMark(CharLen(wc))) }

  lemma {:induction false} UnicharLength(wc: nat, charlen: nat, first: nat)
    requires 0 < charlen && first <= 0xFC
    ensures |Unichar(wc, charlen, first)| == charlen
  {
    if charlen > 1 { UnicharLength(wc / 0x40, charlen - 1, first); }
  }

  /** Up to the last code point this is the transcoding of the JSON reader. */
  lemma UnicharIsUtf8(wc: nat)
    requires wc < 0x11_0000
    ensures Encoded(wc) == JsonText.Utf8(wc)
  {
    Groups(wc);
    if 0x80 <= wc < 0x800 {
      TwoBytes(wc);
    } else if 0x800 <= wc < 0x1_0000 {
      ThreeBytes(wc, 0xE0);
    } else if 0x1_0000 <= wc {
      FourBytes(wc);
    }
  }

  lemma Groups(wc: nat)
    ensures wc / 0x40 / 0x40 == wc / 0x1000 && wc / 0x40 / 0x40 / 0x40 == wc / 0x4_0000
  {
  }

  lemma TwoBytes(wc: nat)
    requires wc / 0x40 < 0x20
    ensures Unichar(wc, 2, 0xC0) == [(0xC0 + wc / 0x40) as char, JsonText.Continuation(wc)]
  {
    assert Unichar(wc / 0x40, 1, 0xC0) == [(0xC0 + wc / 0x40) as char];
  }

  lemma ThreeBytes(wc: nat, first: nat)
    requires first <= 0xFC && wc / 0x40 / 0x40 + first < 0x100
    ensures Unichar(wc, 3, first) ==
      [(first + wc / 0x40 / 0x40) as char, JsonText.Continuation(wc / 0x40), JsonText.Continuation(wc)]
  {
    var w1, w2 := wc / 0x40, wc / 0x40 / 0x40;
    assert Unichar(w2, 1, first) == [(first + w2) as char];
    assert Unichar(w1, 2, first) == [(first + w2) as char, JsonText.Continuation(w1)];
  }

  lemma FourBytes(wc: nat)
    requires wc / 0x40 / 0x40 / 0x40 < 8
    ensures Unichar(wc, 4, 0xF0) == [(0xF0 + wc / 0x40 / 0x40 / 0x40) as char, JsonText.Continuation(wc / 0x40 / 0x40),
                                     JsonText.Continuation(wc / 0x40), JsonText.Continuation(wc)]
  {
    ThreeBytes(wc / 0x40, 0xF0);
  }

  /** The six-bit groups read back. */
  function Decoded(s: seq<char>, first: nat): int
    requires s != []
  {
    if |s| == 1 then s[0] as int - first else Decoded(s[..|s| - 1], first) * 0x40 + (s[|s| - 1] as int - 0x80)
  }

  lemma {:induction false} GroupsDecode(wc: nat, charlen: nat, first: nat)
    requires 0 < charlen <= 6 && first <= 0xFC && wc / Shift(charlen) + first < 0x100
    ensures Unichar(wc, charlen, first) != [] && Decoded(Unichar(wc, charlen, first), first) == wc
  {
    UnicharLength(wc, charlen, first);
    if charlen > 1 {
      ShiftStep(wc, charlen);
      GroupsDecode(wc / 0x40, charlen - 1, first);
      var s := Unichar(wc, charlen, first);
      assert s[..|s| - 1] == Unichar(wc / 0x40, charlen - 1, first);
    }
  }

  /** How far the bits of the first byte are shifted. */
  function Shift(charlen: nat): (p: nat)
    ensures p > 0
  {
    if charlen <= 1 then 1 else 0x40 * Shift(charlen - 1)
  }

  lemma ShiftStep(wc: nat, charlen: nat)
    requires 1 < charlen <= 6
    ensures wc / 0x40 / Shift(charlen - 1) == wc / Shift(charlen)
  {
    ShiftValues();
    assert wc / 0x40 / 1 == wc / 0x40 && wc / 0x40 / 0x40 == wc / 0x1000 && wc / 0x40 / 0x1000 == wc / 0x4_0000;
    assert wc / 0x40 / 0x4_0000 == wc / 0x100_0000 && wc / 0x40 / 0x100_0000 == wc / 0x4000_0000;
  }

  lemma ShiftValues()
    ensures Shift(1) == 1 && Shift(2) == 0x40 && Shift(3) == 0x1000 && Shift(4) == 0x4_0000
    ensures Shift(5) == 0x100_0000 && Shift(6) == 0x4000_0000
  {
    assert Shift(5) == 0x40 * Shift(4) && Shift(6) == 0x40 * Shift(5);
    assert Shift(3) == 0x40 * Shift(2) && Shift(4) == 0x40 * Shift(3);
  }

  /** Every 32-bit character is encoded without loss. */
  lemma EncodedDecodes(wc: nat)
    requires wc <= MAX
    ensures Encoded(wc) != [] && Decoded(Encoded(wc), FirstMark(CharLen(wc))) == wc
  {
    ShiftValues();
    GroupsDecode(wc, CharLen(wc), FirstMark(CharLen(wc)));
  }

  /** The first byte tells the length. */
  lemma FirstByte(wc: nat)
    requires wc <= MAX
    ensures Encoded(wc) != []
    ensures var n, b := |Encoded(wc)|, Encoded(wc)[0] as int;
      (n == 1 && b < 0x80) || (n == 2 && 0xC0 <= b < 0xE0) || (n == 3 && 0xE0 <= b < 0xF0) ||
      (n == 4 && 0xF0 <= b < 0xF8) || (n == 5 && 0xF8 <= b < 0xFC) || (n == 6 && 0xFC <= b < 0x100)
  {
    var charlen := CharLen(wc);
    ShiftValues();
    FirstGroup(wc, charlen, FirstMark(charlen));
    UnicharLength(wc, charlen, FirstMark(charlen));
  }

  lemma {:induction false} FirstGroup(wc: nat, charlen: nat, first: nat)
    requires 0 < charlen <= 6 && first <= 0xFC && wc / Shift(charlen) + first < 0x100
    ensures Unichar(wc, charlen, first) != [] && Unichar(wc, charlen, first)[0] as int == wc / Shift(charlen) + first
  {
    if charlen > 1 {
      ShiftStep(wc, charlen);
      FirstGroup(wc / 0x40, charlen - 1, first);
    }
  }

  // ----- the string

  class TString {
    var str: array<char>
    var len: nat
    var allocated_len: nat

    ghost predicate Valid()
      reads this, str
    {
      len < allocated_len == str.Length && str[len] == '\0' && len <= LIMIT
    }

    /** The bytes of the string. */
    ghost function Contents(): seq<char>
      reads this, str
      requires len <= str.Length
    {
      str[..len]
    }

    /** tstring_sized_new */
    constructor (default_size: nat)
      requires default_size < LIMIT
      ensures Valid() && fresh(str) && Contents() == []
    {
      str := new char[0];
      allocated_len, len := 0, 0;
      new;
      MaybeExpand(if default_size > 2 then default_size else 2);
      str[0] := '\0';
    }

    /** _tstring_maybe_expand: room for n more bytes and a terminator; the bytes there are kept. */
    method MaybeExpand(n: nat)
      requires n > 0 && len + n < LIMIT && len <= allocated_len == str.Length
      modifies this`str, this`allocated_len
      ensures len + n < allocated_len == str.Length && str[..len] == old(str[..len])
      ensures str == old(str) || fresh(str)
      ensures old(allocated_len > len && str[len] == '\0') ==> str[len] == '\0'
    {
      if len + n >= allocated_len {
        allocated_len := NearestPower(1, len + n + 1);
        Realloc();
      }
    }

    /** realloc to allocated_len bytes */
    method Realloc()
      requires allocated_len >= str.Length
      modifies this`str
      ensures fresh(str) && str.Length == allocated_len && str[..old(str.Length)] == old(str[..])
    {
      var bigger := new char[allocated_len];
      var i := 0;
      while i < str.Length
        invariant i <= str.Length && str == old(str) && bigger[..i] == str[..i]
      {
        bigger[i] := str[i];
        i := i + 1;
      }
      str := bigger;
    }

    /** tstring_insert_len: the result is the old string with the bytes put in at pos, also when they are
        a slice of the string itself, wherever it lies and whether or not the buffer moves. */
    method InsertLen(pos0: int, val: Source, len0: int)
      requires Valid() && (pos0 < 0 || pos0 <= len) && Enough(Contents(), val, Amount(Contents(), val, len0))
      requires len0 < 0 ==> Amount(Contents(), val, len0) > 0
      requires len + Amount(Contents(), val, len0) < LIMIT
      modifies this, str
      ensures Valid() && (str == old(str) || fresh(str))
      ensures Contents() == old(Inserted(Contents(), Place(pos0, len),
        Taken(Contents(), val, Amount(Contents(), val, len0))))
    {
      if len0 == 0 {
        assert Contents() == Contents()[..Place(pos0, len)] + [] + Contents()[Place(pos0, len)..];
        return;
      }
      var n := if len0 < 0 then Amount(str[..len], val, len0) else len0;
      var pos := if pos0 < 0 then len else pos0;
      match val {
        case Inside(offset) => InsertSelf(pos, offset, n);
        case Outside(bytes) => InsertOther(pos, bytes[..n]);
      }
    }

    /** The branch for a slice of the string itself. */
    method InsertSelf(pos: nat, offset: nat, n: nat)
      requires Valid() && pos <= len && offset + n <= len && 0 < n && len + n < LIMIT
      modifies this, str
      ensures Valid() && (str == old(str) || fresh(str))
      ensures Contents() == old(Inserted(Contents(), pos, Contents()[offset..offset + n]))
    {
      MaybeExpand(n);
      CopySelf(pos, offset, n);
      Extend(n);
    }

    /** The gap opened and filled from the two parts of the slice. */
    method CopySelf(pos: nat, offset: nat, n: nat)
      requires len < allocated_len == str.Length && pos <= len && offset + n <= len && len + n < str.Length
      modifies str
      ensures str[..len + n] == old(Inserted(Contents(), pos, Contents()[offset..offset + n]))
    {
      ghost var a := str[..];
      CopyParts(str, pos, offset, n, len);
      SelfInserted(a, pos, offset, n, len);
      SliceOfPrefix(a, a[..len], pos, offset, n, len);
    }

    /** str->len += n; str->str[str->len] = 0 */
    method Extend(n: nat)
      requires len + n < allocated_len == str.Length && len + n < LIMIT
      modifies this`len, str
      ensures Valid() && Contents() == old(str[..len + n]) && len == old(len) + n
    {
      len := len + n;
      str[len] := '\0';
    }

    /** str->len -= n; str->str[str->len] = 0 */
    method Shorten(n: nat)
      requires n <= len < allocated_len == str.Length && len <= LIMIT
      modifies this`len, str
      ensures Valid() && Contents() == old(str[..len - n])
    {
      len := len - n;
      str[len] := '\0';
    }

    /** The branch for bytes from elsewhere. */
    method InsertOther(pos: nat, v: seq<char>)
      requires Valid() && pos <= len && 0 < |v| && len + |v| < LIMIT
      modifies this, str
      ensures Valid() && (str == old(str) || fresh(str)) && Contents() == old(Inserted(Contents(), pos, v))
    {
      MaybeExpand(|v|);
      CopyOther(pos, v);
      Extend(|v|);
    }

    /** The gap opened and filled from elsewhere. */
    method CopyOther(pos: nat, v: seq<char>)
      requires len < allocated_len == str.Length && pos <= len && 0 < |v| && len + |v| < str.Length
      modifies str
      ensures str[..len + |v|] == old(Inserted(Contents(), pos, v))
    {
      ghost var a := str[..];
      OtherInserted(a, pos, v, len);
      SliceOfPrefix(a, a[..len], pos, 0, 0, len);
      OpenGap(str, pos, |v|, len);
      Fill(str, pos, v);
    }

    /** tstring_insert_c */
    method InsertC(pos0: int, c: char)
      requires Valid() && (pos0 < 0 || pos0 <= len) && len + 1 < LIMIT
      modifies this, str
      ensures Valid() && (str == old(str) || fresh(str))
      ensures Contents() == old(Inserted(Contents(), Place(pos0, len), [c]))
    {
      MaybeExpand(1);
      CopyOther(if pos0 < 0 then len else pos0, [c]);
      Extend(1);
    }

    /** tstring_insert_unichar */
    method InsertUnichar(pos0: int, wc0: nat)
      requires Valid() && (pos0 < 0 || pos0 <= len) && len + 6 < LIMIT && wc0 <= MAX
      modifies this, str
      ensures Valid() && (str == old(str) || fresh(str))
      ensures Contents() == old(Inserted(Contents(), Place(pos0, len), Encoded(wc0)))
    {
      var charlen := CharLen(wc0);
      var first := FirstMark(charlen);
      UnicharLength(wc0, charlen, first);
      MaybeExpand(charlen);
      var pos := if pos0 < 0 then len else pos0;
      CopyUnichar(pos, wc0, charlen, first);
      Extend(charlen);
    }

    /** The gap opened and filled with the bytes of the character. */
    method CopyUnichar(pos: nat, wc: nat, charlen: nat, first: nat)
      requires len < allocated_len == str.Length && pos <= len && len + charlen < str.Length
      requires 0 < charlen && first <= 0xFC
      modifies str
      ensures |Unichar(wc, charlen, first)| == charlen
      ensures str[..len + charlen] == old(Inserted(Contents(), pos, Unichar(wc, charlen, first)))
    {
      ghost var a := str[..];
      UnicharLength(wc, charlen, first);
      OtherInserted(a, pos, Unichar(wc, charlen, first), len);
      SliceOfPrefix(a, a[..len], pos, 0, 0, len);
      OpenGap(str, pos, charlen, len);
      PutUnichar(str, pos, wc, charlen, first);
    }

    /** tstring_overwrite_len, with bytes from elsewhere: they replace what is there and may reach beyond it. */
    method OverwriteLen(pos: nat, val: seq<char>, len0: int)
      requires Valid() && pos <= len && (len0 >= 0 ==> len0 <= |val|)
      requires pos + (if len0 < 0 then StrLen(val) else len0) < LIMIT
      modifies this, str
      ensures Valid() && (str == old(str) || fresh(str))
      ensures Contents() == old(Overwritten(Contents(), pos, val[..if len0 < 0 then StrLen(val) else len0]))
    {
      if len0 == 0 {
        assert Contents() == Overwritten(Contents(), pos, val[..len0]);
        return;
      }
      var n := if len0 < 0 then StrLen(val) else len0;
      var end := pos + n;
      if end > len {
        MaybeExpand(end - len);
      }
      CopyOver(pos, val[..n]);
    }

    /** memcpy over the old bytes, and the new end. */
    method CopyOver(pos: nat, v: seq<char>)
      requires Valid() && pos <= len && pos + |v| < allocated_len && pos + |v| < LIMIT
      modifies this`len, str
      ensures Valid() && Contents() == old(Overwritten(Contents(), pos, v))
    {
      ghost var a := str[..];
      ghost var was := len;
      Store(str, pos, v);
      ghost var b := str[..];
      StoredAt(a, pos, v, len);
      if pos + |v| > len {
        str[pos + |v|] := '\0';
        len := pos + |v|;
      }
      OverwrittenIs(a, a[..was], pos, v, str[..]);
    }

    /** tstring_erase */
    method Erase(pos: nat, len0: int)
      requires Valid() && pos <= len && (len0 >= 0 ==> pos + len0 <= len)
      modifies this`len, str
      ensures Valid() && Contents() == old(Cut(Contents(), pos, if len0 < 0 then len - pos else len0))
    {
      var n := if len0 < 0 then len - pos else len0;
      ghost var a := str[..];
      CloseGap(str, pos, pos + n, len, len0);
      ErasedIs(a, str[..], pos, n, len);
      Shorten(n);
    }

    /** tstring_set_size: what is added is whatever the buffer holds. */
    method SetSize(n: nat)
      requires Valid() && n < LIMIT
      modifies this, str
      ensures Valid() && (str == old(str) || fresh(str)) && len == n
      ensures var kept := if n < old(len) then n else old(len);
        Contents()[..kept] == old(Contents())[..kept]
    {
      ghost var s := Contents();
      if n >= allocated_len {
        MaybeExpand(n - len);
      }
      ghost var k := if n < len then n else len;
      assert str[..k] == s[..k];
      len := n;
      str[n] := '\0';
      assert str[..n][..k] == str[..k];
    }

    /** tstring_truncate, for a length that is not negative */
    method Truncate(n: nat)
      requires Valid()
      modifies this`len, str
      ensures Valid() && Contents() == old(Contents())[..if n < old(len) then n else old(len)]
    {
      len := if n < len then n else len;
      str[len] := '\0';
    }
  }
}
