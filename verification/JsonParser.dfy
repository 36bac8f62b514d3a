/** The reading half of cJSON.c: a pointer moving over the text, buffers filled, recursion over
    the nesting. Each routine does what the reader of JsonText says. */
module JsonParser {
  import opened Chars
  import opened JsonText
  import opened JsonRoundTrip
  import G = JsonGrammar
  import N = JsonNumbers
  import JsonPrinter

  /** A value and the place behind it; failure (a null pointer); or the escapes left unspecified. */
  datatype Result<T> = Ok(value: T, next: nat) | Fail | Undefined

  ghost predicate Agrees<T>(r: Result<T>, o: Outcome<T>, s: string, p: nat) {
    match r
    case Ok(v, next) => p < next <= |s| && o == Parsed(v, s[next..])
    case Fail => o == Failed
    case Undefined => o == Unspecified
  }

  /** The same where nothing need be consumed. */
  ghost predicate AgreesFrom<T>(r: Result<T>, o: Outcome<T>, s: string, p: nat) {
    match r
    case Ok(v, next) => p <= next <= |s| && o == Parsed(v, s[next..])
    case Fail => o == Failed
    case Undefined => o == Unspecified
  }

  /** *ptr */
  function At(s: string, p: nat): char { if p < |s| then s[p] else '\0' }

  lemma Suffix(s: string, p: nat, k: nat)
    requires p <= |s| && k <= |s| - p
    ensures s[p..][k..] == s[p + k..] && Peek(s[p..]) == At(s, p)
  {
  }

  /** skip */
  method SkipSpace(s: string, p: nat) returns (q: nat)
    requires p <= |s| && NulFree(s)
    ensures p <= q <= |s| && s[q..] == Skip(s[p..])
  {
    q := p;
    while q < |s| && s[q] <= ' '
      invariant p <= q <= |s| && Skip(s[q..]) == Skip(s[p..])
    {
      Suffix(s, q, 1);
      q := q + 1;
    }
  }

  // ----- strings

  /** What the first loop of parse_string counts. */
  ghost function Counted(t: string): nat {
    if t == [] || t[0] == QUOTE then 0
    else if t[0] != BACKSLASH then 1 + Counted(t[1..])
    else if |t| == 1 then 1
    else 1 + Counted(t[2..])
  }

  /** Hexadecimal digits are passed over one by one. */
  lemma HexStep(t: string)
    requires t != [] && IsHex(t[0])
    ensures Counted(t) == 1 + Counted(t[1..]) && Dangling(t) == Dangling(t[1..])
  {
  }

  lemma HexCounted(t: string)
    requires FourHex(t)
    ensures Counted(t) == 4 + Counted(t[4..]) && Dangling(t) == Dangling(t[4..])
  {
    var t1 := t[1..];
    var t2 := t1[1..];
    var t3 := t2[1..];
    HexStep(t);
    HexStep(t1);
    HexStep(t2);
    HexStep(t3);
    assert t3[1..] == t[4..];
  }

  /** Every escape takes more characters than it stands for bytes. */
  lemma EscapeCounted(t: string)
    requires |t| >= 2 && t[0] == BACKSLASH && ReadEscape(t[1..]).Parsed?
    ensures |ReadEscape(t[1..]).value| + Counted(ReadEscape(t[1..]).rest) <= Counted(t)
  {
    assert t[1..][1..] == t[2..];
    if t[1] == 'u' { UnicodeCounted(t[2..]); }
  }

  lemma UnicodeCounted(u: string)
    requires ReadUnicode(u).Parsed?
    ensures |ReadUnicode(u).value| + Counted(ReadUnicode(u).rest) <= 1 + Counted(u)
  {
    HexCounted(u);
    var uc := Hex4Value(u);
    if HighSurrogate(uc) && |u| >= 6 && u[4] == BACKSLASH && u[5] == 'u' && FourHex(u[6..]) {
      PairCounted(u);
    }
  }

  lemma PairCounted(u: string)
    requires |u| >= 6 && u[4] == BACKSLASH && u[5] == 'u' && FourHex(u[6..])
    ensures Counted(u[4..]) == 5 + Counted(u[10..])
  {
    var v := u[4..];
    assert v[0] == BACKSLASH && |v| >= 2 && v[2..] == u[6..] && u[6..][4..] == u[10..];
    HexCounted(u[6..]);
  }

  /** The first loop ends on a backslash with nothing behind it. */
  ghost predicate Dangling(t: string) {
    if t == [] || t[0] == QUOTE then false
    else if t[0] != BACKSLASH then Dangling(t[1..])
    else |t| == 1 || Dangling(t[2..])
  }

  /** Then the second loop does not get through either. */
  lemma {:induction false} DanglingBody(t: string)
    requires Dangling(t)
    ensures ReadBody(t) == Unspecified
    decreases |t|
  {
    if t[0] != BACKSLASH {
      DanglingBody(t[1..]);
    } else if |t| > 1 && ReadEscape(t[1..]).Parsed? {
      assert t[1..][1..] == t[2..];
      if t[1] == 'u' { UnicodeDangling(t[2..]); }
      DanglingBody(ReadEscape(t[1..]).rest);
    }
  }

  lemma UnicodeDangling(u: string)
    requires ReadUnicode(u).Parsed? && Dangling(u)
    ensures Dangling(ReadUnicode(u).rest)
  {
    HexCounted(u);
    if HighSurrogate(Hex4Value(u)) && |u| >= 6 && u[4] == BACKSLASH && u[5] == 'u' && FourHex(u[6..]) {
      PairDangling(u);
    }
  }

  lemma PairDangling(u: string)
    requires |u| >= 6 && u[4] == BACKSLASH && u[5] == 'u' && FourHex(u[6..])
    ensures Dangling(u[4..]) == Dangling(u[10..])
  {
    var v := u[4..];
    assert v[0] == BACKSLASH && |v| >= 2 && v[2..] == u[6..] && u[6..][4..] == u[10..];
    HexCounted(u[6..]);
  }

  /** The length loop of parse_string: from behind the quote to the closing one, or the end. */
  method CountString(s: string, p: nat) returns (ok: bool, len: nat)
    requires p <= |s| && NulFree(s)
    ensures ok == !Dangling(s[p..])
    ensures ok ==> len == Counted(s[p..])
  {
    var ptr := p;
    len := 0;
    ok := true;
    while ptr < |s| && s[ptr] != QUOTE
      invariant p <= ptr <= |s| && Counted(s[p..]) == len + Counted(s[ptr..]) && Dangling(s[p..]) == Dangling(s[ptr..])
    {
      len := len + 1;
      CountStep(s, ptr);
      if s[ptr] == BACKSLASH {
        if ptr + 1 == |s| {
          ok := false;
          return;
        }
        ptr := ptr + 2;
      } else {
        ptr := ptr + 1;
      }
    }
    CountEnds(s, ptr);
  }

  lemma CountStep(s: string, p: nat)
    requires p < |s| && s[p] != QUOTE
    ensures s[p] != BACKSLASH ==> Counted(s[p..]) == 1 + Counted(s[p + 1..]) && Dangling(s[p..]) == Dangling(s[p + 1..])
    ensures s[p] == BACKSLASH && p + 1 == |s| ==> Dangling(s[p..])
    ensures s[p] == BACKSLASH && p + 1 < |s| ==>
      Counted(s[p..]) == 1 + Counted(s[p + 2..]) && Dangling(s[p..]) == Dangling(s[p + 2..])
  {
    Suffix(s, p, 1);
    if p + 1 < |s| { Suffix(s, p, 2); }
  }

  lemma CountEnds(s: string, p: nat)
    requires p <= |s| && (p == |s| || s[p] == QUOTE)
    ensures Counted(s[p..]) == 0 && !Dangling(s[p..])
  {
    Suffix(s, p, 0);
  }

  /** Reading four hexadecimal digits: sscanf("%4x"). */
  method ScanHex(s: string, p: nat) returns (ok: bool, uc: nat)
    requires p <= |s|
    ensures ok == FourHex(s[p..]) && (ok ==> uc == Hex4Value(s[p..]))
  {
    uc := 0;
    ok := p + 4 <= |s| && IsHex(s[p]) && IsHex(s[p + 1]) && IsHex(s[p + 2]) && IsHex(s[p + 3]);
    if ok {
      uc := HexValue(s[p]) * 0x1000 + HexValue(s[p + 1]) * 0x100 + HexValue(s[p + 2]) * 0x10 + HexValue(s[p + 3]);
    }
  }

  /** case 'u': the bytes to write, and the place behind the escape. */
  method ParseUnicode(s: string, p: nat) returns (r: Result<string>)
    requires p <= |s| && NulFree(s)
    ensures AgreesFrom(r, ReadUnicode(s[p..]), s, p) && !r.Fail?
  {
    var ok, uc := ScanHex(s, p);
    if !ok {
      return Undefined;
    }
    Suffix(s, p, 4);
    if LowSurrogate(uc) || uc == 0 {
      return Ok([], p + 4);
    }
    if HighSurrogate(uc) {
      if At(s, p + 4) != BACKSLASH || At(s, p + 5) != 'u' {
        return Ok([], p + 4);
      }
      r := ParsePair(s, p, uc);
      return;
    }
    r := Ok(Utf8(uc), p + 4);
  }

  /** The second half of a surrogate pair. */
  method ParsePair(s: string, p: nat, uc: nat) returns (r: Result<string>)
    requires p + 6 <= |s| && FourHex(s[p..]) && uc == Hex4Value(s[p..]) && HighSurrogate(uc) && s[p + 4] == BACKSLASH &&
      s[p + 5] == 'u'
    ensures AgreesFrom(r, ReadUnicode(s[p..]), s, p) && !r.Fail?
  {
    Suffix(s, p, 6);
    var ok, uc2 := ScanHex(s, p + 6);
    if !ok {
      return Undefined;
    }
    Suffix(s, p, 10);
    if !LowSurrogate(uc2) {
      return Ok([], p + 10);
    }
    r := Ok(Utf8(Combined(uc, uc2)), p + 10);
  }

  /** One escape, from behind the backslash. */
  method ParseEscape(s: string, p: nat) returns (r: Result<string>)
    requires p < |s| && NulFree(s)
    ensures r != Fail && Agrees(r, ReadEscape(s[p..]), s, p) == true
  {
    Suffix(s, p, 1);
    match s[p]
    case 'b' => r := Ok([BACKSPACE], p + 1);
    case 'f' => r := Ok([FORMFEED], p + 1);
    case 'n' => r := Ok(['\n'], p + 1);
    case 'r' => r := Ok(['\r'], p + 1);
    case 't' => r := Ok(['\t'], p + 1);
    case 'u' => r := ParseUnicode(s, p + 1);
    case c => r := Ok([c], p + 1);
  }

  /** The bytes of the second loop so far, in their buffer. */
  ghost predicate Filled(out: array<char>, k: nat, d: string)
    reads out
  {
    k == |d| <= out.Length && out[..k] == d
  }

  method PutBytes(out: array<char>, at: nat, bytes: string, ghost d: string) returns (k: nat)
    requires Filled(out, at, d) == true && at + |bytes| <= out.Length
    modifies out
    ensures k == at + |bytes| && Filled(out, k, d + bytes) == true
  {
    k := at;
    var i := 0;
    assert d + bytes[..0] == d;
    while i < |bytes|
      invariant i <= |bytes| && k == at + i && Filled(out, k, d + bytes[..i]) == true
    {
      assert d + bytes[..i] + [bytes[i]] == d + bytes[..i + 1];
      out[k] := bytes[i];
      k := k + 1;
      i := i + 1;
    }
    assert bytes[..i] == bytes;
  }

  /** The loop invariant of the second loop: d is written, what is left fits. */
  ghost predicate Copying(s: string, p: nat, ptr: nat, d: string, len: nat) {
    p <= ptr <= |s| && ReadBody(s[p..]) == Prepend(d, ReadBody(s[ptr..])) && |d| + Counted(s[ptr..]) <= len
  }

  lemma CopyStart(s: string, p: nat, len: nat)
    requires p <= |s| && len == Counted(s[p..])
    ensures Copying(s, p, p, [], len)
  {
    assert ReadBody(s[p..]).Parsed? ==> [] + ReadBody(s[p..]).value == ReadBody(s[p..]).value;
  }

  lemma PrependTwice(a: string, b: string, r: Outcome<string>)
    ensures Prepend(a, Prepend(b, r)) == Prepend(a + b, r)
  {
    if r.Parsed? { assert a + (b + r.value) == a + b + r.value; }
  }

  lemma CopyPlain(s: string, p: nat, ptr: nat, d: string, len: nat)
    requires Copying(s, p, ptr, d, len) && ptr < |s| && s[ptr] != QUOTE && s[ptr] != BACKSLASH
    ensures Copying(s, p, ptr + 1, d + [s[ptr]], len) && |d| < len
  {
    Suffix(s, ptr, 1);
    PrependTwice(d, [s[ptr]], ReadBody(s[ptr + 1..]));
  }

  lemma CopyEscape(s: string, p: nat, ptr: nat, d: string, len: nat, bytes: string, next: nat)
    requires Copying(s, p, ptr, d, len) && ptr + 1 < |s| && s[ptr] == BACKSLASH
    requires Agrees(Ok(bytes, next), ReadEscape(s[ptr + 1..]), s, ptr + 1)
    ensures Copying(s, p, next, d + bytes, len) && |d| + |bytes| <= len
  {
    Suffix(s, ptr, 1);
    EscapeCounted(s[ptr..]);
    PrependTwice(d, bytes, ReadBody(s[next..]));
  }

  lemma CopyStuck(s: string, p: nat, ptr: nat, d: string, len: nat)
    requires Copying(s, p, ptr, d, len) && ptr < |s| && s[ptr] == BACKSLASH
    requires ptr + 1 == |s| || ReadEscape(s[ptr + 1..]) == Unspecified
    ensures ReadBody(s[p..]) == Unspecified
  {
    Suffix(s, ptr, 1);
  }

  lemma CopyEnd(s: string, p: nat, ptr: nat, d: string, len: nat)
    requires Copying(s, p, ptr, d, len) && (ptr == |s| || s[ptr] == QUOTE)
    ensures ReadBody(s[p..]) == Parsed(d, s[if ptr < |s| then ptr + 1 else ptr..])
  {
    if ptr < |s| { Suffix(s, ptr, 1); }
    assert d + [] == d;
  }

  /** parse_string */
  method ParseString(s: string, p: nat) returns (r: Result<string>)
    requires p <= |s| && NulFree(s)
    ensures Agrees(r, ReadString(s[p..]), s, p) == true
  {
    Suffix(s, p, 0);
    if At(s, p) != QUOTE {
      return Fail;
    }
    Suffix(s, p, 1);
    var ok, len := CountString(s, p + 1);
    if !ok {
      DanglingBody(s[p + 1..]);
      return Undefined;
    }
    r := CopyString(s, p + 1, len);
  }

  /** The second loop of parse_string, into a buffer of the length counted. */
  method CopyString(s: string, p: nat, len: nat) returns (r: Result<string>)
    requires p <= |s| && NulFree(s) && len == Counted(s[p..])
    ensures AgreesFrom(r, ReadBody(s[p..]), s, p) && !r.Fail?
  {
    var out := new char[len + 1];
    var ptr: nat, ptr2: nat := p, 0;
    ghost var d := [];
    CopyStart(s, p, len);
    while ptr < |s| && s[ptr] != QUOTE
      invariant Copying(s, p, ptr, d, len) == true && Filled(out, ptr2, d) == true && ptr <= |s|
      decreases |s| - ptr
    {
      if s[ptr] != BACKSLASH {
        CopyPlain(s, p, ptr, d, len);
        ptr2 := PutBytes(out, ptr2, [s[ptr]], d);
        d := d + [s[ptr]];
        ptr := ptr + 1;
      } else {
        var stuck;
        stuck, ptr, ptr2, d := CopyEscaped(s, p, ptr, out, ptr2, d, len);
        if stuck {
          return Undefined;
        }
      }
    }
    CopyEnd(s, p, ptr, d, len);
    out[ptr2] := '\0';
    if ptr < |s| {
      ptr := ptr + 1;
    }
    r := Ok(out[..ptr2], ptr);
  }

  /** The turn of the second loop for a backslash. */
  method CopyEscaped(s: string, ghost p: nat, ptr0: nat, out: array<char>, at: nat, ghost d0: string, ghost len: nat)
    returns (stuck: bool, ptr: nat, ptr2: nat, ghost d: string)
    requires Copying(s, p, ptr0, d0, len) == true && Filled(out, at, d0) == true && out.Length == len + 1 && NulFree(s)
    requires ptr0 < |s| && s[ptr0] == BACKSLASH
    modifies out
    ensures stuck ==> ReadBody(s[p..]) == Unspecified
    ensures !stuck ==> Copying(s, p, ptr, d, len) == true && Filled(out, ptr2, d) == true && ptr0 < ptr <= |s|
  {
    ptr, ptr2, d := ptr0, at, d0;
    stuck := true;
    if ptr + 1 == |s| {
      CopyStuck(s, p, ptr, d, len);
      return;
    }
    var e := ParseEscape(s, ptr + 1);
    if e.Undefined? {
      CopyStuck(s, p, ptr, d, len);
      return;
    }
    stuck := false;
    CopyEscape(s, p, ptr, d, len, e.value, e.next);
    ptr2 := PutBytes(out, ptr2, e.value, d);
    d := d + e.value;
    ptr := e.next;
  }

  // ----- numbers

  /** The digit loops of parse_number. */
  method ParseDigits(s: string, p: nat, n0: nat) returns (n: nat, k: nat, q: nat)
    requires p <= |s|
    ensures p <= q <= |s| && ReadDigits(s[p..], n0, 0) == (n, k, s[q..])
  {
    n, k, q := n0, 0, p;
    while q < |s| && IsDigit(s[q])
      invariant p <= q <= |s| && ReadDigits(s[p..], n0, 0) == ReadDigits(s[q..], n, k)
    {
      Suffix(s, q, 1);
      n := n * 10 + (s[q] as int - '0' as int);
      k := k + 1;
      q := q + 1;
    }
  }

  method ParseWhole(s: string, p: nat) returns (n: nat, q: nat)
    requires p <= |s| && NulFree(s)
    ensures p <= q <= |s| && ReadWhole(s[p..]) == (n, s[q..])
  {
    Suffix(s, p, 0);
    n, q := 0, p;
    if At(s, q) == '0' {
      Suffix(s, p, 1);
      q := q + 1;
    }
    Suffix(s, q, 0);
    if '1' <= At(s, q) <= '9' {
      var k;
      n, k, q := ParseDigits(s, q, 0);
    }
  }

  method ParseFraction(s: string, p: nat, n0: nat) returns (n: nat, scale: int, q: nat)
    requires p <= |s| && NulFree(s)
    ensures p <= q <= |s| && ReadFraction(s[p..], n0) == (n, scale, s[q..])
  {
    Suffix(s, p, 0);
    n, scale, q := n0, 0, p;
    if At(s, p) == '.' && IsDigit(At(s, p + 1)) {
      Suffix(s, p, 1);
      var k;
      n, k, q := ParseDigits(s, p + 1, n0);
      scale := 0 - (k as int);
    }
  }

  method ParseExponent(s: string, p: nat) returns (e: int, q: nat)
    requires p <= |s| && NulFree(s)
    ensures p <= q <= |s| && ReadExponent(s[p..]) == (e, s[q..])
  {
    Suffix(s, p, 0);
    e, q := 0, p;
    if At(s, p) == 'e' || At(s, p) == 'E' {
      Suffix(s, p, 1);
      var neg := At(s, p + 1) == '-';
      q := p + 1;
      if neg || At(s, p + 1) == '+' {
        Suffix(s, p, 2);
        q := p + 2;
      }
      var subscale, k;
      subscale, k, q := ParseDigits(s, q, 0);
      e := if neg then 0 - (subscale as int) else subscale;
    }
  }

  /** parse_number, in exact arithmetic */
  method ParseNumber(s: string, p: nat) returns (r: Result<Value>)
    requires p <= |s| && NulFree(s) && (At(s, p) == '-' || IsDigit(At(s, p)))
    ensures (Peek(s[p..]) == '-' || IsDigit(Peek(s[p..]))) && Agrees(r, ReadNumber(s[p..]), s, p) == true
  {
    var neg := s[p] == '-';
    var q := if neg then p + 1 else p;
    ghost var t := s[p..];
    Suffix(s, p, q - p);
    var n, scale, e, q3 := ParseParts(s, q);
    var d := n as real * Pow10(scale + e);
    assert N.Parted(s[q..], n, scale + e, s[q3..]);
    N.NumberParts(t, neg, s[q..], n, scale + e, s[q3..], d);
    r := Ok(Number(if neg then -d else d), q3);
  }

  method ParseParts(s: string, q: nat) returns (n: nat, scale: int, e: int, q3: nat)
    requires q <= |s| && NulFree(s)
    ensures q3 <= |s| && Parts(ReadWhole(s[q..]), n, scale, e, s[q3..]) == true
  {
    var whole, q1 := ParseWhole(s, q);
    var q2;
    n, scale, q2 := ParseFraction(s, q1, whole);
    e, q3 := ParseExponent(s, q2);
  }

  /** The parts of a number read one behind the other. */
  ghost predicate Parts(whole: (nat, string), n: nat, scale: int, e: int, rest: string) {
    var f := ReadFraction(whole.1, whole.0);
    (f.0, f.1) == (n, scale) && ReadExponent(f.2) == (e, rest)
  }

  // ----- values

  /** strncmp(value, w, strlen(w)) == 0 */
  method StartsWith(s: string, p: nat, w: string) returns (yes: bool)
    requires p <= |s|
    ensures yes == Starts(s[p..], w)
  {
    yes := p + |w| <= |s| && s[p..p + |w|] == w;
    assert p + |w| <= |s| ==> s[p..][..|w|] == s[p..p + |w|];
  }

  /** parse_value */
  method ParseValue(s: string, p: nat) returns (r: Result<Value>)
    requires p <= |s| && NulFree(s)
    ensures Agrees(r, ReadValue(s[p..]), s, p) == true
    decreases |s| - p, 1
  {
    Suffix(s, p, 0);
    var isNull := StartsWith(s, p, "null");
    if isNull {
      Suffix(s, p, 4);
      return Ok(Null, p + 4);
    }
    var isFalse := StartsWith(s, p, "false");
    if isFalse {
      Suffix(s, p, 5);
      return Ok(False, p + 5);
    }
    var isTrue := StartsWith(s, p, "true");
    if isTrue {
      Suffix(s, p, 4);
      return Ok(True, p + 4);
    }
    if At(s, p) == QUOTE {
      var x := ParseString(s, p);
      r := match x case Ok(v, next) => Ok(String(v), next) case Fail => Fail case Undefined => Undefined;
    } else if At(s, p) == '-' || IsDigit(At(s, p)) {
      r := ParseNumber(s, p);
    } else if At(s, p) == '[' {
      r := ParseArray(s, p);
    } else if At(s, p) == '{' {
      r := ParseObject(s, p);
    } else {
      r := Fail;
    }
  }

  /** Behind an element: a comma and more, or the end. */
  ghost function MoreElems(u: string, elems: seq<Value>): Outcome<Value> {
    if Peek(u) == ',' then ReadElems(u[1..], elems) else if Peek(u) == ']' then Parsed(Array(elems), u[1..]) else Failed
  }

  /** One element read: what follows it decides how the array goes on. */
  ghost predicate ElemAgrees(r: Result<Value>, s: string, p: nat, elems: seq<Value>)
    requires p <= |s|
  {
    match r
    case Ok(v, next) => p < next <= |s| && ReadElems(s[p..], elems) == MoreElems(s[next..], elems + [v])
    case Fail => ReadElems(s[p..], elems) == Failed
    case Undefined => ReadElems(s[p..], elems) == Unspecified
  }

  /** value = skip(parse_value(child, skip(value))) */
  method ParseElem(s: string, p: nat, ghost elems: seq<Value>) returns (r: Result<Value>)
    requires p <= |s| && NulFree(s)
    ensures ElemAgrees(r, s, p, elems)
    decreases |s| - p, 2
  {
    var q := SkipSpace(s, p);
    r := ParseValue(s, q);
    if r.Ok? {
      var next := SkipSpace(s, r.next);
      r := Ok(r.value, next);
    }
  }

  /** parse_array */
  method ParseArray(s: string, p: nat) returns (r: Result<Value>)
    requires p < |s| && NulFree(s) && s[p] == '['
    ensures Agrees(r, ReadValue(s[p..]), s, p) == true
    decreases |s| - p, 0
  {
    Suffix(s, p, 1);
    ArrayBegins(s[p..]);
    var value := SkipSpace(s, p + 1);
    Suffix(s, value, 0);
    if At(s, value) == ']' {
      Suffix(s, value, 1);
      return Ok(Array([]), value + 1);
    }
    var child := ParseElem(s, value, []);
    if child.Fail? {
      return Fail;
    } else if child.Undefined? {
      return Undefined;
    }
    assert [] + [child.value] == [child.value];
    r := ParseElemLoop(s, child.next, [child.value]);
  }

  /** The loop of parse_array over further entries, and its end. */
  method ParseElemLoop(s: string, p: nat, elems0: seq<Value>) returns (r: Result<Value>)
    requires p <= |s| && NulFree(s)
    ensures Agrees(r, MoreElems(s[p..], elems0), s, p) == true
    decreases |s| - p, 3
  {
    var elems, value := elems0, p;
    while At(s, value) == ','
      invariant p <= value <= |s| && MoreElems(s[p..], elems0) == MoreElems(s[value..], elems)
      decreases |s| - value
    {
      Suffix(s, value, 1);
      var child := ParseElem(s, value + 1, elems);
      if child.Fail? {
        return Fail;
      } else if child.Undefined? {
        return Undefined;
      }
      elems, value := elems + [child.value], child.next;
    }
    Suffix(s, value, 0);
    if At(s, value) == ']' {
      Suffix(s, value, 1);
      return Ok(Array(elems), value + 1);
    }
    r := Fail;
  }

  lemma ArrayBegins(t: string)
    requires Peek(t) == '['
    ensures ReadValue(t) == (var u := Skip(t[1..]);
      if Peek(u) == ']' then Parsed(Array([]), u[1..]) else ReadElems(u, []))
  {
    G.NoWord(t);
  }

  lemma ObjectBegins(t: string)
    requires Peek(t) == '{'
    ensures ReadValue(t) == (var u := Skip(t[1..]);
      if Peek(u) == '}' then Parsed(Object([]), u[1..]) else ReadMembers(u, []))
  {
    G.NoWord(t);
  }

  ghost function MoreMembers(u: string, members: seq<Member>): Outcome<Value> {
    if Peek(u) == ',' then ReadMembers(u[1..], members) else if Peek(u) == '}' then Parsed(Object(members), u[1..])
      else Failed
  }

  /** One member read: what follows it decides how the object goes on. */
  ghost predicate MemberAgrees(r: Result<Member>, s: string, p: nat, members: seq<Member>)
    requires p <= |s|
  {
    match r
    case Ok(v, next) => p < next <= |s| && ReadMembers(s[p..], members) == MoreMembers(s[next..], members + [v])
    case Fail => ReadMembers(s[p..], members) == Failed
    case Undefined => ReadMembers(s[p..], members) == Unspecified
  }

  /** skip, parse_string, skip, the colon, skip, parse_value, skip */
  method ParseMember(s: string, p: nat, ghost members: seq<Member>) returns (r: Result<Member>)
    requires p <= |s| && NulFree(s)
    ensures MemberAgrees(r, s, p, members)
    decreases |s| - p, 5
  {
    var value := SkipSpace(s, p);
    r := ParsePairAt(s, value);
  }

  /** A member, from its quote on. */
  method ParsePairAt(s: string, p: nat) returns (r: Result<Member>)
    requires p <= |s| && NulFree(s)
    ensures Agrees(r, ReadMember(s[p..]), s, p) == true
    decreases |s| - p, 4
  {
    var name := ParseString(s, p);
    if name.Fail? {
      return Fail;
    } else if name.Undefined? {
      return Undefined;
    }
    var value := SkipSpace(s, name.next);
    r := ParseNamed(s, p, name.value, value);
  }

  /** A member, from behind its name and the space there. */
  method ParseNamed(s: string, ghost p: nat, name: string, colon: nat) returns (r: Result<Member>)
    requires p < colon <= |s| && NulFree(s)
    requires ReadString(s[p..]).Parsed? && ReadString(s[p..]).value == name &&
      Skip(ReadString(s[p..]).rest) == s[colon..]
    ensures Agrees(r, ReadMember(s[p..]), s, p) == true
    decreases |s| - p, 3
  {
    var value := colon;
    Suffix(s, value, 0);
    if At(s, value) != ':' {
      return Fail;
    }
    Suffix(s, value, 1);
    value := SkipSpace(s, value + 1);
    var child := ParseValue(s, value);
    if child.Fail? {
      return Fail;
    } else if child.Undefined? {
      return Undefined;
    }
    value := SkipSpace(s, child.next);
    r := Ok(Member(name, child.value), value);
  }

  /** parse_object */
  method ParseObject(s: string, p: nat) returns (r: Result<Value>)
    requires p < |s| && NulFree(s) && s[p] == '{'
    ensures Agrees(r, ReadValue(s[p..]), s, p) == true
    decreases |s| - p, 0
  {
    Suffix(s, p, 1);
    ObjectBegins(s[p..]);
    var value := SkipSpace(s, p + 1);
    Suffix(s, value, 0);
    if At(s, value) == '}' {
      Suffix(s, value, 1);
      return Ok(Object([]), value + 1);
    }
    var child := ParseMember(s, value, []);
    if child.Fail? {
      return Fail;
    } else if child.Undefined? {
      return Undefined;
    }
    assert [] + [child.value] == [child.value];
    r := ParseMemberLoop(s, child.next, [child.value]);
  }

  /** The loop of parse_object over further entries, and its end. */
  method ParseMemberLoop(s: string, p: nat, members0: seq<Member>) returns (r: Result<Value>)
    requires p <= |s| && NulFree(s)
    ensures Agrees(r, MoreMembers(s[p..], members0), s, p) == true
    decreases |s| - p, 3
  {
    var members, value := members0, p;
    while At(s, value) == ','
      invariant p <= value <= |s| && MoreMembers(s[p..], members0) == MoreMembers(s[value..], members)
      decreases |s| - value
    {
      Suffix(s, value, 1);
      var child := ParseMember(s, value + 1, members);
      if child.Fail? {
        return Fail;
      } else if child.Undefined? {
        return Undefined;
      }
      members, value := members + [child.value], child.next;
    }
    Suffix(s, value, 0);
    if At(s, value) == '}' {
      Suffix(s, value, 1);
      return Ok(Object(members), value + 1);
    }
    r := Fail;
  }

  /** cJSON_Parse: nothing but space is asked of what precedes the value, nothing of what follows it. */
  method Parse(s: string) returns (r: Result<Value>)
    requires NulFree(s)
    ensures AgreesFrom(r, Read(s), s, 0)
  {
    var q := SkipSpace(s, 0);
    assert s[0..] == s;
    r := ParseValue(s, q);
  }

  /** Printing a value and parsing the buffer gives the value back. */
  method PrintThenParse(v: Value, fmt: bool) returns (w: Value)
    requires Printable(v)
    ensures w == v
  {
    var out := JsonPrinter.PrintItem(v, fmt);
    JsonPrinter.PrintNulFree(v, 0, fmt);
    var n := JsonPrinter.Strlen(out, Print(v, 0, fmt));
    RoundTrip(v, fmt);
    var r := Parse(out[..n]);
    w := r.value;
  }
}
