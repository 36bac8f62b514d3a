/** String literals as section 7 of RFC 8259 spells them, and the bytes they stand for. */
module JsonStrings {
  import opened Chars
  import opened JsonText

  // ----- what a literal says

  /** A character as it stands; a backslash and a letter; a code in four digits; the codes of two surrogates. */
  datatype Piece = Plain(c: char) | Short(letter: char) | Code(digits: string) | Surrogates(hi: string, lo: string)

  /** Four digits of base sixteen, the last one counting once. */
  function Sixteen(s: string): nat {
    if s == [] then 0 else Sixteen(s[..|s| - 1]) * 16 + if IsHex(s[|s| - 1]) then HexValue(s[|s| - 1]) else 0
  }

  predicate FourDigits(s: string) { |s| == 4 && forall i :: 0 <= i < 4 ==> IsHex(s[i]) }

  /** The two halves of a pair, by section 2.2 of RFC 2781. */
  predicate Leading(n: nat) { 0xD800 <= n < 0xDC00 }

  predicate Trailing(n: nat) { 0xDC00 <= n < 0xE000 }

  ghost predicate PieceOk(p: Piece) {
    match p
    case Plain(c) => c as int != 34 && c as int != 92
    case Short(letter) => letter != 'u'
    case Code(digits) => FourDigits(digits)
    case Surrogates(hi, lo) => FourDigits(hi) && FourDigits(lo) && Leading(Sixteen(hi))
  }

  /** Section 7 of RFC 8259: no control character as it stands, and eight letters behind a backslash. */
  ghost predicate Legal(p: Piece) {
    match p
    case Plain(c) => c as int >= 32
    case Short(letter) => letter in "\"\\/bfnrt"
    case Code(digits) => true
    case Surrogates(hi, lo) => Trailing(Sixteen(lo))
  }

  function PieceText(p: Piece): string {
    match p
    case Plain(c) => [c]
    case Short(letter) => ['\\', letter]
    case Code(digits) => ['\\', 'u'] + digits
    case Surrogates(hi, lo) => ['\\', 'u'] + hi + (['\\', 'u'] + lo)
  }

  /** The table of the RFC, by code numbers; any other letter stands for itself. */
  function Letter(c: char): char {
    if c == 'b' then 8 as char else if c == 't' then 9 as char else if c == 'n' then 10 as char
    else if c == 'f' then 12 as char else if c == 'r' then 13 as char else c
  }

  /** cJSON reads zero and stray surrogates as nothing, and pairs by or-ing. */
  function PieceBytes(p: Piece): string
    requires PieceOk(p)
  {
    match p
    case Plain(c) => [c]
    case Short(letter) => [Letter(letter)]
    case Code(digits) =>
      var n := Sixteen(digits);
      if n == 0 || Leading(n) || Trailing(n) then []
      else if n < 128 then [n as char]
      else Coded(n)
    case Surrogates(hi, lo) =>
      if Trailing(Sixteen(lo)) then Coded(Combined(Sixteen(hi), Sixteen(lo))) else []
  }

  /** The bytes of a code point in UTF-8. */
  function Coded(n: nat): string { if n < 0x11_0000 then Utf8(n) else [] }

  ghost predicate Escaped(p: Piece) { p.Code? || p.Surrogates? }

  /** A high surrogate on its own is not followed by another code. */
  ghost predicate PiecesOk(ps: seq<Piece>) {
    ps != [] ==>
      PieceOk(ps[0]) && PiecesOk(ps[1..]) &&
      (ps[0].Code? && Leading(Sixteen(ps[0].digits)) && |ps| > 1 ==> !Escaped(ps[1]))
  }

  function PiecesText(ps: seq<Piece>): string { if ps == [] then [] else PieceText(ps[0]) + PiecesText(ps[1..]) }

  ghost function PiecesBytes(ps: seq<Piece>): string
    requires PiecesOk(ps)
  {
    if ps == [] then [] else PieceBytes(ps[0]) + PiecesBytes(ps[1..])
  }

  /** t spells the bytes s. */
  ghost predicate Spells(t: string, s: string) {
    exists ps :: PiecesOk(ps) && PiecesText(ps) == t && PiecesBytes(ps) == s
  }

  // ----- reading

  lemma FourIs(s: string, more: string)
    requires FourDigits(s)
    ensures FourHex(s + more) && Hex4Value(s + more) == Sixteen(s) && (s + more)[4..] == more && Sixteen(s) < 0x1_0000
  {
    var t := s + more;
    assert t[0] == s[0] && t[1] == s[1] && t[2] == s[2] && t[3] == s[3];
    var a, b, c := s[..1], s[..2], s[..3];
    assert a[..0] == [] && b[..1] == a && c[..2] == b;
    assert Sixteen(a) == HexValue(s[0]);
    assert Sixteen(b) == Sixteen(a) * 16 + HexValue(s[1]);
    assert Sixteen(c) == Sixteen(b) * 16 + HexValue(s[2]);
  }

  lemma CodeReads(digits: string, more: string)
    requires FourDigits(digits) && Alone(Code(digits), more)
    ensures ReadUnicode(digits + more) == Parsed(PieceBytes(Code(digits)), more)
  {
    FourIs(digits, more);
    var t := digits + more;
    if |more| >= 2 { assert t[4] == more[0] && t[5] == more[1]; }
  }

  lemma CombinedSmall(hi: nat, lo: nat)
    ensures Combined(hi, lo) < 0x11_0000
  {
  }

  lemma SurrogatesRead(hi: string, lo: string, more: string)
    requires PieceOk(Surrogates(hi, lo))
    ensures ReadUnicode(hi + (['\\', 'u'] + lo) + more) == Parsed(PieceBytes(Surrogates(hi, lo)), more)
  {
    var tail := ['\\', 'u'] + lo + more;
    var t := hi + tail;
    assert hi + (['\\', 'u'] + lo) + more == t;
    FourIs(hi, tail);
    FourIs(lo, more);
    assert t[4] == '\\' && t[5] == 'u' && t[6..] == lo + more && t[10..] == more;
    CombinedSmall(Sixteen(hi), Sixteen(lo));
  }

  /** Behind a high surrogate on its own there is no other code. */
  ghost predicate Alone(p: Piece, more: string) {
    p.Code? && Leading(Sixteen(p.digits)) ==> !(|more| >= 2 && more[0] == '\\' && more[1] == 'u')
  }

  /** An escape: what ReadEscape makes of it. */
  lemma EscapeReads(u: string, bytes: string, more: string)
    requires u != [] && ReadEscape(u) == Parsed(bytes, more)
    ensures ReadBody(['\\'] + u) == Prepend(bytes, ReadBody(more))
  {
    var t := ['\\'] + u;
    assert t[0] == BACKSLASH && t[1..] == u;
  }

  lemma UnicodeReads(u: string, bytes: string, more: string)
    requires ReadUnicode(u) == Parsed(bytes, more)
    ensures ReadBody(['\\', 'u'] + u) == Prepend(bytes, ReadBody(more))
  {
    var v := ['u'] + u;
    assert v[0] == 'u' && v[1..] == u;
    EscapeReads(v, bytes, more);
    assert ['\\', 'u'] + u == ['\\'] + v;
  }

  lemma ShortReads(letter: char, more: string)
    requires letter != 'u'
    ensures ReadBody(['\\', letter] + more) == Prepend([Letter(letter)], ReadBody(more))
  {
    var u := [letter] + more;
    assert u[0] == letter && u[1..] == more;
    EscapeReads(u, [Letter(letter)], more);
    assert ['\\', letter] + more == ['\\'] + u;
  }

  /** One piece is read off the front. */
  lemma PieceReads(p: Piece, more: string)
    requires PieceOk(p) && Alone(p, more)
    ensures ReadBody(PieceText(p) + more) == Prepend(PieceBytes(p), ReadBody(more))
  {
    match p
    case Plain(c) => assert (PieceText(p) + more)[1..] == more;
    case Short(letter) => ShortReads(letter, more);
    case Code(digits) =>
      CodeReads(digits, more);
      UnicodeReads(digits + more, PieceBytes(p), more);
      UnicodeText(digits, more);
    case Surrogates(hi, lo) =>
      SurrogatesRead(hi, lo, more);
      UnicodeReads(hi + (['\\', 'u'] + lo) + more, PieceBytes(p), more);
      UnicodeText(hi + (['\\', 'u'] + lo), more);
      assert PieceText(p) == ['\\', 'u'] + (hi + (['\\', 'u'] + lo));
  }

  lemma UnicodeText(u: string, more: string)
    ensures ['\\', 'u'] + u + more == ['\\', 'u'] + (u + more)
  {
  }

  /** What follows does not turn a high surrogate into a pair. */
  lemma NextPlain(ps: seq<Piece>, rest: string)
    requires PiecesOk(ps) && (ps != [] ==> !Escaped(ps[0])) && (ps == [] ==> rest == [] || rest[0] != '\\')
    ensures var more := PiecesText(ps) + rest; !(|more| >= 2 && more[0] == '\\' && more[1] == 'u')
  {
    if ps != [] {
      var more := PiecesText(ps) + rest;
      assert more[0] == PieceText(ps[0])[0];
      if ps[0].Short? { assert more[1] == PieceText(ps[0])[1]; }
    } else {
      assert PiecesText(ps) + rest == rest;
    }
  }

  lemma {:induction false} PiecesRead(ps: seq<Piece>, rest: string)
    requires PiecesOk(ps) && (rest == [] || rest[0] == QUOTE)
    ensures ReadBody(PiecesText(ps) + rest) == Parsed(PiecesBytes(ps), if rest == [] then [] else rest[1..])
  {
    if ps == [] {
      assert PiecesText(ps) + rest == rest;
    } else {
      var more := PiecesText(ps[1..]) + rest;
      assert PiecesText(ps) + rest == PieceText(ps[0]) + more;
      PiecesRead(ps[1..], rest);
      StandsAlone(ps, rest);
      PieceReads(ps[0], more);
    }
  }

  lemma StandsAlone(ps: seq<Piece>, rest: string)
    requires ps != [] && PiecesOk(ps) && (rest == [] || rest[0] == QUOTE)
    ensures Alone(ps[0], PiecesText(ps[1..]) + rest) == true
  {
    if ps[0].Code? && Leading(Sixteen(ps[0].digits)) {
      assert |ps| > 1 ==> ps[1..][0] == ps[1];
      NextPlain(ps[1..], rest);
    }
  }

  /** Whatever spells s in quotes is read as s. */
  lemma LiteralReads(t: string, s: string, rest: string)
    requires Spells(t, s)
    ensures ReadString([QUOTE] + t + [QUOTE] + rest) == Parsed(s, rest)
  {
    var ps :| PiecesOk(ps) && PiecesText(ps) == t && PiecesBytes(ps) == s;
    var u := [QUOTE] + rest;
    assert [QUOTE] + t + [QUOTE] + rest == [QUOTE] + (t + u);
    assert ([QUOTE] + (t + u))[1..] == t + u && u[1..] == rest;
    PiecesRead(ps, u);
  }

  // ----- what is read is spelled

  lemma PieceFound(t: string) returns (p: Piece, more: string)
    requires t != [] && t[0] != QUOTE && (t[0] == BACKSLASH ==> |t| > 1 && ReadEscape(t[1..]).Parsed?)
    ensures PieceOk(p) && t == PieceText(p) + more && Alone(p, more)
    ensures ReadBody(t) == Prepend(PieceBytes(p), ReadBody(more))
  {
    if t[0] != BACKSLASH {
      p, more := Plain(t[0]), t[1..];
      assert t == [t[0]] + more;
    } else if t[1] != 'u' {
      p, more := Short(t[1]), t[2..];
      assert t == ['\\', t[1]] + more;
      PieceReads(p, more);
    } else {
      var u := t[2..];
      assert t[1..][1..] == u && ReadEscape(t[1..]) == ReadUnicode(u);
      p, more := CodeFound(u);
      assert t == ['\\', 'u'] + u;
      PieceReads(p, more);
    }
  }

  lemma CodeFound(u: string) returns (p: Piece, more: string)
    requires ReadUnicode(u).Parsed?
    ensures PieceOk(p) && ['\\', 'u'] + u == PieceText(p) + more && Alone(p, more) == true
  {
    var digits := u[..4];
    FourIs(digits, u[4..]);
    if Leading(Sixteen(digits)) && |u| >= 6 && u[4] == '\\' && u[5] == 'u' {
      var lo := u[6..10];
      p, more := Surrogates(digits, lo), u[10..];
      PairParts(u, digits, lo, more);
      FourIs(lo, more);
    } else {
      p, more := Code(digits), u[4..];
      CodeParts(u, digits, more);
    }
  }

  lemma PairParts(u: string, hi: string, lo: string, more: string)
    requires |u| >= 10 && u[4] == '\\' && u[5] == 'u' && hi == u[..4] && lo == u[6..10] && more == u[10..]
    ensures ['\\', 'u'] + u == PieceText(Surrogates(hi, lo)) + more && u[6..] == lo + more
  {
    assert u[4..6] == ['\\', 'u'];
    Parted(u);
    assert u[6..] == lo + more;
  }

  lemma Parted(u: string)
    requires |u| >= 10
    ensures u == u[..4] + (u[4..6] + u[6..10]) + u[10..]
  {
  }

  lemma CodeParts(u: string, digits: string, more: string)
    requires |u| >= 4 && digits == u[..4] && more == u[4..]
    ensures ['\\', 'u'] + u == PieceText(Code(digits)) + more
  {
    assert u == digits + more;
  }

  /** The text of the pieces, and behind it the quote or the end. */
  ghost predicate Delimited(t: string, u: string, rest: string) {
    if u == t then rest == [] else t == u + ([QUOTE] + rest)
  }

  /** Whatever is read as a string is spelled by what stands before the quote, or the end of the text. */
  lemma {:induction false} BodyFound(t: string) returns (ps: seq<Piece>)
    requires ReadBody(t).Parsed?
    ensures PiecesOk(ps) && PiecesBytes(ps) == ReadBody(t).value &&
      Delimited(t, PiecesText(ps), ReadBody(t).rest) == true
    decreases |t|
  {
    ps := [];
    if t != [] && t[0] != QUOTE {
      var p, more := PieceFound(t);
      var qs := BodyFound(more);
      ps := [p] + qs;
      MoreFound(p, qs, more, ReadBody(more).rest);
      DelimitedMore(PieceText(p), more, PiecesText(qs), ReadBody(more).rest);
    } else if t != [] {
      assert t == [QUOTE] + t[1..];
    }
  }

  lemma DelimitedMore(a: string, t: string, u: string, rest: string)
    requires Delimited(t, u, rest)
    ensures Delimited(a + t, a + u, rest) == true
  {
    if u != t { assert a + t == a + u + ([QUOTE] + rest) && |a + t| > |a + u|; }
  }

  lemma MoreFound(p: Piece, qs: seq<Piece>, more: string, rest: string)
    requires PieceOk(p) && Alone(p, more) && PiecesOk(qs) && Delimited(more, PiecesText(qs), rest)
    ensures PiecesOk([p] + qs) && PiecesText([p] + qs) == PieceText(p) + PiecesText(qs)
    ensures PiecesBytes([p] + qs) == PieceBytes(p) + PiecesBytes(qs)
  {
    var ps := [p] + qs;
    assert ps[1..] == qs;
    EscapedBegins(qs);
  }

  lemma EscapedBegins(qs: seq<Piece>)
    ensures qs != [] && Escaped(qs[0]) ==>
      |PiecesText(qs)| >= 2 && PiecesText(qs)[0] == '\\' && PiecesText(qs)[1] == 'u'
  {
    if qs != [] && Escaped(qs[0]) {
      var u := PieceText(qs[0]);
      assert |u| >= 2 && PiecesText(qs) == u + PiecesText(qs[1..]);
      assert PiecesText(qs)[0] == u[0] && PiecesText(qs)[1] == u[1];
    }
  }

  // ----- what is printed is spelled

  /** The spelling print_string_ptr chooses. */
  ghost function PieceOf(c: char): Piece {
    if Named(c) then Short(EscapeChar(c)[1]) else if c < ' ' then Code(Hex4(c as int)) else Plain(c)
  }

  ghost function PiecesOf(s: string): seq<Piece> { if s == [] then [] else [PieceOf(s[0])] + PiecesOf(s[1..]) }

  lemma Hex4Is(n: nat)
    requires n < 0x1_0000
    ensures FourDigits(Hex4(n)) && Sixteen(Hex4(n)) == n
  {
    forall d | 0 <= d < 16 ensures IsHex(HexDigit(d)) && HexValue(HexDigit(d)) == d { HexTable(HexDigit(d)); }
    FourIs(Hex4(n), []);
    assert Hex4(n) + [] == Hex4(n);
    Places(n);
  }

  lemma Places(n: nat)
    requires n < 0x10000
    ensures n / 0x1000 * 0x1000 + n / 0x100 % 16 * 0x100 + n / 0x10 % 16 * 0x10 + n % 16 == n
  {
    var q1 := n / 0x10;
    var q2 := q1 / 0x10;
    var q3 := q2 / 0x10;
    assert n / 0x100 == q2 && n / 0x1000 == q3;
    assert n == 0x10 * q1 + n % 16 && q1 == 0x10 * q2 + q1 % 16 && q2 == 0x10 * q3 + q2 % 16;
  }

  lemma PieceOfIs(c: char)
    requires c != '\0'
    ensures PieceOk(PieceOf(c)) && Legal(PieceOf(c)) && PieceText(PieceOf(c)) == EscapeChar(c) &&
      PieceBytes(PieceOf(c)) == [c]
  {
    if !Named(c) && c < ' ' { Hex4Is(c as int); }
  }

  /** What is printed keeps to the RFC and spells the string. */
  lemma {:induction false} EscapeSpells(s: string)
    requires NulFree(s)
    ensures PiecesOk(PiecesOf(s)) && PiecesText(PiecesOf(s)) == Escape(s) && PiecesBytes(PiecesOf(s)) == s
    ensures forall p :: p in PiecesOf(s) ==> Legal(p)
  {
    if s != [] {
      PieceOfIs(s[0]);
      EscapeSpells(s[1..]);
      assert PiecesOf(s)[1..] == PiecesOf(s[1..]);
      assert s == [s[0]] + s[1..];
    }
  }

  /** The escapes that are printed, by code numbers: seven of two characters, and four small digits for the rest of
      what is below 32. */
  lemma EscapeTable(c: char)
    requires c != '\0'
    ensures var n := c as int;
      EscapeChar(c) ==
      if n == 8 then "\\b" else if n == 9 then "\\t" else if n == 10 then "\\n" else if n == 12 then "\\f"
      else if n == 13 then "\\r" else if n == 34 then "\\\"" else if n == 92 then "\\\\"
      else if n < 32 then "\\u00" + [DIGITS[n / 16], DIGITS[n % 16]] else [c]
  {
  }

  // ----- UTF-8

  /** A continuation byte, by section 3 of RFC 3629, and its six bits. */
  predicate Continues(c: char) { 0x80 <= c as int < 0xC0 }

  /** The forms of section 3 of RFC 3629: the first byte tells the length, and the bits read back are the code point. */
  lemma Utf8Is(n: nat)
    requires n < 0x11_0000
    ensures var b := Utf8(n);
      if n < 0x80 then b == [n as char]
      else if n < 0x800 then
        |b| == 2 && 0xC0 <= b[0] as int < 0xE0 && Continues(b[1]) &&
          n == (b[0] as int - 0xC0) * 0x40 + (b[1] as int - 0x80)
      else if n < 0x1_0000 then
        |b| == 3 && 0xE0 <= b[0] as int < 0xF0 && Continues(b[1]) && Continues(b[2]) &&
        n == (b[0] as int - 0xE0) * 0x1000 + (b[1] as int - 0x80) * 0x40 + (b[2] as int - 0x80)
      else
        |b| == 4 && 0xF0 <= b[0] as int < 0xF8 && Continues(b[1]) && Continues(b[2]) && Continues(b[3]) &&
        n == (b[0] as int - 0xF0) * 0x4_0000 + (b[1] as int - 0x80) * 0x1000 + (b[2] as int - 0x80) * 0x40 +
          (b[3] as int - 0x80)
  {
    var q1 := n / 0x40;
    var q2 := q1 / 0x40;
    assert q2 == n / 0x1000 && q2 / 0x40 == n / 0x4_0000;
    assert n == 0x40 * q1 + n % 0x40 && q1 == 0x40 * q2 + q1 % 0x40 && q2 == 0x40 * (q2 / 0x40) + q2 % 0x40;
  }
}
