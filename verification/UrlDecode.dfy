/** The two percent decoders: the state machine of evhttpx.c and the loop of utility.c. */
module UrlDecode {
  import opened Chars

  // ----- hexadecimal digits

  /** ch | 0x20 on a byte */
  function OrLower(c: char): int { if c as int / 0x20 % 2 == 1 then c as int else c as int + 0x20 }

  ghost predicate Bytes(s: string) { forall i :: 0 <= i < |s| ==> s[i] as int < 256 }

  /** Or-ing 0x20 in folds exactly the letters of a hexadecimal digit onto the small ones. */
  lemma OrLowerHex(c: char)
    requires (c as int) < 256 && !('0' <= c <= '9')
    ensures 'a' as int <= OrLower(c) <= 'f' as int <==> IsHex(c)
    ensures IsHex(c) ==> OrLower(c) - 'a' as int + 10 == HexValue(c)
  {
  }

  /** The byte of two digits. */
  function Byte(c2: char, c3: char): char
    requires IsHex(c2) && IsHex(c3)
  {
    (HexValue(c2) * 16 + HexValue(c3)) as char
  }

  /** The first digit counts sixteen times, the second once. */
  lemma ByteByPlace(c2: char, c3: char)
    requires IsHex(c2) && IsHex(c3)
    ensures var b := Byte(c2, c3) as int; b < 256 && b / 16 == HexValue(c2) && b % 16 == HexValue(c3)
  {
  }

  // ----- what each decoder gives

  datatype Phase = Start | Hex1 | Hex2(d: nat)

  /** evhttpx_unescape_string: a percent sign without a digit is dropped, one with a single digit drops both
      and the character behind. */
  function Unescape(s: string, phase: Phase): string {
    if s == [] then []
    else
      var c, rest := s[0], s[1..];
      match phase
      case Start => if c == '%' then Unescape(rest, Hex1) else [c] + Unescape(rest, Start)
      case Hex1 => if IsHex(c) then Unescape(rest, Hex2(HexValue(c))) else [c] + Unescape(rest, Start)
      case Hex2(d) => if IsHex(c) then [Value(d, c)] + Unescape(rest, Start) else Unescape(rest, Start)
  }

  /** (d << 4) + digit, as a byte */
  function Value(d: nat, c: char): char
    requires IsHex(c)
  {
    ((d * 16 + HexValue(c)) % 256) as char
  }

  /** safe_urldecode: plus is a space; a percent sign with two characters behind it that are not both digits is
      copied with them. */
  function Decode(s: string): string {
    if s == [] then []
    else if s[0] == '%' && |s| >= 3 then
      (if IsHex(s[1]) && IsHex(s[2]) then [Byte(s[1], s[2])] else s[..3]) + Decode(s[3..])
    else [if s[0] == '+' then ' ' else s[0]] + Decode(s[1..])
  }

  // ----- encodings

  /** e is a percent-encoding of b in the sense of section 2.1 of RFC 3986: each byte as itself, if it is no
      percent sign, or as a triplet. */
  ghost predicate Encodes(e: string, b: string) {
    if b == [] then e == []
    else
      (e != [] && e[0] != '%' && e[0] == b[0] && Encodes(e[1..], b[1..])) ||
      (|e| >= 3 && e[0] == '%' && IsHex(e[1]) && IsHex(e[2]) && Byte(e[1], e[2]) == b[0] && Encodes(e[3..], b[1..]))
  }

  /** Every percent sign is followed by two digits. */
  ghost predicate WellFormed(s: string) {
    s == [] || (s[0] != '%' && WellFormed(s[1..])) ||
      (|s| >= 3 && s[0] == '%' && IsHex(s[1]) && IsHex(s[2]) && WellFormed(s[3..]))
  }

  /** Encodings are well-formed. */
  lemma {:induction false} EncodingsAreWellFormed(e: string, b: string)
    requires Encodes(e, b)
    ensures WellFormed(e)
  {
    if b != [] {
      if e[0] != '%' { EncodingsAreWellFormed(e[1..], b[1..]); } else { EncodingsAreWellFormed(e[3..], b[1..]); }
    }
  }

  /** One triplet read by the state machine. */
  lemma Triplet(s: string)
    requires |s| >= 3 && s[0] == '%' && IsHex(s[1]) && IsHex(s[2])
    ensures Unescape(s, Start) == [Byte(s[1], s[2])] + Unescape(s[3..], Start)
  {
    assert s[1..][0] == s[1] && s[1..][1..] == s[2..] && s[2..][0] == s[2] && s[2..][1..] == s[3..];
    assert Unescape(s, Start) == Unescape(s[1..], Hex1);
    assert Unescape(s[1..], Hex1) == Unescape(s[2..], Hex2(HexValue(s[1])));
    assert HexValue(s[1]) * 16 + HexValue(s[2]) < 256;
  }

  /** The state machine undoes every percent-encoding. */
  lemma {:induction false} UnescapeInverts(e: string, b: string)
    requires Encodes(e, b)
    ensures Unescape(e, Start) == b
  {
    if b != [] {
      if e[0] != '%' {
        UnescapeInverts(e[1..], b[1..]);
      } else {
        Triplet(e);
        UnescapeInverts(e[3..], b[1..]);
      }
      assert b == [b[0]] + b[1..];
    }
  }

  /** And every well-formed text is the encoding of something, of what the machine reads in it. */
  lemma {:induction false} WellFormedEncodes(e: string)
    requires WellFormed(e)
    ensures Encodes(e, Unescape(e, Start))
    decreases |e|
  {
    if e != [] {
      if e[0] != '%' {
        WellFormedEncodes(e[1..]);
        assert Unescape(e, Start)[1..] == Unescape(e[1..], Start);
      } else {
        Triplet(e);
        WellFormedEncodes(e[3..]);
        assert Unescape(e, Start)[1..] == Unescape(e[3..], Start);
      }
    }
  }

  /** A text without plus signs. */
  ghost predicate PlusFree(s: string) { forall i :: 0 <= i < |s| ==> s[i] != '+' }

  /** The two decoders agree wherever percent signs are well-formed and no plus sign occurs. */
  lemma {:induction false} DecodersAgree(s: string)
    requires WellFormed(s) && PlusFree(s)
    ensures Decode(s) == Unescape(s, Start)
    decreases |s|
  {
    if s != [] {
      if s[0] != '%' {
        DecodersAgree(s[1..]);
      } else {
        Triplet(s);
        DecodersAgree(s[3..]);
      }
    }
  }

  /** So the loop undoes every percent-encoding without plus signs, too. */
  lemma DecodeInverts(e: string, b: string)
    requires Encodes(e, b) && PlusFree(e)
    ensures Decode(e) == b
  {
    EncodingsAreWellFormed(e, b);
    DecodersAgree(e);
    UnescapeInverts(e, b);
  }

  /** The machine never gives more than the loop, but for what its phase has left unread. */
  lemma {:induction false} NeverLonger(s: string, d: nat)
    ensures |Unescape(s, Start)| <= |Decode(s)|
    ensures |Unescape(s, Hex1)| <= |Decode(s)| + 2
    ensures |Unescape(s, Hex2(d))| <= |Decode(s)| + 1
    decreases |s|
  {
    if |s| >= 3 && s[0] == '%' {
      assert s == [s[0], s[1], s[2]] + s[3..];
      NeverLonger(s[3..], if IsHex(s[2]) then HexValue(s[2]) else 0);
      Ahead(s);
    } else if s != [] {
      NeverLonger(s[1..], if IsHex(s[0]) then HexValue(s[0]) else 0);
    }
  }

  /** The steps of the machine over a percent sign and the two characters behind it. */
  lemma Ahead(s: string)
    requires |s| >= 3 && s[0] == '%'
    ensures var x, y, r := s[1], s[2], s[3..];
      Unescape(s, Start) == Unescape(s[1..], Hex1) && Unescape(s, Hex1) == ['%'] + Unescape(s[1..], Start) &&
      Unescape(s[1..], Hex1) == (if IsHex(x) then Unescape(s[2..], Hex2(HexValue(x)))
        else [x] + Unescape(s[2..], Start)) &&
      Unescape(s[1..], Start) == (if x == '%' then Unescape(s[2..], Hex1) else [x] + Unescape(s[2..], Start)) &&
      Unescape(s[2..], Hex1) == (if IsHex(y) then Unescape(r, Hex2(HexValue(y))) else [y] + Unescape(r, Start)) &&
      Unescape(s[2..], Start) == (if y == '%' then Unescape(r, Hex1) else [y] + Unescape(r, Start)) &&
      forall d :: Unescape(s, Hex2(d)) == Unescape(s[1..], Start) &&
        Unescape(s[2..], Hex2(d)) == if IsHex(y) then [Value(d, y)] + Unescape(r, Start) else Unescape(r, Start)
  {
    assert s[1..][0] == s[1] && s[1..][1..] == s[2..] && s[2..][0] == s[2] && s[2..][1..] == s[3..];
  }

  lemma {:induction false} Shrinks(s: string, phase: Phase)
    ensures |Unescape(s, phase)| <= |s|
  {
    if s != [] {
      Shrinks(s[1..], Start);
      Shrinks(s[1..], Hex1);
      if IsHex(s[0]) { Shrinks(s[1..], Hex2(HexValue(s[0]))); }
    }
  }

  lemma ShortStays(s: string)
    requires |s| < 3
    ensures |Decode(s)| == |s|
  {
    if s != [] { assert |s[1..]| < 2; }
  }

  /** Two percent signs and a third one: the machine, in phase Hex1 at r, does not write what the loop does. */
  lemma ThirdPercent(r: string)
    ensures Unescape(r, Hex1) != "%%" + Decode(r)
  {
    if |r| >= 3 && r[0] == '%' {
      Ahead(r);
      if r[1] == '%' {
        NeverLonger(r[3..], if IsHex(r[2]) then HexValue(r[2]) else 0);
        assert |Decode(r)| == 3 + |Decode(r[3..])|;
      } else {
        assert Unescape(r, Hex1)[1] == r[1] != ("%%" + Decode(r))[1];
      }
    } else if r != [] && r[0] == '%' {
      Shrinks(r, Hex1);
      ShortStays(r);
    } else if r != [] && IsHex(r[0]) {
      NeverLonger(r[1..], HexValue(r[0]));
    } else if r != [] {
      assert Unescape(r, Hex1)[0] == r[0] != ("%%" + Decode(r))[0];
    }
  }

  /** At a percent sign without two digits the decoders part, whatever follows. */
  lemma PartAtPercent(s: string)
    requires s != [] && s[0] == '%' && !(|s| >= 3 && IsHex(s[1]) && IsHex(s[2]))
    ensures Decode(s) != Unescape(s, Start)
  {
    if |s| >= 3 {
      PartAtThree(s, s[1], s[2], s[3..]);
    } else {
      Shrinks(s[1..], Hex1);
      ShortStays(s);
    }
  }

  lemma PartAtThree(s: string, x: char, y: char, r: string)
    requires s == ['%', x, y] + r && !(IsHex(x) && IsHex(y))
    ensures Decode(s) != Unescape(s, Start)
  {
    Ahead(s);
    assert s[3..] == r && s[..3] == ['%', x, y] && Decode(s) == ['%', x, y] + Decode(r);
    if IsHex(x) {
      NeverLonger(r, HexValue(x));
    } else if x == '%' == y {
      ThirdPercent(r);
      assert Decode(s)[1..] == "%%" + Decode(r);
    } else {
      assert Decode(s)[0] == '%' && Decode(s)[1] == x && Decode(s)[2] == y;
    }
  }

  /** So they agree exactly there: on everything else they part. */
  lemma {:induction false} DecodersAgreeOnly(s: string)
    requires Decode(s) == Unescape(s, Start)
    ensures WellFormed(s) && PlusFree(s)
    decreases |s|
  {
    if s != [] {
      if s[0] != '%' {
        assert Decode(s)[1..] == Decode(s[1..]) && Unescape(s, Start)[1..] == Unescape(s[1..], Start);
        assert s[0] != '+' by { assert Decode(s)[0] == Unescape(s, Start)[0]; }
        DecodersAgreeOnly(s[1..]);
      } else {
        if !(|s| >= 3 && IsHex(s[1]) && IsHex(s[2])) { PartAtPercent(s); }
        Triplet(s);
        assert Decode(s)[1..] == Decode(s[3..]) && Unescape(s, Start)[1..] == Unescape(s[3..], Start);
        DecodersAgreeOnly(s[3..]);
      }
    }
  }

  /** A percent sign without a digit disappears, one with a digit takes the next character along, a lone one at the
      end disappears; any other character stands for itself. */
  lemma UnescapeParts(c: char, d: char, rest: string)
    ensures c != '%' ==> Unescape([c] + rest, Start) == [c] + Unescape(rest, Start)
    ensures !IsHex(c) ==> Unescape(['%', c] + rest, Start) == [c] + Unescape(rest, Start)
    ensures IsHex(c) && !IsHex(d) ==> Unescape(['%', c, d] + rest, Start) == Unescape(rest, Start)
    ensures Unescape("%", Start) == "" && (IsHex(c) ==> Unescape(['%', c], Start) == "")
  {
    assert ([c] + rest)[1..] == rest && (['%', c] + rest)[1..] == [c] + rest;
    assert (['%', c, d] + rest)[1..] == [c, d] + rest && ([c, d] + rest)[1..] == [d] + rest;
    assert ([d] + rest)[1..] == rest;
      
    assert Unescape(['%', c] + rest, Start) == Unescape([c] + rest, Hex1);
    assert Unescape(['%', c, d] + rest, Start) == Unescape([c, d] + rest, Hex1);
    if IsHex(c) { assert Unescape([c, d] + rest, Hex1) == Unescape([d] + rest, Hex2(HexValue(c))); }
    assert ['%', c][1..] == [c] && [c][1..] == "" && "%"[1..] == "";
    assert Unescape("%", Start) == Unescape("", Hex1);
    if IsHex(c) {
      assert Unescape(['%', c], Start) == Unescape([c], Hex1);
      assert Unescape([c], Hex1) == Unescape("", Hex2(HexValue(c)));
    }
  }

  /** A percent sign with two characters that are not both digits stands for the three; a plus sign for a blank. */
  lemma DecodeParts(c: char, d: char, rest: string)
    ensures c != '%' ==> Decode([c] + rest) == [if c == '+' then ' ' else c] + Decode(rest)
    ensures !(IsHex(c) && IsHex(d)) ==> Decode(['%', c, d] + rest) == ['%', c, d] + Decode(rest)
    ensures Decode("%") == "%" && Decode(['%', c]) == ['%'] + Decode([c])
  {
    assert ([c] + rest)[1..] == rest && (['%', c, d] + rest)[3..] == rest && (['%', c, d] + rest)[..3] == ['%', c, d];
    assert ['%', c][1..] == [c] && "%"[1..] == "";
  }

  /** A plus sign, and percent signs without their digits. */
  lemma DecodersPart()
    ensures Decode("+") == " " && Unescape("+", Start) == "+"
    ensures Decode("%2") == "%2" && Unescape("%2", Start) == ""
    ensures Decode("%zz") == "%zz" && Unescape("%zz", Start) == "zz"
  {
    assert "+"[1..] == "" && "%2"[1..] == "2" && "2"[1..] == "";
    assert "%zz"[3..] == "" && "%zz"[1..] == "zz" && "zz"[1..] == "z" && "z"[1..] == "" && "%zz"[..3] == "%zz";
  }

  // ----- evhttpx_unescape_string in place

  lemma UnescapeStep(s: string, i: nat, phase: Phase)
    requires i < |s|
    ensures s[i..][0] == s[i] && s[i..][1..] == s[i + 1..]
  {
  }

  /** evhttpx_unescape_string: -1 without a buffer, else 0, and the number of bytes written. */
  method UnescapeString(out: array?<char>, str: string) returns (rc: int, n: nat)
    requires (out != null ==> |str| <= out.Length) && Bytes(str)
    modifies out
    ensures rc == if out == null then -1 else 0
    ensures n <= |str| && (out != null ==> out[..n] == Unescape(str, Start))
  {
    if out == null {
      return -1, 0;
    }
    n := UnescapeBytes(out, str);
    rc := 0;
  }

  /** The machine writing to out. */
  method UnescapeBytes(out: array<char>, str: string) returns (n: nat)
    requires |str| <= out.Length && Bytes(str)
    modifies out
    ensures n <= |str| && out[..n] == Unescape(str, Start)
  {
    var phase := Start;
    n := 0;
    var i := 0;
    assert str[0..] == str;
    while i < |str|
      invariant i <= |str| && n <= i && Unescape(str, Start) == out[..n] + Unescape(str[i..], phase)
      invariant phase.Hex2? ==> phase.d < 16
    {
      UnescapeStep(str, i, phase);
      var ch := str[i];
      match phase {
        case Start =>
          if ch == '%' {
            phase := Hex1;
          } else {
            out[n] := ch;
            n := n + 1;
          }
        case Hex1 =>
          if '0' <= ch <= '9' {
            phase := Hex2(ch as int - '0' as int);
          } else {
            OrLowerHex(ch);
            var c := OrLower(ch);
            if 'a' as int <= c <= 'f' as int {
              phase := Hex2(c - 'a' as int + 10);
            } else {
              phase := Start;
              out[n] := ch;
              n := n + 1;
            }
          }
        case Hex2(d) =>
          phase := Start;
          if '0' <= ch <= '9' {
            out[n] := ((d * 16 + (ch as int - '0' as int)) % 256) as char;
            n := n + 1;
          } else {
            OrLowerHex(ch);
            var c := OrLower(ch);
            if 'a' as int <= c <= 'f' as int {
              out[n] := ((d * 16 + (c - 'a' as int + 10)) % 256) as char;
              n := n + 1;
            }
          }
      }
      i := i + 1;
    }
    assert str[i..] == [];
  }

  // ----- safe_urldecode in place

  /** tolower on a hexadecimal digit, then the offset of its range */
  function Digit(c: char): int
    requires IsHex(c)
  {
    var l := if 'A' <= c <= 'F' then c as int + 0x20 else c as int;
    if l <= '9' as int then l - '0' as int else l - 'a' as int + 10
  }

  /** The bytes written so far. */
  ghost predicate Filled(dest: array<char>, d: nat, g: string)
    reads dest
  {
    d == |g| <= dest.Length && dest[..d] == g
  }

  method Put(dest: array<char>, d: nat, c: char, ghost g: string) returns (d': nat)
    requires Filled(dest, d, g) == true && d < dest.Length
    modifies dest
    ensures d' == d + 1 && Filled(dest, d', g + [c]) == true
  {
    dest[d] := c;
    d' := d + 1;
  }

  /** What one turn of the loop at s reads, and what it owes. */
  lemma DecodeTurn(url: string, s: nat)
    requires s < |url|
    ensures url[s] == '%' && s + 2 < |url| ==>
      Decode(url[s..]) ==
      (if IsHex(url[s + 1]) && IsHex(url[s + 2]) then [Byte(url[s + 1], url[s + 2])]
        else [url[s], url[s + 1], url[s + 2]]) + Decode(url[s + 3..])
    ensures !(url[s] == '%' && s + 2 < |url|) ==>
      Decode(url[s..]) == [if url[s] == '+' then ' ' else url[s]] + Decode(url[s + 1..])
  {
    var t := url[s..];
    assert t[0] == url[s] && t[1..] == url[s + 1..];
    if s + 2 < |url| {
      assert t[1] == url[s + 1] && t[2] == url[s + 2] && t[3..] == url[s + 3..] && t[..3] == [url[s], url[s + 1],
        url[s + 2]];
    }
  }

  lemma Later(g: string, x: string, y: string)
    ensures g + (x + y) == (g + x) + y
  {
  }

  /** The decoded length never exceeds what has been read. */
  ghost predicate Decoding(url: string, s: nat, g: string) {
    s <= |url| && |g| <= s && Decode(url) == g + Decode(url[s..])
  }

  /** safe_urldecode: the loop goes on up to and including the terminator. */
  method SafeUrldecode(url: string) returns (dest: array<char>, d: nat)
    ensures fresh(dest) && d < dest.Length && dest[..d] == Decode(url) && dest[d] == '\0'
  {
    var url_len := |url| + 1;
    dest := new char[url_len];
    var s: nat := 0;
    d := 0;
    ghost var g := "";
    assert url[0..] == url && [] + Decode(url) == Decode(url);
    while s < |url|
      invariant Decoding(url, s, g) == true && Filled(dest, d, g) == true && s <= |url|
      decreases |url| - s
    {
      DecodeTurn(url, s);
      var c := url[s];
      s := s + 1;
      if c == '%' && s + 2 < url_len {
        s, d, g := PutTriplet(url, s, dest, d, g);
      } else {
        Later(g, [if c == '+' then ' ' else c], Decode(url[s..]));
        d := Put(dest, d, if c == '+' then ' ' else c, g);
        g := g + [if c == '+' then ' ' else c];
      }
    }
    assert url[s..] == [] && g + [] == g;
    dest[d] := '\0';
  }

  /** A percent sign with two characters behind it, at s and after. */
  method PutTriplet(url: string, s0: nat, dest: array<char>, d0: nat, ghost g0: string) returns (s: nat, d: nat,
        ghost g: string)
    requires 0 < s0 && s0 + 1 < |url| && url[s0 - 1] == '%' && dest.Length == |url| + 1
    requires Decoding(url, s0 - 1, g0) == true && Filled(dest, d0, g0) == true
    modifies dest
    ensures s == s0 + 2 && Decoding(url, s, g) == true && Filled(dest, d, g) == true
  {
    DecodeTurn(url, s0 - 1);
    s, d := s0, d0;
    var c2 := url[s];
    s := s + 1;
    var c3 := url[s];
    s := s + 1;
    if IsHex(c2) && IsHex(c3) {
      var b := (16 * Digit(c2) + Digit(c3)) as char;
      assert b == Byte(c2, c3);
      Later(g0, [b], Decode(url[s..]));
      d := Put(dest, d, b, g0);
      g := g0 + [b];
    } else {
      Later(g0, ['%', c2, c3], Decode(url[s..]));
      d := Put(dest, d, '%', g0);
      d := Put(dest, d, c2, g0 + ['%']);
      d := Put(dest, d, c3, g0 + ['%'] + [c2]);
      g := g0 + ['%', c2, c3];
      assert g == g0 + ['%'] + [c2] + [c3];
    }
  }
}
