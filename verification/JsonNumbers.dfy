/** Numbers as JSON spells them, and the values they stand for. */
module JsonNumbers {
  import opened Chars
  import opened JsonText

  // ----- what a number says

  predicate Digits(s: string) { forall i :: 0 <= i < |s| ==> IsDigit(s[i]) }

  function DigitValue(c: char): nat { if IsDigit(c) then c as int - '0' as int else 0 }

  /** The digits s behind those of n, the last one counting once. */
  function Appended(n: nat, s: string): nat {
    if s == [] then n else Appended(n, s[..|s| - 1]) * 10 + DigitValue(s[|s| - 1])
  }

  function Num(s: string): nat { Appended(0, s) }

  function Ten(n: nat): (p: nat)
    ensures p > 0
  {
    if n == 0 then 1 else 10 * Ten(n - 1)
  }

  /** The letter, a sign or none, and the digits. */
  datatype Exponent = NoExponent | Exponent(letter: char, sign: string, digits: string)

  /** A minus sign, a zero, digits that do not begin with one, the digits behind the point, the exponent: each of
      them may be missing. RFC 8259 asks for one of zero and digits, and for digits in the exponent. */
  datatype Numeral = Numeral(neg: bool, zero: bool, digits: string, frac: string, exp: Exponent)

  ghost predicate NumeralOk(x: Numeral) {
    (x.neg || x.zero || x.digits != []) && Digits(x.digits) && (x.digits != [] ==> x.digits[0] != '0') &&
      Digits(x.frac) &&
    ExponentOk(x.exp)
  }

  ghost predicate ExponentOk(e: Exponent) {
    e.Exponent? ==>
      (e.letter == 'e' || e.letter == 'E') && (e.sign == "" || e.sign == "+" || e.sign == "-") && Digits(e.digits)
  }

  function ExponentText(e: Exponent): string {
    match e
    case NoExponent => []
    case Exponent(letter, sign, digits) => [letter] + (sign + digits)
  }

  function Whole(x: Numeral): string { (if x.zero then ['0'] else []) + x.digits }

  function Fraction(frac: string): string { if frac == [] then [] else ['.'] + frac }

  function NumeralText(x: Numeral): string {
    (if x.neg then ['-'] else []) + (Whole(x) + (Fraction(x.frac) + ExponentText(x.exp)))
  }

  /** x times ten, k times over. */
  function TimesTen(x: real, k: nat): real { if k == 0 then x else 10.0 * TimesTen(x, k - 1) }

  /** x divided by ten, k times over. */
  function ByTen(x: real, k: nat): real { if k == 0 then x else ByTen(x, k - 1) / 10.0 }

  /** The magnitude, the exponent taken from the text. */
  function Magnitude(n: real, e: Exponent, f: nat): real {
    if e.NoExponent? then ByTen(n, f)
    else if e.sign == "-" then ByTen(n, f + Num(e.digits))
    else ByTen(TimesTen(n, Num(e.digits)), f)
  }

  /** All digits as one number; by ten for each digit behind the point, and by or times ten as the exponent says. */
  function NumeralValue(x: Numeral): real {
    var d := Magnitude(Num(x.digits + x.frac) as real, x.exp, |x.frac|);
    if x.neg then -d else d
  }

  /** The power of ten an exponent asks for. */
  function Power(e: Exponent): int {
    if e.NoExponent? then 0 else if e.sign == "-" then 0 - (Num(e.digits) as int) else Num(e.digits)
  }

  /** What may follow a number without being read as part of it. */
  predicate Ends(rest: string) {
    var c := Peek(rest);
    !IsDigit(c) && c != '.' && c != 'e' && c != 'E'
  }

  /** An exponent without sign and digits must not be followed by a sign. */
  predicate Closes(x: Numeral, rest: string) {
    Ends(rest) &&
    (x.exp.Exponent? && x.exp.sign == "" && x.exp.digits == [] ==> Peek(rest) != '+' && Peek(rest) != '-')
  }

  // ----- digits

  lemma {:induction false} DigitsRead(s: string, rest: string, n: nat, k: nat)
    requires Digits(s)
    ensures ReadDigits(s + rest, n, k) == ReadDigits(rest, Appended(n, s), k + |s|)
  {
    if s == [] {
      assert s + rest == rest;
    } else {
      var s', c := s[..|s| - 1], s[|s| - 1];
      var t := [c] + rest;
      assert s + rest == s' + t && t[0] == c && t[1..] == rest;
      DigitsRead(s', t, n, k);
    }
  }

  lemma {:induction false} AppendedTwice(n: nat, a: string, b: string)
    ensures Appended(n, a + b) == Appended(Appended(n, a), b)
  {
    if b == [] {
      assert a + b == a;
    } else {
      assert (a + b)[..|a + b| - 1] == a + b[..|b| - 1];
      AppendedTwice(n, a, b[..|b| - 1]);
    }
  }

  // ----- powers

  lemma {:induction false} PowerTimes(x: real, k: nat)
    ensures x * Pow10(k) == TimesTen(x, k)
  {
    if k == 0 {
      assert Pow10(0) == 1.0;
    } else {
      PowerTimes(x, k - 1);
      MulTen(x, Pow10(k - 1));
    }
  }

  lemma MulTen(x: real, p: real)
    ensures x * (10.0 * p) == 10.0 * (x * p)
  {
  }

  lemma {:induction false} PowerBy(x: real, k: nat)
    ensures x * Pow10(0 - k) == ByTen(x, k)
  {
    if k == 0 {
      assert Pow10(0) == 1.0;
    } else {
      PowerBy(x, k - 1);
      MulTenth(x, Pow10(0 - (k - 1)));
    }
  }

  lemma MulTenth(x: real, p: real)
    ensures x * (p / 10.0) == (x * p) / 10.0
  {
  }

  lemma {:induction false} TimesThenBy(x: real, k: nat, f: nat)
    ensures ByTen(TimesTen(x, k), f) == if k >= f then TimesTen(x, k - f) else ByTen(x, f - k)
  {
    if k > 0 && f > 0 {
      TimesThenBy(x, k - 1, f - 1);
      ByTenFirst(TimesTen(x, k), f);
    }
  }

  lemma {:induction false} ByTenFirst(x: real, f: nat)
    requires f > 0
    ensures ByTen(x, f) == ByTen(x / 10.0, f - 1)
  {
    if f > 1 { ByTenFirst(x, f - 1); }
  }

  /** The power that is read, in digits behind the point and exponent. */
  lemma Scaled(n: real, k: nat, f: nat)
    ensures n * Pow10(k - f) == ByTen(TimesTen(n, k), f)
  {
    TimesThenBy(n, k, f);
    if k >= f { PowerTimes(n, k - f); } else { PowerBy(n, f - k); }
  }

  // ----- numbers

  lemma WholeReads(x: Numeral, more: string)
    requires NumeralOk(x) && !IsDigit(Peek(more))
    ensures ReadWhole(Whole(x) + more) == (Num(x.digits), more)
  {
    var t, u := Whole(x) + more, x.digits + more;
    if x.zero { assert t[0] == '0' && t[1..] == u; } else { assert t == u; }
    if x.digits == [] {
      assert u == more;
    } else {
      assert u[0] == x.digits[0];
      DigitsRead(x.digits, more, 0, 0);
    }
  }

  lemma FractionReads(frac: string, more: string, n: nat)
    requires Digits(frac) && !IsDigit(Peek(more)) && Peek(more) != '.'
    ensures ReadFraction(Fraction(frac) + more, n) == (Appended(n, frac), 0 - (|frac| as int), more)
  {
    var t := Fraction(frac) + more;
    if frac == [] {
      assert t == more;
    } else {
      assert t[0] == '.' && t[1..] == frac + more && t[1] == frac[0];
      DigitsRead(frac, more, n, 0);
    }
  }

  lemma ExponentReads(x: Numeral, rest: string)
    requires NumeralOk(x) && Closes(x, rest)
    ensures ReadExponent(ExponentText(x.exp) + rest) == (Power(x.exp), rest)
  {
    var t := ExponentText(x.exp) + rest;
    match x.exp
    case NoExponent => assert t == rest;
    case Exponent(letter, sign, digits) =>
      var u := digits + rest;
      SignSplit(letter, sign, digits, rest, u);
      DigitsRead(digits, rest, 0, 0);
  }

  /** Behind the letter stand the sign, if any, and then u. */
  lemma SignSplit(letter: char, sign: string, digits: string, rest: string, u: string)
    requires |sign| <= 1 && u == digits + rest
    ensures var t := [letter] + (sign + digits) + rest;
      t[0] == letter && (if sign == "" then t[1..] == u else t[1..] != [] && t[1] == sign[0] && t[2..] == u) &&
      Peek(u) == if digits == [] then Peek(rest) else digits[0]
  {
    var t := [letter] + (sign + digits) + rest;
    assert t[1..] == sign + u;
    if sign != "" { assert t[2..] == u; }
    if digits == [] { assert u == rest; }
  }

  /** Behind the sign u is read as the digits and the exponent of x, up to rest. */
  ghost predicate PartsRead(x: Numeral, u: string, rest: string) {
    var (whole, u1) := ReadWhole(u);
    var (n, scale, u2) := ReadFraction(u1, whole);
    var (e, u3) := ReadExponent(u2);
    n == Num(x.digits + x.frac) && scale == 0 - (|x.frac| as int) && e == Power(x.exp) && u3 == rest
  }

  lemma MagnitudeReads(x: Numeral, rest: string, u: string)
    requires NumeralOk(x) && Closes(x, rest) && u == Whole(x) + (Fraction(x.frac) + (ExponentText(x.exp) + rest))
    ensures PartsRead(x, u, rest) == true
  {
    var more := ExponentText(x.exp) + rest;
    NoDigitBehind(x, rest, more);
    WholeReads(x, Fraction(x.frac) + more);
    FractionReads(x.frac, more, Num(x.digits));
    ExponentReads(x, rest);
    AppendedTwice(0, x.digits, x.frac);
  }

  lemma NoDigitBehind(x: Numeral, rest: string, more: string)
    requires NumeralOk(x) && Closes(x, rest) && more == ExponentText(x.exp) + rest
    ensures !IsDigit(Peek(more)) && Peek(more) != '.' && !IsDigit(Peek(Fraction(x.frac) + more))
  {
    if x.exp.NoExponent? { assert more == rest; } else { assert more[0] == x.exp.letter; }
    if x.frac == [] { assert Fraction(x.frac) + more == more; } else { assert (Fraction(x.frac) + more)[0] == '.'; }
  }

  lemma MagnitudeIs(n: real, e: Exponent, f: nat, p: real)
    requires p == Pow10(Power(e) - f)
    ensures Magnitude(n, e, f) == n * p
  {
    if e.NoExponent? {
      PowerBy(n, f);
    } else if e.sign == "-" {
      PowerBy(n, f + Num(e.digits));
    } else {
      Scaled(n, Num(e.digits), f);
    }
  }

  /** A numeral reads as its value, whatever follows that cannot continue it. */
  lemma NumeralReads(x: Numeral, rest: string)
    requires NumeralOk(x) && Closes(x, rest)
    ensures var t := NumeralText(x) + rest;
      (Peek(t) == '-' || IsDigit(Peek(t))) && ReadNumber(t) == Parsed(Number(NumeralValue(x)), rest)
  {
    var t, u := NumeralText(x) + rest, Whole(x) + (Fraction(x.frac) + (ExponentText(x.exp) + rest));
    SignRead(x, rest, t, u);
    MagnitudeReads(x, rest, u);
    NumberIs(x, t, u, rest);
  }

  lemma SignRead(x: Numeral, rest: string, t: string, u: string)
    requires NumeralOk(x) && t == NumeralText(x) + rest
    requires u == Whole(x) + (Fraction(x.frac) + (ExponentText(x.exp) + rest))
    ensures t != [] && (if x.neg then t[0] == '-' && t[1..] == u else IsDigit(t[0]) && t == u)
  {
    Regrouped(Whole(x), Fraction(x.frac), ExponentText(x.exp), rest);
    if x.neg { assert t[0] == '-' && t[1..] == u; } else { assert t[0] == Whole(x)[0]; }
  }

  lemma Regrouped(a: string, b: string, c: string, rest: string)
    ensures (a + (b + c)) + rest == a + (b + (c + rest))
    ensures (['-'] + (a + (b + c))) + rest == ['-'] + (a + (b + (c + rest)))
  {
  }

  /** u is read as the digits n and the power e, up to rest. */
  ghost predicate Parted(u: string, n: nat, e: int, rest: string) {
    var (whole, u1) := ReadWhole(u);
    var (n', scale, u2) := ReadFraction(u1, whole);
    var (e', u3) := ReadExponent(u2);
    n' == n && scale + e' == e && u3 == rest
  }

  /** A number from its parts. */
  lemma NumberParts(t: string, neg: bool, u: string, n: nat, e: int, rest: string, d: real)
    requires t != [] && (if neg then t[0] == '-' && t[1..] == u else IsDigit(t[0]) && t == u)
    requires Parted(u, n, e, rest) && d == n as real * Pow10(e)
    ensures ReadNumber(t) == Parsed(Number(if neg then -d else d), rest)
  {
    assert neg == (t[0] == '-') && (if neg then t[1..] else t) == u;
    WholeConsumes(u);
    assert ReadNumber(t).rest == rest;
    assert ReadNumber(t).value == Number(if neg then -d else d);
  }

  lemma PartsAre(x: Numeral, u: string, rest: string)
    requires PartsRead(x, u, rest)
    ensures Parted(u, Num(x.digits + x.frac), Power(x.exp) - |x.frac|, rest) == true
  {
  }

  lemma NumberIs(x: Numeral, t: string, u: string, rest: string)
    requires t != [] && (if x.neg then t[0] == '-' && t[1..] == u else IsDigit(t[0]) && t == u)
    requires PartsRead(x, u, rest) == true
    ensures ReadNumber(t) == Parsed(Number(NumeralValue(x)), rest)
  {
    var n, e := Num(x.digits + x.frac), Power(x.exp) - |x.frac|;
    var p := Pow10(e);
    var d := DigitsIs(x, n, p);
    PartsAre(x, u, rest);
    NumberParts(t, x.neg, u, n, e, rest, d);
  }

  lemma DigitsIs(x: Numeral, n: nat, p: real) returns (d: real)
    requires n == Num(x.digits + x.frac) && p == Pow10(Power(x.exp) - |x.frac|)
    ensures d == n as real * p && NumeralValue(x) == if x.neg then -d else d
  {
    d := Magnitude(n as real, x.exp, |x.frac|);
    MagnitudeIs(n as real, x.exp, |x.frac|, p);
  }

  // ----- what is read is a numeral

  lemma {:induction false} DigitsFound(t: string, n: nat, k: nat) returns (s: string)
    ensures var (m, j, rest) := ReadDigits(t, n, k);
      Digits(s) && t == s + rest && m == Appended(n, s) && j == k + |s| && !IsDigit(Peek(rest))
    ensures t != [] && IsDigit(t[0]) ==> s != [] && s[0] == t[0]
  {
    s := [];
    if t != [] && IsDigit(t[0]) {
      var n' := n * 10 + DigitValue(t[0]);
      var s' := DigitsFound(t[1..], n', k + 1);
      s := [t[0]] + s';
      AppendedTwice(n, [t[0]], s');
      assert Appended(n, [t[0]]) == n' by { assert [t[0]][..0] == []; }
      assert t == [t[0]] + t[1..];
    }
  }

  lemma WholeFound(t: string) returns (zero: bool, s: string)
    ensures var (n, rest) := ReadWhole(t);
      Digits(s) && (s != [] ==> s[0] != '0') && n == Num(s) && t == (if zero then ['0'] else []) + s + rest
    ensures IsDigit(Peek(t)) ==> zero || s != []
  {
    zero := Peek(t) == '0';
    var u := if zero then t[1..] else t;
    s := [];
    if '1' <= Peek(u) <= '9' { s := DigitsFound(u, 0, 0); }
    assert zero ==> t == ['0'] + u;
  }

  lemma FractionFound(t: string, n: nat) returns (s: string)
    ensures var (m, scale, rest) := ReadFraction(t, n);
      Digits(s) && m == Appended(n, s) && scale == 0 - (|s| as int) && t == Fraction(s) + rest
  {
    s := [];
    if Peek(t) == '.' && |t| >= 2 && IsDigit(t[1]) {
      s := DigitsFound(t[1..], n, 0);
      assert t == ['.'] + t[1..];
    }
  }

  lemma ExponentFound(t: string) returns (e: Exponent)
    ensures var (p, rest) := ReadExponent(t);
      p == Power(e) && t == ExponentText(e) + rest && ExponentOk(e)
  {
    e := NoExponent;
    if Peek(t) == 'e' || Peek(t) == 'E' {
      var sign := if Peek(t[1..]) == '-' then "-" else if Peek(t[1..]) == '+' then "+" else "";
      var u := t[1 + |sign|..];
      var digits := DigitsFound(u, 0, 0);
      e := Exponent(t[0], sign, digits);
      SignParts(t, sign, u);
      assert ReadExponent(t).1 == ReadDigits(u, 0, 0).2;
      ExponentParts(t, sign, u, digits, ReadExponent(t).1);
    }
  }

  lemma SignParts(t: string, sign: string, u: string)
    requires t != [] && sign == if Peek(t[1..]) == '-' then "-" else if Peek(t[1..]) == '+' then "+" else ""
    requires |sign| < |t| && u == t[1 + |sign|..]
    ensures t == [t[0]] + (sign + u)
  {
    if sign != "" { assert t[1..] == [t[1]] + t[2..]; }
  }

  lemma ExponentParts(t: string, sign: string, u: string, digits: string, rest: string)
    requires t != [] && t == [t[0]] + (sign + u) && u == digits + rest
    ensures t == ExponentText(Exponent(t[0], sign, digits)) + rest
  {
  }

  /** The parts behind the sign. */
  lemma PartsFound(u: string, neg: bool) returns (x: Numeral, rest: string)
    requires neg || IsDigit(Peek(u))
    ensures NumeralOk(x) && x.neg == neg && PartsRead(x, u, rest) == true
    ensures u == Whole(x) + (Fraction(x.frac) + (ExponentText(x.exp) + rest))
  {
    var zero, digits := WholeFound(u);
    var (whole, u1) := ReadWhole(u);
    var frac := FractionFound(u1, whole);
    var (n, scale, u2) := ReadFraction(u1, whole);
    var e := ExponentFound(u2);
    x, rest := Numeral(neg, zero, digits, frac, e), ReadExponent(u2).1;
    AppendedTwice(0, digits, frac);
  }

  /** Whatever is read as a number is a numeral, and the number its value. */
  lemma NumeralFound(t: string) returns (x: Numeral)
    requires Peek(t) == '-' || IsDigit(Peek(t))
    ensures NumeralOk(x) && t == NumeralText(x) + ReadNumber(t).rest && ReadNumber(t).value == Number(NumeralValue(x))
  {
    var neg := t[0] == '-';
    var u := if neg then t[1..] else t;
    var rest;
    x, rest := PartsFound(u, neg);
    NumberIs(x, t, u, rest);
    SignFound(x, t, u, rest);
  }

  lemma SignFound(x: Numeral, t: string, u: string, rest: string)
    requires t != [] && (if x.neg then t[0] == '-' && t[1..] == u else t == u)
    requires u == Whole(x) + (Fraction(x.frac) + (ExponentText(x.exp) + rest))
    ensures t == NumeralText(x) + rest
  {
    var v := Whole(x) + (Fraction(x.frac) + ExponentText(x.exp));
    assert u == v + rest;
    if x.neg { assert t == ['-'] + u; }
  }

  // ----- in whole numbers

  lemma {:induction false} TimesTenIs(x: real, k: nat)
    ensures TimesTen(x, k) == x * Ten(k) as real
  {
    if k > 0 {
      TimesTenIs(x, k - 1);
      MulTen(x, Ten(k - 1) as real);
    }
  }

  lemma {:induction false} ByTenIs(x: real, k: nat)
    ensures ByTen(x, k) * Ten(k) as real == x
  {
    if k > 0 {
      ByTenIs(x, k - 1);
      TenthTen(ByTen(x, k - 1), Ten(k - 1) as real);
    }
  }

  lemma TenthTen(x: real, p: real)
    ensures (x / 10.0) * (10.0 * p) == x * p
  {
  }

  /** Times ten for each digit behind the point, and for each one a negative exponent asks for, the value is all digits
      as one number, times ten to a positive exponent. */
  lemma ValueInDigits(n: real, e: Exponent, f: nat, p: nat, q: nat)
    requires p == Ten(f + if Power(e) < 0 then -Power(e) else 0) && q == Ten(if Power(e) > 0 then Power(e) else 0)
    ensures Magnitude(n, e, f) * p as real == n * q as real
  {
    var down, up := if Power(e) < 0 then -Power(e) else 0, if Power(e) > 0 then Power(e) else 0;
    assert Magnitude(n, e, f) == ByTen(TimesTen(n, up), f + down);
    ByTenIs(TimesTen(n, up), f + down);
    TimesTenIs(n, up);
  }
}
