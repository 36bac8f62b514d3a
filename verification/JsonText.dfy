/** JSON values, the text cJSON prints for them, and the values it reads from a text. */
module JsonText {
  import opened Chars

  // ----- values

  datatype Value = Null | False | True | Number(d: real) | String(s: string)
                 | Array(elems: seq<Value>) | Object(members: seq<Member>)

  datatype Member = Member(name: string, value: Value)

  // ----- strings, printed

  const QUOTE: char := '\"'
  const BACKSLASH: char := '\\'
  const BACKSPACE: char := '\U{0008}'
  const FORMFEED: char := '\U{000C}'

  function HexDigit(n: nat): char
    requires n < 16
  {
    "0123456789abcdef"[n]
  }

  /** sprintf("%04x") of a number below 65536 */
  function Hex4(n: nat): (s: string)
    requires n < 0x10000
    ensures |s| == 4
  {
    [HexDigit(n / 0x1000), HexDigit(n / 0x100 % 16), HexDigit(n / 0x10 % 16), HexDigit(n % 16)]
  }

  /** The characters with an escape of their own. */
  predicate Named(c: char) {
    c == QUOTE || c == BACKSLASH || c == BACKSPACE || c == FORMFEED || c == '\n' || c == '\r' || c == '\t'
  }

  /** The letter behind the backslash. */
  function Letter(c: char): char
    requires Named(c)
  {
    if c == BACKSPACE then 'b' else if c == FORMFEED then 'f' else if c == '\n' then 'n'
    else if c == '\r' then 'r' else if c == '\t' then 't' else c
  }

  function EscapeChar(c: char): string {
    if Named(c) then [BACKSLASH, Letter(c)] else if c < ' ' then [BACKSLASH, 'u'] + Hex4(c as int) else [c]
  }

  function Escape(s: string): string { if s == [] then [] else EscapeChar(s[0]) + Escape(s[1..]) }

  function Quote(s: string): string { [QUOTE] + Escape(s) + [QUOTE] }

  // ----- numbers, printed

  function Digit(n: nat): char
    requires n < 10
  {
    "0123456789"[n]
  }

  function Decimal(n: nat): string { if n < 10 then [Digit(n)] else Decimal(n / 10) + [Digit(n % 10)] }

  /** sprintf("%d") */
  function Signed(n: int): string { if n < 0 then ['-'] + Decimal(-n) else Decimal(n) }

  // ----- values, printed

  function Tabs(n: nat): string { if n == 0 then [] else Tabs(n - 1) + ['\t'] }

  /** What cJSON can print in the form modelled here: numbers that are ints, strings without zero bytes. */
  ghost predicate Printable(v: Value) {
    match v
    case Number(d) => d == d.Floor as real && -0x8000_0000 <= d.Floor < 0x8000_0000
    case String(s) => NulFree(s)
    case Array(es) => forall e :: e in es ==> Printable(e)
    case Object(ms) => forall m :: m in ms ==> NulFree(m.name) && Printable(m.value)
    case _ => true
  }

  function Print(v: Value, depth: nat, fmt: bool): string
    decreases v, 0
  {
    match v
    case Null => "null"
    case False => "false"
    case True => "true"
    case Number(d) => Signed(d.Floor)
    case String(s) => Quote(s)
    case Array(es) => ['['] + PrintElems(es, depth + 1, fmt) + [']']
    case Object(ms) =>
      (if fmt then ['{', '\n'] else ['{']) + PrintMembers(ms, depth + 1, fmt) +
      (if fmt then Tabs(depth) else []) + ['}']
  }

  function Comma(fmt: bool): string { if fmt then [',', ' '] else [','] }

  function PrintElems(es: seq<Value>, depth: nat, fmt: bool): string
    decreases es, 1
  {
    if es == [] then []
    else Print(es[0], depth, fmt) + if |es| == 1 then [] else Comma(fmt) + PrintElems(es[1..], depth, fmt)
  }

  function PrintMember(m: Member, depth: nat, fmt: bool): string
    decreases m, 1
  {
    (if fmt then Tabs(depth) else []) + Quote(m.name) + (if fmt then [':', '\t'] else [':']) +
    Print(m.value, depth, fmt)
  }

  function PrintMembers(ms: seq<Member>, depth: nat, fmt: bool): string
    decreases ms, 2
  {
    if ms == [] then []
    else
      PrintMember(ms[0], depth, fmt) + (if |ms| == 1 then [] else [',']) + (if fmt then ['\n'] else []) +
      PrintMembers(ms[1..], depth, fmt)
  }

  // ----- reading

  /** What a reader makes of a text: a value and the rest; a failure; or, for the escapes on which the
      C code reads past the text or an unset variable, nothing that is specified. */
  datatype Outcome<T> = Parsed(value: T, rest: string) | Failed | Unspecified

  /** *t, zero at the end of the text */
  function Peek(t: string): char { if t == [] then '\0' else t[0] }

  function Skip(t: string): (u: string)
    ensures |u| <= |t|
  {
    if t != [] && t[0] <= ' ' then Skip(t[1..]) else t
  }

  predicate FourHex(t: string) { |t| >= 4 && IsHex(t[0]) && IsHex(t[1]) && IsHex(t[2]) && IsHex(t[3]) }

  function Hex4Value(t: string): (n: nat)
    requires FourHex(t)
    ensures n < 0x10000
  {
    HexValue(t[0]) * 0x1000 + HexValue(t[1]) * 0x100 + HexValue(t[2]) * 0x10 + HexValue(t[3])
  }

  /** 0x10000 | ((uc & 0x3FF) << 10) | (uc2 & 0x3FF) */
  function Combined(uc: nat, uc2: nat): nat {
    var x := uc % 0x400 * 0x400 + uc2 % 0x400;
    if x / 0x10000 % 2 == 1 then x else x + 0x10000
  }

  /** The bytes of a code point: continuation bytes carry six bits each, the first byte the mark of its length. */
  function Utf8(uc: nat): string
    requires uc < 0x11_0000
  {
    if uc < 0x80 then [uc as char]
    else if uc < 0x800 then [(0xC0 + uc / 0x40) as char, Continuation(uc)]
    else if uc < 0x1_0000 then [(0xE0 + uc / 0x1000) as char, Continuation(uc / 0x40), Continuation(uc)]
    else [(0xF0 + uc / 0x4_0000) as char, Continuation(uc / 0x1000), Continuation(uc / 0x40), Continuation(uc)]
  }

  /** (uc | 0x80) & 0xBF */
  function Continuation(uc: nat): char { (0x80 + uc % 0x40) as char }

  predicate HighSurrogate(uc: nat) { 0xD800 <= uc <= 0xDBFF }

  predicate LowSurrogate(uc: nat) { 0xDC00 <= uc <= 0xDFFF }

  /** The bytes an escape stands for and the number of characters it takes; t begins behind the backslash. */
  function ReadEscape(t: string): (r: Outcome<string>)
    requires t != []
    ensures r.Parsed? ==> |r.rest| < |t|
  {
    match t[0]
    case 'b' => Parsed([BACKSPACE], t[1..])
    case 'f' => Parsed([FORMFEED], t[1..])
    case 'n' => Parsed(['\n'], t[1..])
    case 'r' => Parsed(['\r'], t[1..])
    case 't' => Parsed(['\t'], t[1..])
    case 'u' => ReadUnicode(t[1..])
    case c => Parsed([c], t[1..])
  }

  function ReadUnicode(t: string): (r: Outcome<string>)
    ensures r.Parsed? ==> |r.rest| <= |t|
  {
    if !FourHex(t) then Unspecified
    else
      var uc := Hex4Value(t);
      if LowSurrogate(uc) || uc == 0 then Parsed([], t[4..])
      else if HighSurrogate(uc) then
        (if !(|t| >= 6 && t[4] == BACKSLASH && t[5] == 'u') then Parsed([], t[4..])
         else if !FourHex(t[6..]) then Unspecified
         else if !LowSurrogate(Hex4Value(t[6..])) then Parsed([], t[10..])
         else Parsed(Utf8(Combined(uc, Hex4Value(t[6..]))), t[10..]))
      else Parsed(Utf8(uc), t[4..])
  }

  /** The body of a string literal up to its closing quote, or the end of the text. */
  function ReadBody(t: string): (r: Outcome<string>)
    ensures r.Parsed? ==> |r.rest| <= |t|
  {
    if t == [] then Parsed([], [])
    else if t[0] == QUOTE then Parsed([], t[1..])
    else if t[0] != BACKSLASH then Prepend([t[0]], ReadBody(t[1..]))
    else if |t| == 1 then Unspecified
    else
      match ReadEscape(t[1..])
      case Parsed(bytes, rest) => Prepend(bytes, ReadBody(rest))
      case _ => Unspecified
  }

  function Prepend(a: string, r: Outcome<string>): Outcome<string> {
    match r
    case Parsed(b, rest) => Parsed(a + b, rest)
    case _ => r
  }

  /** parse_string */
  function ReadString(t: string): (r: Outcome<string>)
    ensures r.Parsed? ==> |r.rest| < |t|
  {
    if Peek(t) != QUOTE then Failed else ReadBody(t[1..])
  }

  predicate IsDigit(c: char) { '0' <= c <= '9' }

  /** A run of digits read on top of n, and how many there were. */
  function ReadDigits(t: string, n: nat, k: nat): (r: (nat, nat, string))
    ensures |r.2| <= |t|
  {
    if t != [] && IsDigit(t[0]) then ReadDigits(t[1..], n * 10 + (t[0] as int - '0' as int), k + 1) else (n, k, t)
  }

  function Pow10(e: int): real
    decreases if e < 0 then -e else e
  {
    if e == 0 then 1.0 else if e > 0 then 10.0 * Pow10(e - 1) else Pow10(e + 1) / 10.0
  }

  /** The mantissa's integer part: zero, or digits not starting with zero. */
  function ReadWhole(t: string): (r: (nat, string))
    ensures |r.1| <= |t|
  {
    var u := if Peek(t) == '0' then t[1..] else t;
    if '1' <= Peek(u) <= '9' then var (n, k, w) := ReadDigits(u, 0, 0); (n, w) else (0, u)
  }

  /** The fraction: the mantissa goes on, the scale counts its digits. */
  function ReadFraction(t: string, n: nat): (r: (nat, int, string))
    ensures |r.2| <= |t|
  {
    if !(Peek(t) == '.' && |t| >= 2 && IsDigit(t[1])) then (n, 0, t)
    else
      var (m, k, w) := ReadDigits(t[1..], n, 0);
      (m, 0 - (k as int), w)
  }

  function ReadExponent(t: string): (r: (int, string))
    ensures |r.1| <= |t|
  {
    if Peek(t) != 'e' && Peek(t) != 'E' then (0, t)
    else
      var neg := Peek(t[1..]) == '-';
      var u := if neg || Peek(t[1..]) == '+' then t[2..] else t[1..];
      var (e, k, w) := ReadDigits(u, 0, 0);
      (if neg then 0 - (e as int) else e, w)
  }

  /** parse_number, with exact arithmetic */
  function ReadNumber(t: string): (r: Outcome<Value>)
    requires Peek(t) == '-' || IsDigit(Peek(t))
    ensures r.Parsed? && |r.rest| < |t|
  {
    var neg := t[0] == '-';
    var u := if neg then t[1..] else t;
    var (whole, u1) := ReadWhole(u);
    var (n, scale, u2) := ReadFraction(u1, whole);
    var (e, u3) := ReadExponent(u2);
    WholeConsumes(u);
    var d := n as real * Pow10(scale + e);
    Parsed(Number(if neg then -d else d), u3)
  }

  lemma WholeConsumes(t: string)
    ensures IsDigit(Peek(t)) ==> |ReadWhole(t).1| < |t|
  {
    var u := if Peek(t) == '0' then t[1..] else t;
    if '1' <= Peek(u) <= '9' { var r := ReadDigits(u[1..], u[0] as int - '0' as int, 1); }
  }

  predicate Starts(t: string, w: string) { |t| >= |w| && t[..|w|] == w }

  /** parse_value */
  function ReadValue(t: string): (r: Outcome<Value>)
    ensures r.Parsed? ==> |r.rest| < |t|
    decreases |t|, 0
  {
    if Starts(t, "null") then Parsed(Null, t[4..])
    else if Starts(t, "false") then Parsed(False, t[5..])
    else if Starts(t, "true") then Parsed(True, t[4..])
    else if Peek(t) == QUOTE then
      (match ReadString(t)
       case Parsed(s, rest) => Parsed(String(s), rest)
       case Failed => Failed
       case Unspecified => Unspecified)
    else if Peek(t) == '-' || IsDigit(Peek(t)) then ReadNumber(t)
    else if Peek(t) == '[' then
      var u := Skip(t[1..]);
      if Peek(u) == ']' then Parsed(Array([]), u[1..]) else ReadElems(u, [])
    else if Peek(t) == '{' then
      var u := Skip(t[1..]);
      if Peek(u) == '}' then Parsed(Object([]), u[1..]) else ReadMembers(u, [])
    else Failed
  }

  /** The rest of an array behind its bracket, or behind a comma: a value, then more. */
  function ReadElems(t: string, before: seq<Value>): (r: Outcome<Value>)
    ensures r.Parsed? ==> |r.rest| < |t|
    decreases |t|, 1
  {
    match ReadValue(Skip(t))
    case Failed => Failed
    case Unspecified => Unspecified
    case Parsed(v, rest) =>
      var u := Skip(rest);
      if Peek(u) == ',' then ReadElems(u[1..], before + [v])
      else if Peek(u) == ']' then Parsed(Array(before + [v]), u[1..])
      else Failed
  }

  /** The rest of an object behind its brace, or behind a comma: a name and a value, then more. */
  function ReadMembers(t: string, before: seq<Member>): (r: Outcome<Value>)
    ensures r.Parsed? ==> |r.rest| < |t|
    decreases |t|, 1
  {
    match ReadMember(Skip(t))
    case Failed => Failed
    case Unspecified => Unspecified
    case Parsed(m, rest) =>
      if Peek(rest) == ',' then ReadMembers(rest[1..], before + [m])
      else if Peek(rest) == '}' then Parsed(Object(before + [m]), rest[1..])
      else Failed
  }

  /** A name, a colon, a value, and the space behind it. */
  function ReadMember(t: string): (r: Outcome<Member>)
    ensures r.Parsed? ==> |r.rest| < |t|
    decreases |t|, 0
  {
    match ReadString(t)
    case Failed => Failed
    case Unspecified => Unspecified
    case Parsed(name, rest) =>
      var u := Skip(rest);
      if Peek(u) != ':' then Failed
      else
        match ReadValue(Skip(u[1..]))
        case Failed => Failed
        case Unspecified => Unspecified
        case Parsed(v, rest') => Parsed(Member(name, v), Skip(rest'))
  }

  /** cJSON_Parse */
  function Read(t: string): Outcome<Value> { ReadValue(Skip(t)) }
}
