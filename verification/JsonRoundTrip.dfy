/** Reading undoes printing: what is printed is a text of the value. */
module JsonRoundTrip {
  import opened Chars
  import opened JsonText
  import opened JsonNumbers
  import opened JsonStrings
  import opened JsonGrammar

  // ----- the document that is printed

  ghost function Newline(fmt: bool, depth: nat): string { if fmt then ['\n'] + Tabs(depth) else [] }

  ghost function NumeralOf(n: int): Numeral {
    var a := if n < 0 then -n else n;
    Numeral(n < 0, a == 0, if a == 0 then [] else Decimal(a), [], NoExponent)
  }

  ghost function DocOf(v: Value, depth: nat, fmt: bool): Doc
    decreases v, 0
  {
    match v
    case Number(d) => Num(NumeralOf(d.Floor))
    case String(s) => Str(PiecesOf(s))
    case Array(es) => Arr(ItemsOf(es, depth + 1, fmt, true), [])
    case Object(ms) => Obj(FieldsOf(ms, depth + 1, fmt), Newline(fmt, depth))
    case _ => Word(v)
  }

  /** Elements stand in one line, a blank behind each comma. */
  ghost function ItemsOf(es: seq<Value>, depth: nat, fmt: bool, first: bool): seq<Item>
    decreases es, 1
  {
    if es == [] then []
    else [Item(if fmt && !first then [' '] else [], DocOf(es[0], depth, fmt), [])] + ItemsOf(es[1..], depth, fmt, false)
  }

  /** Members stand in lines of their own, indented by their depth, and the last one is followed by the line of the
      brace. */
  ghost function FieldsOf(ms: seq<Member>, depth: nat, fmt: bool): seq<Field>
    requires depth > 0
    decreases ms, 1
  {
    if ms == [] then []
    else
      [Field(Newline(fmt, depth), PiecesOf(ms[0].name), [], if fmt then ['\t'] else [], DocOf(ms[0].value, depth, fmt),
             if |ms| == 1 then Newline(fmt, depth - 1) else [])] + FieldsOf(ms[1..], depth, fmt)
  }

  // ----- numbers

  lemma {:induction false} DecimalIs(n: nat)
    ensures Decimal(n) != [] && Digits(Decimal(n)) && JsonNumbers.Num(Decimal(n)) == n &&
      (n > 0 ==> Decimal(n)[0] != '0')
  {
    var d := Digit(n % 10);
    assert IsDigit(d) && DigitValue(d) == n % 10;
    if n >= 10 {
      DecimalIs(n / 10);
      assert Decimal(n)[..|Decimal(n)| - 1] == Decimal(n / 10);
    } else {
      assert Decimal(n) == [d] && [d][..0] == [] && n % 10 == n;
      assert Appended(0, [d]) == Appended(0, []) * 10 + DigitValue(d);
    }
  }

  lemma NumeralOfIs(n: int)
    ensures NumeralOk(NumeralOf(n)) && NumeralText(NumeralOf(n)) == Signed(n) && NumeralValue(NumeralOf(n)) == n as real
  {
    var x, a := NumeralOf(n), if n < 0 then -n else n;
    DecimalIs(a);
    assert x.digits + [] == x.digits;
    assert NumeralText(x) == (if n < 0 then ['-'] else []) + Decimal(a);
  }

  // ----- values

  lemma {:induction false} TabsAre(n: nat)
    ensures |Tabs(n)| == n && forall i :: 0 <= i < n ==> Tabs(n)[i] == '\t'
  {
    if n > 0 { TabsAre(n - 1); }
  }

  lemma NewlineBlank(fmt: bool, depth: nat)
    ensures Blank(Newline(fmt, depth))
  {
    TabsAre(depth);
  }

  lemma {:induction false} DocOfIs(v: Value, depth: nat, fmt: bool)
    requires Printable(v)
    ensures DocOk(DocOf(v, depth, fmt)) && Meaning(DocOf(v, depth, fmt)) == v &&
      DocText(DocOf(v, depth, fmt)) == Print(v, depth, fmt)
    decreases v, 0
  {
    match v
    case Number(d) => NumeralOfIs(d.Floor);
    case String(s) => EscapeSpells(s);
    case Array(es) =>
      ItemsOfIs(es, depth + 1, fmt, true);
      if es != [] { assert [] + PrintElems(es, depth + 1, fmt) == PrintElems(es, depth + 1, fmt); }
    case Object(ms) =>
      NewlineBlank(fmt, depth);
      FieldsOfIs(ms, depth + 1, fmt);
      ObjectText(ms, depth, fmt, FieldsOf(ms, depth + 1, fmt));
    case _ =>
  }

  lemma ObjectText(ms: seq<Member>, depth: nat, fmt: bool, fields: seq<Field>)
    requires fields == [] <==> ms == []
    requires ms != [] ==> FieldsText(fields) == Line(fmt) + PrintMembers(ms, depth + 1, fmt) + Close(fmt, depth)
    ensures DocText(Obj(fields, Newline(fmt, depth))) == Print(Object(ms), depth, fmt)
  {
    var open, inner, inside := OpenOf(fmt), FieldsText(fields), PrintMembers(ms, depth + 1, fmt);
    ObjDoc(fields, Newline(fmt, depth), inner);
    ObjPrint(ms, depth, fmt, inside);
    Braces(open, inner, Newline(fmt, depth), Line(fmt), inside, Close(fmt, depth), ms == []);
  }

  ghost function OpenOf(fmt: bool): (s: string)
    ensures s == ['{'] + Line(fmt)
  {
    if fmt then ['{', '\n'] else ['{']
  }

  lemma ObjDoc(fields: seq<Field>, blank: string, inner: string)
    requires inner == FieldsText(fields)
    ensures DocText(Obj(fields, blank)) == ['{'] + (if fields == [] then blank else inner) + ['}']
  {
  }

  lemma ObjPrint(ms: seq<Member>, depth: nat, fmt: bool, inside: string)
    requires inside == PrintMembers(ms, depth + 1, fmt)
    ensures Print(Object(ms), depth, fmt) == OpenOf(fmt) + inside + Close(fmt, depth) + ['}'] &&
      (ms == [] ==> inside == [])
  {
  }

  lemma Braces(open: string, inner: string, blank: string, a: string, b: string, c: string, empty: bool)
    requires open == ['{'] + a && blank == a + c && if empty then b == [] else inner == a + b + c
    ensures ['{'] + (if empty then blank else inner) + ['}'] == open + b + c + ['}']
  {
  }

  lemma Assoc(a: string, b: string, c: string)
    ensures a + b + c == a + (b + c)
  {
  }

  ghost function Line(fmt: bool): string { if fmt then ['\n'] else [] }

  ghost function Close(fmt: bool, depth: nat): string { if fmt then Tabs(depth) else [] }

  lemma {:induction false} ItemsOfIs(es: seq<Value>, depth: nat, fmt: bool, first: bool)
    requires forall e :: e in es ==> Printable(e)
    ensures var items := ItemsOf(es, depth, fmt, first);
      (items == [] <==> es == []) && ItemsOk(items) && Elements(items) == es &&
      ItemsText(items) == (if fmt && !first && es != [] then [' '] else []) + PrintElems(es, depth, fmt)
    decreases es, 1
  {
    if es != [] {
      var gap := if fmt && !first then [' '] else [];
      var it, more := Item(gap, DocOf(es[0], depth, fmt), []), ItemsOf(es[1..], depth, fmt, false);
      DocOfIs(es[0], depth, fmt);
      ItemsOfIs(es[1..], depth, fmt, false);
      ItemsMore(it, more);
      ElemsText(es, depth, fmt, gap, ItemText(it));
    }
  }

  lemma ElemsText(es: seq<Value>, depth: nat, fmt: bool, gap: string, text: string)
    requires es != [] && text == gap + (Print(es[0], depth, fmt) + [])
    ensures gap + PrintElems(es, depth, fmt) ==
      text + if |es| == 1 then [] else [','] + ((if fmt then [' '] else []) + PrintElems(es[1..], depth, fmt))
  {
    var p, more, blank := Print(es[0], depth, fmt), PrintElems(es[1..], depth, fmt), if fmt then [' '] else [];
    assert p + [] == p && Comma(fmt) == [','] + blank;
    if |es| > 1 { CommaText(gap, p, blank, more); } else { assert p + [] == p && gap + p + [] == gap + p; }
  }

  lemma CommaText(gap: string, p: string, blank: string, more: string)
    ensures gap + (p + ([','] + blank + more)) == gap + p + ([','] + (blank + more))
  {
  }

  lemma {:induction false} FieldsOfIs(ms: seq<Member>, depth: nat, fmt: bool)
    requires depth > 0 && forall m :: m in ms ==> NulFree(m.name) && Printable(m.value)
    ensures var fields := FieldsOf(ms, depth, fmt);
      (fields == [] <==> ms == []) && FieldsOk(fields) && Members(fields) == ms &&
      FieldsText(fields) == if ms == [] then [] else Line(fmt) + PrintMembers(ms, depth, fmt) + Close(fmt, depth - 1)
    decreases ms, 1
  {
    if ms != [] {
      var m, after := ms[0], if |ms| == 1 then Newline(fmt, depth - 1) else [];
      var f := Field(Newline(fmt, depth), PiecesOf(m.name), [], if fmt then ['\t'] else [], DocOf(m.value, depth, fmt),
        after);
      var more := FieldsOf(ms[1..], depth, fmt);
      DocOfIs(m.value, depth, fmt);
      FieldOfIs(f, m, depth, fmt, after);
      FieldsOfIs(ms[1..], depth, fmt);
      FieldsMore(f, more);
      MembersText(ms, depth, fmt, FieldText(f));
      assert FieldsOf(ms, depth, fmt) == [f] + more && [m] + ms[1..] == ms;
    }
  }

  lemma FieldOfIs(f: Field, m: Member, depth: nat, fmt: bool, after: string)
    requires f == Field(Newline(fmt, depth), PiecesOf(m.name), [], if fmt then ['\t']
      else [], DocOf(m.value, depth, fmt), after)
    requires DocOk(f.doc) && Meaning(f.doc) == m.value && DocText(f.doc) == Print(m.value, depth, fmt) &&
      NulFree(m.name)
    requires after == [] || (depth > 0 && after == Newline(fmt, depth - 1))
    ensures FieldOk(f) && MemberOf(f) == m && FieldText(f) == Line(fmt) + PrintMember(m, depth, fmt) + after
  {
    NewlineBlank(fmt, depth);
    if depth > 0 { NewlineBlank(fmt, depth - 1); }
    EscapeSpells(m.name);
    MemberText(f, m, depth, fmt, after);
  }

  /** One member: the line and its tabs, the name, the colon, the value. */
  lemma MemberText(f: Field, m: Member, depth: nat, fmt: bool, after: string)
    requires f == Field(Newline(fmt, depth), PiecesOf(m.name), [], if fmt then ['\t']
      else [], DocOf(m.value, depth, fmt), after)
    requires PiecesText(f.name) == Escape(m.name) && DocText(f.doc) == Print(m.value, depth, fmt)
    ensures FieldText(f) == Line(fmt) + PrintMember(m, depth, fmt) + after
  {
    var tabs, gap, value := if fmt then Tabs(depth) else [], if fmt then ['\t'] else [], Print(m.value, depth, fmt);
    assert Quoted(f.name) == Quote(m.name);
    assert Newline(fmt, depth) == Line(fmt) + tabs;
    assert (if fmt then [':', '\t'] else [':']) == [':'] + gap;
    SixParts(Line(fmt), tabs, Quote(m.name), [':'], gap, value, after);
  }

  lemma SixParts(a: string, b: string, c: string, d: string, e: string, f: string, g: string)
    ensures (a + b) + (c + ([] + (d + (e + (f + g))))) == a + (b + c + (d + e) + f) + g
  {
    assert [] + (d + (e + (f + g))) == d + (e + (f + g));
  }

  lemma MembersText(ms: seq<Member>, depth: nat, fmt: bool, text: string)
    requires ms != [] && depth > 0
    requires text == Line(fmt) + PrintMember(ms[0], depth, fmt) + if |ms| == 1 then Newline(fmt, depth - 1) else []
    ensures Line(fmt) + PrintMembers(ms, depth, fmt) + Close(fmt, depth - 1) ==
      text + if |ms| == 1 then [] else [','] + (Line(fmt) + PrintMembers(ms[1..], depth, fmt) + Close(fmt, depth - 1))
  {
    var p, more, end := PrintMember(ms[0], depth, fmt), PrintMembers(ms[1..], depth, fmt), Close(fmt, depth - 1);
    if |ms| == 1 {
      assert more == [] && Newline(fmt, depth - 1) == Line(fmt) + end;
      LastText(Line(fmt), p, Line(fmt), end);
    } else {
      NextText(Line(fmt), p, Line(fmt), more, end);
    }
  }

  lemma LastText(a: string, p: string, b: string, end: string)
    ensures a + (p + [] + b + []) + end == a + p + (b + end) + []
  {
  }

  lemma NextText(a: string, p: string, b: string, more: string, end: string)
    ensures a + (p + [','] + b + more) + end == a + p + [] + ([','] + (b + more + end))
  {
  }

  /** Reading undoes printing, for every printable value at every depth in both formats. */
  lemma PrintRead(v: Value, depth: nat, fmt: bool, rest: string)
    requires Printable(v) && Ends(rest)
    ensures ReadValue(Print(v, depth, fmt) + rest) == Parsed(v, rest)
  {
    DocOfIs(v, depth, fmt);
    DocReads(DocOf(v, depth, fmt), rest);
  }

  /** cJSON_Parse of cJSON_Print, or of cJSON_PrintUnformatted, is the value printed. */
  lemma RoundTrip(v: Value, fmt: bool)
    requires Printable(v)
    ensures Read(Print(v, 0, fmt)) == Parsed(v, [])
  {
    var t := Print(v, 0, fmt);
    DocOfIs(v, 0, fmt);
    FirstChar(DocOf(v, 0, fmt));
    assert Skip(t) == t && t + [] == t;
    PrintRead(v, 0, fmt, []);
  }

  /** A printed string reads back, whatever follows. */
  lemma QuoteRead(s: string, rest: string)
    requires NulFree(s)
    ensures ReadString(Quote(s) + rest) == Parsed(s, rest)
  {
    EscapeSpells(s);
    LiteralReads(Escape(s), s, rest);
  }

  // ----- surrogate pairs

  /** Section 2.2 of RFC 2781: the code point is the two ten-bit halves plus 0x10000. */
  function Rfc2781(hi: nat, lo: nat): int { (hi - 0xD800) * 0x400 + (lo - 0xDC00) + 0x10000 }

  /** Or-ing instead of adding is right exactly when bit 16 of the twenty-bit offset is clear. */
  lemma CombinedWhenRight(hi: nat, lo: nat)
    requires HighSurrogate(hi) && LowSurrogate(lo)
    ensures Combined(hi, lo) == Rfc2781(hi, lo) <==> (hi / 0x40) % 2 == 0
  {
    var h, l := hi - 0xD800, lo - 0xDC00;
    assert hi % 0x400 == h && lo % 0x400 == l;
    HalfBit(h, l);
    assert hi / 0x40 == h / 0x40 + 0x360;
  }

  lemma HalfBit(h: nat, l: nat)
    requires h < 0x400 && l < 0x400
    ensures (h * 0x400 + l) / 0x10000 == h / 0x40
  {
  }

  /** The first pair it gets wrong, U+20000. */
  lemma CombinedWrong()
    ensures Combined(0xD840, 0xDC00) == 0x1_0000 && Rfc2781(0xD840, 0xDC00) == 0x2_0000
  {
  }
}
