/** The printing half of cJSON.c: each text is written into a buffer whose length was
    computed beforehand. Every write is inside its buffer, terminators included. */
module JsonPrinter {
  import opened Chars
  import opened JsonText

  /** The buffer holds the C string s. */
  ghost predicate Holds(a: array<char>, s: string)
    reads a
  {
    |s| < a.Length && a[..|s|] == s && a[|s|] == '\0'
  }

  /** The text d has been written up to at. */
  ghost predicate Written(out: array<char>, at: nat, d: string)
    reads out
  {
    at == |d| <= out.Length && out[..at] == d
  }

  /** *ptr++ = c */
  method PutC(out: array<char>, at: nat, c: char, ghost d: string) returns (ptr: nat)
    requires Written(out, at, d) == true && at < out.Length
    modifies out
    ensures ptr == at + 1 && Written(out, ptr, d + [c]) == true
  {
    out[at] := c;
    ptr := at + 1;
  }

  /** strcpy(ptr, s) of a constant, and the writing part of sprintf; the pointer moves behind it. */
  method PutS(out: array<char>, at: nat, s: string, ghost d: string) returns (ptr: nat)
    requires Written(out, at, d) == true && at + |s| < out.Length
    modifies out
    ensures ptr == at + |s| && Written(out, ptr, d + s) == true
  {
    ptr := at;
    var i := 0;
    assert d + s[..0] == d;
    while i < |s|
      invariant i <= |s| && ptr == at + i && Written(out, ptr, d + s[..i]) == true
    {
      assert d + s[..i] + [s[i]] == d + s[..i + 1];
      ptr := PutC(out, ptr, s[i], d + s[..i]);
      i := i + 1;
    }
    assert s[..i] == s;
    Terminate(out, ptr, d + s);
  }

  /** *ptr = 0 */
  method Terminate(out: array<char>, at: nat, ghost d: string)
    requires Written(out, at, d) == true && at < out.Length
    modifies out
    ensures Written(out, at, d) == true && Holds(out, d) == true
  {
    out[at] := '\0';
  }

  /** strlen */
  method Strlen(a: array<char>, ghost s: string) returns (n: nat)
    requires Holds(a, s) && NulFree(s)
    ensures n == |s|
  {
    n := 0;
    assert forall i :: 0 <= i < |s| ==> a[i] == a[..|s|][i];
    while a[n] != '\0'
      invariant n <= |s|
      decreases |s| - n
    {
      n := n + 1;
    }
  }

  // ----- no zero byte is printed

  lemma {:induction false} EscapeNulFree(s: string)
    requires NulFree(s)
    ensures NulFree(Escape(s))
  {
    if s != [] { EscapeNulFree(s[1..]); }
  }

  lemma QuoteNulFree(s: string)
    requires NulFree(s)
    ensures NulFree(Quote(s))
  {
    EscapeNulFree(s);
  }

  lemma {:induction false} DecimalNulFree(n: nat)
    ensures NulFree(Decimal(n))
  {
    if n >= 10 { DecimalNulFree(n / 10); }
  }

  lemma {:induction false} PrintNulFree(v: Value, depth: nat, fmt: bool)
    requires Printable(v)
    ensures NulFree(Print(v, depth, fmt))
    decreases v, 0
  {
    match v
    case Number(d) => DecimalNulFree(if d.Floor < 0 then -d.Floor else d.Floor);
    case String(s) => QuoteNulFree(s);
    case Array(es) => ElemsNulFree(es, depth + 1, fmt);
    case Object(ms) =>
      MembersNulFree(ms, depth + 1, fmt);
      TabsNulFree(depth);
    case _ =>
  }

  lemma {:induction false} TabsNulFree(n: nat)
    ensures NulFree(Tabs(n)) && |Tabs(n)| == n
  {
    if n > 0 { TabsNulFree(n - 1); }
  }

  lemma {:induction false} ElemsNulFree(es: seq<Value>, depth: nat, fmt: bool)
    requires forall e :: e in es ==> Printable(e)
    ensures NulFree(PrintElems(es, depth, fmt))
    decreases es, 1
  {
    if es != [] {
      PrintNulFree(es[0], depth, fmt);
      ElemsNulFree(es[1..], depth, fmt);
    }
  }

  lemma {:induction false} MemberNulFree(m: Member, depth: nat, fmt: bool)
    requires NulFree(m.name) && Printable(m.value)
    ensures NulFree(PrintMember(m, depth, fmt))
    decreases m, 1
  {
    TabsNulFree(depth);
    QuoteNulFree(m.name);
    PrintNulFree(m.value, depth, fmt);
  }

  lemma {:induction false} MembersNulFree(ms: seq<Member>, depth: nat, fmt: bool)
    requires forall m :: m in ms ==> NulFree(m.name) && Printable(m.value)
    ensures NulFree(PrintMembers(ms, depth, fmt))
    decreases ms, 2
  {
    if ms != [] {
      MemberNulFree(ms[0], depth, fmt);
      MembersNulFree(ms[1..], depth, fmt);
    }
  }

  // ----- strings

  lemma {:induction false} EscapeAppend(s: string, c: char)
    ensures Escape(s + [c]) == Escape(s) + EscapeChar(c)
  {
    if s == [] {
      assert [c][1..] == [] && [] + [c] == [c];
    } else {
      assert (s + [c])[1..] == s[1..] + [c];
      EscapeAppend(s[1..], c);
    }
  }

  lemma EscapeTaken(s: string, i: nat)
    requires i < |s|
    ensures Escape(s[..i + 1]) == Escape(s[..i]) + EscapeChar(s[i])
  {
    assert s[..i + 1] == s[..i] + [s[i]];
    EscapeAppend(s[..i], s[i]);
  }

  lemma {:induction false} EscapeGrows(s: string, i: nat)
    requires i <= |s|
    ensures |Escape(s[..i])| <= |Escape(s)|
    decreases |s| - i
  {
    if i == |s| {
      assert s[..i] == s;
    } else {
      EscapeTaken(s, i);
      EscapeGrows(s, i + 1);
    }
  }

  /** The first loop of print_string_ptr: the length of the escaped text. */
  method EscapedLength(str: string) returns (len: nat)
    ensures len == |Escape(str)|
  {
    len := 0;
    var ptr := 0;
    while ptr < |str|
      invariant ptr <= |str| && len == |Escape(str[..ptr])|
    {
      EscapeTaken(str, ptr);
      var token := str[ptr];
      len := len + 1;
      if Named(token) {
        len := len + 1;
      } else if token < ' ' {
        len := len + 5;
      }
      ptr := ptr + 1;
    }
    assert str[..ptr] == str;
  }

  /** print_string_ptr */
  method PrintString(str: string) returns (out: array<char>)
    ensures fresh(out) && Holds(out, Quote(str)) == true
  {
    var len := EscapedLength(str);
    out := new char[len + 3];
    var ptr, ptr2 := 0, 0;
    ptr2 := PutC(out, ptr2, QUOTE, []);
    assert [] + [QUOTE] == [QUOTE] + Escape(str[..0]);
    while ptr < |str|
      invariant ptr <= |str| && |Escape(str[..ptr])| <= len
      invariant Written(out, ptr2, [QUOTE] + Escape(str[..ptr])) == true && ptr2 == 1 + |Escape(str[..ptr])|
    {
      EscapeTaken(str, ptr);
      EscapeGrows(str, ptr + 1);
      Join([QUOTE], Escape(str[..ptr]), EscapeChar(str[ptr]));
      ptr2 := PutEscaped(out, ptr2, str[ptr], [QUOTE] + Escape(str[..ptr]));
      ptr := ptr + 1;
    }
    assert str[..ptr] == str;
    ptr2 := PutC(out, ptr2, QUOTE, [QUOTE] + Escape(str));
    Terminate(out, ptr2, Quote(str));
  }

  lemma Join(a: string, b: string, c: string)
    ensures a + (b + c) == a + b + c
  {
  }

  /** One character of the text, escaped if need be. */
  method PutEscaped(out: array<char>, at: nat, c: char, ghost d: string) returns (ptr2: nat)
    requires Written(out, at, d) == true && at + |EscapeChar(c)| < out.Length
    modifies out
    ensures ptr2 == at + |EscapeChar(c)| && Written(out, ptr2, d + EscapeChar(c)) == true
  {
    ptr2 := at;
    if c >= ' ' && c != QUOTE && c != BACKSLASH {
      ptr2 := PutC(out, ptr2, c, d);
    } else {
      ptr2 := PutC(out, ptr2, BACKSLASH, d);
      if Named(c) {
        Join(d, [BACKSLASH], [Letter(c)]);
        ptr2 := PutC(out, ptr2, Letter(c), d + [BACKSLASH]);
      } else {
        Join(d, [BACKSLASH], ['u'] + Hex4(c as int));
        assert [BACKSLASH] + (['u'] + Hex4(c as int)) == EscapeChar(c);
        ptr2 := PutS(out, ptr2, ['u'] + Hex4(c as int), d + [BACKSLASH]);
      }
    }
  }

  // ----- numbers

  lemma {:induction false} DecimalShort(n: nat, k: nat)
    requires k > 0 && n < Ten(k)
    ensures |Decimal(n)| <= k
  {
    if n >= 10 { DecimalShort(n / 10, k - 1); }
  }

  function Ten(k: nat): nat { if k == 0 then 1 else 10 * Ten(k - 1) }

  /** print_number, for an int: the fixed buffer of 21 bytes is large enough. */
  method PrintNumber(d: real) returns (out: array<char>)
    requires Printable(Number(d))
    ensures fresh(out) && Holds(out, Signed(d.Floor)) == true
  {
    out := new char[21];
    TenOfTen();
    DecimalShort(if d.Floor < 0 then -d.Floor else d.Floor, 10);
    var ptr := PutS(out, 0, Signed(d.Floor), []);
    assert [] + Signed(d.Floor) == Signed(d.Floor);
    Terminate(out, ptr, Signed(d.Floor));
  }

  lemma TenOfTen()
    ensures Ten(10) == 10_000_000_000
  {
    assert Ten(4) == 10_000 && Ten(8) == 10_000 * Ten(4);
  }

  // ----- arrays

  /** The first i entries as the loop of print_array has written them. */
  ghost function ElemsDone(es: seq<Value>, i: nat, depth: nat, fmt: bool): string
    requires i <= |es|
  {
    if i == 0 then []
    else ElemsDone(es, i - 1, depth, fmt) + Print(es[i - 1], depth, fmt) + if i == |es| then [] else Comma(fmt)
  }

  lemma {:induction false} ElemsSoFar(es: seq<Value>, i: nat, depth: nat, fmt: bool)
    requires i <= |es|
    ensures ElemsDone(es, i, depth, fmt) + PrintElems(es[i..], depth, fmt) == PrintElems(es, depth, fmt)
  {
    if i == 0 {
      assert es[0..] == es;
    } else {
      ElemsSoFar(es, i - 1, depth, fmt);
      var rest := es[i - 1..];
      assert rest[0] == es[i - 1] && rest[1..] == es[i..];
      Shift(ElemsDone(es, i - 1, depth, fmt), Print(es[i - 1], depth, fmt), if i == |es| then [] else Comma(fmt),
        PrintElems(es[i..], depth, fmt));
    }
  }

  lemma Shift(a: string, b: string, c: string, d: string)
    ensures (a + b + c) + d == a + (b + (c + d))
  {
  }

  /** What print_array adds to its length for the first i entries. */
  ghost function ElemsLength(es: seq<Value>, i: nat, depth: nat, fmt: bool): nat
    requires i <= |es|
  {
    if i == 0 then 0 else ElemsLength(es, i - 1, depth, fmt) + |Print(es[i - 1], depth, fmt)| + 2 + if fmt then 1 else 0
  }

  lemma {:induction false} ElemsFit(es: seq<Value>, i: nat, depth: nat, fmt: bool)
    requires i <= |es|
    ensures |ElemsDone(es, i, depth, fmt)| + i <= ElemsLength(es, i, depth, fmt) <= ElemsLength(es, |es|, depth, fmt)
    decreases |es| - i
  {
    ElemsShort(es, i, depth, fmt);
    if i < |es| { ElemsFit(es, i + 1, depth, fmt); }
  }

  lemma {:induction false} ElemsShort(es: seq<Value>, i: nat, depth: nat, fmt: bool)
    requires i <= |es|
    ensures |ElemsDone(es, i, depth, fmt)| + i <= ElemsLength(es, i, depth, fmt)
  {
    if i > 0 { ElemsShort(es, i - 1, depth, fmt); }
  }

  /** The entries are the printed elements. */
  ghost predicate EntriesOf(entries: seq<string>, es: seq<Value>, depth: nat, fmt: bool) {
    |entries| <= |es| && forall k :: 0 <= k < |entries| ==> entries[k] == Print(es[k], depth, fmt)
  }

  /** print_array */
  method PrintArray(es: seq<Value>, depth: nat, fmt: bool) returns (out: array<char>)
    requires Printable(Array(es))
    ensures fresh(out) && Holds(out, Print(Array(es), depth, fmt)) == true
    decreases es, 1
  {
    var entries, len := CollectElems(es, depth + 1, fmt);
    out := new char[len];
    var ptr := PutC(out, 0, '[', []);
    Terminate(out, ptr, [] + ['[']);
    ptr := PutElems(out, ptr, entries, es, depth + 1, fmt, [] + ['[']);
    ptr := PutC(out, ptr, ']', [] + ['['] + PrintElems(es, depth + 1, fmt));
    assert [] + ['['] == ['['];
    Terminate(out, ptr, Print(Array(es), depth, fmt));
  }

  /** The collecting loop of print_array, with the length it adds up. */
  method CollectElems(es: seq<Value>, depth: nat, fmt: bool) returns (entries: seq<string>, len: nat)
    requires Printable(Array(es)) == true
    ensures |entries| == |es| && EntriesOf(entries, es, depth, fmt) == true &&
      len == 5 + ElemsLength(es, |es|, depth, fmt)
    decreases es, 0
  {
    len := 5;
    entries := [];
    var i := 0;
    while i < |es|
      invariant i <= |es| && |entries| == i && len == 5 + ElemsLength(es, i, depth, fmt)
      invariant EntriesOf(entries, es, depth, fmt) == true
    {
      PrintableElem(es, i);
      var ret := PrintEntry(es[i], depth, fmt);
      entries := entries + [ret];
      len := len + |ret| + 2 + if fmt then 1 else 0;
      i := i + 1;
    }
  }

  lemma PrintableElem(es: seq<Value>, i: nat)
    requires Printable(Array(es)) && i < |es|
    ensures Printable(es[i]) == true && es[i] in es
  {
    assert es[i] in es;
  }

  /** print_value of a child: the text up to the terminator that strlen finds. */
  method PrintEntry(v: Value, depth: nat, fmt: bool) returns (text: string)
    requires Printable(v) == true
    ensures text == Print(v, depth, fmt)
    decreases v, 1
  {
    var ret := PrintValue(v, depth, fmt);
    PrintNulFree(v, depth, fmt);
    var n := Strlen(ret, Print(v, depth, fmt));
    text := ret[..n];
  }

  /** The composing loop of print_array. */
  method PutElems(out: array<char>, at: nat, entries: seq<string>, ghost es: seq<Value>, ghost depth: nat, fmt: bool,
        ghost d: string)
    returns (ptr: nat)
    requires EntriesOf(entries, es, depth, fmt) == true && |entries| == |es|
    requires Written(out, at, d) == true && at + ElemsLength(es, |es|, depth, fmt) + 2 <= out.Length
    modifies out
    ensures ptr + 2 <= out.Length && Written(out, ptr, d + PrintElems(es, depth, fmt)) == true
  {
    ptr := at;
    var i := 0;
    assert d + [] == d;
    while i < |entries|
      invariant i <= |es| && ptr == at + |ElemsDone(es, i, depth, fmt)| && ptr + 2 <= out.Length
      invariant Written(out, ptr, d + ElemsDone(es, i, depth, fmt)) == true
    {
      ElemsFit(es, i + 1, depth, fmt);
      ElemsNext(es, i, depth, fmt, d);
      EntryAt(entries, es, depth, fmt, i);
      ghost var done := d + ElemsDone(es, i, depth, fmt);
      ptr := PutS(out, ptr, entries[i], done);
      if i != |entries| - 1 {
        ptr := PutS(out, ptr, Comma(fmt), done + entries[i]);
      }
      i := i + 1;
    }
    ElemsAll(es, depth, fmt);
  }

  lemma EntryAt(entries: seq<string>, es: seq<Value>, depth: nat, fmt: bool, i: nat)
    requires EntriesOf(entries, es, depth, fmt) && i < |entries|
    ensures entries[i] == Print(es[i], depth, fmt)
  {
  }

  lemma ElemsNext(es: seq<Value>, i: nat, depth: nat, fmt: bool, d: string)
    requires i < |es|
    ensures d + ElemsDone(es, i + 1, depth, fmt) ==
      d + ElemsDone(es, i, depth, fmt) + Print(es[i], depth, fmt) + if i + 1 == |es| then [] else Comma(fmt)
    ensures i + 1 == |es| ==>
      d + ElemsDone(es, i + 1, depth, fmt) == d + ElemsDone(es, i, depth, fmt) + Print(es[i], depth, fmt)
  {
    Prefixed(d, ElemsDone(es, i, depth, fmt), Print(es[i], depth, fmt), if i + 1 == |es| then [] else Comma(fmt));
  }

  lemma Prefixed(d: string, e: string, p: string, c: string)
    ensures d + (e + p + c) == d + e + p + c && (c == [] ==> d + (e + p + c) == d + e + p)
  {
  }

  lemma ElemsAll(es: seq<Value>, depth: nat, fmt: bool)
    ensures ElemsDone(es, |es|, depth, fmt) == PrintElems(es, depth, fmt)
  {
    ElemsSoFar(es, |es|, depth, fmt);
    assert es[|es|..] == [] && ElemsDone(es, |es|, depth, fmt) + [] == ElemsDone(es, |es|, depth, fmt);
  }

  // ----- values

  /** cJSON_strdup */
  method Strdup(s: string) returns (out: array<char>)
    ensures fresh(out) && Holds(out, s) == true
  {
    out := new char[|s| + 1];
    var ptr := PutS(out, 0, s, []);
    assert [] + s == s;
    Terminate(out, ptr, s);
  }

  /** print_value */
  method PrintValue(v: Value, depth: nat, fmt: bool) returns (out: array<char>)
    requires Printable(v)
    ensures fresh(out) && Holds(out, Print(v, depth, fmt)) == true
    decreases v, 0
  {
    match v
    case Null => out := Strdup("null");
    case False => out := Strdup("false");
    case True => out := Strdup("true");
    case Number(d) => out := PrintNumber(d);
    case String(s) => out := PrintString(s);
    case Array(es) => out := PrintArray(es, depth, fmt);
    case Object(ms) => out := PrintObject(ms, depth, fmt);
  }

  // ----- objects

  ghost function MembersDone(ms: seq<Member>, i: nat, depth: nat, fmt: bool): string
    requires i <= |ms|
  {
    if i == 0 then []
    else
      MembersDone(ms, i - 1, depth, fmt) + PrintMember(ms[i - 1], depth, fmt) + (if i == |ms| then [] else [',']) +
      (if fmt then ['\n'] else [])
  }

  lemma {:induction false} MembersSoFar(ms: seq<Member>, i: nat, depth: nat, fmt: bool)
    requires i <= |ms|
    ensures MembersDone(ms, i, depth, fmt) + PrintMembers(ms[i..], depth, fmt) == PrintMembers(ms, depth, fmt)
  {
    if i == 0 {
      assert ms[0..] == ms;
    } else {
      MembersSoFar(ms, i - 1, depth, fmt);
      var rest := ms[i - 1..];
      assert rest[0] == ms[i - 1] && rest[1..] == ms[i..];
      Shift4(MembersDone(ms, i - 1, depth, fmt), PrintMember(ms[i - 1], depth, fmt), if i == |ms| then [] else [','],
             if fmt then ['\n'] else [], PrintMembers(ms[i..], depth, fmt));
    }
  }

  lemma Shift4(a: string, b: string, c: string, d: string, e: string)
    ensures (a + b + c + d) + e == a + (b + c + d + e)
  {
  }

  /** What print_object adds to its length for a member; depth is already one more. */
  ghost function MemberLength(m: Member, depth: nat, fmt: bool): nat {
    |Print(m.value, depth, fmt)| + |Quote(m.name)| + 2 + if fmt then 2 + depth else 0
  }

  ghost function MembersLength(ms: seq<Member>, i: nat, depth: nat, fmt: bool): nat
    requires i <= |ms|
  {
    if i == 0 then 0 else MembersLength(ms, i - 1, depth, fmt) + MemberLength(ms[i - 1], depth, fmt)
  }

  lemma {:induction false} MembersFit(ms: seq<Member>, i: nat, depth: nat, fmt: bool)
    requires i <= |ms|
    ensures |MembersDone(ms, i, depth, fmt)| <= MembersLength(ms, i, depth, fmt) <= MembersLength(ms, |ms|, depth, fmt)
    decreases |ms| - i
  {
    MembersShort(ms, i, depth, fmt);
    if i < |ms| { MembersFit(ms, i + 1, depth, fmt); }
  }

  lemma {:induction false} MembersShort(ms: seq<Member>, i: nat, depth: nat, fmt: bool)
    requires i <= |ms|
    ensures |MembersDone(ms, i, depth, fmt)| <= MembersLength(ms, i, depth, fmt)
  {
    TabsNulFree(depth);
    if i > 0 { MembersShort(ms, i - 1, depth, fmt); }
  }

  /** The printed names and values of the members. */
  ghost predicate PairsOf(names: seq<string>, entries: seq<string>, ms: seq<Member>, depth: nat, fmt: bool) {
    |names| == |entries| <= |ms| &&
    forall k :: 0 <= k < |names| ==> names[k] == Quote(ms[k].name) && entries[k] == Print(ms[k].value, depth, fmt)
  }

  /** print_object */
  method PrintObject(ms: seq<Member>, depth0: nat, fmt: bool) returns (out: array<char>)
    requires Printable(Object(ms))
    ensures fresh(out) && Holds(out, Print(Object(ms), depth0, fmt)) == true
    decreases ms, 1
  {
    var depth := depth0 + 1;
    var names, entries, len := CollectMembers(ms, depth, fmt);
    out := new char[len];
    var ptr := PutOpening(out, fmt);
    ghost var d := if fmt then ['{', '\n'] else ['{'];
    ptr := PutMembers(out, ptr, names, entries, ms, depth, fmt, d);
    PutClosing(out, ptr, depth0, fmt, d + PrintMembers(ms, depth, fmt));
  }

  method PutOpening(out: array<char>, fmt: bool) returns (ptr: nat)
    requires out.Length > 2
    modifies out
    ensures Written(out, ptr, if fmt then ['{', '\n'] else ['{']) == true && ptr <= 2
  {
    ptr := PutC(out, 0, '{', []);
    if fmt {
      ptr := PutC(out, ptr, '\n', [] + ['{']);
    }
    assert [] + ['{'] == ['{'] && ['{'] + ['\n'] == ['{', '\n'];
    Terminate(out, ptr, if fmt then ['{', '\n'] else ['{']);
  }

  method PutClosing(out: array<char>, at: nat, depth0: nat, fmt: bool, ghost d: string)
    requires Written(out, at, d) == true && at + (if fmt then depth0 else 0) + 2 <= out.Length
    modifies out
    ensures Holds(out, d + (if fmt then Tabs(depth0) else []) + ['}']) == true
  {
    var ptr := at;
    if fmt {
      ptr := PutTabs(out, ptr, depth0, d);
    }
    ghost var e := d + if fmt then Tabs(depth0) else [];
    assert d + [] == d;
    ptr := PutC(out, ptr, '}', e);
    Terminate(out, ptr, e + ['}']);
  }

  /** The collecting loop of print_object, with the length it adds up. */
  method CollectMembers(ms: seq<Member>, depth: nat, fmt: bool) returns (names: seq<string>, entries: seq<string>,
        len: nat)
    requires Printable(Object(ms)) == true
    ensures |names| == |ms| && PairsOf(names, entries, ms, depth, fmt) == true
    ensures len == 7 + (if fmt then depth else 0) + MembersLength(ms, |ms|, depth, fmt)
    decreases ms, 0
  {
    len := 7;
    if fmt {
      len := len + depth;
    }
    names, entries := [], [];
    var i := 0;
    while i < |ms|
      invariant i <= |ms| && |names| == i && PairsOf(names, entries, ms, depth, fmt) == true
      invariant len == 7 + (if fmt then depth else 0) + MembersLength(ms, i, depth, fmt)
    {
      PrintableAt(ms, i);
      var str := PrintName(ms[i].name);
      var ret := PrintEntry(ms[i].value, depth, fmt);
      PairsMore(names, entries, ms, depth, fmt);
      names, entries := names + [str], entries + [ret];
      len := len + |ret| + |str| + 2 + if fmt then 2 + depth else 0;
      i := i + 1;
    }
  }

  lemma PairsMore(names: seq<string>, entries: seq<string>, ms: seq<Member>, depth: nat, fmt: bool)
    requires PairsOf(names, entries, ms, depth, fmt) && |names| < |ms|
    ensures var m := ms[|names|];
      PairsOf(names + [Quote(m.name)], entries + [Print(m.value, depth, fmt)], ms, depth, fmt) == true &&
      MembersLength(ms, |names| + 1, depth, fmt) == MembersLength(ms, |names|, depth, fmt) + MemberLength(m, depth, fmt)
  {
  }

  lemma PrintableAt(ms: seq<Member>, i: nat)
    requires Printable(Object(ms)) && i < |ms|
    ensures NulFree(ms[i].name) && Printable(ms[i].value) == true
  {
    assert ms[i] in ms;
  }

  /** print_string_ptr of a name: the text up to the terminator that strlen finds. */
  method PrintName(name: string) returns (text: string)
    requires NulFree(name)
    ensures text == Quote(name)
  {
    var str := PrintString(name);
    QuoteNulFree(name);
    var n := Strlen(str, Quote(name));
    text := str[..n];
  }

  method PutTabs(out: array<char>, at: nat, n: nat, ghost d: string) returns (ptr: nat)
    requires Written(out, at, d) == true && at + n <= out.Length
    modifies out
    ensures ptr == at + n && Written(out, ptr, d + Tabs(n)) == true
  {
    ptr := at;
    var j := 0;
    assert d + [] == d;
    while j < n
      invariant j <= n && ptr == at + j && Written(out, ptr, d + Tabs(j)) == true
    {
      Join(d, Tabs(j), ['\t']);
      ptr := PutC(out, ptr, '\t', d + Tabs(j));
      j := j + 1;
    }
  }

  /** The composing loop of print_object. */
  method PutMembers(out: array<char>, at: nat, names: seq<string>, entries: seq<string>, ghost ms: seq<Member>,
        depth: nat, fmt: bool, ghost d: string) returns (ptr: nat)
    requires |names| == |ms| && PairsOf(names, entries, ms, depth, fmt) == true && Written(out, at, d) == true
    requires at + MembersLength(ms, |ms|, depth, fmt) + (if fmt then depth else 0) + 2 <= out.Length
    modifies out
    ensures ptr + (if fmt then depth else 0) + 2 <= out.Length &&
      Written(out, ptr, d + PrintMembers(ms, depth, fmt)) == true
  {
    ptr := at;
    var i := 0;
    assert d + [] == d;
    while i < |names|
      invariant i <= |ms| && ptr == at + |MembersDone(ms, i, depth, fmt)|
      invariant Written(out, ptr, d + MembersDone(ms, i, depth, fmt)) == true
    {
      PairAt(names, entries, ms, depth, fmt, i);
      ptr := PutNext(out, at, ptr, names[i], entries[i], ms, i, i != |names| - 1, depth, fmt, d);
      i := i + 1;
    }
    MembersFit(ms, |ms|, depth, fmt);
    MembersAll(ms, depth, fmt);
  }

  /** Member i behind those before it. */
  method PutNext(out: array<char>, ghost at: nat, pos: nat, name: string, entry: string, ghost ms: seq<Member>,
        ghost i: nat, more: bool, depth: nat, fmt: bool, ghost d: string) returns (ptr: nat)
    requires i < |ms| && name == Quote(ms[i].name) && entry == Print(ms[i].value, depth, fmt) && more == (i != |ms| - 1)
    requires pos == at + |MembersDone(ms, i, depth, fmt)| && at + MembersLength(ms, |ms|, depth, fmt) + 2 <= out.Length
    requires Written(out, pos, d + MembersDone(ms, i, depth, fmt)) == true
    modifies out
    ensures ptr == at + |MembersDone(ms, i + 1, depth, fmt)|
    ensures Written(out, ptr, d + MembersDone(ms, i + 1, depth, fmt)) == true
  {
    MembersNext(ms, i, depth, fmt, d);
    ptr := PutLine(out, pos, name, entry, ms[i], more, depth, fmt, d + MembersDone(ms, i, depth, fmt));
  }

  lemma PairAt(names: seq<string>, entries: seq<string>, ms: seq<Member>, depth: nat, fmt: bool, i: nat)
    requires PairsOf(names, entries, ms, depth, fmt) && i < |names|
    ensures names[i] == Quote(ms[i].name) && entries[i] == Print(ms[i].value, depth, fmt)
  {
  }

  lemma MembersNext(ms: seq<Member>, i: nat, depth: nat, fmt: bool, d: string)
    requires i < |ms|
    ensures d + MembersDone(ms, i + 1, depth, fmt) ==
      d + MembersDone(ms, i, depth, fmt) + (PrintMember(ms[i], depth, fmt) + Separators(i != |ms| - 1, fmt))
    ensures |MembersDone(ms, i + 1, depth, fmt)| ==
      |MembersDone(ms, i, depth, fmt)| + |PrintMember(ms[i], depth, fmt)| + |Separators(i != |ms| - 1, fmt)|
    ensures |MembersDone(ms, i + 1, depth, fmt)| <= MembersLength(ms, |ms|, depth, fmt)
  {
    MembersFit(ms, i + 1, depth, fmt);
    Assoc(d, MembersDone(ms, i, depth, fmt), PrintMember(ms[i], depth, fmt), if i != |ms| - 1 then [','] else [],
      if fmt then ['\n'] else []);
  }

  lemma Assoc(d: string, a: string, b: string, c: string, e: string)
    ensures d + (a + b + c + e) == d + a + (b + (c + e))
  {
  }

  /** What follows a member. */
  ghost function Separators(more: bool, fmt: bool): string
  {
    (if more then [','] else []) + (if fmt then ['\n'] else [])
  }

  lemma MembersAll(ms: seq<Member>, depth: nat, fmt: bool)
    ensures MembersDone(ms, |ms|, depth, fmt) == PrintMembers(ms, depth, fmt)
  {
    MembersSoFar(ms, |ms|, depth, fmt);
    assert ms[|ms|..] == [] && MembersDone(ms, |ms|, depth, fmt) + [] == MembersDone(ms, |ms|, depth, fmt);
  }

  method PutSeparators(out: array<char>, at: nat, more: bool, fmt: bool, ghost d: string) returns (ptr: nat)
    requires Written(out, at, d) == true && at + |Separators(more, fmt)| < out.Length
    modifies out
    ensures ptr == at + |Separators(more, fmt)| && Written(out, ptr, d + Separators(more, fmt)) == true
  {
    ptr := at;
    ghost var e := d;
    if more {
      ptr := PutC(out, ptr, ',', d);
      e := d + [','];
    }
    if fmt {
      ptr := PutC(out, ptr, '\n', e);
      e := e + ['\n'];
    }
    assert e == d + Separators(more, fmt);
    Terminate(out, ptr, e);
  }

  /** One member and what separates it from the next. */
  method PutLine(out: array<char>, at: nat, name: string, entry: string, ghost m: Member, more: bool, depth: nat,
        fmt: bool, ghost d: string)
    returns (ptr: nat)
    requires name == Quote(m.name) && entry == Print(m.value, depth, fmt) && Written(out, at, d) == true
    requires at + |PrintMember(m, depth, fmt)| + |Separators(more, fmt)| < out.Length
    modifies out
    ensures ptr == at + |PrintMember(m, depth, fmt)| + |Separators(more, fmt)|
    ensures Written(out, ptr, d + (PrintMember(m, depth, fmt) + Separators(more, fmt))) == true
  {
    ptr := PutMember(out, at, name, entry, m, depth, fmt, d);
    ptr := PutSeparators(out, ptr, more, fmt, d + PrintMember(m, depth, fmt));
    Join(d, PrintMember(m, depth, fmt), Separators(more, fmt));
  }

  /** One member: tabs, name, colon, gap, value. */
  method PutMember(out: array<char>, at: nat, name: string, entry: string, ghost m: Member, depth: nat, fmt: bool,
        ghost d: string)
    returns (ptr: nat)
    requires name == Quote(m.name) && entry == Print(m.value, depth, fmt) && Written(out, at, d) == true
    requires at + |PrintMember(m, depth, fmt)| < out.Length
    modifies out
    ensures ptr == at + |PrintMember(m, depth, fmt)| && Written(out, ptr, d + PrintMember(m, depth, fmt)) == true
  {
    TabsNulFree(depth);
    MemberParts(m, depth, fmt, d);
    ptr := at;
    ghost var e := d + if fmt then Tabs(depth) else [];
    if fmt {
      ptr := PutTabs(out, ptr, depth, d);
    }
    assert d + [] == d;
    ptr := PutNameColon(out, ptr, name, fmt, e);
    ptr := PutS(out, ptr, entry, e + (name + if fmt then [':', '\t'] else [':']));
  }

  method PutNameColon(out: array<char>, at: nat, name: string, fmt: bool, ghost e: string) returns (ptr: nat)
    requires Written(out, at, e) == true && at + |name| + (if fmt then 2 else 1) <= out.Length
    modifies out
    ensures ptr == at + |name| + (if fmt then 2 else 1)
    ensures Written(out, ptr, e + (name + if fmt then [':', '\t'] else [':'])) == true
  {
    ptr := PutS(out, at, name, e);
    ptr := PutC(out, ptr, ':', e + name);
    if fmt {
      ptr := PutC(out, ptr, '\t', e + name + [':']);
    }
    assert e + (name + [':']) == e + name + [':'];
    assert e + (name + [':', '\t']) == e + name + [':'] + ['\t'];
  }

  lemma MemberParts(m: Member, depth: nat, fmt: bool, d: string)
    ensures var e, x := d + (if fmt then Tabs(depth) else []), Quote(m.name) + if fmt then [':', '\t'] else [':'];
      e + x + Print(m.value, depth, fmt) == d + PrintMember(m, depth, fmt) &&
      |PrintMember(m, depth, fmt)| == (if fmt then |Tabs(depth)| else 0) + |x| + |Print(m.value, depth, fmt)|
  {
  }

  /** cJSON_Print and cJSON_PrintUnformatted */
  method PrintItem(v: Value, fmt: bool) returns (out: array<char>)
    requires Printable(v)
    ensures fresh(out) && Holds(out, Print(v, 0, fmt))
  {
    out := PrintValue(v, 0, fmt);
  }
}
