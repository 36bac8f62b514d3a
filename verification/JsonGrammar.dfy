/** The texts cJSON reads, as concrete syntax with space between the tokens, and what they mean. */
module JsonGrammar {
  import opened Chars
  import opened JsonText
  import opened JsonNumbers
  import opened JsonStrings

  // ----- concrete syntax

  /** A document: each token as it stands, and between two of them any run of characters up to the blank. */
  datatype Doc = Word(word: Value) | Num(x: Numeral) | Str(pieces: seq<Piece>)
               | Arr(items: seq<Item>, blank: string) | Obj(fields: seq<Field>, blank: string)

  /** An element and the space around it. */
  datatype Item = Item(before: string, doc: Doc, after: string)

  /** A name, a colon and a value, with the space around each. */
  datatype Field = Field(before: string, name: seq<Piece>, gap: string, space: string, doc: Doc, after: string)

  ghost predicate Blank(s: string) { forall i :: 0 <= i < |s| ==> s[i] <= ' ' }

  ghost predicate DocOk(d: Doc) {
    match d
    case Word(w) => w == Null || w == True || w == False
    case Num(x) => NumeralOk(x)
    case Str(ps) => PiecesOk(ps)
    case Arr(items, blank) =>
      Blank(blank) && forall it :: it in items ==> Blank(it.before) && DocOk(it.doc) && Blank(it.after)
    case Obj(fields, blank) =>
      Blank(blank) &&
      forall f :: f in fields ==>
        Blank(f.before) && PiecesOk(f.name) && Blank(f.gap) && Blank(f.space) && DocOk(f.doc) && Blank(f.after)
  }

  /** The members and elements stand in order, a comma between each two. */
  ghost function DocText(d: Doc): string
    decreases d, 0
  {
    match d
    case Word(w) => if w == Null then "null" else if w == True then "true" else "false"
    case Num(x) => NumeralText(x)
    case Str(ps) => Quoted(ps)
    case Arr(items, blank) => ['['] + (if items == [] then blank else ItemsText(items)) + [']']
    case Obj(fields, blank) => ['{'] + (if fields == [] then blank else FieldsText(fields)) + ['}']
  }

  ghost function Quoted(ps: seq<Piece>): string { [QUOTE] + PiecesText(ps) + [QUOTE] }

  ghost function ItemText(it: Item): string
    decreases it, 1
  {
    it.before + (DocText(it.doc) + it.after)
  }

  ghost function ItemsText(items: seq<Item>): string
    decreases items, 2
  {
    if items == [] then []
    else ItemText(items[0]) + if |items| == 1 then [] else [','] + ItemsText(items[1..])
  }

  ghost function FieldText(f: Field): string
    decreases f, 1
  {
    f.before + (Quoted(f.name) + (f.gap + ([':'] + (f.space + (DocText(f.doc) + f.after)))))
  }

  ghost function FieldsText(fields: seq<Field>): string
    decreases fields, 2
  {
    if fields == [] then []
    else FieldText(fields[0]) + if |fields| == 1 then [] else [','] + FieldsText(fields[1..])
  }

  // ----- meaning

  ghost function Meaning(d: Doc): Value
    requires DocOk(d)
    decreases d, 0
  {
    match d
    case Word(w) => w
    case Num(x) => Number(NumeralValue(x))
    case Str(ps) => String(PiecesBytes(ps))
    case Arr(items, _) => Array(Elements(items))
    case Obj(fields, _) => Object(Members(fields))
  }

  ghost predicate ItemOk(it: Item) { Blank(it.before) && DocOk(it.doc) && Blank(it.after) }

  ghost predicate FieldOk(f: Field) {
    Blank(f.before) && PiecesOk(f.name) && Blank(f.gap) && Blank(f.space) && DocOk(f.doc) && Blank(f.after)
  }

  ghost predicate ItemsOk(items: seq<Item>) { forall it :: it in items ==> ItemOk(it) }

  ghost predicate FieldsOk(fields: seq<Field>) { forall f :: f in fields ==> FieldOk(f) }

  ghost function Elements(items: seq<Item>): seq<Value>
    requires ItemsOk(items)
    decreases items, 1
  {
    if items == [] then []
    else
      assert items[0] in items && ItemOk(items[0]);
      [Meaning(items[0].doc)] + Elements(items[1..])
  }

  ghost function MemberOf(f: Field): Member
    requires FieldOk(f)
    decreases f, 1
  {
    Member(PiecesBytes(f.name), Meaning(f.doc))
  }

  ghost function Members(fields: seq<Field>): seq<Member>
    requires FieldsOk(fields)
    decreases fields, 2
  {
    if fields == [] then []
    else
      assert fields[0] in fields && FieldOk(fields[0]);
      [MemberOf(fields[0])] + Members(fields[1..])
  }

  lemma ItemsMore(it: Item, items: seq<Item>)
    ensures ItemsOk([it] + items) <==> ItemOk(it) && ItemsOk(items)
    ensures ItemOk(it) && ItemsOk(items) ==> Elements([it] + items) == [Meaning(it.doc)] + Elements(items)
    ensures ItemsText([it] + items) == ItemText(it) + if items == [] then [] else [','] + ItemsText(items)
  {
    var all := [it] + items;
    assert all[1..] == items && it in all;
    forall x | x in items ensures x in all { }
    forall x | x in all ensures x == it || x in items { }
  }

  lemma FieldsMore(f: Field, fields: seq<Field>)
    ensures FieldsOk([f] + fields) <==> FieldOk(f) && FieldsOk(fields)
    ensures FieldOk(f) && FieldsOk(fields) ==> Members([f] + fields) == [MemberOf(f)] + Members(fields)
    ensures FieldsText([f] + fields) == FieldText(f) + if fields == [] then [] else [','] + FieldsText(fields)
  {
    var all := [f] + fields;
    assert all[1..] == fields && f in all;
    forall x | x in fields ensures x in all { }
    forall x | x in all ensures x == f || x in fields { }
  }

  /** t is a text of v. */
  ghost predicate Spaced(v: Value, t: string) { exists d :: DocOk(d) && DocText(d) == t && Meaning(d) == v }

  /** What may follow: nothing that continues a number. */
  ghost predicate Follows(d: Doc, rest: string) { d.Num? ==> Closes(d.x, rest) }

  // ----- space

  lemma {:induction false} SkipBlank(w: string, t: string)
    requires Blank(w) && (t == [] || t[0] > ' ')
    ensures Skip(w + t) == t
  {
    if w == [] {
      assert w + t == t;
    } else {
      assert (w + t)[1..] == w[1..] + t;
      SkipBlank(w[1..], t);
    }
  }

  lemma {:induction false} SkipTwice(t: string)
    ensures Skip(Skip(t)) == Skip(t)
  {
    if t != [] && t[0] <= ' ' { SkipTwice(t[1..]); }
  }

  lemma {:induction false} SkipSplit(t: string) returns (w: string)
    ensures Blank(w) && t == w + Skip(t)
  {
    w := [];
    if t != [] && t[0] <= ' ' {
      w := SkipSplit(t[1..]);
      w := [t[0]] + w;
    }
  }

  // ----- the words

  lemma StartsFirst(t: string, w: string)
    requires w != []
    ensures Starts(t, w) ==> Peek(t) == w[0]
  {
    if Starts(t, w) {
      var x := t[..|w|];
      assert x[0] == t[0];
    }
  }

  /** A text that does not begin like one of the three words is not one. */
  lemma NoWord(t: string)
    requires Peek(t) != 'n' && Peek(t) != 'f' && Peek(t) != 't'
    ensures !Starts(t, "null") && !Starts(t, "false") && !Starts(t, "true")
  {
    StartsFirst(t, "null");
    StartsFirst(t, "false");
    StartsFirst(t, "true");
  }

  lemma WordReads(w: Value, rest: string)
    requires w == Null || w == True || w == False
    ensures ReadValue(DocText(Word(w)) + rest) == Parsed(w, rest)
  {
    var u := DocText(Word(w));
    var t := u + rest;
    assert Starts(t, u) && t[|u|..] == rest && Peek(t) == u[0];
    StartsFirst(t, "null");
    StartsFirst(t, "false");
  }

  // ----- every document is read as what it means

  lemma FirstChar(d: Doc)
    requires DocOk(d)
    ensures DocText(d) != []
    ensures var c := DocText(d)[0]; c > ' ' && c != ']' && c != '}' && c != ','
  {
    if d.Num? && !d.x.neg { assert NumeralText(d.x)[0] == Whole(d.x)[0]; }
  }

  lemma {:induction false} DocReads(d: Doc, rest: string)
    requires DocOk(d) && Follows(d, rest)
    ensures ReadValue(DocText(d) + rest) == Parsed(Meaning(d), rest)
    decreases d, 0
  {
    var t := DocText(d) + rest;
    match d
    case Word(w) => WordReads(w, rest);
    case Num(x) =>
      NumeralReads(x, rest);
      NoWord(t);
    case Str(ps) =>
      QuotedReads(ps, rest);
      NoWord(t);
    case Arr(items, blank) =>
      var inner := if items == [] then blank else ItemsText(items);
      BracketStep('[', inner, ']', rest);
      if items == [] {
        SkipBlank(blank, [']'] + rest);
      } else {
        ItemsBegin(items, [']'] + rest);
        ItemsRead(items, rest, []);
        ElemsSkipped(ItemsText(items) + ([']'] + rest), []);
        assert [] + Elements(items) == Elements(items);
      }
    case Obj(fields, blank) =>
      var inner := if fields == [] then blank else FieldsText(fields);
      BracketStep('{', inner, '}', rest);
      if fields == [] {
        SkipBlank(blank, ['}'] + rest);
      } else {
        FieldsBegin(fields, ['}'] + rest);
        FieldsRead(fields, rest, []);
        MembersSkipped(FieldsText(fields) + (['}'] + rest), []);
        assert [] + Members(fields) == Members(fields);
      }
  }

  lemma QuotedReads(ps: seq<Piece>, rest: string)
    requires PiecesOk(ps)
    ensures ReadString(Quoted(ps) + rest) == Parsed(PiecesBytes(ps), rest) && Peek(Quoted(ps) + rest) == QUOTE
  {
    LiteralReads(PiecesText(ps), PiecesBytes(ps), rest);
  }

  /** A bracket: what stands behind it decides. */
  lemma BracketStep(open: char, inner: string, close: char, rest: string)
    requires (open == '[' && close == ']') || (open == '{' && close == '}')
    ensures var t, body := [open] + inner + [close] + rest, inner + ([close] + rest);
      t[1..] == body && ([close] + rest)[1..] == rest &&
      ReadValue(t) ==
      if Peek(Skip(body)) == close then Parsed(if open == '[' then Array([]) else Object([]), Skip(body)[1..])
      else if open == '[' then ReadElems(Skip(body), [])
      else ReadMembers(Skip(body), [])
  {
    var t, body := [open] + inner + [close] + rest, inner + ([close] + rest);
    assert t[0] == open && t[1..] == body;
    NoWord(t);
  }

  lemma ElemsSkipped(t: string, before: seq<Value>)
    ensures ReadElems(Skip(t), before) == ReadElems(t, before)
  {
    SkipTwice(t);
  }

  lemma MembersSkipped(t: string, before: seq<Member>)
    ensures ReadMembers(Skip(t), before) == ReadMembers(t, before)
  {
    SkipTwice(t);
  }

  lemma ItemsBegin(items: seq<Item>, end: string)
    requires items != [] && ItemOk(items[0])
    ensures Peek(Skip(ItemsText(items) + end)) != ']'
  {
    var it, tail := items[0], (if |items| == 1 then [] else [','] + ItemsText(items[1..])) + end;
    FirstChar(it.doc);
    var u := DocText(it.doc) + (it.after + tail);
    assert ItemsText(items) + end == it.before + u && u[0] == DocText(it.doc)[0];
    SkipBlank(it.before, u);
  }

  /** An element, the space around it, and what follows. */
  lemma {:induction false} ItemReads(it: Item, tail: string, before: seq<Value>)
    requires ItemOk(it) && (Peek(tail) == ',' || Peek(tail) == ']')
    ensures ReadElems(ItemText(it) + tail, before) ==
      if Peek(tail) == ',' then ReadElems(tail[1..], before + [Meaning(it.doc)])
      else Parsed(Array(before + [Meaning(it.doc)]), tail[1..])
    decreases it, 1
  {
    var more := it.after + tail;
    var u := DocText(it.doc) + more;
    assert ItemText(it) + tail == it.before + u;
    FirstChar(it.doc);
    assert u[0] == DocText(it.doc)[0];
    SkipBlank(it.before, u);
    SkipBlank(it.after, tail);
    AfterBlank(it.after, tail);
    DocReads(it.doc, more);
  }

  /** Space, a comma and a bracket do not continue a number. */
  lemma AfterBlank(w: string, tail: string)
    requires Blank(w) && (Peek(tail) == ',' || Peek(tail) == ']' || Peek(tail) == '}')
    ensures Ends(w + tail) && Peek(w + tail) != '+' && Peek(w + tail) != '-'
  {
    if w == [] { assert w + tail == tail; } else { assert (w + tail)[0] == w[0]; }
  }

  lemma {:induction false} ItemsRead(items: seq<Item>, rest: string, before: seq<Value>)
    requires items != [] && ItemsOk(items) == true
    ensures ReadElems(ItemsText(items) + ([']'] + rest), before) == Parsed(Array(before + Elements(items)), rest)
    decreases items, 3
  {
    var it, later, end := items[0], items[1..], [']'] + rest;
    assert items == [it] + later;
    ItemsMore(it, later);
    if later == [] {
      assert ItemText(it) + [] == ItemText(it) && end[1..] == rest && [Meaning(it.doc)] + [] == [Meaning(it.doc)];
      ItemReads(it, end, before);
    } else {
      CommaTail(ItemText(it), ItemsText(later), end);
      ItemReads(it, [','] + (ItemsText(later) + end), before);
      ItemsRead(later, rest, before + [Meaning(it.doc)]);
      Regroup(before, Meaning(it.doc), Elements(later));
    }
  }

  lemma FieldsBegin(fields: seq<Field>, end: string)
    requires fields != [] && FieldOk(fields[0])
    ensures Peek(Skip(FieldsText(fields) + end)) != '}'
  {
    var f, tail := fields[0], (if |fields| == 1 then [] else [','] + FieldsText(fields[1..])) + end;
    var u := FieldRest(f, tail);
    FieldSplit(f, tail);
    assert FieldsText(fields) + end == f.before + u;
    SkipBlank(f.before, u);
  }

  /** A field behind its first space. */
  ghost function FieldRest(f: Field, tail: string): string {
    Quoted(f.name) + (f.gap + ([':'] + (f.space + (DocText(f.doc) + (f.after + tail)))))
  }

  lemma FieldSplit(f: Field, tail: string)
    ensures FieldText(f) + tail == f.before + FieldRest(f, tail) && FieldRest(f, tail) != [] &&
      FieldRest(f, tail)[0] == QUOTE
  {
  }

  lemma {:induction false} FieldReads(f: Field, tail: string)
    requires FieldOk(f) && (Peek(tail) == ',' || Peek(tail) == '}')
    ensures ReadMember(Skip(FieldText(f) + tail)) == Parsed(MemberOf(f), tail)
    decreases f, 1
  {
    var more := f.after + tail;
    var value := DocText(f.doc) + more;
    var x := [':'] + (f.space + value);
    FieldSplit(f, tail);
    SkipBlank(f.before, FieldRest(f, tail));
    QuotedReads(f.name, f.gap + x);
    SkipBlank(f.gap, x);
    assert x[1..] == f.space + value;
    FirstChar(f.doc);
    assert value[0] == DocText(f.doc)[0];
    SkipBlank(f.space, value);
    AfterBlank(f.after, tail);
    DocReads(f.doc, more);
    SkipBlank(f.after, tail);
  }

  lemma FieldStep(t: string, m: Member, tail: string, before: seq<Member>)
    requires ReadMember(Skip(t)) == Parsed(m, tail) && (Peek(tail) == ',' || Peek(tail) == '}')
    ensures ReadMembers(t, before) ==
      if Peek(tail) == ',' then ReadMembers(tail[1..], before + [m]) else Parsed(Object(before + [m]), tail[1..])
  {
  }

  lemma {:induction false} FieldThen(f: Field, tail: string, before: seq<Member>)
    requires FieldOk(f) && (Peek(tail) == ',' || Peek(tail) == '}')
    ensures ReadMembers(FieldText(f) + tail, before) ==
      if Peek(tail) == ',' then ReadMembers(tail[1..], before + [MemberOf(f)])
      else Parsed(Object(before + [MemberOf(f)]), tail[1..])
    decreases f, 2
  {
    FieldReads(f, tail);
    FieldStep(FieldText(f) + tail, MemberOf(f), tail, before);
  }

  lemma {:induction false} FieldsRead(fields: seq<Field>, rest: string, before: seq<Member>)
    requires fields != [] && FieldsOk(fields) == true
    ensures ReadMembers(FieldsText(fields) + (['}'] + rest), before) == Parsed(Object(before + Members(fields)), rest)
    decreases fields, 3
  {
    var f, later, end := fields[0], fields[1..], ['}'] + rest;
    assert fields == [f] + later;
    FieldsMore(f, later);
    if later == [] {
      assert FieldText(f) + [] == FieldText(f) && end[1..] == rest && [MemberOf(f)] + [] == [MemberOf(f)];
      FieldThen(f, end, before);
    } else {
      CommaTail(FieldText(f), FieldsText(later), end);
      FieldThen(f, [','] + (FieldsText(later) + end), before);
      FieldsRead(later, rest, before + [MemberOf(f)]);
      Regroup(before, MemberOf(f), Members(later));
    }
  }

  lemma CommaTail(a: string, b: string, end: string)
    ensures a + ([','] + b) + end == a + ([','] + (b + end)) && ([','] + (b + end))[1..] == b + end
  {
  }

  lemma Regroup<T>(a: seq<T>, x: T, b: seq<T>)
    ensures a + [x] + b == a + ([x] + b)
  {
  }

  /** Every text of a value is read as that value, up to where it ends, and so by cJSON_Parse behind any space. */
  lemma SpacedReads(v: Value, w: string, t: string, rest: string)
    requires Spaced(v, t) && Blank(w) && Ends(rest) && Peek(rest) != '+' && Peek(rest) != '-'
    ensures ReadValue(t + rest) == Parsed(v, rest)
    ensures Read(w + (t + rest)) == Parsed(v, rest)
  {
    var d :| DocOk(d) && DocText(d) == t && Meaning(d) == v;
    DocReads(d, rest);
    FirstChar(d);
    SkipBlank(w, t + rest);
  }
}
