/** Nothing else is read: behind every value that is read stands a text of it. */
module JsonFound {
  import opened Chars
  import opened JsonText
  import opened JsonNumbers
  import opened JsonStrings
  import opened JsonGrammar

  /** The text t holds the document d and then rest; a string at the end of the text may lack its quote. */
  ghost predicate Holds(t: string, d: Doc, rest: string) {
    t == DocText(d) + rest || (rest == [] && d.Str? && t == [QUOTE] + PiecesText(d.pieces))
  }

  lemma WordFound(t: string, w: Value)
    requires (w == Null || w == True || w == False) && Starts(t, DocText(Word(w)))
    ensures t == DocText(Word(w)) + t[|DocText(Word(w))|..]
  {
  }

  lemma StringFound(t: string) returns (ps: seq<Piece>)
    requires ReadString(t).Parsed?
    ensures PiecesOk(ps) && PiecesBytes(ps) == ReadString(t).value && Holds(t, Str(ps), ReadString(t).rest)
  {
    ps := BodyFound(t[1..]);
    var u, rest := PiecesText(ps), ReadBody(t[1..]).rest;
    assert t == [QUOTE] + t[1..];
    if u != t[1..] { assert [QUOTE] + (u + ([QUOTE] + rest)) == [QUOTE] + u + [QUOTE] + rest; }
  }

  /** Every text that is read as a value begins with a text of that value, and the rest is what follows. */
  lemma {:induction false} DocFound(t: string) returns (d: Doc)
    requires ReadValue(t).Parsed?
    ensures DocOk(d) && Meaning(d) == ReadValue(t).value && Holds(t, d, ReadValue(t).rest) == true
    decreases |t|, 1
  {
    if Starts(t, "null") {
      d := Word(Null);
      WordFound(t, Null);
    } else if Starts(t, "false") {
      d := Word(False);
      WordFound(t, False);
    } else if Starts(t, "true") {
      d := Word(True);
      WordFound(t, True);
    } else if Peek(t) == QUOTE {
      var ps := StringFound(t);
      d := Str(ps);
    } else if Peek(t) == '-' || IsDigit(Peek(t)) {
      var x := NumeralFound(t);
      d := Num(x);
    } else if Peek(t) == '[' {
      d := ArrayFound(t);
    } else {
      d := ObjectFound(t);
    }
  }

  lemma {:induction false} ArrayFound(t: string) returns (d: Doc)
    requires Peek(t) == '[' && ReadValue(t).Parsed?
    ensures DocOk(d) && Meaning(d) == ReadValue(t).value && Holds(t, d, ReadValue(t).rest) == true
    decreases |t|, 0
  {
    var u := t[1..];
    var w := SkipSplit(u);
    var v := Skip(u);
    OpenStep(t, u);
    if Peek(v) == ']' {
      d := Arr([], w);
      BracketFound('[', t, w, v, ']');
    } else {
      var items := ItemsFound(v, []);
      var it := items[0];
      var all := [it.(before := w + it.before)] + items[1..];
      d := Arr(all, []);
      ItemsPrefixed(items, w);
      assert [] + Elements(items) == Elements(items);
      InnerFound('[', t, w, ItemsText(items), ReadElems(v, []).rest, ']');
    }
  }

  /** What stands behind the bracket. */
  lemma OpenStep(t: string, u: string)
    requires (Peek(t) == '[' || Peek(t) == '{') && u == t[1..]
    ensures ReadValue(t) ==
      if t[0] == '[' then
        (if Peek(Skip(u)) == ']' then Parsed(Array([]), Skip(u)[1..]) else ReadElems(Skip(u), []))
      else if Peek(Skip(u)) == '}' then Parsed(Object([]), Skip(u)[1..]) else ReadMembers(Skip(u), [])
  {
    NoWord(t);
  }

  lemma BracketFound(open: char, t: string, w: string, v: string, close: char)
    requires t != [] && t[0] == open && t[1..] == w + v && v != [] && v[0] == close
    ensures t == [open] + w + [close] + v[1..]
  {
    assert t == [open] + t[1..] && v == [close] + v[1..];
  }

  lemma InnerFound(open: char, t: string, w: string, inner: string, rest: string, close: char)
    requires t != [] && t[0] == open && t[1..] == w + (inner + ([close] + rest))
    ensures t == [open] + (w + inner) + [close] + rest
  {
    assert t == [open] + t[1..];
  }

  lemma ItemsPrefixed(items: seq<Item>, w: string)
    requires items != [] && Blank(w) && ItemsOk(items)
    ensures var all := [items[0].(before := w + items[0].before)] + items[1..];
      ItemsOk(all) && ItemsText(all) == w + ItemsText(items) && Elements(all) == Elements(items)
  {
    var it, it', more := items[0], items[0].(before := w + items[0].before), items[1..];
    assert items == [it] + more;
    ItemPrefixed(it, w, it');
    ItemsMore(it, more);
    ItemsMore(it', more);
    Assoc(w, ItemText(it), if more == [] then [] else [','] + ItemsText(more));
  }

  lemma ItemPrefixed(it: Item, w: string, it': Item)
    requires Blank(w) && it' == it.(before := w + it.before)
    ensures (ItemOk(it) ==> ItemOk(it')) && it'.doc == it.doc && ItemText(it') == w + ItemText(it)
  {
    Assoc(w, it.before, DocText(it.doc) + it.after);
  }

  lemma Assoc(a: string, b: string, c: string)
    ensures a + b + c == a + (b + c)
  {
  }

  lemma {:induction false} ItemsFound(t: string, before: seq<Value>) returns (items: seq<Item>)
    requires ReadElems(t, before).Parsed?
    ensures items != [] && ItemsOk(items) && ReadElems(t, before).value == Array(before + Elements(items))
    ensures t == ItemsText(items) + ([']'] + ReadElems(t, before).rest)
    decreases |t|, 3
  {
    var it, v, u := OneFound(t, before);
    if Peek(u) == ',' {
      var more := ItemsFound(u[1..], before + [v]);
      items := [it] + more;
      ItemsMore(it, more);
      CommaBetween(t, ItemText(it), u, ItemsText(more), [']'] + ReadElems(t, before).rest);
      Regroup(before, v, Elements(more));
    } else {
      items := [it];
      ItemsMore(it, []);
      assert [it] + [] == items && [v] + Elements([]) == [v] && ItemText(it) + [] == ItemText(it);
      CloserEnds(t, ItemText(it), u, ']');
    }
  }

  /** One element, and what follows it. */
  lemma {:induction false} OneFound(t: string, before: seq<Value>) returns (it: Item, v: Value, u: string)
    requires ReadElems(t, before).Parsed?
    ensures ItemOk(it) && v == Meaning(it.doc) && t == ItemText(it) + u && (Peek(u) == ',' || Peek(u) == ']') &&
      |u| <= |t|
    ensures ReadElems(t, before) ==
      if Peek(u) == ',' then ReadElems(u[1..], before + [v]) else Parsed(Array(before + [v]), u[1..])
    decreases |t|, 2
  {
    var w := SkipSplit(t);
    var u1 := Skip(t);
    var d := DocFound(u1);
    v := ReadValue(u1).value;
    var rest := ReadValue(u1).rest;
    var w2 := SkipSplit(rest);
    u := Skip(rest);
    it := Item(w, d, w2);
    ItemFound(t, it, u1, rest, u);
  }

  lemma CommaBetween(t: string, a: string, u: string, b: string, end: string)
    requires t == a + u && u != [] && u[0] == ',' && u[1..] == b + end
    ensures t == a + ([','] + b) + end
  {
    assert u == [','] + u[1..];
  }

  lemma CloserEnds(t: string, a: string, u: string, close: char)
    requires t == a + u && u != [] && u[0] == close
    ensures t == a + ([close] + u[1..])
  {
    assert u == [close] + u[1..];
  }

  /** A text without its quote ends here, and nothing follows the value. */
  lemma ItemFound(t: string, it: Item, u: string, rest: string, u2: string)
    requires t == it.before + u && Holds(u, it.doc, rest) && rest == it.after + u2 && u2 != []
    ensures t == ItemText(it) + u2
  {
    assert rest != [];
    assert it.before + (DocText(it.doc) + (it.after + u2)) == ItemText(it) + u2;
  }

  lemma {:induction false} ObjectFound(t: string) returns (d: Doc)
    requires Peek(t) == '{' && ReadValue(t).Parsed?
    ensures DocOk(d) && Meaning(d) == ReadValue(t).value && Holds(t, d, ReadValue(t).rest) == true
    decreases |t|, 0
  {
    var u := t[1..];
    var w := SkipSplit(u);
    var v := Skip(u);
    OpenStep(t, u);
    if Peek(v) == '}' {
      d := Obj([], w);
      BracketFound('{', t, w, v, '}');
    } else {
      var fields := FieldsFound(v, []);
      var f := fields[0];
      var all := [f.(before := w + f.before)] + fields[1..];
      d := Obj(all, []);
      FieldsPrefixed(fields, w);
      assert [] + Members(fields) == Members(fields);
      InnerFound('{', t, w, FieldsText(fields), ReadMembers(v, []).rest, '}');
    }
  }

  lemma FieldsPrefixed(fields: seq<Field>, w: string)
    requires fields != [] && Blank(w) && FieldsOk(fields)
    ensures var all := [fields[0].(before := w + fields[0].before)] + fields[1..];
      FieldsOk(all) && FieldsText(all) == w + FieldsText(fields) && Members(all) == Members(fields)
  {
    var f, f', more := fields[0], fields[0].(before := w + fields[0].before), fields[1..];
    assert fields == [f] + more;
    FieldBehind(f, w, f');
    FieldsMore(f, more);
    FieldsMore(f', more);
    Assoc(w, FieldText(f), if more == [] then [] else [','] + FieldsText(more));
  }

  lemma FieldBehind(f: Field, w: string, f': Field)
    requires Blank(w) && f' == f.(before := w + f.before)
    ensures (FieldOk(f) ==> FieldOk(f') && MemberOf(f') == MemberOf(f)) && FieldText(f') == w + FieldText(f)
  {
    Assoc(w, f.before, Quoted(f.name) + (f.gap + ([':'] + (f.space + (DocText(f.doc) + f.after)))));
  }

  lemma {:induction false} FieldsFound(t: string, before: seq<Member>) returns (fields: seq<Field>)
    requires ReadMembers(t, before).Parsed?
    ensures fields != [] && FieldsOk(fields) && ReadMembers(t, before).value == Object(before + Members(fields))
    ensures t == FieldsText(fields) + (['}'] + ReadMembers(t, before).rest)
    decreases |t|, 3
  {
    var f, m, u := OneMember(t, before);
    if Peek(u) == ',' {
      var more := FieldsFound(u[1..], before + [m]);
      fields := [f] + more;
      FieldsMore(f, more);
      CommaBetween(t, FieldText(f), u, FieldsText(more), ['}'] + ReadMembers(t, before).rest);
      Regroup(before, m, Members(more));
    } else {
      fields := [f];
      FieldsMore(f, []);
      assert [f] + [] == fields && [m] + Members([]) == [m] && FieldText(f) + [] == FieldText(f);
      CloserEnds(t, FieldText(f), u, '}');
    }
  }

  lemma {:induction false} OneMember(t: string, before: seq<Member>) returns (f: Field, m: Member, u: string)
    requires ReadMembers(t, before).Parsed?
    ensures FieldOk(f) && m == MemberOf(f) && t == FieldText(f) + u && (Peek(u) == ',' || Peek(u) == '}') && |u| <= |t|
    ensures ReadMembers(t, before) ==
      if Peek(u) == ',' then ReadMembers(u[1..], before + [m]) else Parsed(Object(before + [m]), u[1..])
    decreases |t|, 2
  {
    var w := SkipSplit(t);
    m := ReadMember(Skip(t)).value;
    u := ReadMember(Skip(t)).rest;
    f := FieldFound(Skip(t));
    FieldPrefixed(f, w, u);
    f := f.(before := w);
  }

  lemma FieldPrefixed(f: Field, w: string, rest: string)
    requires f.before == []
    ensures FieldText(f.(before := w)) + rest == w + (FieldText(f) + rest)
  {
  }

  /** A name, a colon and a value; something must follow. */
  lemma {:induction false} FieldFound(t: string) returns (f: Field)
    requires ReadMember(t).Parsed? && ReadMember(t).rest != []
    ensures f.before == [] && FieldOk(f) && MemberOf(f) == ReadMember(t).value && t == FieldText(f) + ReadMember(t).rest
    decreases |t|, 1
  {
    var ps := StringFound(t);
    var rest := ReadString(t).rest;
    var gap := SkipSplit(rest);
    var u := Skip(rest);
    var space := SkipSplit(u[1..]);
    var v := Skip(u[1..]);
    var d := DocFound(v);
    var rest2 := ReadValue(v).rest;
    var after := SkipSplit(rest2);
    var u2 := Skip(rest2);
    f := Field([], ps, gap, space, d, after);
    FieldParts(t, f, rest, u, v, rest2, u2);
  }

  lemma FieldParts(t: string, f: Field, rest: string, u: string, v: string, rest2: string, u2: string)
    requires f.before == [] && Holds(t, Str(f.name), rest) && rest == f.gap + u && u != [] && u[0] == ':'
    requires u[1..] == f.space + v && Holds(v, f.doc, rest2) && rest2 == f.after + u2 && u2 != []
    ensures t == FieldText(f) + u2
  {
    assert rest != [] && rest2 != [];
    assert t == Quoted(f.name) + rest && v == DocText(f.doc) + rest2;
    assert u == [':'] + u[1..];
    FieldSplit(f, u2);
    assert t == [] + FieldRest(f, u2);
  }

  /** So a text that is read is a text of the value, and what follows; at its very end a string may lack its quote. */
  lemma ReadIsSpaced(t: string)
    requires ReadValue(t).Parsed?
    ensures var v, rest := ReadValue(t).value, ReadValue(t).rest;
      (exists u :: t == u + rest && Spaced(v, u)) || (rest == [] && v.String? && Spaced(v, t + [QUOTE]))
  {
    var d := DocFound(t);
    var v, rest := ReadValue(t).value, ReadValue(t).rest;
    if t == DocText(d) + rest {
      assert Spaced(v, DocText(d));
    } else {
      assert t + [QUOTE] == DocText(d);
    }
  }
}
