/** Which texts give no value: those that no document begins, and why. */
module JsonRefused {
  import opened Chars
  import opened JsonText
  import opened JsonNumbers
  import opened JsonStrings
  import opened JsonGrammar
  import opened JsonFound

  // ----- ragged escapes

  /** A backslash at the end of the text, or a u behind one without its four digits. */
  predicate Ragged(u: string) { u == ['\\'] || (|u| >= 2 && u[0] == '\\' && u[1] == 'u' && !FourHex(u[2..])) }

  /** A literal goes well up to such an escape. */
  ghost predicate Torn(t: string, ps: seq<Piece>, u: string) { PiecesOk(ps) && Ragged(u) && t == PiecesText(ps) + u }

  lemma {:induction false} BodyTorn(t: string) returns (ps: seq<Piece>, u: string)
    requires ReadBody(t).Unspecified?
    ensures Torn(t, ps, u) == true
    decreases |t|
  {
    if t[0] == BACKSLASH && (|t| == 1 || ReadEscape(t[1..]).Unspecified?) {
      ps, u := EscapeTorn(t);
    } else {
      var p, more := PieceFound(t);
      ps, u := BodyTorn(more);
      TornMore(t, p, more, ps, u);
      ps := [p] + ps;
    }
  }

  lemma EscapeTorn(t: string) returns (ps: seq<Piece>, u: string)
    requires t != [] && t[0] == BACKSLASH && (|t| == 1 || ReadEscape(t[1..]).Unspecified?)
    ensures Torn(t, ps, u) == true
  {
    ps, u := [], t;
    if |t| == 1 {
      assert t == ['\\'];
    } else {
      var v := t[2..];
      assert t[1..][1..] == v && t == ['\\', 'u'] + v;
      if FourHex(v) {
        ps, u := [Code(v[..4])], v[4..];
        CodeParts(v, v[..4], u);
        HighTorn(v, u);
        OnePiece(ps[0]);
      }
    }
    assert [] + t == t;
  }

  /** A high surrogate, and a second code that is ragged. */
  lemma HighTorn(v: string, u: string)
    requires FourHex(v) && u == v[4..] && ReadUnicode(v).Unspecified?
    ensures PieceOk(Code(v[..4])) && Ragged(u)
  {
    assert v[6..] == u[2..] && v[4] == u[0] && v[5] == u[1];
  }

  lemma OnePiece(p: Piece)
    requires PieceOk(p)
    ensures PiecesOk([p]) && PiecesText([p]) == PieceText(p)
  {
    assert PieceText(p) + [] == PieceText(p);
  }

  lemma TornMore(t: string, p: Piece, more: string, ps: seq<Piece>, u: string)
    requires PieceOk(p) && t == PieceText(p) + more && Alone(p, more) && Torn(more, ps, u)
    ensures Torn(t, [p] + ps, u) == true
  {
    PieceMore(p, more, ps, u);
    Assoc(PieceText(p), PiecesText(ps), u);
  }

  lemma PieceMore(p: Piece, more: string, ps: seq<Piece>, u: string)
    requires PieceOk(p) && PiecesOk(ps) && Alone(p, more) && more == PiecesText(ps) + u
    ensures PiecesOk([p] + ps) && PiecesText([p] + ps) == PieceText(p) + PiecesText(ps)
  {
    assert ([p] + ps)[1..] == ps;
    EscapedBegins(ps);
    if ps != [] && Escaped(ps[0]) { assert more[0] == PiecesText(ps)[0] && more[1] == PiecesText(ps)[1]; }
  }

  lemma {:induction false} TornReads(t: string, ps: seq<Piece>, u: string)
    requires Torn(t, ps, u)
    ensures ReadBody(t) == Unspecified
    decreases |ps|
  {
    if ps == [] {
      assert t == u;
      RaggedReads(u);
    } else {
      var more := PiecesText(ps[1..]) + u;
      Assoc(PieceText(ps[0]), PiecesText(ps[1..]), u);
      TornReads(more, ps[1..], u);
      TornHead(t, ps, more, u);
    }
  }

  lemma RaggedReads(u: string)
    requires Ragged(u)
    ensures ReadBody(u) == Unspecified
  {
    if |u| >= 2 { assert u[1..][1..] == u[2..]; }
  }

  lemma TornHead(t: string, ps: seq<Piece>, more: string, u: string)
    requires ps != [] && PiecesOk(ps) && Ragged(u) && more == PiecesText(ps[1..]) + u && t == PieceText(ps[0]) + more
    requires ReadBody(more) == Unspecified
    ensures ReadBody(t) == Unspecified
  {
    if Alone(ps[0], more) {
      PieceReads(ps[0], more);
    } else {
      LastAlone(ps, u);
      HighReads(t, ps[0].digits, u);
    }
  }

  /** Only the ragged escape itself can stand behind a high surrogate like its other half. */
  lemma LastAlone(ps: seq<Piece>, u: string)
    requires ps != [] && PiecesOk(ps) && Ragged(u) && !Alone(ps[0], PiecesText(ps[1..]) + u)
    ensures ps[1..] == [] && PiecesText(ps[1..]) + u == u
  {
    if ps[1..] != [] {
      assert ps[1..][0] == ps[1];
      NextPlain(ps[1..], u);
    }
  }

  lemma HighReads(t: string, digits: string, u: string)
    requires FourDigits(digits) && Leading(Sixteen(digits)) && |u| >= 2 && Ragged(u)
    requires t == PieceText(Code(digits)) + u
    ensures ReadBody(t) == Unspecified
  {
    var v := digits + u;
    FourIs(digits, u);
    assert t[1..][1..] == v && t[1] == 'u' && v[4] == u[0] && v[5] == u[1] && v[6..] == u[2..];
  }

  /** The bytes of a literal are unspecified exactly when it goes well up to a ragged escape. */
  lemma BodyUnspecified(t: string)
    ensures ReadBody(t).Unspecified? <==> exists ps, u :: Torn(t, ps, u)
  {
    if ReadBody(t).Unspecified? {
      var ps, u := BodyTorn(t);
    }
    forall ps, u | Torn(t, ps, u) ensures ReadBody(t).Unspecified? { TornReads(t, ps, u); }
  }

  // ----- values

  /** t ends with u. */
  ghost predicate Behind(t: string, u: string) { |u| <= |t| && t[|t| - |u|..] == u }

  lemma BehindIs(t: string, a: string, u: string)
    requires t == a + u
    ensures Behind(t, u) == true
  {
    assert t[|a|..] == u;
  }

  lemma BehindBoth(t: string, a: string, b: string)
    requires Behind(t, a) && Behind(a, b)
    ensures Behind(t, b) == true
  {
    assert t[|t| - |a|..][|a| - |b|..] == t[|t| - |b|..];
  }

  /** t ends with u, a literal that is torn. */
  ghost predicate TornIn(t: string, u: string) {
    Behind(t, u) && Peek(u) == QUOTE && ReadBody(u[1..]).Unspecified?
  }

  lemma TornBehind(t: string, a: string, u: string)
    requires Behind(t, a) && TornIn(a, u)
    ensures TornIn(t, u) == true
  {
    BehindBoth(t, a, u);
  }

  lemma TailBehind(t: string)
    requires t != []
    ensures Behind(t, Skip(t[1..])) == true
  {
    BehindIs(t, t[..1], t[1..]);
    SkipBehind(t[1..]);
    BehindBoth(t, t[1..], Skip(t[1..]));
  }

  lemma SkipBehind(t: string)
    ensures Behind(t, Skip(t)) == true
  {
    var w := SkipSplit(t);
    BehindIs(t, w, Skip(t));
  }

  lemma StringBehind(t: string)
    requires ReadString(t).Parsed?
    ensures Behind(t, ReadString(t).rest) == true
  {
    var ps := StringFound(t);
    HeldBehind(t, Str(ps), ReadString(t).rest);
  }

  lemma ValueBehind(t: string)
    requires ReadValue(t).Parsed?
    ensures Behind(t, ReadValue(t).rest) == true
  {
    var d := DocFound(t);
    HeldBehind(t, d, ReadValue(t).rest);
  }

  lemma HeldBehind(t: string, d: Doc, rest: string)
    requires Holds(t, d, rest)
    ensures Behind(t, rest) == true
  {
    if t == DocText(d) + rest { BehindIs(t, DocText(d), rest); } else { BehindIs(t, t, rest); }
  }

  lemma MemberBehind(t: string)
    requires ReadMember(t).Parsed?
    ensures Behind(t, ReadMember(t).rest) == true
  {
    var v := Named(t);
    var rest := ReadValue(v).rest;
    ValueBehind(v);
    SkipBehind(rest);
    BehindBoth(t, v, rest);
    BehindBoth(t, rest, Skip(rest));
  }

  /** A member is read behind its name and the colon. */
  lemma Named(t: string) returns (v: string)
    requires ReadString(t).Parsed? && !ReadMember(t).Failed?
    ensures |v| < |t| && Behind(t, v) == true
    ensures ReadMember(t) ==
      match ReadValue(v)
      case Failed => Failed
      case Unspecified => Unspecified
      case Parsed(x, rest) => Parsed(Member(ReadString(t).value, x), Skip(rest))
  {
    var a := ReadString(t).rest;
    var b := Skip(a);
    v := Skip(b[1..]);
    StringBehind(t);
    SkipBehind(a);
    TailBehind(b);
    BehindBoth(t, a, b);
    BehindBoth(t, b, v);
  }

  lemma {:induction false} ValueTorn(t: string) returns (u: string)
    requires ReadValue(t).Unspecified?
    ensures TornIn(t, u) == true
    decreases |t|, 0
  {
    if Peek(t) == QUOTE {
      u := t;
      BehindIs(t, [], t);
    } else {
      var v := Skip(t[1..]);
      OpenStep(t, t[1..]);
      TailBehind(t);
      if t[0] == '[' { u := ElemsTorn(v, []); } else { u := MembersTorn(v, []); }
      TornBehind(t, v, u);
    }
  }

  lemma {:induction false} ElemsTorn(t: string, before: seq<Value>) returns (u: string)
    requires ReadElems(t, before).Unspecified?
    ensures TornIn(t, u) == true
    decreases |t|, 1
  {
    var v := Skip(t);
    SkipBehind(t);
    if ReadValue(v).Unspecified? {
      u := ValueTorn(v);
      TornBehind(t, v, u);
    } else {
      var w := Skip(ReadValue(v).rest);
      u := ElemsTorn(w[1..], before + [ReadValue(v).value]);
      ValueBehind(v);
      NextBehind(t, v, ReadValue(v).rest, w, u);
    }
  }

  lemma NextBehind(t: string, v: string, rest: string, w: string, u: string)
    requires Behind(t, v) && Behind(v, rest) && w == Skip(rest) && w != [] && TornIn(w[1..], u)
    ensures TornIn(t, u) == true
  {
    SkipBehind(rest);
    BehindIs(w, w[..1], w[1..]);
    TornBehind(w, w[1..], u);
    TornBehind(rest, w, u);
    TornBehind(v, rest, u);
    TornBehind(t, v, u);
  }

  lemma {:induction false} MembersTorn(t: string, before: seq<Member>) returns (u: string)
    requires ReadMembers(t, before).Unspecified?
    ensures TornIn(t, u) == true
    decreases |t|, 1
  {
    var v := Skip(t);
    SkipBehind(t);
    if ReadMember(v).Unspecified? {
      u := MemberTorn(v);
      TornBehind(t, v, u);
    } else {
      var w := ReadMember(v).rest;
      u := MembersTorn(w[1..], before + [ReadMember(v).value]);
      MemberBehind(v);
      MemberSkipped(v);
      NextBehind(t, v, w, w, u);
    }
  }

  /** The space behind a member is gone. */
  lemma MemberSkipped(t: string)
    requires ReadMember(t).Parsed?
    ensures Skip(ReadMember(t).rest) == ReadMember(t).rest
  {
    var v := Named(t);
    SkipTwice(ReadValue(v).rest);
  }

  lemma {:induction false} MemberTorn(t: string) returns (u: string)
    requires ReadMember(t).Unspecified?
    ensures TornIn(t, u) == true
    decreases |t|, 0
  {
    if ReadString(t).Unspecified? {
      u := t;
      BehindIs(t, [], t);
    } else {
      var v := Named(t);
      u := ValueTorn(v);
      TornBehind(t, v, u);
    }
  }

  // ----- every text

  lemma OpenReads(ps: seq<Piece>)
    requires PiecesOk(ps)
    ensures ReadValue([QUOTE] + PiecesText(ps)) == Parsed(String(PiecesBytes(ps)), [])
  {
    var t := [QUOTE] + PiecesText(ps);
    assert t[1..] == PiecesText(ps) + [];
    PiecesRead(ps, []);
    NoWord(t);
  }

  lemma HeldReads(t: string, d: Doc, rest: string)
    requires DocOk(d) && Holds(t, d, rest)
    ensures ReadValue(t).Parsed?
  {
    if t != DocText(d) + rest {
      OpenReads(d.pieces);
    } else if d.Num? {
      FirstChar(d);
      NumeralBegins(d.x, t, rest);
      NoWord(t);
    } else {
      DocReads(d, rest);
    }
  }

  lemma NumeralBegins(x: Numeral, t: string, rest: string)
    requires NumeralOk(x) && t == NumeralText(x) + rest
    ensures Peek(t) == '-' || IsDigit(Peek(t))
  {
    var u := Whole(x) + (Fraction(x.frac) + (ExponentText(x.exp) + rest));
    SignRead(x, rest, t, u);
  }

  /** A text gives a value exactly when it begins with a document; if it gives none it fails, unless some literal in it
      is torn. */
  lemma ReadExactly(t: string)
    ensures ReadValue(t).Parsed? <==> exists d, rest :: DocOk(d) && Holds(t, d, rest)
    ensures ReadValue(t).Unspecified? ==> exists u :: TornIn(t, u)
  {
    if ReadValue(t).Parsed? {
      var d := DocFound(t);
    }
    forall d, rest | DocOk(d) && Holds(t, d, rest) ensures ReadValue(t).Parsed? { HeldReads(t, d, rest); }
    if ReadValue(t).Unspecified? {
      var u := ValueTorn(t);
    }
  }
}
