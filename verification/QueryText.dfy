/** Which query texts parse, and to which lists: every text is a list of pairs behind a prefix, or is refused. */
module QueryText {
  import opened Chars
  import opened Query

  // ----- C strings

  /** A key or value is received up to its first zero byte. */
  lemma {:induction false} UpToNulIs(s: string, k: nat)
    requires k <= |s| && NulFree(s[..k]) && (k < |s| ==> s[k] == '\0')
    ensures UpToNul(s) == s[..k] && (k == |s| ==> UpToNul(s) == s)
  {
    if k > 0 {
      assert s[0] == s[..k][0] && s[1..][..k - 1] == s[..k][1..];
      UpToNulIs(s[1..], k - 1);
      assert s[..k] == [s[0]] + s[..k][1..];
    }
  }

  // ----- units

  /** The separators behind a value, or the sign behind a key. */
  predicate Stop(c: char, val: bool) { if val then c == '&' || c == ';' else c == '=' }

  /** A percent sign with two digits, or with one other character, or a single other character that is no stop. */
  ghost predicate Complete(s: string, val: bool) {
    s == [] ||
    (s[0] != '%' && !Stop(s[0], val) && Complete(s[1..], val)) ||
    (|s| >= 2 && s[0] == '%' && !IsHex(s[1]) && Complete(s[2..], val)) ||
    (|s| >= 3 && s[0] == '%' && IsHex(s[1]) && IsHex(s[2]) && Complete(s[3..], val))
  }

  /** The same, but the text may end within the last unit. */
  ghost predicate Unfinished(s: string, val: bool) {
    s == [] || s == "%" || (|s| == 2 && s[0] == '%' && IsHex(s[1])) ||
    (s[0] != '%' && !Stop(s[0], val) && Unfinished(s[1..], val)) ||
    (|s| >= 2 && s[0] == '%' && !IsHex(s[1]) && Unfinished(s[2..], val)) ||
    (|s| >= 3 && s[0] == '%' && IsHex(s[1]) && IsHex(s[2]) && Unfinished(s[3..], val))
  }

  /** A percent sign with one digit and a character that is none. */
  ghost predicate Broken(t: string) {
    t != [] &&
    if t[0] != '%' then Broken(t[1..])
    else if |t| == 1 then false
    else if !IsHex(t[1]) then Broken(t[2..])
    else |t| > 2 && (!IsHex(t[2]) || Broken(t[3..]))
  }

  /** Before the first stop: a percent sign without digits, with no more than room characters behind the next one. */
  ghost predicate Cramped(t: string, val: bool, room: int) {
    t != [] && !(t[0] != '%' && Stop(t[0], val)) &&
    if t[0] != '%' then Cramped(t[1..], val, room)
    else if |t| == 1 then false
    else if !IsHex(t[1]) then |t| - 2 <= room || Cramped(t[2..], val, room)
    else |t| > 2 && IsHex(t[2]) && Cramped(t[3..], val, room)
  }

  lemma {:induction false} NeverCramped(t: string, val: bool, room: int)
    requires room < 0
    ensures !Cramped(t, val, room)
    decreases |t|
  {
    if t != [] {
      NeverCramped(t[1..], val, room);
      if |t| >= 2 { NeverCramped(t[2..], val, room); }
      if |t| >= 3 { NeverCramped(t[3..], val, room); }
    }
  }

  // ----- the machine over one key or value

  ghost predicate In(s: State, val: bool) { s.phase == if val then Val else Key }

  function Buf(s: State, val: bool): string { if val then s.val else s.key }

  function With(s: State, val: bool, b: string): State { if val then s.(val := b) else s.(key := b) }

  /** What has been read before the field, given that t is left of len characters. */
  function Before(s: State, t: string, len: nat, val: bool): int { len - |Buf(s, val)| - |t| }

  /** One character that is neither a percent sign nor a stop. */
  lemma PlainStep(s: State, t: string, len: nat, val: bool)
    requires In(s, val) && t != [] && t[0] != '%' && !Stop(t[0], val)
    ensures Run(s, t, len) == Run(With(s, val, Buf(s, val) + [t[0]]), t[1..], len)
  {
  }

  /** The state within a unit. */
  function Within(s: State, val: bool, first: bool, b: string): State {
    With(s, val, b).(phase := if val then (if first then ValHex1 else ValHex2) else if first then KeyHex1 else KeyHex2)
  }

  lemma PercentStep(s: State, t: string, len: nat, val: bool)
    requires In(s, val) && t != [] && t[0] == '%'
    ensures Run(s, t, len) == Run(Within(s, val, true, Buf(s, val) + ['%']), t[1..], len)
  {
  }

  lemma DigitStep(s: State, b: string, t: string, len: nat, val: bool)
    requires t != []
    ensures IsHex(t[0]) ==>
      Run(Within(s, val, true, b), t, len) == Run(Within(s, val, false, b + [t[0]]), t[1..], len)
    ensures !IsHex(t[0]) && In(s, val) ==>
      Run(Within(s, val, true, b), t, len) ==
      if |b| + 2 >= len then None else Run(With(s, val, b + [t[0]]), t[1..], len)
  {
  }

  lemma LastStep(s: State, b: string, t: string, len: nat, val: bool)
    requires t != [] && In(s, val)
    ensures Run(Within(s, val, false, b), t, len) ==
      if IsHex(t[0]) then Run(With(s, val, b + [t[0]]), t[1..], len) else None
  {
  }

  /** A percent sign and the character behind it. */
  lemma TwoSteps(s: State, t: string, len: nat, val: bool)
    requires In(s, val) && |t| >= 2 && t[0] == '%' && !IsHex(t[1])
    ensures Run(s, t, len) ==
      if |Buf(s, val)| + 3 >= len then None else Run(With(s, val, Buf(s, val) + t[..2]), t[2..], len)
  {
    PercentStep(s, t, len, val);
    DigitStep(s, Buf(s, val) + ['%'], t[1..], len, val);
    assert t[1..][1..] == t[2..] && Buf(s, val) + ['%'] + [t[1]] == Buf(s, val) + t[..2];
  }

  lemma ThreeSteps(s: State, t: string, len: nat, val: bool)
    requires In(s, val) && |t| >= 3 && t[0] == '%' && IsHex(t[1])
    ensures Run(s, t, len) == if IsHex(t[2]) then Run(With(s, val, Buf(s, val) + t[..3]), t[3..], len) else None
  {
    PercentStep(s, t, len, val);
    DigitStep(s, Buf(s, val) + ['%'], t[1..], len, val);
    LastStep(s, Buf(s, val) + ['%'] + [t[1]], t[2..], len, val);
    assert t[1..][1..] == t[2..] && t[2..][1..] == t[3..] && t[2..][0] == t[2];
    assert Buf(s, val) + ['%'] + [t[1]] + [t[2]] == Buf(s, val) + t[..3];
  }

  /** A complete key or value is gathered as it stands. */
  lemma {:induction false} FieldRun(s: State, k: string, more: string, len: nat, val: bool)
    requires In(s, val) && Complete(k, val) && !Cramped(k + more, val, 1 - Before(s, k + more, len, val))
    ensures Run(s, k + more, len) == Run(With(s, val, Buf(s, val) + k), more, len)
    decreases |k|
  {
    var t, b := k + more, Buf(s, val);
    if k == [] {
      assert t == more && b + k == b;
    } else {
      var n := if k[0] != '%' then 1 else if !IsHex(k[1]) then 2 else 3;
      assert t[n..] == k[n..] + more && t[..n] == k[..n] && b + k[..n] + k[n..] == b + k;
      if n == 1 {
        PlainStep(s, t, len, val);
        assert [t[0]] == k[..1];
      } else if n == 2 {
        TwoSteps(s, t, len, val);
      } else {
        ThreeSteps(s, t, len, val);
      }
      FieldRun(With(s, val, b + k[..n]), k[n..], more, len, val);
    }
  }

  /** An unfinished one as well; the phase it ends in does not matter. */
  lemma {:induction false} LastRun(s: State, k: string, len: nat, val: bool)
    requires In(s, val) && Unfinished(k, val) && !Cramped(k, val, 1 - Before(s, k, len, val))
    ensures Run(s, k, len).Some? && Finish(Run(s, k, len).value) == Finish(With(s, val, Buf(s, val) + k))
    decreases |k|
  {
    var b := Buf(s, val);
    if k == [] {
      assert b + k == b;
    } else if k[0] == '%' && |k| == 1 {
      PercentStep(s, k, len, val);
      assert k == ['%'];
    } else if k[0] == '%' && |k| == 2 && IsHex(k[1]) {
      PercentStep(s, k, len, val);
      DigitStep(s, b + ['%'], k[1..], len, val);
      assert b + ['%'] + [k[1]] == b + k && k[1..][1..] == [];
    } else {
      var n := if k[0] != '%' then 1 else if !IsHex(k[1]) then 2 else 3;
      assert b + k[..n] + k[n..] == b + k;
      if n == 1 {
        PlainStep(s, k, len, val);
        assert [k[0]] == k[..1];
      } else if n == 2 {
        TwoSteps(s, k, len, val);
      } else {
        ThreeSteps(s, k, len, val);
      }
      LastRun(With(s, val, b + k[..n]), k[n..], len, val);
    }
  }

  // ----- refusal

  /** Whether the rest of a text, from inside a key or a value, is refused. */
  ghost predicate FieldRefused(t: string, val: bool, room: int) { Broken(t) || Cramped(t, val, room) }

  /** Behind the second character of a text only a broken escape is refused, so stops need no attention there. */
  lemma {:induction false} FieldNone(s: State, t: string, len: nat, val: bool)
    requires In(s, val) && (!val ==> s.val == []) && Before(s, t, len, val) >= (if val then 1 else 0)
    requires !val && t != [] && t[0] == '=' ==> Before(s, t, len, val) + |s.key| >= 1
    ensures Run(s, t, len) == None <==> FieldRefused(t, val, 1 - Before(s, t, len, val))
    decreases |t|
  {
    var b, before := Buf(s, val), Before(s, t, len, val);
    if t == [] {
    } else if t[0] != '%' && Stop(t[0], val) {
      var s' := if val then State(Key, [], [], s.pairs + [Made(s.key, s.val)]) else s.(phase := Val);
      assert Step(s, t[0], len) == Some(s');
      FieldNone(s', t[1..], len, !val);
      NeverCramped(t[1..], !val, 1 - Before(s', t[1..], len, !val));
    } else if t[0] != '%' {
      PlainStep(s, t, len, val);
      FieldNone(With(s, val, b + [t[0]]), t[1..], len, val);
    } else if |t| == 1 {
      PercentStep(s, t, len, val);
    } else if !IsHex(t[1]) {
      TwoSteps(s, t, len, val);
      if |t| - 2 > 1 - before { FieldNone(With(s, val, b + t[..2]), t[2..], len, val); }
    } else if |t| == 2 {
      PercentStep(s, t, len, val);
      DigitStep(s, b + ['%'], t[1..], len, val);
    } else {
      ThreeSteps(s, t, len, val);
      if IsHex(t[2]) { FieldNone(With(s, val, b + t[..3]), t[3..], len, val); }
    }
  }

  /** The text behind its leading slashes. */
  function AfterSlashes(q: string): (r: string)
    ensures |r| <= |q|
  {
    if q != [] && q[0] == '/' then AfterSlashes(q[1..]) else q
  }

  /** Slashes, and then something else than a question mark. */
  predicate Stray(q: string) {
    q != [] && q[0] == '/' && AfterSlashes(q) != [] && AfterSlashes(q)[0] != '?'
  }

  /** The list of pairs: behind a question mark, or slashes and a question mark, or all of the text. */
  function Body(q: string): string {
    if q == [] then []
    else if q[0] == '?' then q[1..]
    else if q[0] == '/' then (if AfterSlashes(q) == [] then [] else AfterSlashes(q)[1..])
    else q
  }

  /** A percent sign without digits so near to the end of a short text that the check of the buffer refuses it: in a
      key that begins the text or stands behind its question mark, or in the value of an empty first key. */
  ghost predicate NoRoom(q: string) {
    q != [] && q[0] != '/' &&
    if q[0] == '?' then Cramped(q[1..], false, 0)
    else if q[0] == '=' then Cramped(q[1..], true, 0)
    else Cramped(q, false, 1)
  }

  ghost predicate Refused(q: string) { Stray(q) || Broken(Body(q)) || NoRoom(q) }

  const NOTHING: State := State(Key, [], [], [])

  lemma {:induction false} SlashRun(q: string, len: nat)
    ensures var r := AfterSlashes(q);
      Run(State(QuestionMark, [], [], []), q, len) ==
      if r == [] then Some(State(QuestionMark, [], [], []))
      else if r[0] == '?' then Run(NOTHING, r[1..], len)
      else None
  {
    if q != [] && q[0] == '/' { SlashRun(q[1..], len); }
  }

  /** Exactly these texts are refused. */
  lemma ParseNone(q: string)
    ensures Parse(q) == None <==> Refused(q)
  {
    if q == [] {
    } else if q[0] == '?' {
      FieldNone(NOTHING, q[1..], |q|, false);
    } else if q[0] == '/' {
      var r := AfterSlashes(q);
      SlashRun(q[1..], |q|);
      if r != [] && r[0] == '?' {
        FieldNone(NOTHING, r[1..], |q|, false);
        NeverCramped(r[1..], false, 1 - Before(NOTHING, r[1..], |q|, false));
      }
    } else if q[0] == '=' {
      FieldNone(NOTHING.(phase := Val), q[1..], |q|, true);
    } else {
      FieldNone(NOTHING, q, |q|, false);
      assert Run(INITIAL, q, |q|) == Run(NOTHING, q, |q|);
    }
  }

  // ----- lists of pairs, joined

  ghost function Text(p: Pair): string { p.key + ['='] + p.val }

  /** Pairs with a separator between each two; a lone last key stands without its sign. */
  ghost function Join(pairs: seq<Pair>, seps: string, lone: bool): string {
    if pairs == [] then []
    else if |pairs| == 1 then (if lone then pairs[0].key else Text(pairs[0]))
    else if seps == [] then []
    else Text(pairs[0]) + ([seps[0]] + Join(pairs[1..], seps[1..], lone))
  }

  /** One separator between each two pairs, either of the two. */
  ghost predicate Between(pairs: seq<Pair>, seps: string) {
    |seps| + 1 == |pairs| && forall i :: 0 <= i < |seps| ==> Stop(seps[i], true)
  }

  /** Complete keys and values; the last one may be unfinished. */
  ghost predicate Listed(pairs: seq<Pair>, lone: bool) {
    pairs != [] &&
    if |pairs| > 1 then Complete(pairs[0].key, false) && Complete(pairs[0].val, true) && Listed(pairs[1..], lone)
    else if lone then Unfinished(pairs[0].key, false) && pairs[0].val == []
    else Complete(pairs[0].key, false) && Unfinished(pairs[0].val, true)
  }

  /** What comes back: all pairs, but for a last one whose key or value is empty. */
  ghost function Kept(pairs: seq<Pair>): seq<Pair> {
    if pairs != [] && (pairs[|pairs| - 1].key == [] || pairs[|pairs| - 1].val == []) then pairs[..|pairs| - 1]
    else pairs
  }

  /** As C strings. */
  ghost function Received(pairs: seq<Pair>): seq<Pair> {
    seq(|pairs|, i requires 0 <= i < |pairs| => Made(pairs[i].key, pairs[i].val))
  }

  lemma KeyThen(s: State, p: Pair, more: string, len: nat)
    requires s == NOTHING.(pairs := s.pairs) && Complete(p.key, false)
    requires !Cramped(p.key + (['='] + more), false, 1 - Before(s, p.key + (['='] + more), len, false))
    ensures Run(s, p.key + (['='] + more), len) == Run(State(Val, p.key, [], s.pairs), more, len)
  {
    FieldRun(s, p.key, ['='] + more, len, false);
    assert [] + p.key == p.key && (['='] + more)[1..] == more;
  }

  /** A pair and the separator behind it. */
  lemma PairThen(s: State, p: Pair, sep: char, more: string, len: nat)
    requires s == NOTHING.(pairs := s.pairs) && Complete(p.key, false) && Complete(p.val, true) && Stop(sep, true)
    requires var t := Text(p) + ([sep] + more); Room(s, t, len)
    ensures Run(s, Text(p) + ([sep] + more), len) == Run(NOTHING.(pairs := s.pairs + [Made(p.key, p.val)]), more, len)
  {
    var v := p.val + ([sep] + more);
    assert Text(p) + ([sep] + more) == p.key + (['='] + v);
    KeyThen(s, p, v, len);
    ValueRoom(s, p.key, v, len);
    ValueThen(State(Val, p.key, [], s.pairs), p.val, sep, more, len);
  }

  lemma ValueThen(s: State, v: string, sep: char, more: string, len: nat)
    requires s.phase == Val && s.val == [] && Complete(v, true) && Stop(sep, true)
    requires !Cramped(v + ([sep] + more), true, 1 - Before(s, v + ([sep] + more), len, true))
    ensures Run(s, v + ([sep] + more), len) == Run(NOTHING.(pairs := s.pairs + [Made(s.key, v)]), more, len)
  {
    FieldRun(s, v, [sep] + more, len, true);
    assert [] + v == v && ([sep] + more)[1..] == more;
  }

  /** From a key on, no percent sign without digits is too near to the end. */
  ghost predicate Room(s: State, t: string, len: nat) {
    Before(s, t, len, false) >= 0 && !Cramped(t, false, 1 - Before(s, t, len, false)) &&
    (t != [] && t[0] == '=' && Before(s, t, len, false) == 0 ==> !Cramped(t[1..], true, 0))
  }

  lemma ValueRoom(s: State, key: string, v: string, len: nat)
    requires s == NOTHING.(pairs := s.pairs) && Room(s, key + (['='] + v), len)
    ensures !Cramped(v, true, 1 - Before(State(Val, key, [], s.pairs), v, len, true))
    ensures Before(State(Val, key, [], s.pairs), v, len, true) >= 1
  {
    var t := key + (['='] + v);
    var before := Before(State(Val, key, [], s.pairs), v, len, true);
    assert before == Before(s, t, len, false) + |key| + 1;
    if before >= 2 {
      NeverCramped(v, true, 1 - before);
    } else {
      assert key == [] && t[0] == '=' && t[1..] == v;
    }
  }

  lemma LaterRoom(s: State, t: string, len: nat)
    requires s == NOTHING.(pairs := s.pairs) && Before(s, t, len, false) >= 2
    ensures Room(s, t, len)
  {
    NeverCramped(t, false, 1 - Before(s, t, len, false));
  }

  /** The last pair, or the lone key. */
  lemma LastThen(s: State, p: Pair, lone: bool, len: nat)
    requires s == NOTHING.(pairs := s.pairs) && Listed([p], lone)
    requires Room(s, if lone then p.key else Text(p), len)
    ensures var r := Run(s, if lone then p.key else Text(p), len);
      r.Some? && Finish(r.value) == s.pairs + if p.key != [] && p.val != [] then [Made(p.key, p.val)] else []
  {
    if lone {
      LastRun(s, p.key, len, false);
      assert [] + p.key == p.key;
    } else {
      assert Text(p) == p.key + (['='] + p.val);
      KeyThen(s, p, p.val, len);
      ValueRoom(s, p.key, p.val, len);
      LastRun(State(Val, p.key, [], s.pairs), p.val, len, true);
      assert [] + p.val == p.val;
    }
  }

  lemma {:induction false} JoinRun(s: State, pairs: seq<Pair>, seps: string, lone: bool, len: nat)
    requires s == NOTHING.(pairs := s.pairs) && Listed(pairs, lone) && Between(pairs, seps)
    requires Room(s, Join(pairs, seps, lone), len)
    ensures var r := Run(s, Join(pairs, seps, lone), len);
      r.Some? && Finish(r.value) == s.pairs + Received(Kept(pairs))
    decreases |pairs|
  {
    var p := pairs[0];
    if |pairs| == 1 {
      assert pairs == [p];
      LastThen(s, p, lone, len);
    } else {
      var more := Join(pairs[1..], seps[1..], lone);
      var s' := NOTHING.(pairs := s.pairs + [Made(p.key, p.val)]);
      PairThen(s, p, seps[0], more, len);
      LaterRoom(s', more, len);
      JoinRun(s', pairs[1..], seps[1..], lone, len);
      KeptMore(s.pairs, pairs);
    }
  }

  lemma KeptMore(before: seq<Pair>, pairs: seq<Pair>)
    requires |pairs| > 1
    ensures before + [Made(pairs[0].key, pairs[0].val)] + Received(Kept(pairs[1..])) == before + Received(Kept(pairs))
  {
    KeptRest(pairs);
    ReceivedMore(pairs[0], Kept(pairs[1..]));
  }

  lemma KeptRest(pairs: seq<Pair>)
    requires |pairs| > 1
    ensures Kept(pairs) == [pairs[0]] + Kept(pairs[1..])
  {
    assert pairs[1..][|pairs| - 2] == pairs[|pairs| - 1];
    assert [pairs[0]] + Kept(pairs[1..]) == Kept(pairs);
  }

  lemma ReceivedMore(p: Pair, pairs: seq<Pair>)
    ensures Received([p] + pairs) == [Made(p.key, p.val)] + Received(pairs)
  {
  }

  /** Nothing, a question mark, or slashes and a question mark. */
  predicate Prefix(p: string) {
    p == "" || p == "?" || (|p| >= 2 && p[0] == '/' && AfterSlashes(p) == "?")
  }

  /** Without a prefix the list begins with neither of its characters. */
  predicate Begins(p: string, t: string) { p == "" && t != [] ==> t[0] != '?' && t[0] != '/' }

  lemma {:induction false} SlashesThen(p: string, t: string)
    requires AfterSlashes(p) == "?"
    ensures AfterSlashes(p + t) == "?" + t
  {
    if p[0] == '/' {
      SlashesThen(p[1..], t);
      assert (p + t)[1..] == p[1..] + t;
    }
  }

  ghost function Finished(r: Option<State>): Option<seq<Pair>> {
    match r
    case None => None
    case Some(s) => Some(Finish(s))
  }

  /** The prefix is passed over. */
  lemma PrefixRun(prefix: string, t: string)
    requires Prefix(prefix) && Begins(prefix, t) && !NoRoom(prefix + t)
    ensures Parse(prefix + t) == Finished(Run(NOTHING, t, |prefix + t|)) && Room(NOTHING, t, |prefix + t|)
  {
    var q := prefix + t;
    if prefix == "" {
      assert q == t;
      assert t != [] ==> Run(INITIAL, q, |q|) == Run(NOTHING, q, |q|);
      assert Finish(INITIAL) == Finish(NOTHING);
    } else if prefix == "?" {
      assert q[0] == '?' && q[1..] == t;
    } else {
      SlashesThen(prefix[1..], t);
      assert q[0] == '/' && q[1..] == prefix[1..] + t && ("?" + t)[1..] == t;
      SlashRun(q[1..], |q|);
      LaterRoom(NOTHING, t, |q|);
    }
  }

  /** Behind its prefix a list that is not refused comes back in order, but for a last pair with an empty half. */
  lemma ParseJoin(prefix: string, pairs: seq<Pair>, seps: string, lone: bool)
    requires Prefix(prefix) && Listed(pairs, lone) && Between(pairs, seps) && Begins(prefix, Join(pairs, seps, lone))
    requires !NoRoom(prefix + Join(pairs, seps, lone))
    ensures Parse(prefix + Join(pairs, seps, lone)) == Some(Received(Kept(pairs)))
  {
    var t := Join(pairs, seps, lone);
    PrefixRun(prefix, t);
    JoinRun(NOTHING, pairs, seps, lone, |prefix + t|);
    assert [] + Received(Kept(pairs)) == Received(Kept(pairs));
  }

  // ----- every text

  /** A text that is not broken begins with a key or a value, up to its stop or its end. */
  lemma {:induction false} SplitField(t: string, val: bool) returns (k: string, more: string)
    requires !Broken(t)
    ensures t == k + more && !Broken(more)
    ensures if more == [] then Unfinished(k, val) else more[0] != '%' && Stop(more[0], val) && Complete(k, val)
    decreases |t|
  {
    if t == [] || t == "%" || (|t| == 2 && t[0] == '%' && IsHex(t[1])) {
      k, more := t, [];
    } else if t[0] != '%' && Stop(t[0], val) {
      k, more := [], t;
    } else {
      var n := if t[0] != '%' then 1 else if !IsHex(t[1]) then 2 else 3;
      k, more := SplitField(t[n..], val);
      UnitThen(t, n, k, more);
      k := t[..n] + k;
    }
  }

  lemma UnitThen(t: string, n: nat, k: string, more: string)
    requires n <= |t| && t[n..] == k + more
    ensures var whole := t[..n] + k;
      t == whole + more && whole[n..] == k && |whole| == n + |k| && forall i :: 0 <= i < n ==> whole[i] == t[i]
  {
  }

  lemma {:induction false} SplitList(t: string) returns (pairs: seq<Pair>, seps: string, lone: bool)
    requires !Broken(t)
    ensures Listed(pairs, lone) && Between(pairs, seps) && Join(pairs, seps, lone) == t
    decreases |t|
  {
    var k, more := SplitField(t, false);
    if more == [] {
      return [Pair(k, [])], [], true;
    }
    var v, more2 := SplitField(more[1..], true);
    PairFront(t, k, more, v, more2);
    if more2 == [] {
      return [Pair(k, v)], [], false;
    }
    pairs, seps, lone := SplitList(more2[1..]);
    JoinMore(Pair(k, v), more2[0], pairs, seps, lone);
    pairs, seps := [Pair(k, v)] + pairs, [more2[0]] + seps;
  }

  lemma PairFront(t: string, k: string, more: string, v: string, more2: string)
    requires t == k + more && more != [] && more[0] == '=' && more[1..] == v + more2
    ensures if more2 == [] then t == Text(Pair(k, v))
      else t == Text(Pair(k, v)) + ([more2[0]] + more2[1..]) && |more2[1..]| < |t|
  {
    assert more == ['='] + more[1..];
    if more2 != [] { assert more2 == [more2[0]] + more2[1..]; }
  }

  lemma JoinMore(p: Pair, sep: char, pairs: seq<Pair>, seps: string, lone: bool)
    requires pairs != []
    ensures Join([p] + pairs, [sep] + seps, lone) == Text(p) + ([sep] + Join(pairs, seps, lone))
    ensures ([p] + pairs)[1..] == pairs
  {
    assert ([p] + pairs)[1..] == pairs && ([sep] + seps)[1..] == seps;
  }

  /** Every text that is not refused is such a list behind such a prefix, or slashes alone, which give no pairs. */
  lemma EveryText(q: string) returns (prefix: string, pairs: seq<Pair>, seps: string, lone: bool)
    requires !Refused(q)
    ensures if SlashesOnly(q) then Parse(q) == Some([])
      else
        Prefix(prefix) && Listed(pairs, lone) && Between(pairs, seps) && Begins(prefix, Join(pairs, seps, lone)) &&
        q == prefix + Join(pairs, seps, lone) && Parse(q) == Some(Received(Kept(pairs)))
  {
    prefix := [];
    pairs, seps, lone := SplitList(Body(q));
    if SlashesOnly(q) {
      SlashesAlone(q);
    } else {
      prefix := q[..|q| - |Body(q)|];
      SplitPrefix(q);
      assert q == prefix + Body(q);
      ParseJoin(prefix, pairs, seps, lone);
    }
  }

  predicate SlashesOnly(q: string) { q != [] && q[0] == '/' && AfterSlashes(q) == [] }

  lemma SlashesAlone(q: string)
    requires SlashesOnly(q)
    ensures Parse(q) == Some([])
  {
    SlashRun(q[1..], |q|);
    var s := State(QuestionMark, [], [], []);
    assert Run(INITIAL, q, |q|) == Run(s, q[1..], |q|) == Some(s);
    assert Finish(s) == [];
  }

  lemma SplitPrefix(q: string)
    requires !Stray(q) && !SlashesOnly(q)
    ensures |Body(q)| <= |q| && q[|q| - |Body(q)|..] == Body(q)
    ensures Prefix(q[..|q| - |Body(q)|]) && Begins(q[..|q| - |Body(q)|], Body(q))
  {
    if q != [] && q[0] == '/' {
      SlashPrefix(q);
      assert Body(q) == AfterSlashes(q)[1..];
    } else if q != [] && q[0] == '?' {
      assert q[..1] == "?";
    } else {
      assert Body(q) == q && q[..0] == "" && q[0..] == q;
    }
  }

  lemma {:induction false} SlashPrefix(q: string)
    requires AfterSlashes(q) != [] && AfterSlashes(q)[0] == '?'
    ensures var n := |q| - |AfterSlashes(q)| + 1;
      AfterSlashes(q[..n]) == "?" && q[n..] == AfterSlashes(q)[1..] && (q[0] == '/' ==> n >= 2)
  {
    var n := |q| - |AfterSlashes(q)| + 1;
    if q[0] == '/' {
      SlashPrefix(q[1..]);
      assert q[1..][..n - 1] == q[..n][1..] && q[1..][n - 1..] == q[n..];
    } else {
      assert q[..1] == "?";
    }
  }

  // ----- well-formed lists

  /** Each percent sign has its two digits. */
  ghost predicate Encoded(s: string) {
    s == [] || (s[0] != '%' && Encoded(s[1..])) ||
    (|s| >= 3 && s[0] == '%' && IsHex(s[1]) && IsHex(s[2]) && Encoded(s[3..]))
  }

  ghost predicate NoStop(s: string, val: bool) { forall i :: 0 <= i < |s| ==> !Stop(s[i], val) }

  /** No zero byte, no percent sign without digits, no sign in a key and no separator in a value. */
  ghost predicate Good(pairs: seq<Pair>) {
    forall p :: p in pairs ==>
      NulFree(p.key + p.val) && Encoded(p.key) && Encoded(p.val) && NoStop(p.key, false) && NoStop(p.val, true)
  }

  lemma {:induction false} EncodedComplete(s: string, more: string, val: bool, room: int)
    requires Encoded(s) && NoStop(s, val) && (more == [] || (more[0] != '%' && Stop(more[0], val)))
    ensures Complete(s, val) && Unfinished(s, val) && !Cramped(s + more, val, room)
    decreases |s|
  {
    if s == [] {
      assert s + more == more;
    } else {
      var n := if s[0] != '%' then 1 else 3;
      assert s[n..] + more == (s + more)[n..];
      EncodedComplete(s[n..], more, val, room);
    }
  }

  lemma {:induction false} GoodListed(pairs: seq<Pair>)
    requires Good(pairs) && pairs != []
    ensures Listed(pairs, false)
    decreases |pairs|
  {
    var p := pairs[0];
    assert p in pairs;
    EncodedComplete(p.key, [], false, 0);
    EncodedComplete(p.val, [], true, 0);
    if |pairs| > 1 {
      assert forall x :: x in pairs[1..] ==> x in pairs;
      GoodListed(pairs[1..]);
    }
  }

  /** The first key or value of a good list gives the check of the buffer nothing to refuse. */
  lemma GoodFirst(pairs: seq<Pair>, seps: string, room: int)
    requires Good(pairs) && Between(pairs, seps)
    ensures var t := Join(pairs, seps, false);
      t != [] && !Cramped(t, false, room) && (t[0] == '=' ==> !Cramped(t[1..], true, room))
  {
    var p, t := pairs[0], Join(pairs, seps, false);
    assert p in pairs;
    var tail := if |pairs| == 1 then [] else [seps[0]] + Join(pairs[1..], seps[1..], false);
    var v := p.val + tail;
    FirstSplit(t, p, tail);
    EncodedComplete(p.key, ['='] + v, false, room);
    EncodedComplete(p.val, tail, true, room);
    if p.key != [] { assert !Stop(p.key[0], false); }
  }

  lemma FirstSplit(t: string, p: Pair, tail: string)
    requires t == Text(p) + tail
    ensures t == p.key + (['='] + (p.val + tail)) && (p.key == [] ==> t[0] == '=' && t[1..] == p.val + tail)
    ensures t != [] && (p.key != [] ==> t[0] == p.key[0])
  {
  }

  lemma GoodRoom(prefix: string, pairs: seq<Pair>, seps: string)
    requires Prefix(prefix) && Good(pairs) && Between(pairs, seps) && Begins(prefix, Join(pairs, seps, false))
    ensures !NoRoom(prefix + Join(pairs, seps, false))
  {
    var t := Join(pairs, seps, false);
    GoodFirst(pairs, seps, 0);
    GoodFirst(pairs, seps, 1);
    if prefix == "?" { assert (prefix + t)[1..] == t; } else if prefix == "" { assert prefix + t == t; }
  }

  /** A good list comes back verbatim and in order, but for a last pair with an empty half. */
  lemma ParseVerbatim(prefix: string, pairs: seq<Pair>, seps: string)
    requires Prefix(prefix) && Good(pairs) && Between(pairs, seps) && Begins(prefix, Join(pairs, seps, false))
    ensures Parse(prefix + Join(pairs, seps, false)) == Some(Kept(pairs))
  {
    GoodListed(pairs);
    GoodRoom(prefix, pairs, seps);
    ParseJoin(prefix, pairs, seps, false);
    forall p | p in Kept(pairs) ensures Made(p.key, p.val) == p {
      assert p in pairs;
      assert p.key == (p.key + p.val)[..|p.key|] && p.val == (p.key + p.val)[|p.key|..];
      UpToNulIs(p.key, |p.key|);
      UpToNulIs(p.val, |p.val|);
    }
    assert Received(Kept(pairs)) == Kept(pairs);
  }

  /** Exactly the lists whose last pair is not half empty come back whole. */
  lemma ParseWhole(prefix: string, pairs: seq<Pair>, seps: string)
    requires Prefix(prefix) && Good(pairs) && Between(pairs, seps) && Begins(prefix, Join(pairs, seps, false))
    ensures Parse(prefix + Join(pairs, seps, false)) == Some(pairs) <==>
      pairs[|pairs| - 1].key != [] && pairs[|pairs| - 1].val != []
  {
    ParseVerbatim(prefix, pairs, seps);
    assert |pairs[..|pairs| - 1]| < |pairs|;
  }

  /** The text "a=" loses its pair. */
  lemma LosesEmptyValue()
    ensures Parse("a=") == Some([])
  {
    OneLetter('a');
    ParseVerbatim("", [Pair("a", "")], "");
    assert "" + Join([Pair("a", "")], "", false) == "a=" && Kept([Pair("a", "")]) == [];
  }

  lemma OneLetter(c: char)
    requires c != '%' && c != '\0' && c != '=' && c != '&' && c != ';'
    ensures Encoded([c]) && Encoded("") && NulFree([c]) && NoStop([c], true) && NoStop([c], false)
  {
    assert [c][1..] == [];
  }

  /** Both separators part pairs. */
  lemma TwoPairs()
    ensures Parse("?a=1;b=2") == Some([Pair("a", "1"), Pair("b", "2")])
  {
    var a, b := Pair("a", "1"), Pair("b", "2");
    OneLetter('a');
    OneLetter('b');
    OneLetter('1');
    OneLetter('2');
    ParseVerbatim("?", [a, b], ";");
    assert [a, b][1..] == [b] && "?" + Join([a, b], ";", false) == "?a=1;b=2";
  }

  /** A percent sign with one digit only; one without digits at the end; a stray path. */
  lemma RefusedTexts()
    ensures Parse("%4g=1") == None && Parse("%z") == None && Parse("/x") == None
  {
    ParseNone("%4g=1");
    ParseNone("%z");
    ParseNone("/x");
    assert "/x"[1..] == "x" && AfterSlashes("/x") == "x";
  }
}
