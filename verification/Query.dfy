/** The query-string machine of evhttpx.c: one step per character, keys and values gathered
    in two buffers, a pair added at each separator. */
module Query {
  import opened Chars

  datatype Phase = Start | QuestionMark | Key | Val | KeyHex1 | KeyHex2 | ValHex1 | ValHex2

  datatype Pair = Pair(key: string, val: string)

  /** What the machine remembers: its phase, both buffers up to their index, and the list. */
  datatype State = State(phase: Phase, key: string, val: string, pairs: seq<Pair>)

  datatype Option<T> = None | Some(value: T)

  /** A C string ends at its first zero byte. */
  function UpToNul(s: string): string { if s == [] || s[0] == '\0' then [] else [s[0]] + UpToNul(s[1..]) }

  /** evhttpx_kv_new copies what strlen counts. */
  function Made(key: string, val: string): Pair { Pair(UpToNul(key), UpToNul(val)) }

  function KeyStep(s: State, c: char): State {
    if c == '=' then s.(phase := Val)
    else if c == '%' then s.(phase := KeyHex1, key := s.key + [c])
    else s.(phase := Key, key := s.key + [c])
  }

  function ValStep(s: State, c: char): State {
    if c == ';' || c == '&' then State(Key, [], [], s.pairs + [Made(s.key, s.val)])
    else if c == '%' then s.(phase := ValHex1, val := s.val + [c])
    else s.(val := s.val + [c])
  }

  /** One character; None is the error exit. */
  function Step(s: State, c: char, len: nat): Option<State> {
    match s.phase
    case Start =>
      var cleared := s.(key := [], val := []);
      if c == '?' then Some(cleared.(phase := Key))
      else if c == '/' then Some(cleared.(phase := QuestionMark))
      else Some(KeyStep(cleared, c))
    case QuestionMark => if c == '?' then Some(s.(phase := Key)) else if c == '/' then Some(s) else None
    case Key => Some(KeyStep(s, c))
    case KeyHex1 =>
      if IsHex(c) then Some(s.(phase := KeyHex2, key := s.key + [c]))
      else if |s.key| + 2 >= len then None
      else Some(s.(phase := Key, key := s.key + [c]))
    case KeyHex2 => if IsHex(c) then Some(s.(phase := Key, key := s.key + [c])) else None
    case Val => Some(ValStep(s, c))
    case ValHex1 =>
      if IsHex(c) then Some(s.(phase := ValHex2, val := s.val + [c]))
      else if |s.val| + 2 >= len then None
      else Some(s.(phase := Val, val := s.val + [c]))
    case ValHex2 => if IsHex(c) then Some(s.(phase := Val, val := s.val + [c])) else None
  }

  function Run(s: State, q: string, len: nat): Option<State>
    decreases q
  {
    if q == [] then Some(s)
    else
      match Step(s, q[0], len)
      case None => None
      case Some(s') => Run(s', q[1..], len)
  }

  /** The last pair is added only if both its key and its value are non-empty. */
  function Finish(s: State): seq<Pair> { s.pairs + if s.key != [] && s.val != [] then [Made(s.key, s.val)] else [] }

  const INITIAL: State := State(Start, [], [], [])

  /** evhttpx_parse_query as a function */
  function Parse(q: string): Option<seq<Pair>> {
    match Run(INITIAL, q, |q|)
    case None => None
    case Some(s) => Some(Finish(s))
  }

  // ----- the machine in place

  /** The buffer holds s up to its index, with a zero byte behind. */
  ghost predicate Holds(buf: array<char>, idx: nat, s: string)
    reads buf
  {
    idx == |s| < buf.Length && buf[..idx] == s && buf[idx] == '\0'
  }

  /** buf[idx++] = ch; buf[idx] = 0 */
  method PutChar(buf: array<char>, idx: nat, ch: char, ghost s: string) returns (idx': nat)
    requires Holds(buf, idx, s) == true && idx + 1 < buf.Length
    modifies buf
    ensures idx' == idx + 1 && Holds(buf, idx', s + [ch]) == true
  {
    buf[idx] := ch;
    idx' := idx + 1;
    buf[idx'] := '\0';
  }

  /** memset(buf, 0, len), and the index back to zero */
  method ClearBuf(buf: array<char>, len: nat)
    requires 0 < len && buf.Length == len + 1
    modifies buf
    ensures Holds(buf, 0, []) == true
  {
    var i := 0;
    while i < len
      invariant i <= len && forall j :: 0 <= j < i ==> buf[j] == '\0'
    {
      buf[i] := '\0';
      i := i + 1;
    }
  }

  /** evhttpx_kv_new's copy: strlen, then that many bytes. */
  method Copy(buf: array<char>, idx: nat, ghost s: string) returns (c: string)
    requires Holds(buf, idx, s) == true
    ensures c == UpToNul(s)
  {
    var n := 0;
    assert forall i :: 0 <= i < idx ==> buf[i] == s[i];
    assert s[0..] == s && [] + UpToNul(s) == UpToNul(s);
    while buf[n] != '\0'
      invariant n <= idx && UpToNul(s) == s[..n] + UpToNul(s[n..])
      decreases idx - n
    {
      assert s[n..][0] == s[n] && s[n..][1..] == s[n + 1..];
      assert s[..n] + ([s[n]] + UpToNul(s[n + 1..])) == s[..n + 1] + UpToNul(s[n + 1..]);
      n := n + 1;
    }
    assert UpToNul(s[n..]) == [];
    c := buf[..n];
    assert c == s[..n];
  }

  /** The machine's variables, between two characters. */
  ghost predicate At(s: State, key_buf: array<char>, key_idx: nat, val_buf: array<char>, val_idx: nat)
    reads key_buf, val_buf
  {
    key_buf != val_buf && (s.phase != Start ==> Holds(key_buf, key_idx, s.key) && Holds(val_buf, val_idx, s.val)) &&
    (s.phase == Start ==> key_idx == 0 && val_idx == 0 && s.key == [] && s.val == [])
  }

  /** The character goes to the key. */
  method AddKey(key_buf: array<char>, key_idx: nat, val_buf: array<char>, ghost val_idx: nat, ch: char,
        ghost s: State, ghost phase: Phase)
    returns (idx: nat)
    requires At(s, key_buf, key_idx, val_buf, val_idx) == true && s.phase != Start && phase != Start &&
      key_idx + 1 < key_buf.Length
    modifies key_buf
    ensures idx == key_idx + 1 && At(s.(phase := phase, key := s.key + [ch]), key_buf, idx, val_buf, val_idx) == true
  {
    idx := PutChar(key_buf, key_idx, ch, s.key);
  }

  /** The character goes to the value. */
  method AddVal(key_buf: array<char>, ghost key_idx: nat, val_buf: array<char>, val_idx: nat, ch: char,
        ghost s: State, ghost phase: Phase)
    returns (idx: nat)
    requires At(s, key_buf, key_idx, val_buf, val_idx) == true && s.phase != Start && phase != Start &&
      val_idx + 1 < val_buf.Length
    modifies val_buf
    ensures idx == val_idx + 1 && At(s.(phase := phase, val := s.val + [ch]), key_buf, key_idx, val_buf, idx) == true
  {
    idx := PutChar(val_buf, val_idx, ch, s.val);
  }

  /** Both buffers emptied. */
  method Reset(key_buf: array<char>, val_buf: array<char>, len: nat, ghost s: State, ghost phase: Phase)
    requires key_buf != val_buf && 0 < len && key_buf.Length == val_buf.Length == len + 1 && phase != Start
    modifies key_buf, val_buf
    ensures At(State(phase, [], [], s.pairs), key_buf, 0, val_buf, 0) == true
  {
    ClearBuf(key_buf, len);
    ClearBuf(val_buf, len);
  }

  /** case s_query_key, and the label query_key */
  method OnKey(key_buf: array<char>, key_idx0: nat, val_buf: array<char>, ghost val_idx: nat, ch: char, ghost s: State)
    returns (phase: Phase, key_idx: nat)
    requires At(s, key_buf, key_idx0, val_buf, val_idx) == true && s.phase == Key && key_idx0 + 1 < key_buf.Length
    modifies key_buf
    ensures phase == KeyStep(s, ch).phase && key_idx <= key_idx0 + 1 &&
      At(KeyStep(s, ch), key_buf, key_idx, val_buf, val_idx) == true
  {
    if ch == '=' {
      return Val, key_idx0;
    }
    phase := if ch == '%' then KeyHex1 else Key;
    key_idx := AddKey(key_buf, key_idx0, val_buf, val_idx, ch, s, phase);
  }

  /** case s_query_val */
  method OnVal(key_buf: array<char>, key_idx0: nat, val_buf: array<char>, val_idx0: nat, len: nat, ch: char,
        pairs0: seq<Pair>, ghost s: State)
    returns (phase: Phase, key_idx: nat, val_idx: nat, pairs: seq<Pair>)
    requires At(s, key_buf, key_idx0, val_buf, val_idx0) == true && s.phase == Val && pairs0 == s.pairs
    requires 0 < len && key_buf.Length == val_buf.Length == len + 1 && val_idx0 < len
    modifies key_buf, val_buf
    ensures var s' := ValStep(s, ch);
      phase == s'.phase && pairs == s'.pairs && At(s', key_buf, key_idx, val_buf, val_idx) == true
    ensures key_idx <= key_idx0 && val_idx <= val_idx0 + 1
  {
    pairs, key_idx, val_idx := pairs0, key_idx0, val_idx0;
    if ch == ';' || ch == '&' {
      var k := Copy(key_buf, key_idx, s.key);
      var v := Copy(val_buf, val_idx, s.val);
      pairs := pairs + [Pair(k, v)];
      Reset(key_buf, val_buf, len, s.(pairs := pairs), Key);
      return Key, 0, 0, pairs;
    }
    phase := if ch == '%' then ValHex1 else Val;
    val_idx := AddVal(key_buf, key_idx, val_buf, val_idx, ch, s, phase);
  }

  /** case s_query_start */
  method OnStart(key_buf: array<char>, val_buf: array<char>, len: nat, ch: char, ghost s: State)
      returns (phase: Phase, key_idx: nat)
    requires key_buf != val_buf && 0 < len && key_buf.Length == val_buf.Length == len + 1 && s.phase == Start
    modifies key_buf, val_buf
    ensures var o := Step(s, ch, len);
      o.Some? && o.value.phase == phase != Start && o.value.pairs == s.pairs && key_idx <= 1 &&
      At(o.value, key_buf, key_idx, val_buf, 0) == true
  {
    key_idx := 0;
    if ch == '?' {
      Reset(key_buf, val_buf, len, s, Key);
      phase := Key;
    } else if ch == '/' {
      Reset(key_buf, val_buf, len, s, QuestionMark);
      phase := QuestionMark;
    } else {
      Reset(key_buf, val_buf, len, s, Key);
      phase, key_idx := OnKey(key_buf, 0, val_buf, 0, ch, State(Key, [], [], s.pairs));
    }
  }

  /** The hexadecimal cases of a key: the first digit missing makes the percent sign an ordinary character. */
  method OnKeyHex(phase0: Phase, key_buf: array<char>, key_idx0: nat, val_buf: array<char>, ghost val_idx: nat,
        len: nat, ch: char, ghost s: State)
    returns (ok: bool, phase: Phase, key_idx: nat)
    requires At(s, key_buf, key_idx0, val_buf, val_idx) == true && s.phase == phase0 &&
      (phase0 == KeyHex1 || phase0 == KeyHex2)
    requires key_idx0 + 1 < key_buf.Length
    modifies key_buf
    ensures var o := Step(s, ch, len);
      if !ok then o == None
      else (o.Some? && o.value.phase == phase != Start && o.value.pairs == s.pairs && key_idx <= key_idx0 + 1 &&
            At(o.value, key_buf, key_idx, val_buf, val_idx) == true)
  {
    key_idx := key_idx0;
    SameKey(s, key_buf, key_idx, val_buf, val_idx);
    if !IsHex(ch) {
      if phase0 == KeyHex2 || key_idx + 2 >= len {
        return false, phase0, key_idx;
      }
      phase := Key;
    } else {
      phase := if phase0 == KeyHex1 then KeyHex2 else Key;
    }
    ok := true;
    key_idx := AddKey(key_buf, key_idx, val_buf, val_idx, ch, s, phase);
  }

  lemma SameKey(s: State, key_buf: array<char>, key_idx: nat, val_buf: array<char>, val_idx: nat)
    requires At(s, key_buf, key_idx, val_buf, val_idx)
    ensures key_idx == |s.key| && val_idx == |s.val|
  {
  }

  /** The hexadecimal cases of a value. */
  method OnValHex(phase0: Phase, key_buf: array<char>, ghost key_idx: nat, val_buf: array<char>, val_idx0: nat,
        len: nat, ch: char, ghost s: State)
    returns (ok: bool, phase: Phase, val_idx: nat)
    requires At(s, key_buf, key_idx, val_buf, val_idx0) == true && s.phase == phase0 &&
      (phase0 == ValHex1 || phase0 == ValHex2)
    requires val_idx0 + 1 < val_buf.Length
    modifies val_buf
    ensures var o := Step(s, ch, len);
      if !ok then o == None
      else (o.Some? && o.value.phase == phase != Start && o.value.pairs == s.pairs && val_idx <= val_idx0 + 1 &&
            At(o.value, key_buf, key_idx, val_buf, val_idx) == true)
  {
    val_idx := val_idx0;
    SameKey(s, key_buf, key_idx, val_buf, val_idx);
    if !IsHex(ch) {
      if phase0 == ValHex2 || val_idx + 2 >= len {
        return false, phase0, val_idx;
      }
      phase := Val;
    } else {
      phase := if phase0 == ValHex1 then ValHex2 else Val;
    }
    ok := true;
    val_idx := AddVal(key_buf, key_idx, val_buf, val_idx, ch, s, phase);
  }

  /** The switch over the state. */
  method Switch(phase0: Phase, key_buf: array<char>, key_idx0: nat, val_buf: array<char>, val_idx0: nat, len: nat,
        ch: char, pairs0: seq<Pair>, ghost s: State)
    returns (ok: bool, phase: Phase, key_idx: nat, val_idx: nat, pairs: seq<Pair>)
    requires At(s, key_buf, key_idx0, val_buf, val_idx0) == true && s.phase == phase0 && s.pairs == pairs0 &&
      key_buf != val_buf
    requires key_buf.Length == val_buf.Length == len + 1 && key_idx0 < len && val_idx0 < len
    modifies key_buf, val_buf
    ensures var o := Step(s, ch, len);
      if !ok then o == None
      else (o.Some? && o.value.phase == phase != Start && o.value.pairs == pairs && key_idx <= key_idx0 + 1 &&
        val_idx <= val_idx0 + 1 &&
            At(o.value, key_buf, key_idx, val_buf, val_idx) == true)
  {
    ok, phase, key_idx, val_idx, pairs := true, phase0, key_idx0, val_idx0, pairs0;
    match phase0
    case Start =>
      SameKey(s, key_buf, key_idx, val_buf, val_idx);
      phase, key_idx := OnStart(key_buf, val_buf, len, ch, s);
      val_idx := 0;
    case QuestionMark =>
      if ch == '?' {
        phase := Key;
      } else {
        ok := ch == '/';
      }
    case Key => phase, key_idx := OnKey(key_buf, key_idx, val_buf, val_idx, ch, s);
    case KeyHex1 => ok, phase, key_idx := OnKeyHex(phase, key_buf, key_idx, val_buf, val_idx, len, ch, s);
    case KeyHex2 => ok, phase, key_idx := OnKeyHex(phase, key_buf, key_idx, val_buf, val_idx, len, ch, s);
    case Val => phase, key_idx, val_idx, pairs := OnVal(key_buf, key_idx, val_buf, val_idx, len, ch, pairs, s);
    case ValHex1 => ok, phase, val_idx := OnValHex(phase, key_buf, key_idx, val_buf, val_idx, len, ch, s);
    case ValHex2 => ok, phase, val_idx := OnValHex(phase, key_buf, key_idx, val_buf, val_idx, len, ch, s);
  }

  /** evhttpx_parse_query. The guard at the head of its loop is there, and never fires. */
  method ParseQuery(query: string) returns (r: Option<seq<Pair>>, guarded: bool)
    ensures r == Parse(query) && !guarded
  {
    var len := |query|;
    var key_buf := new char[len + 1];
    var val_buf := new char[len + 1];
    var phase, key_idx: nat, val_idx: nat, pairs := Start, 0, 0, [];
    guarded := false;
    ghost var s := INITIAL;
    var i := 0;
    assert query[0..] == query;
    while i < len
      invariant i <= len && key_idx <= i && val_idx <= i && !guarded && key_buf != val_buf
      invariant At(s, key_buf, key_idx, val_buf, val_idx) == true && s.phase == phase && s.pairs == pairs &&
        (phase == Start ==> i == 0)
      invariant Run(INITIAL, query, len) == Run(s, query[i..], len)
    {
      var ch := query[i];
      assert query[i..][0] == ch && query[i..][1..] == query[i + 1..];
      if key_idx >= len || val_idx >= len {
        guarded := true;
        return None, guarded;
      }
      var ok;
      ghost var o := Step(s, ch, len);
      ok, phase, key_idx, val_idx, pairs := Switch(phase, key_buf, key_idx, val_buf, val_idx, len, ch, pairs, s);
      if !ok {
        return None, false;
      }
      s := o.value;
      i := i + 1;
    }
    SameKey(s, key_buf, key_idx, val_buf, val_idx);
    assert query[i..] == [] && s.pairs + [] == pairs;
    if key_idx != 0 && val_idx != 0 {
      var k, v := CopyBoth(key_buf, key_idx, val_buf, val_idx, s);
      pairs := pairs + [Pair(k, v)];
    }
    r := Some(pairs);
  }

  method CopyBoth(key_buf: array<char>, key_idx: nat, val_buf: array<char>, val_idx: nat, ghost s: State)
      returns (k: string, v: string)
    requires At(s, key_buf, key_idx, val_buf, val_idx) == true && s.key != []
    ensures Pair(k, v) == Made(s.key, s.val)
  {
    k := Copy(key_buf, key_idx, s.key);
    v := Copy(val_buf, val_idx, s.val);
  }
}
