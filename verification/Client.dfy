/** Whole runs of an mspace: any sequence of malloc and free by a client that frees only
    what it holds. */
module Client {
  import opened Powers
  import opened Memory
  import opened Bins
  import opened Chunks
  import opened Choice
  import opened Space
  import M = Mspace

  datatype Op = Malloc(bytes: nat) | Free(mem: nat)

  /** The client holds exactly the live chunks, each with room for what was asked. */
  ghost predicate Holds(t: Tags, held: map<nat, nat>) {
    (forall mem :: mem in held ==> 16 <= mem && Live(t, mem - 16) && held[mem] + CHUNK_OVERHEAD <= t.Sz(mem - 16)) &&
    (forall p: nat :: Live(t, p) ==> p + 16 in held)
  }

  lemma HoldsMore(t: Tags, u: Tags, held: map<nat, nat>, p: nat, bytes: nat)
    requires Holds(t, held) && bytes < MAX_REQUEST && Allocated(t, u, p, RequestSize(bytes))
    ensures p + 16 !in held && Holds(u, held[p + 16 := bytes])
  {
    RequestSizeRange(bytes);
    assert p + 16 in held ==> Live(t, p);
    forall mem | mem in held ensures Live(u, mem - 16) && u.Sz(mem - 16) == t.Sz(mem - 16) {
      assert mem - 16 != p;
    }
  }

  lemma HoldsLess(t: Tags, u: Tags, held: map<nat, nat>, p: nat)
    requires Holds(t, held) && Freed(t, u, p)
    ensures Holds(u, held - {p + 16})
  {
    forall mem | mem in held && mem != p + 16 ensures Live(u, mem - 16) && u.Sz(mem - 16) == t.Sz(mem - 16) {
      assert mem - 16 != p;
    }
  }

  /** The heap between two calls, and the blocks the client holds then with the bytes asked for. */
  datatype State = State(t: Tags, x: Index, held: map<nat, nat>)

  /** What one operation does. A Free of something not held is no operation of a correct client and is skipped. */
  ghost predicate Next(s: State, op: Op, answer: nat, s': State) {
    match op
    case Malloc(bytes) =>
      Served(s.t, s.x, s'.t, s'.x, bytes, answer) &&
      s'.held == if answer == 0 then s.held else s.held[answer := bytes]
    case Free(mem) =>
      if mem in s.held then
        16 <= mem && Released(s.t, s.x.dv, s.x.dvsize, mem - 16, s'.t, s'.x.dv, s'.x.dvsize) &&
          s'.held == s.held - {mem}
      else s' == s
  }

  ghost predicate Good(s: State, base: nat, end: nat) {
    SpaceOk(s.t, s.x, base, end, {}) && Holds(s.t, s.held)
  }

  /** The states a run goes through, one operation after the other. */
  ghost predicate Traces(trace: seq<State>, ops: seq<Op>, answers: seq<nat>, base: nat, end: nat) {
    |trace| == |ops| + 1 && |answers| == |ops| &&
    (forall i {:trigger trace[i]} :: 0 <= i <= |ops| ==> Good(trace[i], base, end)) &&
    forall i {:trigger ops[i]} :: 0 <= i < |ops| ==> Next(trace[i], ops[i], answers[i], trace[i + 1])
  }

  lemma TraceGrows(trace: seq<State>, ops: seq<Op>, n: nat, answers: seq<nat>, base: nat, end: nat, answer: nat,
        s: State)
    requires n < |ops| && Traces(trace, ops[..n], answers, base, end)
    requires Next(trace[n], ops[n], answer, s) && Good(s, base, end)
    ensures Traces(trace + [s], ops[..n + 1], answers + [answer], base, end)
  {
    var longer := trace + [s];
    forall i | 0 <= i <= n + 1 ensures Good(longer[i], base, end) { assert i <= n ==> longer[i] == trace[i]; }
    forall i | 0 <= i < n + 1 ensures Next(longer[i], ops[..n + 1][i], (answers + [answer])[i], longer[i + 1]) {
      if i < n { assert ops[..n][i] == ops[i]; }
    }
  }

  /** Runs the operations on an mspace: every state on the way is in order, every answer is the one
      the state before calls for, and the last state is the mspace's. */
  method Run(m: M.Mspace, ops: seq<Op>) returns (held: map<nat, nat>, answers: seq<nat>, ghost trace: seq<State>)
    requires m.Valid() && Holds(m.T(), map[])
    requires forall op :: op in ops && op.Malloc? ==> op.bytes < SIZE_T
    modifies m
    ensures Traces(trace, ops, answers, m.base, m.end)
    ensures trace[0] == old(State(m.T(), m.X(), map[])) && trace[|ops|] == State(m.T(), m.X(), held)
  {
    held, answers, trace := map[], [], [State(m.T(), m.X(), map[])];
    for i := 0 to |ops|
      invariant Traces(trace, ops[..i], answers, m.base, m.end) == true
      invariant |trace| == i + 1 && trace[0] == old(State(m.T(), m.X(), map[]))
      invariant trace[i] == State(m.T(), m.X(), held) && m.Valid() == true && Holds(m.T(), held) == true
    {
      assert ops[i] in ops;
      var answer;
      ghost var was := State(m.T(), m.X(), held);
      answer, held := Do(m, ops[i], held);
      TraceGrows(trace, ops, i, answers, m.base, m.end, answer, State(m.T(), m.X(), held));
      answers, trace := answers + [answer], trace + [State(m.T(), m.X(), held)];
    }
    assert ops[..|ops|] == ops;
  }

  method Do(m: M.Mspace, op: Op, held: map<nat, nat>) returns (answer: nat, held': map<nat, nat>)
    requires m.Valid() == true && Holds(m.T(), held) == true && (op.Malloc? ==> op.bytes < SIZE_T)
    modifies m
    ensures m.Valid() == true && Holds(m.T(), held') == true
    ensures Next(State(old(m.T()), old(m.X()), held), op, answer, State(m.T(), m.X(), held')) == true
  {
    ghost var s := State(m.T(), m.X(), held);
    answer, held' := 0, held;
    match op
    case Malloc(bytes) =>
      answer := DoMalloc(m, bytes, held);
      if answer != 0 { held' := held[answer := bytes]; }
      MallocDone(s, bytes, answer, State(m.T(), m.X(), held'));
    case Free(mem) =>
      if mem in held {
        DoFree(m, mem, held);
        held' := held - {mem};
        FreeDone(s, mem, State(m.T(), m.X(), held'));
      }
  }

  lemma MallocDone(s: State, bytes: nat, answer: nat, s': State)
    requires Served(s.t, s.x, s'.t, s'.x, bytes, answer) == true
    requires s'.held == if answer == 0 then s.held else s.held[answer := bytes]
    ensures Next(s, Malloc(bytes), answer, s') == true
  {
  }

  lemma FreeDone(s: State, mem: nat, s': State)
    requires mem in s.held && 16 <= mem && s'.held == s.held - {mem}
    requires Released(s.t, s.x.dv, s.x.dvsize, mem - 16, s'.t, s'.x.dv, s'.x.dvsize) == true
    ensures Next(s, Free(mem), 0, s') == true
  {
  }

  method DoMalloc(m: M.Mspace, bytes: nat, ghost held: map<nat, nat>) returns (mem: nat)
    requires m.Valid() == true && Holds(m.T(), held) == true && bytes < SIZE_T
    modifies m
    ensures m.Valid() == true && Served(old(m.T()), old(m.X()), m.T(), m.X(), bytes, mem) == true
    ensures Holds(m.T(), if mem == 0 then held else held[mem := bytes]) == true
  {
    ghost var t, x := m.T(), m.X();
    mem := m.Malloc(bytes);
    ServedHolds(t, x, m.T(), m.X(), bytes, mem, held);
  }

  method DoFree(m: M.Mspace, mem: nat, ghost held: map<nat, nat>)
    requires m.Valid() == true && Holds(m.T(), held) == true && mem in held
    modifies m
    ensures m.Valid() == true && Holds(m.T(), held - {mem}) == true && 16 <= mem
    ensures Released(old(m.T()), old(m.dv), old(m.dvsize), mem - 16, m.T(), m.dv, m.dvsize) == true
  {
    FreeTagsOk(m.T(), First(m.base), m.end, mem - 16);
    HoldsLess(m.T(), FreeTags(m.T(), mem - 16), held, mem - 16);
    m.Free(mem);
  }

  lemma ServedHolds(t: Tags, x: Index, u: Tags, y: Index, bytes: nat, mem: nat, held: map<nat, nat>)
    requires Served(t, x, u, y, bytes, mem) && Holds(t, held)
    ensures if mem == 0 then Holds(u, held) else mem !in held && Holds(u, held[mem := bytes])
  {
    if mem != 0 { HoldsMore(t, u, held, mem - 16, bytes); }
  }

  /** In every state of a run the blocks held are aligned, lie in the segment and share no byte. */
  lemma BlocksApart(trace: seq<State>, ops: seq<Op>, answers: seq<nat>, base: nat, end: nat, i: nat, a: nat, b: nat)
    requires Traces(trace, ops, answers, base, end) && i <= |ops|
    requires a in trace[i].held && b in trace[i].held && a != b
    ensures a % 8 == 0 && base < a && a + trace[i].held[a] <= end
    ensures a + trace[i].held[a] <= b || b + trace[i].held[b] <= a
  {
    var s := trace[i];
    LiveNotNull(s.t, First(base), end, a - 16);
    LiveDisjoint(s.t, First(base), end, a - 16, b - 16);
  }

  /** And it was not held before. */
  lemma BlockIsNew(trace: seq<State>, ops: seq<Op>, answers: seq<nat>, base: nat, end: nat, i: nat)
    requires Traces(trace, ops, answers, base, end) && i < |ops| && ops[i].Malloc? && answers[i] != 0
    ensures answers[i] !in trace[i].held && trace[i + 1].held == trace[i].held[answers[i] := ops[i].bytes]
  {
    var s, s' := trace[i], trace[i + 1];
    assert Next(s, ops[i], answers[i], s');
    ServedHolds(s.t, s.x, s'.t, s'.x, ops[i].bytes, answers[i], s.held);
  }

  /** In every state of a run the books balance: live, free and top bytes are the segment, whatever is held. */
  lemma Balanced(trace: seq<State>, ops: seq<Op>, answers: seq<nat>, base: nat, end: nat, i: nat)
    requires Traces(trace, ops, answers, base, end) && i <= |ops|
    ensures var t, first := trace[i].t, First(base);
      first <= t.top && Bytes(t, first, first, true) + Bytes(t, first, first, false) + t.topsize == end - first
  {
    assert Good(trace[i], base, end);
    Conservation(trace[i].t, First(base), end);
  }

  /** Whenever the client holds nothing, the mspace is as new: one top, no chunks, no dv. */
  lemma AllReturned(trace: seq<State>, ops: seq<Op>, answers: seq<nat>, base: nat, end: nat, i: nat)
    requires Traces(trace, ops, answers, base, end) && i <= |ops| && trace[i].held == map[]
    ensures trace[i].t.chunks == {} && trace[i].t.top == First(base) && trace[i].x.dvsize == 0 &&
      trace[i].x.binned == {}
  {
    var s := trace[i];
    forall p | p in s.t.chunks ensures !s.t.Inuse(p) { assert !Live(s.t, p); }
    AllFreed(s.t, First(base), end);
  }
}
