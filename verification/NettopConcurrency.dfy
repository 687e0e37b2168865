/**
 `account` on many CPUs at once: fetch-or-create interleaved at single map operations.

 No call is atomic here. Each step of a run advances one call by one map operation or one
 atomic add; any number of calls, for any pids, may be in flight. No row is reaped meanwhile.
 */
module NettopConcurrency {
  import opened Words
  import opened Options
  import opened NettopModel

  /** Where a call stands: the next operation it will make, or how it ended. */
  datatype Pc = FirstLookup | Insert | SecondLookup | AddBytes | AddCall | Stamp | Done | Dropped

  datatype Call = Call(pid: Pid, bytes: nat, isTx: bool, comm: string, pc: Pc)

  datatype State = State(rows: map<Pid, Stats>, calls: seq<Call>)

  datatype Step =
    | Begin(pid: Pid, bytes: nat, isTx: bool, comm: string)
    | Advance(i: nat, now: nat)

  predicate Possible(s: State, e: Step) {
    match e
    case Begin(pid, _, _, _) => pid != 0
    case Advance(i, _) => i < |s.calls| && !Finished(s.calls[i])
  }

  predicate Finished(c: Call) {
    c.pc == Done || c.pc == Dropped
  }

  /** A call past its lookups holds a pointer into a row. */
  predicate HasRow(c: Call) {
    c.pc == AddBytes || c.pc == AddCall || c.pc == Stamp || c.pc == Done
  }

  function AddBytesTo(s: Stats, c: Call): Stats {
    if c.isTx then s.(tx := Add64(s.tx, c.bytes)) else s.(rx := Add64(s.rx, c.bytes))
  }

  function AddCallTo(s: Stats, c: Call): Stats {
    if c.isTx then s.(txCalls := Add64(s.txCalls, 1)) else s.(rxCalls := Add64(s.rxCalls, 1))
  }

  /** One operation of `c`: the rows after it, and where the call stands then. */
  function Operate(rows: map<Pid, Stats>, c: Call, now: nat): (map<Pid, Stats>, Pc) {
    if HasRow(c) && c.pid !in rows then (rows, c.pc)  // a pointer outlives its row only if rows are reaped
    else match c.pc
    case FirstLookup => (rows, if c.pid in rows then AddBytes else Insert)
    case Insert =>
      // BPF_NOEXIST: a lost race, or a full map, changes nothing
      (if c.pid !in rows && |rows| < MAX_PROCS then rows[c.pid := NewStats(c.comm)] else rows, SecondLookup)
    case SecondLookup => (rows, if c.pid in rows then AddBytes else Dropped)
    case AddBytes => (rows[c.pid := AddBytesTo(rows[c.pid], c)], AddCall)
    case AddCall => (rows[c.pid := AddCallTo(rows[c.pid], c)], Stamp)
    case Stamp => (rows[c.pid := rows[c.pid].(lastNs := now)], Done)
    case Done => (rows, Done)
    case Dropped => (rows, Dropped)
  }

  ghost predicate RowsHeld(s: State) {
    forall i :: 0 <= i < |s.calls| && HasRow(s.calls[i]) ==> s.calls[i].pid in s.rows
  }

  function Apply(s: State, e: Step): State
    requires Possible(s, e)
  {
    match e
    case Begin(pid, bytes, isTx, comm) => s.(calls := s.calls + [Call(pid, bytes, isTx, comm, FirstLookup)])
    case Advance(i, now) =>
      var (rows, pc) := Operate(s.rows, s.calls[i], now);
      State(rows, s.calls[i := s.calls[i].(pc := pc)])
  }

  // ---- what the rows should hold ------------------------------------------

  datatype Column = TxBytes | RxBytes | TxCalls | RxCalls

  function Field(s: Stats, col: Column): nat {
    match col
    case TxBytes => s.tx
    case RxBytes => s.rx
    case TxCalls => s.txCalls
    case RxCalls => s.rxCalls
  }

  /** What a call is worth in a column, once all its adds are done. */
  function Worth(c: Call, p: Pid, col: Column): nat {
    if c.pid != p then 0
    else match col
      case TxBytes => if c.isTx then c.bytes else 0
      case RxBytes => if c.isTx then 0 else c.bytes
      case TxCalls => if c.isTx then 1 else 0
      case RxCalls => if c.isTx then 0 else 1
  }

  /** What a call has added so far. */
  function Added(c: Call, p: Pid, col: Column): nat {
    if col.TxBytes? || col.RxBytes? then
      if c.pc == AddCall || c.pc == Stamp || c.pc == Done then Worth(c, p, col) else 0
    else
      if c.pc == Stamp || c.pc == Done then Worth(c, p, col) else 0
  }

  function SumAdded(calls: seq<Call>, p: Pid, col: Column): nat {
    if calls == [] then 0
    else SumAdded(calls[..|calls|-1], p, col) + Added(calls[|calls|-1], p, col)
  }

  function SumWorth(calls: seq<Call>, p: Pid, col: Column): nat {
    if calls == [] then 0
    else SumWorth(calls[..|calls|-1], p, col) + Worth(calls[|calls|-1], p, col)
  }

  lemma {:induction false} SumAddedUpdate(calls: seq<Call>, i: nat, c: Call, p: Pid, col: Column)
    requires i < |calls|
    ensures SumAdded(calls[i := c], p, col) + Added(calls[i], p, col) == SumAdded(calls, p, col) + Added(c, p, col)
  {
    var last := |calls| - 1;
    if i == last {
      assert calls[i := c][..last] == calls[..last];
    } else {
      assert calls[i := c][..last] == calls[..last][i := c];
      SumAddedUpdate(calls[..last], i, c, p, col);
    }
  }

  lemma {:induction false} SumAddedAtMostWorth(calls: seq<Call>, p: Pid, col: Column)
    ensures SumAdded(calls, p, col) <= SumWorth(calls, p, col)
    ensures (forall i :: 0 <= i < |calls| && calls[i].pid == p ==> calls[i].pc == Done) ==>
              SumAdded(calls, p, col) == SumWorth(calls, p, col)
  {
    if calls != [] {
      SumAddedAtMostWorth(calls[..|calls|-1], p, col);
    }
  }

  lemma {:induction false} SumWorthKeepsPc(calls: seq<Call>, i: nat, pc: Pc, p: Pid, col: Column)
    requires i < |calls|
    ensures SumWorth(calls[i := calls[i].(pc := pc)], p, col) == SumWorth(calls, p, col)
  {
    var last, calls' := |calls| - 1, calls[i := calls[i].(pc := pc)];
    if i == last {
      assert calls'[..last] == calls[..last];
    } else {
      assert calls'[..last] == calls[..last][i := calls[..last][i].(pc := pc)];
      SumWorthKeepsPc(calls[..last], i, pc, p, col);
    }
  }

  // ---- the invariant ------------------------------------------------------

  /** No counter can have wrapped. */
  ghost predicate NoWrap(calls: seq<Call>) {
    forall p, col :: SumWorth(calls, p, col) < U64
  }

  ghost predicate Exact(s: State, p: Pid, col: Column) {
    SumAdded(s.calls, p, col) == FieldOr0(s.rows, p, col)
  }

  /** A call is dropped, or about to be, only on a full map that lacks its pid. */
  ghost predicate DropsJustified(s: State) {
    forall i :: 0 <= i < |s.calls| ==>
      && (s.calls[i].pc == Dropped ==> s.calls[i].pid !in s.rows)
      && (s.calls[i].pc == Dropped || (s.calls[i].pc == SecondLookup && s.calls[i].pid !in s.rows) ==> |s.rows| == MAX_PROCS)
  }

  ghost predicate Inv(s: State) {
    && |s.rows| <= MAX_PROCS && RowsHeld(s) && DropsJustified(s)
    && (forall p, col :: Exact(s, p, col))
  }

  function FieldOr0(rows: map<Pid, Stats>, p: Pid, col: Column): nat {
    if p in rows then Field(rows[p], col) else 0
  }

  /** An operation changes a column by exactly what the call's own progress accounts for. */
  lemma OperateField(rows: map<Pid, Stats>, c: Call, now: nat, p: Pid, col: Column)
    requires HasRow(c) ==> c.pid in rows
    requires var c' := c.(pc := Operate(rows, c, now).1);
             FieldOr0(rows, p, col) + Added(c', p, col) < U64 + Added(c, p, col)
    ensures var (rows', pc') := Operate(rows, c, now);
            FieldOr0(rows', p, col) + Added(c, p, col) == FieldOr0(rows, p, col) + Added(c.(pc := pc'), p, col)
  {
    if c.pid == p {
      match c.pc
      case AddBytes =>
      case AddCall =>
      case _ =>
    }
  }

  lemma OperateExact(s: State, i: nat, now: nat, p: Pid, col: Column)
    requires Inv(s) && NoWrap(s.calls) && Possible(s, Advance(i, now))
    ensures Exact(Apply(s, Advance(i, now)), p, col)
  {
    var c := s.calls[i];
    var pc := Operate(s.rows, c, now).1;
    var calls' := s.calls[i := c.(pc := pc)];
    assert Exact(s, p, col);
    SumAddedUpdate(s.calls, i, c.(pc := pc), p, col);
    SumWorthKeepsPc(s.calls, i, pc, p, col);
    SumAddedAtMostWorth(calls', p, col);
    assert SumWorth(s.calls, p, col) < U64;
    OperateField(s.rows, c, now, p, col);
  }

  lemma OperateKeeps(s: State, i: nat, now: nat)
    requires Inv(s) && NoWrap(s.calls) && Possible(s, Advance(i, now))
    ensures Inv(Apply(s, Advance(i, now)))
  {
    var s' := Apply(s, Advance(i, now));
    assert s'.rows.Keys == s.rows.Keys || s'.rows.Keys == s.rows.Keys + {s.calls[i].pid};
    forall p, col
      ensures Exact(s', p, col)
    {
      OperateExact(s, i, now, p, col);
    }
  }

  lemma BeginKeeps(s: State, e: Step)
    requires Inv(s) && e.Begin? && Possible(s, e)
    ensures Inv(Apply(s, e))
  {
    var s' := Apply(s, e);
    assert s'.calls[..|s.calls|] == s.calls;
    forall p, col
      ensures Exact(s', p, col)
    {
      assert Exact(s, p, col);
    }
  }

  // ---- whole runs ---------------------------------------------------------

  /** The state after `es`, if each of its steps was possible when taken. */
  function Replay(es: seq<Step>): Option<State> {
    if es == [] then Some(State(map[], []))
    else
      var before := Replay(es[..|es|-1]);
      if before.Some? && Possible(before.value, es[|es|-1]) then Some(Apply(before.value, es[|es|-1])) else None
  }

  lemma {:induction false} NoWrapBefore(s: State, e: Step)
    requires Possible(s, e) && NoWrap(Apply(s, e).calls)
    ensures NoWrap(s.calls)
  {
    var calls' := Apply(s, e).calls;
    forall p, col
      ensures SumWorth(s.calls, p, col) < U64
    {
      assert SumWorth(calls', p, col) < U64;
      match e
      case Begin(_, _, _, _) =>
        assert calls'[..|s.calls|] == s.calls;
      case Advance(i, now) =>
        SumWorthKeepsPc(s.calls, i, calls'[i].pc, p, col);
    }
  }

  lemma StepKeeps(s: State, e: Step)
    requires Inv(s) && Possible(s, e) && NoWrap(s.calls)
    ensures Inv(Apply(s, e))
  {
    if e.Begin? {
      BeginKeeps(s, e);
    } else {
      OperateKeeps(s, e.i, e.now);
    }
  }

  /** Every state of every interleaving satisfies the invariant. */
  lemma {:induction false} RunInv(es: seq<Step>)
    requires Replay(es).Some? && NoWrap(Replay(es).value.calls)
    ensures Inv(Replay(es).value)
  {
    if es == [] {
    } else {
      var s := Replay(es[..|es|-1]).value;
      NoWrapBefore(s, es[|es|-1]);
      RunInv(es[..|es|-1]);
      StepKeeps(s, es[|es|-1]);
    }
  }

  /**
   Fetch-or-create loses nothing: once all calls of `p` have finished, its row holds in every
   column exactly what all those calls are worth; and if there is no row, either nobody called
   or the map is full.
   */
  lemma NothingLost(s: State, es: seq<Step>, p: Pid, col: Column)
    requires Replay(es) == Some(s) && NoWrap(s.calls)
    requires forall i :: 0 <= i < |s.calls| && s.calls[i].pid == p ==> Finished(s.calls[i])
    ensures p in s.rows ==> Field(s.rows[p], col) == SumWorth(s.calls, p, col)
    ensures p !in s.rows ==> |s.rows| == MAX_PROCS || SumWorth(s.calls, p, col) == 0
  {
    RunInv(es);
    assert Exact(s, p, col);
    SumAddedAtMostWorth(s.calls, p, col);
  }

  /** Mid-run, a row never holds more than its callers are worth, and no column goes uncounted. */
  lemma NeverOvercounts(s: State, es: seq<Step>, p: Pid, col: Column)
    requires Replay(es) == Some(s) && NoWrap(s.calls) && p in s.rows
    ensures Field(s.rows[p], col) == SumAdded(s.calls, p, col) <= SumWorth(s.calls, p, col)
  {
    RunInv(es);
    assert Exact(s, p, col);
    SumAddedAtMostWorth(s.calls, p, col);
  }

  // ---- one call on its own ------------------------------------------------

  function Remaining(pc: Pc): nat {
    match pc
    case FirstLookup => 6 case Insert => 5 case SecondLookup => 4
    case AddBytes => 3 case AddCall => 2 case Stamp => 1
    case Done => 0 case Dropped => 0
  }

  /** Run `c` to its end with nobody else moving. */
  function Alone(rows: map<Pid, Stats>, c: Call, now: nat): map<Pid, Stats>
    decreases Remaining(c.pc)
  {
    if Finished(c) || (HasRow(c) && c.pid !in rows) then rows
    else
      var (rows', pc) := Operate(rows, c, now);
      Alone(rows', c.(pc := pc), now)
  }

  /** Uninterrupted, the operations of a call add up to the atomic step that runs of nettop replay. */
  lemma AloneIsAtomic(rows: map<Pid, Stats>, c: Call, now: nat)
    requires c.pc == FirstLookup && c.pid != 0
    ensures Alone(rows, c, now) == AccountRow(rows, c.pid, c.bytes, c.isTx, now, c.comm)
  {
    var ready := c.(pc := AddBytes);
    if c.pid in rows {
      AddsAreBump(rows, ready, now);
      assert Alone(rows, c, now) == Alone(rows, ready, now);
    } else {
      var rows' := Operate(rows, c.(pc := Insert), now).0;
      assert Alone(rows, c, now) == Alone(rows, c.(pc := Insert), now);
      assert Alone(rows, c.(pc := Insert), now) == Alone(rows', c.(pc := SecondLookup), now);
      if |rows| < MAX_PROCS {
        AddsAreBump(rows', ready, now);
        assert Alone(rows', c.(pc := SecondLookup), now) == Alone(rows', ready, now);
      } else {
        assert Alone(rows', c.(pc := SecondLookup), now) == Alone(rows', c.(pc := Dropped), now);
      }
    }
  }

  lemma AddsAreBump(rows: map<Pid, Stats>, c: Call, now: nat)
    requires c.pc == AddBytes && c.pid in rows
    ensures Alone(rows, c, now) == rows[c.pid := Bump(rows[c.pid], c.bytes, c.isTx, now)]
  {
    var r1 := rows[c.pid := AddBytesTo(rows[c.pid], c)];
    var r2 := r1[c.pid := AddCallTo(r1[c.pid], c)];
    var r3 := r2[c.pid := r2[c.pid].(lastNs := now)];
    assert Alone(rows, c, now) == Alone(r1, c.(pc := AddCall), now);
    assert Alone(r1, c.(pc := AddCall), now) == Alone(r2, c.(pc := Stamp), now);
    assert Alone(r2, c.(pc := Stamp), now) == Alone(r3, c.(pc := Done), now) == r3;
  }
}
