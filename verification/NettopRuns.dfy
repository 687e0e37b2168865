/**
 nettop over whole runs: every byte recorded after priming is reported by exactly one frame.

 A run is a sequence of atomic steps: an `account` call, a counted retransmit, or a sampling
 pass. The first pass primes. The functions below replay a run; the lemmas relate what the
 frames report to what the hooks recorded.
 */
module NettopRuns {
  import opened Words
  import opened Sets
  import opened NettopModel

  datatype Step =
    | Account(pid: Pid, bytes: nat, isTx: bool, now: nat, comm: string)
    | Retransmit(pid: Pid)
    | Poll(now: nat, alive: set<Pid>)

  datatype Sys = Sys(rows: map<Pid, Stats>, prev: map<Pid, Base>, primed: bool)

  function Apply(s: Sys, e: Step): Sys {
    match e
    case Account(pid, bytes, isTx, now, comm) => s.(rows := AccountRow(s.rows, pid, bytes, isTx, now, comm))
    case Retransmit(pid) => s.(rows := RetransmitRow(s.rows, pid))
    case Poll(now, alive) =>
      var kept := Survivors(s.rows, alive, now);
      Sys(kept, Baselines(kept), true)
  }

  /** The frame a pass emits in state `s`. */
  function Emits(s: Sys, e: Step): Frame
    requires e.Poll?
  {
    FrameOf(Survivors(s.rows, e.alive, e.now), s.prev, !s.primed)
  }

  function After(es: seq<Step>): Sys {
    if es == [] then Sys(map[], map[], false) else Apply(After(es[..|es|-1]), es[|es|-1])
  }

  // ---- what a run's clock must satisfy ------------------------------------

  function Clock(es: seq<Step>): nat {
    if es == [] then 0
    else if es[|es|-1].Retransmit? then Clock(es[..|es|-1])
    else es[|es|-1].now
  }

  /** The time of the latest pass, or 0 before the first. */
  function LastPoll(es: seq<Step>): nat {
    if es == [] then 0
    else if es[|es|-1].Poll? then es[|es|-1].now
    else LastPoll(es[..|es|-1])
  }

  /** Time never runs backwards and, once primed, consecutive passes are at most `gap` apart. */
  predicate WellTimed(es: seq<Step>, gap: nat) {
    es == [] ||
    var (es', e) := (es[..|es|-1], es[|es|-1]);
    && WellTimed(es', gap)
    && (!e.Retransmit? ==> Clock(es') <= e.now)
    && (e.Poll? && After(es').primed ==> e.now - LastPoll(es') <= gap)
  }

  function TotalBytes(es: seq<Step>): nat {
    if es == [] then 0
    else TotalBytes(es[..|es|-1]) + if es[|es|-1].Account? then es[|es|-1].bytes else 0
  }

  function TotalRetransmits(es: seq<Step>): nat {
    if es == [] then 0
    else TotalRetransmits(es[..|es|-1]) + if es[|es|-1].Retransmit? then 1 else 0
  }

  /** No 64-bit counter can have wrapped. */
  predicate NoWrap(es: seq<Step>) {
    TotalBytes(es) < U64 && TotalRetransmits(es) < U64
  }

  // ---- what the hooks recorded, and what the frames reported --------------

  /** What one step, taken in state `s`, records for `p`. */
  function Recorded(s: Sys, e: Step, p: Pid): Delta {
    match e
    case Account(pid, bytes, isTx, _, _) =>
      if pid != p || !Accepts(s.rows, pid) then ZeroDelta()
      else if isTx then Delta(bytes, 0, 0) else Delta(0, bytes, 0)
    case Retransmit(pid) => if pid == p && pid in s.rows then Delta(0, 0, 1) else ZeroDelta()
    case Poll(_, _) => ZeroDelta()
  }

  function Plus(a: Delta, b: Delta): Delta {
    Delta(a.tx + b.tx, a.rx + b.rx, a.retrans + b.retrans)
  }

  /** Recorded for `p` since the latest pass. */
  function Pending(es: seq<Step>, p: Pid): Delta {
    if es == [] then ZeroDelta()
    else
      var (es', e) := (es[..|es|-1], es[|es|-1]);
      if e.Poll? then ZeroDelta() else Plus(Pending(es', p), Recorded(After(es'), e, p))
  }

  /** Recorded for `p` since the priming pass. */
  function SincePriming(es: seq<Step>, p: Pid): Delta {
    if es == [] then ZeroDelta()
    else
      var (es', e) := (es[..|es|-1], es[|es|-1]);
      if After(es').primed then Plus(SincePriming(es', p), Recorded(After(es'), e, p)) else ZeroDelta()
  }

  /** The sum of `p`'s deltas over all frames. */
  function Reported(es: seq<Step>, p: Pid): Delta {
    if es == [] then ZeroDelta()
    else
      var (es', e) := (es[..|es|-1], es[|es|-1]);
      if e.Poll? then Plus(Reported(es', p), DeltaIn(Emits(After(es'), e), p)) else Reported(es', p)
  }

  predicate SameBytes(a: Delta, b: Delta) {
    a.tx == b.tx && a.rx == b.rx
  }

  /** One step of every replay function. */
  lemma {:induction false} Unfold(es: seq<Step>, e: Step, gap: nat, p: Pid)
    ensures After(es + [e]) == Apply(After(es), e)
    ensures Clock(es + [e]) == if e.Retransmit? then Clock(es) else e.now
    ensures LastPoll(es + [e]) == if e.Poll? then e.now else LastPoll(es)
    ensures WellTimed(es + [e], gap) <==>
            && WellTimed(es, gap) && (!e.Retransmit? ==> Clock(es) <= e.now)
            && (e.Poll? && After(es).primed ==> e.now - LastPoll(es) <= gap)
    ensures TotalBytes(es + [e]) == TotalBytes(es) + if e.Account? then e.bytes else 0
    ensures TotalRetransmits(es + [e]) == TotalRetransmits(es) + if e.Retransmit? then 1 else 0
    ensures Pending(es + [e], p) == if e.Poll? then ZeroDelta() else Plus(Pending(es, p), Recorded(After(es), e, p))
    ensures SincePriming(es + [e], p)
         == if After(es).primed then Plus(SincePriming(es, p), Recorded(After(es), e, p)) else ZeroDelta()
    ensures Reported(es + [e], p)
         == if e.Poll? then Plus(Reported(es, p), DeltaIn(Emits(After(es), e), p)) else Reported(es, p)
  {
    assert (es + [e])[..|es|] == es;
  }

  lemma {:induction false} AfterStep(es: seq<Step>, e: Step)
    ensures After(es + [e]) == Apply(After(es), e)
  {
    assert (es + [e])[..|es|] == es;
  }

  // ---- the invariant ------------------------------------------------------

  /** `p`'s row is its baseline plus `pend`, and was stamped after `since` if `pend` holds bytes. */
  ghost predicate Balanced(s: Sys, p: Pid, pend: Delta, since: nat) {
    if p in s.rows then
      && (s.primed ==> BaseOf(s.rows[p]) == Advance(BaseFor(s.prev, p), pend))
      && (pend.tx + pend.rx > 0 ==> since <= s.rows[p].lastNs)
    else
      pend == ZeroDelta()
  }

  function Advance(b: Base, d: Delta): Base {
    Base(b.tx + d.tx, b.rx + d.rx, b.retrans + d.retrans)
  }

  /** No total of `p` exceeds what the run has accounted. */
  ghost predicate Bounded(s: Sys, p: Pid, bytes: nat, retransmits: nat) {
    p in s.rows ==> s.rows[p].tx <= bytes && s.rows[p].rx <= bytes && s.rows[p].retrans <= retransmits
  }

  lemma {:induction false} StepBounded(s: Sys, e: Step, p: Pid, bytes: nat, retransmits: nat)
    requires Bounded(s, p, bytes, retransmits)
    requires e.Account? ==> bytes + e.bytes < U64
    requires e.Retransmit? ==> retransmits + 1 < U64
    ensures Bounded(Apply(s, e), p, bytes + if e.Account? then e.bytes else 0, retransmits + if e.Retransmit? then 1 else 0)
  {
  }

  lemma {:induction false} BumpAdds(s: Stats, bytes: nat, isTx: bool, now: nat)
    requires isTx ==> s.tx + bytes < U64
    requires !isTx ==> s.rx + bytes < U64
    ensures BaseOf(Bump(s, bytes, isTx, now))
         == Advance(BaseOf(s), if isTx then Delta(bytes, 0, 0) else Delta(0, bytes, 0))
  {
  }

  /** When a row advances by `d`, so does the pending sum, and the balance is kept. */
  lemma {:induction false} RowAdvances(s: Sys, s': Sys, p: Pid, pend: Delta, d: Delta, since: nat)
    requires Balanced(s, p, pend, since)
    requires s'.prev == s.prev && s'.primed == s.primed && s.prev.Keys <= s.rows.Keys
    requires p in s'.rows
    requires BaseOf(s'.rows[p]) == Advance(if p in s.rows then BaseOf(s.rows[p]) else ZeroBase(), d)
    requires since <= s'.rows[p].lastNs || (d.tx + d.rx == 0 && p in s.rows && s'.rows[p].lastNs == s.rows[p].lastNs)
    ensures Balanced(s', p, Plus(pend, d), since)
  {
    assert BaseFor(s'.prev, p) == BaseFor(s.prev, p);
  }

  /** A step that leaves `p`'s row alone keeps the balance as it is. */
  lemma {:induction false} RowUntouched(s: Sys, s': Sys, p: Pid, pend: Delta, since: nat)
    requires Balanced(s, p, pend, since)
    requires s'.prev == s.prev && s'.primed == s.primed
    requires if p in s.rows then p in s'.rows && s'.rows[p] == s.rows[p] else p !in s'.rows
    ensures Balanced(s', p, pend, since)
  {
  }

  lemma {:induction false} PlusZero(d: Delta)
    ensures Plus(d, ZeroDelta()) == d
  {
  }

  lemma {:induction false} AccountBalanced(s: Sys, e: Step, p: Pid, pend: Delta, since: nat, bytes: nat, retransmits: nat)
    requires e.Account? && Balanced(s, p, pend, since) && Bounded(s, p, bytes, retransmits)
    requires s.prev.Keys <= s.rows.Keys
    requires bytes + e.bytes < U64 && since <= e.now
    ensures Balanced(Apply(s, e), p, Plus(pend, Recorded(s, e, p)), since)
  {
    var s' := Apply(s, e);
    if e.pid == p && Accepts(s.rows, p) {
      BumpAdds(if p in s.rows then s.rows[p] else NewStats(e.comm), e.bytes, e.isTx, e.now);
      RowAdvances(s, s', p, pend, Recorded(s, e, p), since);
    } else {
      RowUntouched(s, s', p, pend, since);
      PlusZero(pend);
    }
  }

  lemma {:induction false} RetransmitBalanced(s: Sys, e: Step, p: Pid, pend: Delta, since: nat, bytes: nat, retransmits: nat)
    requires e.Retransmit? && Balanced(s, p, pend, since) && Bounded(s, p, bytes, retransmits)
    requires s.prev.Keys <= s.rows.Keys
    requires retransmits + 1 < U64
    ensures Balanced(Apply(s, e), p, Plus(pend, Recorded(s, e, p)), since)
  {
    var s' := Apply(s, e);
    if e.pid == p && p in s.rows {
      RowAdvances(s, s', p, pend, Recorded(s, e, p), since);
    } else {
      RowUntouched(s, s', p, pend, since);
      PlusZero(pend);
    }
  }

  lemma {:induction false} RunBounded(es: seq<Step>, p: Pid)
    requires NoWrap(es)
    ensures Bounded(After(es), p, TotalBytes(es), TotalRetransmits(es))
  {
    if es != [] {
      var (es', e) := (es[..|es|-1], es[|es|-1]);
      RunBounded(es', p);
      StepBounded(After(es'), e, p, TotalBytes(es'), TotalRetransmits(es'));
    }
  }

  lemma {:induction false} LastPollBeforeClock(es: seq<Step>, gap: nat)
    requires WellTimed(es, gap)
    ensures LastPoll(es) <= Clock(es)
  {
    if es != [] {
      LastPollBeforeClock(es[..|es|-1], gap);
    }
  }

  /** What every step keeps of the two tables. */
  ghost predicate Linked(s: Sys) {
    && 0 !in s.rows && |s.rows| <= MAX_PROCS
    && s.prev.Keys <= s.rows.Keys
    && (!s.primed ==> s.prev == map[])
  }

  lemma {:induction false} StepLinked(s: Sys, e: Step)
    requires Linked(s)
    ensures Linked(Apply(s, e))
  {
    match e
    case Account(pid, _, _, _, _) =>
      var s' := Apply(s, e);
      if Accepts(s.rows, pid) {
        assert s'.rows.Keys == s.rows.Keys + {pid};
      }
    case Retransmit(pid) =>
      assert Apply(s, e).rows.Keys == s.rows.Keys;
    case Poll(now, alive) =>
      SubsetCard(Apply(s, e).rows.Keys, s.rows.Keys);
  }

  lemma {:induction false} RunLinked(es: seq<Step>)
    ensures Linked(After(es))
  {
    if es != [] {
      RunLinked(es[..|es|-1]);
      StepLinked(After(es[..|es|-1]), es[|es|-1]);
    }
  }

  lemma {:induction false} RunBalanced(es: seq<Step>, gap: nat, p: Pid)
    requires WellTimed(es, gap) && NoWrap(es)
    ensures Balanced(After(es), p, Pending(es, p), LastPoll(es))
  {
    if es != [] {
      var (es', e) := (es[..|es|-1], es[|es|-1]);
      RunBalanced(es', gap, p);
      RunBounded(es', p);
      RunLinked(es');
      LastPollBeforeClock(es', gap);
      var (s, pend, since) := (After(es'), Pending(es', p), LastPoll(es'));
      if e.Account? {
        AccountBalanced(s, e, p, pend, since, TotalBytes(es'), TotalRetransmits(es'));
      } else if e.Retransmit? {
        RetransmitBalanced(s, e, p, pend, since, TotalBytes(es'), TotalRetransmits(es'));
      }
    }
  }

  // ---- the theorems -------------------------------------------------------

  /**
   In every run the map stays within its capacity and never holds pid 0 (so a walk may start
   from key 0), and every baseline belongs to a row that still exists and has not shrunk. The
   previous-sample table therefore always has room and re-baselining never happens.
   */
  lemma {:induction false} TableInvariant(es: seq<Step>, gap: nat)
    requires WellTimed(es, gap) && NoWrap(es)
    ensures var s := After(es);
            && 0 !in s.rows && |s.rows| <= 4096
            && s.prev.Keys <= s.rows.Keys && |s.prev.Keys + s.rows.Keys| <= 4096
            && forall p <- s.prev ::
                 && s.prev[p].tx <= s.rows[p].tx
                 && s.prev[p].rx <= s.rows[p].rx
                 && s.prev[p].retrans <= s.rows[p].retrans
  {
    var s := After(es);
    RunLinked(es);
    assert s.prev.Keys + s.rows.Keys == s.rows.Keys;
    forall p <- s.prev
      ensures s.prev[p].tx <= s.rows[p].tx && s.prev[p].rx <= s.rows[p].rx && s.prev[p].retrans <= s.rows[p].retrans
    {
      RunBalanced(es, gap, p);
    }
  }

  /** A row that survives a pass is reported with exactly what it gained since the pass before. */
  lemma {:induction false} SurvivorReported(es: seq<Step>, gap: nat, e: Step, p: Pid)
    requires WellTimed(es, gap) && NoWrap(es) && After(es).primed && e.Poll?
    requires p in Survivors(After(es).rows, e.alive, e.now)
    ensures DeltaIn(Emits(After(es), e), p) == Pending(es, p)
  {
    RunBalanced(es, gap, p);
  }

  /**
   Reaping discards no unreported byte when passes are at most the reaper's idle limit apart:
   a row with bytes pending was stamped after the previous pass, so it is not idle long enough.
   */
  lemma {:induction false} ReapedHasNoPendingBytes(es: seq<Step>, e: Step, p: Pid)
    requires e.Poll? && WellTimed(es + [e], REAP_IDLE_NS) && NoWrap(es) && After(es).primed
    requires p !in Survivors(After(es).rows, e.alive, e.now)
    ensures SameBytes(Pending(es, p), ZeroDelta())
  {
    assert (es + [e])[..|es|] == es;
    RunBalanced(es, REAP_IDLE_NS, p);
  }

  /** Each frame holds, for every pid, exactly the bytes recorded since the pass before it. */
  lemma {:induction false} FrameIsInterval(es: seq<Step>, e: Step, p: Pid)
    requires e.Poll? && WellTimed(es + [e], REAP_IDLE_NS) && NoWrap(es) && After(es).primed
    ensures SameBytes(DeltaIn(Emits(After(es), e), p), Pending(es, p))
  {
    assert (es + [e])[..|es|] == es;
    if p in Survivors(After(es).rows, e.alive, e.now) {
      SurvivorReported(es, REAP_IDLE_NS, e, p);
    } else {
      ReapedHasNoPendingBytes(es, e, p);
    }
  }

  lemma {:induction false} UnprimedRun(es: seq<Step>, p: Pid)
    requires !After(es).primed
    ensures Reported(es, p) == ZeroDelta() && After(es).prev == map[]
  {
    if es != [] {
      UnprimedRun(es[..|es|-1], p);
    }
  }

  lemma {:induction false} PrimingFrameIsEmpty(s: Sys, e: Step)
    requires e.Poll? && !s.primed && s.prev == map[]
    ensures Emits(s, e) == map[]
  {
  }

  /** What the frames reported plus what is pending is what was recorded since priming. */
  predicate Conserved(es: seq<Step>, p: Pid) {
    SameBytes(Plus(Reported(es, p), Pending(es, p)), SincePriming(es, p))
  }

  lemma {:induction false} ConservedStep(es: seq<Step>, e: Step, p: Pid)
    requires After(es).primed && Conserved(es, p)
    requires e.Poll? ==> SameBytes(DeltaIn(Emits(After(es), e), p), Pending(es, p))
    ensures Conserved(es + [e], p)
  {
    Unfold(es, e, 0, p);
  }

  lemma {:induction false} ConservedByPriming(es: seq<Step>, e: Step, p: Pid)
    requires e.Poll? && !After(es).primed
    ensures Conserved(es + [e], p)
  {
    Unfold(es, e, 0, p);
    UnprimedRun(es, p);
    PrimingFrameIsEmpty(After(es), e);
  }

  /**
   Conservation over every run with passes at most 60 s apart, rows reaped and later recreated
   included: no byte recorded after priming is lost and none is reported twice.
   */
  lemma {:induction false} Conservation(es: seq<Step>, p: Pid)
    requires WellTimed(es, REAP_IDLE_NS) && NoWrap(es) && After(es).primed
    ensures Conserved(es, p)
    ensures es[|es|-1].Poll? ==> SameBytes(Reported(es, p), SincePriming(es, p))
  {
    var (es', e) := (es[..|es|-1], es[|es|-1]);
    assert es == es' + [e];
    if After(es').primed {
      Conservation(es', p);
      if e.Poll? {
        FrameIsInterval(es', e, p);
      }
      ConservedStep(es', e, p);
    } else {
      ConservedByPriming(es', e, p);
    }
  }

  lemma {:induction false} WellTimedWidens(es: seq<Step>, gap: nat, wider: nat)
    requires WellTimed(es, gap) && gap <= wider
    ensures WellTimed(es, wider)
  {
    if es != [] {
      WellTimedWidens(es[..|es|-1], gap, wider);
    }
  }

  /** A process that sends right after a pass and then exits, with the next pass `gap` later. */
  ghost predicate LateRun(es: seq<Step>, gap: nat) {
    && |es| == 3 && es[0] == Poll(0, {})
    && es[1] == Account(1, 5, true, 0, "") && es[2] == Poll(gap, {})
  }

  lemma {:induction false} LateRunLosesBytes(es: seq<Step>, gap: nat)
    requires gap > REAP_IDLE_NS && LateRun(es, gap)
    ensures WellTimed(es, gap) && NoWrap(es) && After(es).primed && !Conserved(es, 1)
  {
    var a, b := es[..1], es[..2];
    assert a == [] + [es[0]] && b == a + [es[1]] && es == b + [es[2]];
    Unfold([], es[0], gap, 1);
    assert After(a) == Sys(map[], map[], true);
    Unfold(a, es[1], gap, 1);
    assert After(b) == Sys(map[1 := Stats(5, 0, 1, 0, 0, 0, "")], map[], true);
    Unfold(b, es[2], gap, 1);
    assert Survivors(After(b).rows, {}, gap) == map[];
  }

  /** Passes up to `gap` apart conserve every byte of every run, exactly when `gap` is within the idle limit. */
  lemma {:induction false} ConservationExactlyWhen(gap: nat)
    ensures (forall es, p | WellTimed(es, gap) && NoWrap(es) && After(es).primed :: Conserved(es, p))
       <==> gap <= 60_000_000_000
  {
    if gap <= REAP_IDLE_NS {
      forall es, p | WellTimed(es, gap) && NoWrap(es) && After(es).primed
        ensures Conserved(es, p)
      {
        WellTimedWidens(es, gap, REAP_IDLE_NS);
        Conservation(es, p);
      }
    } else {
      var es := [Poll(0, {}), Account(1, 5, true, 0, ""), Poll(gap, {})];
      LateRunLosesBytes(es, gap);
    }
  }

  // ---- what reaping discards, at any interval -----------------------------

  /** The row is about to be reaped with more in it than its baseline says was reported. */
  function ReapedBy(s: Sys, e: Step, p: Pid): Delta
    requires e.Poll?
  {
    if s.primed && p in s.rows && Reapable(s.rows[p], p in e.alive, e.now)
    then DeltaFrom(BaseOf(s.rows[p]), BaseFor(s.prev, p)) else ZeroDelta()
  }

  /** What all passes since priming have reaped of `p` unreported. */
  function Reaped(es: seq<Step>, p: Pid): Delta {
    if es == [] then ZeroDelta()
    else
      var (es', e) := (es[..|es|-1], es[|es|-1]);
      if e.Poll? then Plus(Reaped(es', p), ReapedBy(After(es'), e, p)) else Reaped(es', p)
  }

  lemma {:induction false} PassBalances(es: seq<Step>, gap: nat, e: Step, p: Pid)
    requires WellTimed(es, gap) && NoWrap(es) && After(es).primed && e.Poll?
    ensures Plus(DeltaIn(Emits(After(es), e), p), ReapedBy(After(es), e, p)) == Pending(es, p)
  {
    RunBalanced(es, gap, p);
    if p in Survivors(After(es).rows, e.alive, e.now) {
      SurvivorReported(es, gap, e, p);
      PlusZero(Pending(es, p));
    }
  }

  lemma {:induction false} UnprimedReaps(es: seq<Step>, p: Pid)
    requires !After(es).primed
    ensures Reaped(es, p) == ZeroDelta()
  {
    if es != [] {
      UnprimedReaps(es[..|es|-1], p);
    }
  }

  predicate InBalance(es: seq<Step>, p: Pid) {
    Plus(Plus(Reported(es, p), Pending(es, p)), Reaped(es, p)) == SincePriming(es, p)
  }

  lemma {:induction false} UnfoldReaped(es: seq<Step>, e: Step, p: Pid)
    ensures Reaped(es + [e], p) == if e.Poll? then Plus(Reaped(es, p), ReapedBy(After(es), e, p)) else Reaped(es, p)
  {
    assert (es + [e])[..|es|] == es;
  }

  lemma PollAdds(reported: Delta, pending: Delta, reaped: Delta, shown: Delta, gone: Delta)
    requires Plus(shown, gone) == pending
    ensures Plus(Plus(Plus(reported, shown), ZeroDelta()), Plus(reaped, gone))
         == Plus(Plus(Plus(reported, pending), reaped), ZeroDelta())
  {
  }

  lemma HookAdds(reported: Delta, pending: Delta, reaped: Delta, d: Delta)
    ensures Plus(Plus(reported, Plus(pending, d)), reaped) == Plus(Plus(Plus(reported, pending), reaped), d)
  {
  }

  lemma {:induction false} BalancePoll(es: seq<Step>, e: Step, p: Pid, shown: Delta, gone: Delta)
    requires After(es).primed && InBalance(es, p) && e.Poll?
    requires shown == DeltaIn(Emits(After(es), e), p) && gone == ReapedBy(After(es), e, p)
    requires Plus(shown, gone) == Pending(es, p)
    ensures InBalance(es + [e], p)
  {
    Unfold(es, e, 0, p);
    UnfoldReaped(es, e, p);
    PollAdds(Reported(es, p), Pending(es, p), Reaped(es, p), shown, gone);
    assert Recorded(After(es), e, p) == ZeroDelta();
  }

  lemma {:induction false} BalanceHook(es: seq<Step>, e: Step, p: Pid)
    requires After(es).primed && InBalance(es, p) && !e.Poll?
    ensures InBalance(es + [e], p)
  {
    Unfold(es, e, 0, p);
    UnfoldReaped(es, e, p);
    HookAdds(Reported(es, p), Pending(es, p), Reaped(es, p), Recorded(After(es), e, p));
  }

  lemma {:induction false} BalanceByPriming(es: seq<Step>, e: Step, p: Pid)
    requires e.Poll? && !After(es).primed
    ensures InBalance(es + [e], p)
  {
    Unfold(es, e, 0, p);
    UnfoldReaped(es, e, p);
    UnprimedRun(es, p);
    UnprimedReaps(es, p);
    PrimingFrameIsEmpty(After(es), e);
  }

  /**
   The balance of every run, whatever the interval between passes: what the frames reported,
   what is pending and what was reaped unreported add up, in bytes and retransmits alike, to
   what was recorded since priming.
   */
  lemma {:induction false} Balance(es: seq<Step>, gap: nat, p: Pid)
    requires WellTimed(es, gap) && NoWrap(es) && After(es).primed
    ensures InBalance(es, p)
  {
    var (es', e) := (es[..|es|-1], es[|es|-1]);
    assert es == es' + [e];
    if After(es').primed {
      Balance(es', gap, p);
      if e.Poll? {
        PassBalances(es', gap, e, p);
        BalancePoll(es', e, p, DeltaIn(Emits(After(es'), e), p), ReapedBy(After(es'), e, p));
      } else {
        BalanceHook(es', e, p);
      }
    } else {
      BalanceByPriming(es', e, p);
    }
  }

  /** The pass finds `p`'s row reapable with retransmits above its baseline. */
  predicate DropsRetransmits(s: Sys, e: Step, p: Pid)
    requires e.Poll?
  {
    s.primed && p in s.rows && Reapable(s.rows[p], p in e.alive, e.now) && s.rows[p].retrans > BaseFor(s.prev, p).retrans
  }

  predicate NeverDropsRetransmits(es: seq<Step>, p: Pid) {
    es == [] ||
    var (es', e) := (es[..|es|-1], es[|es|-1]);
    NeverDropsRetransmits(es', p) && (e.Poll? ==> !DropsRetransmits(After(es'), e, p))
  }

  lemma {:induction false} NothingReaped(es: seq<Step>, p: Pid)
    ensures Reaped(es, p).retrans == 0 <==> NeverDropsRetransmits(es, p)
  {
    if es != [] {
      NothingReaped(es[..|es|-1], p);
    }
  }

  /** Over every run, no counted retransmit of `p` is lost, exactly when no pass reaps a row of `p` that holds some. */
  lemma {:induction false} RetransmitsConservedExactlyWhen(es: seq<Step>, gap: nat, p: Pid)
    requires WellTimed(es, gap) && NoWrap(es) && After(es).primed
    ensures Reported(es, p).retrans + Pending(es, p).retrans == SincePriming(es, p).retrans <==> NeverDropsRetransmits(es, p)
  {
    Balance(es, gap, p);
    NothingReaped(es, p);
  }

  /**
   A process that cannot be seen in /proc, such as one outside the poller's PID namespace, goes
   quiet with its socket open, and a retransmit is counted just before its row is reaped.
   */
  ghost predicate QuietRun(es: seq<Step>) {
    && |es| == 5 && es[0] == Poll(0, {})
    && es[1] == Account(1, 5, true, 0, "") && es[2] == Poll(REAP_IDLE_NS, {})
    && es[3] == Retransmit(1) && es[4] == Poll(REAP_IDLE_NS + 1, {})
  }

  function QuietRow(): Stats {
    Stats(5, 0, 1, 0, 0, 0, "")
  }

  lemma {:induction false} QuietPrefix(es: seq<Step>)
    requires |es| == 3 && es[0] == Poll(0, {})
    requires es[1] == Account(1, 5, true, 0, "") && es[2] == Poll(REAP_IDLE_NS, {})
    ensures WellTimed(es, REAP_IDLE_NS) && Clock(es) == LastPoll(es) == REAP_IDLE_NS
    ensures TotalBytes(es) == 5 && TotalRetransmits(es) == 0
    ensures After(es) == Sys(map[1 := QuietRow()], map[1 := BaseOf(QuietRow())], true)
    ensures SincePriming(es, 1).retrans == Reported(es, 1).retrans == 0 && Pending(es, 1) == ZeroDelta()
  {
    var gap := REAP_IDLE_NS;
    var a, b := es[..1], es[..2];
    assert a == [] + [es[0]] && b == a + [es[1]] && es == b + [es[2]];
    Unfold([], es[0], gap, 1);
    assert After(a) == Sys(map[], map[], true);
    Unfold(a, es[1], gap, 1);
    assert After(b) == Sys(map[1 := QuietRow()], map[], true);
    Unfold(b, es[2], gap, 1);
    assert After(es).rows == map[1 := QuietRow()];
  }

  lemma {:induction false} QuietRunLoses(es: seq<Step>)
    requires QuietRun(es)
    ensures WellTimed(es, REAP_IDLE_NS) && NoWrap(es)
    ensures SincePriming(es, 1).retrans == 1 && Pending(es, 1).retrans == 0 && Reported(es, 1).retrans == 0
  {
    var c, d := es[..3], es[..4];
    assert d == c + [es[3]] && es == d + [es[4]];
    QuietPrefix(c);
    Unfold(c, es[3], REAP_IDLE_NS, 1);
    assert After(d).rows == map[1 := QuietRow().(retrans := 1)];
    Unfold(d, es[4], REAP_IDLE_NS, 1);
    assert Survivors(After(d).rows, {}, REAP_IDLE_NS + 1) == map[];
  }
}
