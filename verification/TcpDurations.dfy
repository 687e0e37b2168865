/**
 tcpstates times every state, tcplife the whole connection. Both cut nanoseconds down to
 microseconds, the one once per state and the other once.
 */
module TcpDurations {
  import opened Options
  import opened Words
  import opened TcpTrace
  import Life = TcpLife

  /** One line of tcpstates; the span is missing on the first transition seen. */
  datatype StateEvent = StateEvent(sk: nat, newState: nat, span: Option<int>, pid: nat)

  function SpanOf(stamps: map<nat, nat>, t: Transition): Option<int> {
    if t.sk in stamps then Some(Since(t.now, stamps[t.sk]) / 1000) else None
  }

  function SetState(stamps: map<nat, nat>, t: Transition): (map<nat, nat>, Option<StateEvent>) {
    if !Ip(t) then (stamps, None)
    else
      (if t.state == TCP_CLOSE then stamps - {t.sk} else stamps[t.sk := t.now],
       if t.room then Some(StateEvent(t.sk, t.state, SpanOf(stamps, t), t.pid)) else None)
  }

  /** The hook over its map and its ring buffer. */
  class Hook {
    var timestamps: map<nat, nat>
    var events: seq<StateEvent>

    constructor ()
      ensures timestamps == map[] && events == []
    {
      timestamps, events := map[], [];
    }

    method HandleSetState(t: Transition)
      modifies this
      ensures var r := SetState(old(timestamps), t);
              && timestamps == r.0
              && events == old(events) + if r.1.Some? then [r.1.value] else []
      ensures t.family !in {2, 10} ==> timestamps == old(timestamps) && events == old(events)
      ensures t.family in {2, 10} ==>
        && timestamps == (if t.state == 7 then old(timestamps) - {t.sk} else old(timestamps)[t.sk := t.now])
        && var span := if t.sk in old(timestamps) then Some(Since(t.now, old(timestamps)[t.sk]) / 1000) else None;
           events == old(events) + if t.room then [StateEvent(t.sk, t.state, span, t.pid)] else []
    {
      if t.family != AF_INET && t.family != AF_INET6 {
        return;
      }
      var span: Option<int> := None;
      if t.sk in timestamps {
        span := Some(Since(t.now, timestamps[t.sk]) / 1000);
      }
      if t.state == TCP_CLOSE {
        timestamps := timestamps - {t.sk};
      } else {
        timestamps := timestamps[t.sk := t.now];
      }
      if t.room {
        events := events + [StateEvent(t.sk, t.state, span, t.pid)];
      }
    }
  }

  // ---- every run ----------------------------------------------------------

  function Apply(stamps: map<nat, nat>, e: Step): map<nat, nat> {
    match e
    case Moved(t) => SetState(stamps, t).0
    case EvictStamp(sk) => stamps - {sk}
    case _ => stamps
  }

  function After(es: seq<Step>): map<nat, nat> {
    if es == [] then map[] else Apply(After(es[..|es|-1]), es[|es|-1])
  }

  /** The microseconds tcpstates prints on one transition. */
  function Printed(es: seq<Step>, t: Transition): int {
    match SetState(After(es), t).1
    case Some(StateEvent(_, _, Some(us), _)) => us
    case _ => 0
  }

  /** The microseconds tcpstates has printed in the current lifetime of the address. */
  function PrintedSinceClose(es: seq<Step>, sk: nat): int {
    if es == [] then 0
    else
      var (before, e) := (es[..|es|-1], es[|es|-1]);
      if !Of(e, sk) then PrintedSinceClose(before, sk)
      else if e.t.state == TCP_CLOSE then 0
      else PrintedSinceClose(before, sk) + Printed(before, e.t)
  }

  /** With nothing evicted, the stamp is the time of the latest transition of this lifetime. */
  lemma {:induction false} StampMeans(es: seq<Step>, sk: nat)
    requires NothingEvicted(es, sk)
    ensures var ts := SinceClose(es, sk);
            Life.Lookup(After(es), sk) == if ts == [] then None else Some(ts[|ts|-1].now)
  {
    if es != [] {
      StampMeans(es[..|es|-1], sk);
    }
  }

  // ---- truncated sums -----------------------------------------------------

  /** The sum of the truncated times between consecutive transitions. */
  function Chopped(ts: seq<Transition>): int {
    if |ts| < 2 then 0
    else Chopped(ts[..|ts|-1]) + (ts[|ts|-1].now - ts[|ts|-2].now) / 1000
  }

  /** Every span loses less than a microsecond, and the losses add up before they are cut. */
  lemma {:induction false} ChoppedBounds(ts: seq<Transition>)
    requires Ordered(ts) && ts != []
    ensures 0 <= ts[|ts|-1].now - ts[0].now - 1000 * Chopped(ts) <= 999 * (|ts| - 1)
  {
    if |ts| >= 2 {
      ChoppedBounds(ts[..|ts|-1]);
    }
  }

  ghost predicate AllRoom(ts: seq<Transition>) {
    forall t :: t in ts ==> t.room
  }

  /** One line of tcpstates: the truncated time since the transition before it in this lifetime. */
  lemma {:induction false} PrintedOne(es: seq<Step>, t: Transition)
    requires NothingEvicted(es, t.sk) && Ip(t) && t.room && Ordered(SinceClose(es, t.sk) + [t])
    ensures var ts := SinceClose(es, t.sk);
            Printed(es, t) == if ts == [] then 0 else (t.now - ts[|ts|-1].now) / 1000
  {
    var ts := SinceClose(es, t.sk);
    StampMeans(es, t.sk);
    assert ts != [] ==> (ts + [t])[|ts|-1].now <= (ts + [t])[|ts|].now;
  }

  lemma ChoppedAppend(ts: seq<Transition>, t: Transition)
    ensures Chopped(ts + [t]) == Chopped(ts) + if ts == [] then 0 else (t.now - ts[|ts|-1].now) / 1000
  {
    assert (ts + [t])[..|ts|] == ts;
  }

  lemma {:induction false} PrintedIsChopped(es: seq<Step>, sk: nat)
    requires NothingEvicted(es, sk) && Timely(es) && AllRoom(SinceClose(es, sk))
    ensures PrintedSinceClose(es, sk) == Chopped(SinceClose(es, sk))
  {
    if es != [] {
      var before, e := es[..|es|-1], es[|es|-1];
      if !Of(e, sk) {
        PrintedIsChopped(before, sk);
      } else if e.t.state != TCP_CLOSE {
        var ts := SinceClose(before, sk);
        assert SinceClose(es, sk) == ts + [e.t];
        assert (ts + [e.t])[|ts|] == e.t;
        PrintedIsChopped(before, sk);
        LifetimeOrdered(es, sk);
        PrintedOne(before, e.t);
        ChoppedAppend(ts, e.t);
      }
    }
  }

  lemma Cut(whole: int, c: int, k: nat)
    requires 0 <= whole - 1000 * c <= 999 * k && k >= 1
    ensures c <= whole / 1000 <= c + 999 * k / 1000 <= c + k - 1
  {
  }

  lemma {:induction false} TimelyPrefix(es: seq<Step>, e: Step)
    requires Timely(es + [e])
    ensures Timely(es)
  {
    assert forall j :: 0 <= j < |es| ==> (es + [e])[j] == es[j];
  }

  /** The transitions of a lifetime together with the CLOSE that ends it. */
  lemma {:induction false} CloseOrdered(es: seq<Step>, t: Transition)
    requires Timely(es + [Moved(t)])
    ensures Ordered(SinceClose(es, t.sk) + [t])
  {
    var run, ts := es + [Moved(t)], SinceClose(es, t.sk);
    TimelyPrefix(es, Moved(t));
    LifetimeOrdered(es, t.sk);
    forall x | x in ts
      ensures x.now <= t.now
    {
      LifetimeIn(es, t.sk, x);
      var i :| 0 <= i < |es| && es[i] == Moved(x) && Of(es[i], t.sk);
      assert run[i] == Moved(x) && run[|es|] == Moved(t);
    }
  }

  lemma {:induction false} PrintedInAll(es: seq<Step>, t: Transition)
    requires NothingEvicted(es, t.sk) && Timely(es + [Moved(t)]) && Life.Closes(t) && t.room
    requires SinceClose(es, t.sk) != [] && AllRoom(SinceClose(es, t.sk))
    ensures PrintedSinceClose(es, t.sk) + Printed(es, t) == Chopped(SinceClose(es, t.sk) + [t])
  {
    var ts := SinceClose(es, t.sk);
    TimelyPrefix(es, Moved(t));
    PrintedIsChopped(es, t.sk);
    CloseOrdered(es, t);
    PrintedOne(es, t);
    ChoppedAppend(ts, t);
  }

  /**
   For every run, a connection first seen opening and followed to CLOSE through k spans, with
   nothing evicted or dropped, has tcpstates' spans add up to at most tcplife's lifetime, short
   of it by at most 999k/1000 microseconds, which is below k.
   */
  lemma {:induction false} DurationsAgree(es: seq<Step>, t: Transition, k: nat)
    requires NothingEvicted(es, t.sk) && Timely(es + [Moved(t)]) && Life.Closes(t) && t.room
    requires var ts := SinceClose(es, t.sk); k == |ts| > 0 && Opening(ts[0]) && AllRoom(ts)
    ensures var spans := PrintedSinceClose(es, t.sk) + Printed(es, t);
            var summary := Life.SetState(Life.After(es), t).1;
            summary.Some? && spans <= summary.value.spanUs <= spans + 999 * k / 1000 <= spans + k - 1
  {
    var ts := SinceClose(es, t.sk);
    Life.SummaryMeans(es, t);
    NothingForgotten(es, t.sk);
    PrintedInAll(es, t);
    CloseOrdered(es, t);
    ChoppedBounds(ts + [t]);
    Cut(t.now - ts[0].now, Chopped(ts + [t]), k);
    assert ts[0].now <= t.now;
  }

  /** An active open and close, state by state: SYN_SENT, ESTABLISHED, FIN_WAIT1, then FIN_WAIT2. */
  function Tick(i: nat): Transition {
    Transition(1, AF_INET, if i == 0 then TCP_SYN_SENT else if i == 1 then 1 else if i == 2 then TCP_FIN_WAIT1 else 5,
               999 * i, 1, true)
  }

  function Ticks(k: nat): (es: seq<Step>)
    ensures |es| == k
  {
    if k == 0 then [] else Ticks(k - 1) + [Moved(Tick(k - 1))]
  }

  lemma {:induction false} TickAt(k: nat, i: nat)
    requires i < k
    ensures Ticks(k)[i] == Moved(Tick(i))
  {
    if i < k - 1 {
      TickAt(k - 1, i);
    }
  }

  /** What the tools saw of the run, and when. */
  lemma {:induction false} TicksRun(k: nat, t: Transition)
    requires k > 0 && t == Transition(1, AF_INET, TCP_CLOSE, 999 * k, 1, true)
    ensures NothingEvicted(Ticks(k), 1) && Timely(Ticks(k) + [Moved(t)])
  {
    var es, run := Ticks(k), Ticks(k) + [Moved(t)];
    forall i | 0 <= i < k
      ensures run[i] == es[i] == Moved(Tick(i))
    {
      TickAt(k, i);
    }
  }

  lemma {:induction false} TicksSeen(k: nat)
    requires k > 0
    ensures var ts := SinceClose(Ticks(k), 1);
            && |ts| == k && (forall i :: 0 <= i < k ==> ts[i] == Tick(i))
            && Uncleared(Ticks(k), 1) == SinceForgotten(Ticks(k), 1) == ts
  {
    forall i | 0 <= i < k
      ensures Ticks(k)[i] == Moved(Tick(i))
    {
      TickAt(k, i);
    }
    LifetimeIs(Ticks(k), 1, 0);
    forall i | 0 <= i < k
      ensures SinceClose(Ticks(k), 1)[i] == Tick(i)
    {
      LifetimeIs(Ticks(k), 1, i);
    }
  }

  lemma {:induction false} TicksPrintNothing(ts: seq<Transition>)
    requires forall i :: 0 <= i < |ts| ==> ts[i].now == 999 * i
    ensures Chopped(ts) == 0
  {
    if |ts| >= 2 {
      TicksPrintNothing(ts[..|ts|-1]);
    }
  }

  /** The bound is attained by a run of k spans of 999 ns each: tcpstates prints zeros, tcplife all that was lost. */
  lemma {:induction false} BoundIsAttained(k: nat, t: Transition)
    requires k > 0 && t == Transition(1, AF_INET, TCP_CLOSE, 999 * k, 1, true)
    ensures var es := Ticks(k);
            && NothingEvicted(es, 1) && Timely(es + [Moved(t)]) && |SinceClose(es, 1)| == k
            && PrintedSinceClose(es, 1) + Printed(es, t) == 0
            && Life.SetState(Life.After(es), t).1 == Some(Life.Summary(1, 999 * k / 1000, 1))
  {
    var es, ts := Ticks(k), SinceClose(Ticks(k), 1);
    TicksRun(k, t);
    TicksSeen(k);
    PrintedInAll(es, t);
    TicksPrintNothing(ts + [t]);
    Life.SummaryMeans(es, t);
    TicksName(k, ts);
  }

  lemma {:induction false} TicksName(k: nat, ts: seq<Transition>)
    requires 0 < k == |ts| && forall i :: 0 <= i < k ==> ts[i] == Tick(i)
    ensures FirstOpening(ts) == Some(ts[0]) && ts[0].now == 0
    ensures LastCapture(ts).Some? && LastCapture(ts).value.pid == 1
  {
    Life.CaptureFound(ts, ts[0]);
    var i :| 0 <= i < |ts| && ts[i] == LastCapture(ts).value;
  }
}
