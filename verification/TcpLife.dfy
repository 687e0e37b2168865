/**
 tcplife: one summary line per connection, from a birth time and an identity remembered under
 the socket's address until it closes.
 */
module TcpLife {
  import opened Options
  import opened Words
  import opened TcpTrace

  datatype Summary = Summary(sk: nat, spanUs: int, pid: nat)

  datatype Life = Life(births: map<nat, nat>, idents: map<nat, nat>)

  function Stamp(l: Life, t: Transition): Life {
    Life(
      if Opening(t) && t.sk !in l.births then l.births[t.sk := t.now] else l.births,
      if Capturing(t) then l.idents[t.sk := t.pid] else l.idents)
  }

  function Finish(l: Life, t: Transition): (Life, Option<Summary>)
    requires t.sk in l.births
  {
    var pid := if t.sk in l.idents then l.idents[t.sk] else t.pid;
    (Life(l.births - {t.sk}, l.idents - {t.sk}),
     if t.room then Some(Summary(t.sk, Since(t.now, l.births[t.sk]) / 1000, pid)) else None)
  }

  function SetState(l: Life, t: Transition): (Life, Option<Summary>) {
    if !Ip(t) then (l, None)
    else
      var l' := Stamp(l, t);
      if t.state != TCP_CLOSE || t.sk !in l'.births then (l', None) else Finish(l', t)
  }

  /** The hook over its two maps and its ring buffer. */
  class Hook {
    var births: map<nat, nat>
    var idents: map<nat, nat>
    var events: seq<Summary>

    constructor ()
      ensures births == map[] && idents == map[] && events == []
    {
      births, idents, events := map[], map[], [];
    }

    /** After a CLOSE the address has no birth, and no identity either if it had a birth. */
    method HandleSetState(t: Transition)
      modifies this
      ensures var r := SetState(old(Life(births, idents)), t);
              && Life(births, idents) == r.0
              && events == old(events) + if r.1.Some? then [r.1.value] else []
      ensures Ip(t) && t.state == TCP_CLOSE ==> t.sk !in births && (t.sk in old(births) ==> t.sk !in idents)
      ensures t.family !in {2, 10} ==> births == old(births) && idents == old(idents) && events == old(events)
      ensures t.family in {2, 10} && t.state != 7 ==>
        && births == (if t.state < 4 && t.sk !in old(births) then old(births)[t.sk := t.now] else old(births))
        && idents == (if t.state == 2 || t.state == 9 then old(idents)[t.sk := t.pid] else old(idents))
        && events == old(events)
    {
      if t.family != AF_INET && t.family != AF_INET6 {
        return;
      }
      if t.state < TCP_FIN_WAIT1 {
        if t.sk !in births {
          births := births[t.sk := t.now];
        }
      }
      if t.state == TCP_SYN_SENT || t.state == TCP_LAST_ACK {
        idents := idents[t.sk := t.pid];
      }
      if t.state != TCP_CLOSE {
        return;
      }
      if t.sk !in births {
        return;
      }
      if t.room {
        var span := Since(t.now, births[t.sk]) / 1000;
        var pid := if t.sk in idents then idents[t.sk] else t.pid;
        events := events + [Summary(t.sk, span, pid)];
      }
      births := births - {t.sk};
      idents := idents - {t.sk};
    }
  }

  // ---- every run ----------------------------------------------------------

  function Apply(l: Life, e: Step): Life {
    match e
    case Moved(t) => SetState(l, t).0
    case EvictBirth(sk) => l.(births := l.births - {sk})
    case EvictIdent(sk) => l.(idents := l.idents - {sk})
    case EvictStamp(_) => l
  }

  function After(es: seq<Step>): Life {
    if es == [] then Life(map[], map[]) else Apply(After(es[..|es|-1]), es[|es|-1])
  }

  function Lookup(m: map<nat, nat>, k: nat): Option<nat> {
    if k in m then Some(m[k]) else None
  }

  /** Whatever is evicted, a remembered birth is the time of an opening of the present lifetime. */
  lemma {:induction false} BirthIsOfThisLifetime(es: seq<Step>, sk: nat)
    requires sk in After(es).births
    ensures exists t :: t in SinceClose(es, sk) && Opening(t) && t.now == After(es).births[sk]
  {
    var before, e := es[..|es|-1], es[|es|-1];
    if sk in After(before).births {
      BirthIsOfThisLifetime(before, sk);
      var t :| t in SinceClose(before, sk) && Opening(t) && t.now == After(before).births[sk];
      assert t in SinceClose(es, sk);
    } else {
      assert Of(e, sk) && e.t in SinceClose(es, sk);
    }
  }

  function BirthOf(es: seq<Step>, sk: nat): Option<nat> {
    match FirstOpening(SinceForgotten(es, sk))
    case Some(t) => Some(t.now)
    case None => None
  }

  function IdentOf(es: seq<Step>, sk: nat): Option<nat> {
    match LastCapture(Uncleared(es, sk))
    case Some(t) => Some(t.pid)
    case None => None
  }

  /** In every run the maps hold the first opening not forgotten and the last capture not cleared. */
  lemma {:induction false} MapsMean(es: seq<Step>, sk: nat)
    ensures Lookup(After(es).births, sk) == BirthOf(es, sk)
    ensures Lookup(After(es).idents, sk) == IdentOf(es, sk)
  {
    if es != [] {
      var before, e := es[..|es|-1], es[|es|-1];
      MapsMean(before, sk);
      if Of(e, sk) && e.t.state != TCP_CLOSE {
        FirstOpeningAppend(SinceForgotten(before, sk), e.t);
        assert (Uncleared(before, sk) + [e.t])[..|Uncleared(before, sk)|] == Uncleared(before, sk);
      }
    }
  }

  // ---- the summary --------------------------------------------------------

  predicate Closes(t: Transition) {
    Ip(t) && t.state == TCP_CLOSE
  }

  /** Whose name a closing connection should carry: the last capture of its own lifetime, or the closer. */
  function Rightful(es: seq<Step>, t: Transition): nat {
    match LastCapture(SinceClose(es, t.sk))
    case Some(c) => c.pid
    case None => t.pid
  }

  /**
   For every run, a CLOSE is summarised exactly when an opening is not forgotten, and the line
   gives the time since the first such opening and the last name not cleared, or else the closer's.
   */
  lemma {:induction false} SummaryMeans(es: seq<Step>, t: Transition)
    requires Closes(t) && t.room
    ensures SetState(After(es), t).1 ==
            match FirstOpening(SinceForgotten(es, t.sk))
            case None => None
            case Some(o) =>
              var pid := if IdentOf(es, t.sk).Some? then IdentOf(es, t.sk).value else t.pid;
              Some(Summary(t.sk, Since(t.now, o.now) / 1000, pid))
  {
    MapsMean(es, t.sk);
  }

  /**
   For every run, the name is right exactly when a capture of this lifetime is still remembered,
   or there is no capture to remember and none left over; or when the name that was lost, or
   left over, happens to be the closer's.
   */
  lemma {:induction false} IdentityRightExactlyWhen(es: seq<Step>, t: Transition)
    requires Closes(t) && SetState(After(es), t).1.Some?
    ensures var (own, kept) := (LastCapture(SinceClose(es, t.sk)), LastCapture(Uncleared(es, t.sk)));
            SetState(After(es), t).1.value.pid == Rightful(es, t) <==>
            || (own.Some? <==> kept.Some?)
            || (own.Some? && own.value.pid == t.pid)
            || (kept.Some? && kept.value.pid == t.pid)
  {
    SummaryMeans(es, t);
    LatestCaptureWins(es, t.sk);
  }

  lemma {:induction false} CaptureFound(ts: seq<Transition>, c: Transition)
    requires c in ts && Capturing(c)
    ensures LastCapture(ts).Some?
  {
    if !Capturing(ts[|ts|-1]) {
      CaptureFound(ts[..|ts|-1], c);
    }
  }

  /** A connection whose SYN_SENT was seen carries an identity recorded in that same lifetime. */
  lemma {:induction false} ActiveOpenIsAttributed(es: seq<Step>, t: Transition, c: Transition)
    requires NothingEvicted(es, t.sk) && Closes(t) && t.room
    requires c in SinceClose(es, t.sk) && c.state == TCP_SYN_SENT
    ensures var r := SetState(After(es), t).1;
            r.Some? && exists w :: w in SinceClose(es, t.sk) && Capturing(w) && w.pid == r.value.pid
  {
    var ts := SinceClose(es, t.sk);
    CaptureFound(ts, c);
    OpeningFound(ts, c);
    NothingForgotten(es, t.sk);
    LatestCaptureWins(es, t.sk);
    SummaryMeans(es, t);
    assert LastCapture(ts).value in ts;
  }

  lemma {:induction false} OpeningFound(ts: seq<Transition>, o: Transition)
    requires o in ts && Opening(o)
    ensures FirstOpening(ts).Some?
  {
    if !Opening(ts[0]) {
      OpeningFound(ts[1..], o);
    }
  }

  // ---- the same, on the numbers of the TCP states -------------------------

  /** Transition `i` is the last of the lifetime to SYN_SENT (2) or LAST_ACK (9). */
  ghost predicate LastNaming(ts: seq<Transition>, i: nat) {
    i < |ts| && ts[i].state in {2, 9} && forall j :: i < j < |ts| ==> ts[j].state !in {2, 9}
  }

  /** Transition `i` is the first of the lifetime to ESTABLISHED (1), SYN_SENT (2) or SYN_RECV (3). */
  ghost predicate FirstOpen(ts: seq<Transition>, i: nat) {
    i < |ts| && ts[i].state < 4 && forall j :: 0 <= j < i ==> ts[j].state >= 4
  }

  lemma {:induction false} LastNamingIs(ts: seq<Transition>, i: nat)
    requires LastNaming(ts, i)
    ensures LastCapture(ts) == Some(ts[i])
  {
    if i < |ts| - 1 {
      assert ts[|ts|-1].state !in {2, 9};
      LastNamingIs(ts[..|ts|-1], i);
    }
  }

  lemma {:induction false} NoNaming(ts: seq<Transition>)
    requires forall x :: x in ts ==> x.state !in {2, 9}
    ensures LastCapture(ts) == None
  {
    if ts != [] {
      assert ts[|ts|-1] in ts;
      NoNaming(ts[..|ts|-1]);
    }
  }

  lemma {:induction false} FirstOpenIs(ts: seq<Transition>, i: nat)
    requires FirstOpen(ts, i)
    ensures FirstOpening(ts) == Some(ts[i])
  {
    if i > 0 {
      FirstOpenIs(ts[1..], i - 1);
    }
  }

  lemma {:induction false} NoOpen(ts: seq<Transition>)
    requires forall x :: x in ts ==> x.state >= 4
    ensures FirstOpening(ts) == None
  {
    if ts != [] {
      assert ts[0] in ts;
      NoOpen(ts[1..]);
    }
  }

  /** The IPv4 or IPv6 transitions of `sk` since its last to CLOSE (7), from the steps themselves. */
  ghost predicate IsLifetime(es: seq<Step>, sk: nat, ts: seq<Transition>) {
    if es == [] then ts == []
    else
      var (before, e) := (es[..|es|-1], es[|es|-1]);
      if !e.Moved? || e.t.sk != sk || e.t.family !in {2, 10} then IsLifetime(before, sk, ts)
      else if e.t.state == 7 then ts == []
      else ts != [] && ts[|ts|-1] == e.t && IsLifetime(before, sk, ts[..|ts|-1])
  }

  lemma {:induction false} LifetimeIsSinceClose(es: seq<Step>, sk: nat, ts: seq<Transition>)
    requires IsLifetime(es, sk, ts)
    ensures ts == SinceClose(es, sk)
  {
    if es != [] {
      var before, e := es[..|es|-1], es[|es|-1];
      if !Of(e, sk) {
        LifetimeIsSinceClose(before, sk, ts);
      } else if e.t.state != 7 {
        LifetimeIsSinceClose(before, sk, ts[..|ts|-1]);
        assert ts == ts[..|ts|-1] + [e.t];
      }
    }
  }

  /** A CLOSE that ends the lifetime `ts`, in a run that has evicted nothing of the socket's, with room in the ring. */
  ghost predicate Ends(es: seq<Step>, t: Transition, ts: seq<Transition>) {
    NothingEvicted(es, t.sk) && t.family in {2, 10} && t.state == 7 && t.room && IsLifetime(es, t.sk, ts)
  }

  /** It is summarised exactly when the lifetime reached ESTABLISHED, SYN_SENT or SYN_RECV. */
  lemma {:induction false} SummarisedExactlyWhen(es: seq<Step>, t: Transition, ts: seq<Transition>)
    requires Ends(es, t, ts)
    ensures SetState(After(es), t).1 == None <==> forall x :: x in ts ==> x.state >= 4
  {
    LifetimeIsSinceClose(es, t.sk, ts);
    NothingForgotten(es, t.sk);
    SummaryMeans(es, t);
    if forall x :: x in ts ==> x.state >= 4 {
      NoOpen(ts);
    } else {
      var x :| x in ts && x.state < 4;
      OpeningFound(ts, x);
    }
  }

  /** The span starts at the first of these. */
  lemma {:induction false} SpanByStates(es: seq<Step>, t: Transition, ts: seq<Transition>, i: nat)
    requires Ends(es, t, ts) && FirstOpen(ts, i)
    ensures var r := SetState(After(es), t).1;
            r.Some? && r.value.sk == t.sk && r.value.spanUs == Since(t.now, ts[i].now) / 1000
  {
    LifetimeIsSinceClose(es, t.sk, ts);
    NothingForgotten(es, t.sk);
    SummaryMeans(es, t);
    FirstOpenIs(ts, i);
  }

  /** The name is that of the lifetime's last SYN_SENT or LAST_ACK, whichever process the later transitions ran in. */
  lemma {:induction false} NameByStates(es: seq<Step>, t: Transition, ts: seq<Transition>, i: nat)
    requires Ends(es, t, ts) && LastNaming(ts, i) && SetState(After(es), t).1.Some?
    ensures SetState(After(es), t).1.value.pid == ts[i].pid
  {
    LifetimeIsSinceClose(es, t.sk, ts);
    NothingForgotten(es, t.sk);
    LatestCaptureWins(es, t.sk);
    SummaryMeans(es, t);
    LastNamingIs(ts, i);
  }

  /** Without one, in this lifetime or left over, it is the closer's. */
  lemma {:induction false} CloserByStates(es: seq<Step>, t: Transition, ts: seq<Transition>)
    requires Ends(es, t, ts) && SetState(After(es), t).1.Some?
    requires forall x :: x in Uncleared(es, t.sk) ==> x.state !in {2, 9}
    ensures SetState(After(es), t).1.value.pid == t.pid
  {
    SummaryMeans(es, t);
    NoNaming(Uncleared(es, t.sk));
  }

  /** A connection that ends half seen leaves its name for the next one at that address. */
  lemma {:induction false} StaleIdentity(sk: nat, first: nat, second: nat, es: seq<Step>, t: Transition)
    requires first != second
    requires es == [Moved(Transition(sk, AF_INET, TCP_LAST_ACK, 1, first, true)),
                    Moved(Transition(sk, AF_INET, TCP_CLOSE, 2, first, true)),
                    Moved(Transition(sk, AF_INET, 1, 3, second, true))]
    requires t == Transition(sk, AF_INET, TCP_CLOSE, 4, second, true)
    ensures SetState(After(es), t).1 == Some(Summary(sk, 0, first)) && Rightful(es, t) == second
  {
    var es1, es2 := es[..1], es[..2];
    assert es[..|es|-1] == es2 && es2[..|es2|-1] == es1 && es1[..|es1|-1] == [];
    assert After(es1) == Life(map[], map[sk := first]);
    assert After(es2) == After(es1);
    assert SinceClose(es2, sk) == [];
    assert SinceClose(es, sk) == [es[2].t];
    assert After(es) == Life(map[sk := 3], map[sk := first]);
  }

  /** So does one whose birth is evicted before it closes. */
  lemma {:induction false} StaleAfterEviction(sk: nat, first: nat, second: nat, es: seq<Step>, t: Transition)
    requires first != second
    requires es == [Moved(Transition(sk, AF_INET, TCP_SYN_SENT, 1, first, true)), EvictBirth(sk),
                    Moved(Transition(sk, AF_INET, TCP_CLOSE, 2, first, true)),
                    Moved(Transition(sk, AF_INET, 1, 3, second, true))]
    requires t == Transition(sk, AF_INET, TCP_CLOSE, 4, second, true)
    ensures SetState(After(es), t).1 == Some(Summary(sk, 0, first)) && Rightful(es, t) == second
  {
    var es1, es2, es3 := es[..1], es[..2], es[..3];
    assert es[..|es|-1] == es3 && es3[..|es3|-1] == es2 && es2[..|es2|-1] == es1 && es1[..|es1|-1] == [];
    assert After(es1) == Life(map[sk := 1], map[sk := first]);
    assert After(es2) == Life(map[], map[sk := first]);
    assert After(es3) == After(es2);
    assert SinceClose(es3, sk) == [];
    assert SinceClose(es, sk) == [es[3].t];
    assert After(es) == Life(map[sk := 3], map[sk := first]);
  }

  /** Whatever is evicted, a reported lifetime never reaches back before its own first opening. */
  lemma {:induction false} SpanNeverOverstates(es: seq<Step>, t: Transition)
    requires Timely(es + [Moved(t)]) && Closes(t) && SetState(After(es), t).1.Some?
    ensures var o := FirstOpening(SinceClose(es, t.sk));
            o.Some? && 0 <= SetState(After(es), t).1.value.spanUs <= (t.now - o.value.now) / 1000
  {
    var run, ts := es + [Moved(t)], SinceClose(es, t.sk);
    BirthIsOfThisLifetime(es, t.sk);
    var b :| b in ts && Opening(b) && b.now == After(es).births[t.sk];
    LifetimeIn(es, t.sk, b);
    var i :| 0 <= i < |es| && es[i] == Moved(b) && Of(es[i], t.sk);
    assert run[i] == Moved(b) && run[|es|] == Moved(t);
    assert Timely(es) by {
      assert forall j :: 0 <= j < |es| ==> run[j] == es[j];
    }
    LifetimeOrdered(es, t.sk);
    FirstOpeningEarliest(ts, b);
  }
}
