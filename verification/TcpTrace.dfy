/**
 What `tcp_set_state` shows: the transitions of every socket, told apart only by the socket's
 address, which the kernel reuses. The LRU maps may lose any entry between two of them.
 */
module TcpTrace {
  import opened Options

  const AF_INET: nat := 2
  const AF_INET6: nat := 10

  const TCP_SYN_SENT: nat := 2
  const TCP_FIN_WAIT1: nat := 4
  const TCP_CLOSE: nat := 7
  const TCP_LAST_ACK: nat := 9

  /** A call of the hook: its arguments, the clock, the current process, and whether the ring has room. */
  datatype Transition = Transition(sk: nat, family: nat, state: nat, now: nat, pid: nat, room: bool)

  datatype Step = Moved(t: Transition) | EvictBirth(sk: nat) | EvictIdent(sk: nat) | EvictStamp(sk: nat)

  predicate Ip(t: Transition) {
    t.family == AF_INET || t.family == AF_INET6
  }

  /** A transition of the socket at address `sk`. */
  predicate Of(e: Step, sk: nat) {
    e.Moved? && e.t.sk == sk && Ip(e.t)
  }

  /** ESTABLISHED, SYN_SENT or SYN_RECV. */
  predicate Opening(t: Transition) {
    t.state < TCP_FIN_WAIT1
  }

  /** The two transitions that run in the owning process. */
  predicate Capturing(t: Transition) {
    t.state == TCP_SYN_SENT || t.state == TCP_LAST_ACK
  }

  predicate NothingEvicted(es: seq<Step>, sk: nat) {
    forall e :: e in es ==> e.Moved? || e.sk != sk
  }

  // ---- lifetimes ----------------------------------------------------------

  /** The current lifetime of the address: its transitions since its last CLOSE. */
  function SinceClose(es: seq<Step>, sk: nat): seq<Transition> {
    if es == [] then []
    else
      var (before, e) := (SinceClose(es[..|es|-1], sk), es[|es|-1]);
      if !Of(e, sk) then before else if e.t.state == TCP_CLOSE then [] else before + [e.t]
  }

  function FirstOpening(ts: seq<Transition>): (r: Option<Transition>)
    ensures r.Some? ==> r.value in ts && Opening(r.value)
  {
    if ts == [] then None else if Opening(ts[0]) then Some(ts[0]) else FirstOpening(ts[1..])
  }

  function LastCapture(ts: seq<Transition>): (r: Option<Transition>)
    ensures r.Some? ==> r.value in ts && Capturing(r.value)
  {
    if ts == [] then None
    else if Capturing(ts[|ts|-1]) then Some(ts[|ts|-1])
    else LastCapture(ts[..|ts|-1])
  }

  /** The transitions since the last CLOSE or the last loss of the birth, whichever is later. */
  function SinceForgotten(es: seq<Step>, sk: nat): seq<Transition> {
    if es == [] then []
    else
      var (before, e) := (SinceForgotten(es[..|es|-1], sk), es[|es|-1]);
      if e == EvictBirth(sk) then []
      else if !Of(e, sk) then before
      else if e.t.state == TCP_CLOSE then [] else before + [e.t]
  }

  /** The transitions since the last CLOSE that found a birth or the last loss of the identity, whichever is later. */
  function Uncleared(es: seq<Step>, sk: nat): seq<Transition> {
    if es == [] then []
    else
      var (before, e) := (es[..|es|-1], es[|es|-1]);
      if e == EvictIdent(sk) then []
      else if !Of(e, sk) then Uncleared(before, sk)
      else if e.t.state != TCP_CLOSE then Uncleared(before, sk) + [e.t]
      else if FirstOpening(SinceForgotten(before, sk)).Some? then [] else Uncleared(before, sk)
  }

  lemma {:induction false} NothingForgotten(es: seq<Step>, sk: nat)
    requires NothingEvicted(es, sk)
    ensures SinceForgotten(es, sk) == SinceClose(es, sk)
    ensures LastCapture(SinceClose(es, sk)).Some? ==> LastCapture(Uncleared(es, sk)).Some?
  {
    if es != [] {
      NothingForgotten(es[..|es|-1], sk);
    }
  }

  /** If this lifetime has a capture and any capture is uncleared, they are the same. */
  lemma {:induction false} LatestCaptureWins(es: seq<Step>, sk: nat)
    ensures var (own, kept) := (LastCapture(SinceClose(es, sk)), LastCapture(Uncleared(es, sk)));
            own.Some? && kept.Some? ==> own == kept
  {
    if es != [] {
      LatestCaptureWins(es[..|es|-1], sk);
    }
  }

  // ---- order --------------------------------------------------------------

  ghost predicate Ordered(ts: seq<Transition>) {
    forall i, j :: 0 <= i < j < |ts| ==> ts[i].now <= ts[j].now
  }

  /** The clock does not run backwards from one call to the next. */
  ghost predicate Timely(es: seq<Step>) {
    forall i, j :: 0 <= i < j < |es| && es[i].Moved? && es[j].Moved? ==> es[i].t.now <= es[j].t.now
  }

  lemma {:induction false} LifetimeIn(es: seq<Step>, sk: nat, t: Transition)
    requires t in SinceClose(es, sk)
    ensures exists i :: 0 <= i < |es| && es[i] == Moved(t) && Of(es[i], sk)
  {
    var before, e := es[..|es|-1], es[|es|-1];
    if t in SinceClose(before, sk) {
      LifetimeIn(before, sk, t);
      var i :| 0 <= i < |before| && before[i] == Moved(t) && Of(before[i], sk);
      assert es[i] == Moved(t);
    } else {
      assert e == Moved(t);
    }
  }

  lemma {:induction false} LifetimeOrdered(es: seq<Step>, sk: nat)
    requires Timely(es)
    ensures Ordered(SinceClose(es, sk))
  {
    if es != [] {
      var before, e := es[..|es|-1], es[|es|-1];
      LifetimeOrdered(before, sk);
      forall t | t in SinceClose(before, sk)
        ensures e.Moved? ==> t.now <= e.t.now
      {
        LifetimeIn(before, sk, t);
      }
    }
  }

  lemma {:induction false} FirstOpeningAppend(ts: seq<Transition>, t: Transition)
    ensures FirstOpening(ts + [t]) ==
            if FirstOpening(ts).Some? then FirstOpening(ts) else if Opening(t) then Some(t) else None
  {
    if ts != [] {
      FirstOpeningAppend(ts[1..], t);
      assert (ts + [t])[1..] == ts[1..] + [t];
    }
  }

  lemma {:induction false} FirstOpeningEarliest(ts: seq<Transition>, t: Transition)
    requires Ordered(ts) && t in ts && Opening(t)
    ensures FirstOpening(ts).Some? && FirstOpening(ts).value.now <= t.now
  {
    if !Opening(ts[0]) {
      FirstOpeningEarliest(ts[1..], t);
    }
  }

  /** The states of one socket on its way to CLOSE. */
  ghost predicate OneLifetime(es: seq<Step>, sk: nat) {
    forall i :: 0 <= i < |es| ==> Of(es[i], sk) && es[i].t.state != TCP_CLOSE
  }

  lemma {:induction false} LifetimeIs(es: seq<Step>, sk: nat, i: nat)
    requires OneLifetime(es, sk) && i < |es|
    ensures Uncleared(es, sk) == SinceForgotten(es, sk) == SinceClose(es, sk)
    ensures |SinceClose(es, sk)| == |es| && SinceClose(es, sk)[i] == es[i].t
  {
    var before := es[..|es|-1];
    if before != [] {
      LifetimeIs(before, sk, if i < |before| then i else 0);
    }
  }
}
