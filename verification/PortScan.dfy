/**
 The port-scan rule for one source: a table of recently hit destination ports, compacted on
 every packet, against the set of ports really hit within the window.
 */
module PortScan {
  import opened Words
  import opened Options
  import opened Sets

  const MAX_SCAN_PORTS: nat := 256
  const SCAN_WINDOW_NS: nat := 5_000_000_000
  const SCAN_PORT_THRESH: nat := 20
  const SCAN_COOLDOWN_NS: nat := 10_000_000_000

  datatype Seen = Seen(port: nat, ts: nat)

  /** The entries in use, and the time of the latest alert (0 for none). */
  datatype Src = Src(seen: seq<Seen>, lastAlert: nat)

  datatype Pkt = Pkt(port: nat, ts: nat)

  /** The entries still inside the window, in order. */
  function Expire(seen: seq<Seen>, now: nat): seq<Seen> {
    if seen == [] then []
    else
      var (rest, last) := (seen[..|seen|-1], seen[|seen|-1]);
      Expire(rest, now) + if Since(now, last.ts) < SCAN_WINDOW_NS then [last] else []
  }

  /** Refresh the port's entry, or append one if there is room. */
  function Record(seen: seq<Seen>, port: nat, now: nat): seq<Seen> {
    var i := IndexOf(seen, port);
    if i < |seen| then seen[i := Seen(port, now)]
    else if |seen| < MAX_SCAN_PORTS then seen + [Seen(port, now)]
    else seen
  }

  function IndexOf(seen: seq<Seen>, port: nat): (i: nat)
    ensures i <= |seen| && (i < |seen| ==> seen[i].port == port)
    ensures forall j :: 0 <= j < i ==> seen[j].port != port
  {
    if seen == [] || seen[0].port == port then 0 else 1 + IndexOf(seen[1..], port)
  }

  /** Alert, with the number of ports, on too many ports unless the latest alert is too recent. */
  function Judge(s: Src, now: nat): (Src, Option<nat>) {
    if |s.seen| > SCAN_PORT_THRESH && (s.lastAlert == 0 || Since(now, s.lastAlert) > SCAN_COOLDOWN_NS)
    then (Src(s.seen, now), Some(|s.seen|))
    else (s, None)
  }

  /** One packet of the source. */
  function Hit(s: Src, k: Pkt): (Src, Option<nat>) {
    Judge(Src(Record(Expire(s.seen, k.ts), k.port, k.ts), s.lastAlert), k.ts)
  }

  function After(ks: seq<Pkt>): Src {
    if ks == [] then Src([], 0) else Hit(After(ks[..|ks|-1]), ks[|ks|-1]).0
  }

  /** The alert raised by the last packet of `ks`, if any. */
  function AlertAt(ks: seq<Pkt>): Option<nat>
    requires ks != []
  {
    Hit(After(ks[..|ks|-1]), ks[|ks|-1]).1
  }

  // ---- what really happened -----------------------------------------------

  /** Timestamps are positive and do not run backwards. */
  predicate Timely(ks: seq<Pkt>) {
    ks == [] ||
    (Timely(ks[..|ks|-1]) && 0 < ks[|ks|-1].ts && (|ks| > 1 ==> ks[|ks|-2].ts <= ks[|ks|-1].ts))
  }

  function Now(ks: seq<Pkt>): nat {
    if ks == [] then 0 else ks[|ks|-1].ts
  }

  function LastHit(ks: seq<Pkt>, port: nat): Option<nat> {
    if ks == [] then None
    else if ks[|ks|-1].port == port then Some(ks[|ks|-1].ts)
    else LastHit(ks[..|ks|-1], port)
  }

  /** The port was last hit less than a window ago. */
  predicate InWindow(ks: seq<Pkt>, port: nat, now: nat) {
    LastHit(ks, port).Some? && now - LastHit(ks, port).value < 5_000_000_000
  }

  ghost function WindowPorts(ks: seq<Pkt>): set<nat> {
    set k | k in ks && InWindow(ks, k.port, Now(ks)) :: k.port
  }

  ghost function Ports(seen: seq<Seen>): set<nat> {
    set e | e in seen :: e.port
  }

  ghost predicate Distinct(seen: seq<Seen>) {
    forall i, j :: 0 <= i < j < |seen| ==> seen[i].port != seen[j].port
  }

  /** Every entry is a port with the time it was really last hit. */
  ghost predicate True(seen: seq<Seen>, ks: seq<Pkt>) {
    forall e :: e in seen ==> LastHit(ks, e.port) == Some(e.ts)
  }

  lemma {:induction false} ExpireIs(seen: seq<Seen>, now: nat)
    ensures forall e :: e in Expire(seen, now) <==> e in seen && Since(now, e.ts) < SCAN_WINDOW_NS
    ensures |Expire(seen, now)| <= |seen|
  {
    if seen != [] {
      ExpireIs(seen[..|seen|-1], now);
      assert seen == seen[..|seen|-1] + [seen[|seen|-1]];
    }
  }

  lemma {:induction false} ExpireDistinct(seen: seq<Seen>, now: nat)
    requires Distinct(seen)
    ensures Distinct(Expire(seen, now))
  {
    if seen != [] {
      var rest := seen[..|seen|-1];
      ExpireDistinct(rest, now);
      ExpireIs(rest, now);
      forall e | e in Expire(rest, now)
        ensures e.port != seen[|seen|-1].port
      {
        assert e in rest;
      }
    }
  }

  lemma {:induction false} RecordIs(seen: seq<Seen>, port: nat, now: nat)
    requires Distinct(seen)
    ensures var r := Record(seen, port, now);
            && Distinct(r)
            && (forall e :: e in r ==> (e in seen && e.port != port) || e == Seen(port, now))
            && (forall e :: e in seen && e.port != port ==> e in r)
            && (Seen(port, now) in r || |seen| >= MAX_SCAN_PORTS)
            && (|seen| <= MAX_SCAN_PORTS ==> |r| <= MAX_SCAN_PORTS)
  {
    var r, i := Record(seen, port, now), IndexOf(seen, port);
    if i < |seen| {
      assert r[i] == Seen(port, now);
      forall e | e in seen && e.port != port
        ensures e in r
      {
        var j :| 0 <= j < |seen| && seen[j] == e;
        assert r[j] == e;
      }
    }
  }

  /** A row of 256 entries takes no new port, and one with the port only has it refreshed. */
  lemma RecordInFull(seen: seq<Seen>, port: nat, now: nat)
    ensures |seen| >= 256 && (forall e :: e in seen ==> e.port != port) ==> Record(seen, port, now) == seen
    ensures forall i :: 0 <= i < |seen| && seen[i].port != port ==>
              i < |Record(seen, port, now)| && Record(seen, port, now)[i] == seen[i]
  {
  }

  // ---- one packet ---------------------------------------------------------

  /** The table after `ks`: distinct ports, true timestamps, all inside the window. */
  ghost predicate Good(seen: seq<Seen>, ks: seq<Pkt>) {
    && |seen| <= MAX_SCAN_PORTS && Distinct(seen) && True(seen, ks)
    && (forall e :: e in seen ==> Now(ks) - e.ts < SCAN_WINDOW_NS)
  }

  lemma {:induction false} LastHitPast(ks: seq<Pkt>, port: nat)
    requires Timely(ks) && LastHit(ks, port).Some?
    ensures 0 < LastHit(ks, port).value <= Now(ks)
  {
    if ks[|ks|-1].port != port {
      LastHitPast(ks[..|ks|-1], port);
    }
  }

  lemma {:induction false} PacketKeepsGood(ks: seq<Pkt>)
    requires ks != [] && Timely(ks) && Good(After(ks[..|ks|-1]).seen, ks[..|ks|-1])
    ensures Good(After(ks).seen, ks)
  {
    var ks', k := ks[..|ks|-1], ks[|ks|-1];
    var seen := After(ks').seen;
    var kept := Expire(seen, k.ts);
    ExpireIs(seen, k.ts);
    ExpireDistinct(seen, k.ts);
    RecordIs(kept, k.port, k.ts);
    var seen' := Record(kept, k.port, k.ts);
    assert After(ks).seen == seen';
    forall e | e in seen'
      ensures LastHit(ks, e.port) == Some(e.ts) && k.ts - e.ts < SCAN_WINDOW_NS
    {
      if e.port != k.port {
        LastHitPast(ks', e.port);
      }
    }
  }

  lemma {:induction false} RunGood(ks: seq<Pkt>)
    requires Timely(ks)
    ensures Good(After(ks).seen, ks)
  {
    if ks != [] {
      RunGood(ks[..|ks|-1]);
      PacketKeepsGood(ks);
    }
  }

  // ---- counting -----------------------------------------------------------

  lemma {:induction false} PortsCard(seen: seq<Seen>)
    requires Distinct(seen)
    ensures |Ports(seen)| == |seen|
  {
    if seen != [] {
      var rest, last := seen[..|seen|-1], seen[|seen|-1];
      PortsCard(rest);
      assert seen == rest + [last];
      assert Ports(seen) == Ports(rest) + {last.port};
      assert last.port !in Ports(rest);
    }
  }

  lemma {:induction false} LastHitIn(ks: seq<Pkt>, port: nat)
    ensures LastHit(ks, port).Some? <==> exists k :: k in ks && k.port == port
  {
    if ks != [] {
      var ks', k := ks[..|ks|-1], ks[|ks|-1];
      LastHitIn(ks', port);
      assert ks == ks' + [k];
      if k.port == port {
        assert k in ks;
      }
    }
  }

  lemma {:induction false} WindowPortsIs(ks: seq<Pkt>, port: nat)
    ensures port in WindowPorts(ks) <==> InWindow(ks, port, Now(ks))
  {
    LastHitIn(ks, port);
  }

  /** The table never lists a port that was not hit inside the window, so no count overstates. */
  lemma {:induction false} NoOverstatement(ks: seq<Pkt>)
    requires Timely(ks)
    ensures Ports(After(ks).seen) <= WindowPorts(ks) && |After(ks).seen| <= |WindowPorts(ks)|
  {
    RunGood(ks);
    var seen := After(ks).seen;
    forall port | port in Ports(seen)
      ensures port in WindowPorts(ks)
    {
      var e :| e in seen && e.port == port;
      WindowPortsIs(ks, port);
    }
    PortsCard(seen);
    SubsetCard(Ports(seen), WindowPorts(ks));
  }

  // ---- exactness ----------------------------------------------------------

  /** No window, at any packet, held more than 256 ports. */
  ghost predicate AlwaysNarrow(ks: seq<Pkt>) {
    |WindowPorts(ks)| <= 256 && (ks == [] || AlwaysNarrow(ks[..|ks|-1]))
  }

  /** At every packet the table listed exactly the ports of the window. */
  ghost predicate AlwaysExact(ks: seq<Pkt>) {
    Ports(After(ks).seen) == WindowPorts(ks) && (ks == [] || AlwaysExact(ks[..|ks|-1]))
  }

  lemma {:induction false} NewPortFits(ks: seq<Pkt>)
    requires ks != [] && Timely(ks) && Good(After(ks[..|ks|-1]).seen, ks[..|ks|-1])
    requires |WindowPorts(ks)| <= MAX_SCAN_PORTS
    ensures Seen(ks[|ks|-1].port, ks[|ks|-1].ts) in After(ks).seen
  {
    var ks', k := ks[..|ks|-1], ks[|ks|-1];
    var seen := After(ks').seen;
    var kept := Expire(seen, k.ts);
    ExpireIs(seen, k.ts);
    ExpireDistinct(seen, k.ts);
    RecordIs(kept, k.port, k.ts);
    var i := IndexOf(kept, k.port);
    if i < |kept| {
      assert Record(kept, k.port, k.ts)[i] == Seen(k.port, k.ts);
    } else {
      forall port | port in Ports(kept) + {k.port}
        ensures port in WindowPorts(ks)
      {
        WindowPortsIs(ks, port);
        if port in Ports(kept) {
          var e :| e in kept && e.port == port;
          LastHitPast(ks', port);
        }
      }
      PortsCard(kept);
      SubsetCard(Ports(kept) + {k.port}, WindowPorts(ks));
    }
  }

  lemma {:induction false} EntrySurvives(seen: seq<Seen>, e: Seen, k: Pkt)
    requires Distinct(seen) && e in seen && e.port != k.port && e.ts <= k.ts && k.ts - e.ts < SCAN_WINDOW_NS
    ensures e in Record(Expire(seen, k.ts), k.port, k.ts)
  {
    ExpireIs(seen, k.ts);
    ExpireDistinct(seen, k.ts);
    RecordIs(Expire(seen, k.ts), k.port, k.ts);
  }

  lemma {:induction false} WindowPortRecorded(ks: seq<Pkt>, port: nat)
    requires ks != [] && Timely(ks) && Good(After(ks[..|ks|-1]).seen, ks[..|ks|-1])
    requires Ports(After(ks[..|ks|-1]).seen) == WindowPorts(ks[..|ks|-1])
    requires port in WindowPorts(ks) && port != ks[|ks|-1].port
    ensures port in Ports(After(ks).seen)
  {
    var ks', k := ks[..|ks|-1], ks[|ks|-1];
    var seen := After(ks').seen;
    WindowPortsIs(ks, port);
    WindowPortsIs(ks', port);
    LastHitPast(ks', port);
    var e :| e in seen && e.port == port;
    EntrySurvives(seen, e, k);
  }

  lemma {:induction false} NarrowIsExact(ks: seq<Pkt>)
    requires Timely(ks) && AlwaysNarrow(ks)
    ensures AlwaysExact(ks)
  {
    NoOverstatement(ks);
    if ks != [] {
      var ks', k := ks[..|ks|-1], ks[|ks|-1];
      NarrowIsExact(ks');
      RunGood(ks');
      NewPortFits(ks);
      forall port | port in WindowPorts(ks)
        ensures port in Ports(After(ks).seen)
      {
        if port != k.port {
          WindowPortRecorded(ks, port);
        }
      }
    }
  }

  lemma {:induction false} NarrowCount(ks: seq<Pkt>)
    requires Timely(ks) && AlwaysNarrow(ks)
    ensures |After(ks).seen| == |WindowPorts(ks)|
  {
    NarrowIsExact(ks);
    RunGood(ks);
    PortsCard(After(ks).seen);
  }

  lemma {:induction false} ExactIsNarrow(ks: seq<Pkt>)
    requires Timely(ks) && AlwaysExact(ks)
    ensures AlwaysNarrow(ks)
  {
    RunGood(ks);
    PortsCard(After(ks).seen);
    if ks != [] {
      ExactIsNarrow(ks[..|ks|-1]);
    }
  }

  /** The table is the exact window at every packet, exactly when no window outgrows it. */
  lemma {:induction false} ExactExactlyWhen(ks: seq<Pkt>)
    requires Timely(ks)
    ensures AlwaysExact(ks) <==> AlwaysNarrow(ks)
  {
    if AlwaysNarrow(ks) {
      NarrowIsExact(ks);
    }
    if AlwaysExact(ks) {
      ExactIsNarrow(ks);
    }
  }

  // ---- alerts -------------------------------------------------------------

  function AlertTimes(ks: seq<Pkt>): seq<nat> {
    if ks == [] then []
    else
      var before := AlertTimes(ks[..|ks|-1]);
      if AlertAt(ks).Some? then before + [ks[|ks|-1].ts] else before
  }

  lemma {:induction false} HitAlert(s: Src, k: Pkt)
    ensures Hit(s, k).0.lastAlert == if Hit(s, k).1.Some? then k.ts else s.lastAlert
  {
  }

  lemma {:induction false} LastAlertIs(ks: seq<Pkt>)
    requires Timely(ks)
    ensures var ts := AlertTimes(ks);
            && After(ks).lastAlert == (if ts == [] then 0 else ts[|ts|-1])
            && (ts != [] ==> 0 < ts[|ts|-1] <= Now(ks))
  {
    if ks != [] {
      var before, k := ks[..|ks|-1], ks[|ks|-1];
      LastAlertIs(before);
      HitAlert(After(before), k);
      assert Now(before) <= k.ts;
    }
  }

  /** When a packet raises an alert, in terms of the table and of the alerts before it. */
  lemma {:induction false} AlertRule(ks: seq<Pkt>)
    requires ks != [] && Timely(ks)
    ensures var (n, ts) := (|After(ks).seen|, AlertTimes(ks[..|ks|-1]));
            && (AlertAt(ks).Some? <==> n > SCAN_PORT_THRESH && (ts == [] || Now(ks) - ts[|ts|-1] > SCAN_COOLDOWN_NS))
            && (AlertAt(ks).Some? ==> AlertAt(ks).value == n)
  {
    LastAlertIs(ks[..|ks|-1]);
  }

  ghost predicate Spaced(ts: seq<nat>) {
    forall i, j :: 0 <= i < j < |ts| ==> ts[j] > ts[i] + 10_000_000_000
  }

  lemma SpacedAppend(ts: seq<nat>, t: nat)
    requires Spaced(ts) && (ts != [] ==> t - ts[|ts|-1] > SCAN_COOLDOWN_NS)
    ensures Spaced(ts + [t])
  {
    forall i | 0 <= i < |ts|
      ensures t - ts[i] > SCAN_COOLDOWN_NS
    {
      assert i < |ts| - 1 ==> ts[|ts|-1] - ts[i] > SCAN_COOLDOWN_NS;
    }
  }

  /** Any two alerts for one source are more than 10 s apart. */
  lemma {:induction false} AlertsApart(ks: seq<Pkt>)
    requires Timely(ks)
    ensures Spaced(AlertTimes(ks))
  {
    if ks != [] {
      AlertsApart(ks[..|ks|-1]);
      if AlertAt(ks).Some? {
        AlertRule(ks);
        SpacedAppend(AlertTimes(ks[..|ks|-1]), Now(ks));
      }
    }
  }

  /**
   While no window outgrows the table, a packet raises an alert exactly when more than 20 ports
   were really hit within the window and the last alert is more than 10 s old, and the number
   reported is the number really hit.
   */
  lemma {:induction false} AlertExactlyWhen(ks: seq<Pkt>)
    requires ks != [] && Timely(ks) && AlwaysNarrow(ks)
    ensures var (n, ts) := (|WindowPorts(ks)|, AlertTimes(ks[..|ks|-1]));
            && (AlertAt(ks).Some? <==> n > 20 && (ts == [] || Now(ks) - ts[|ts|-1] > 10_000_000_000))
            && (AlertAt(ks).Some? ==> AlertAt(ks).value == n)
  {
    AlertRule(ks);
    NarrowCount(ks);
  }

  /** Even past 256 ports, an alert reports no more ports than were really hit within the window. */
  lemma {:induction false} AlertNeverOverstates(ks: seq<Pkt>)
    requires ks != [] && Timely(ks) && AlertAt(ks).Some?
    ensures SCAN_PORT_THRESH < AlertAt(ks).value <= |WindowPorts(ks)|
  {
    NoOverstatement(ks);
  }
}
