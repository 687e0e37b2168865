/**
 The beacon rule over all flows: a fixed table of 1024 flows that never evicts, each with a
 ring of gaps overwritten in place and summed on every packet.
 */
module BeaconTable {
  import opened Options
  import opened Beacon
  import opened SlotTable

  const MAX_FLOWS: nat := 1024

  /** The source port is left out on purpose: every callback of a beacon comes from a new one. */
  datatype FlowKey = FlowKey(saddr: nat, daddr: nat, dport: nat, proto: nat)

  type Tracked = Entry<FlowKey, Flow>

  function Flows(): Machine<Flow, nat> {
    Machine(MAX_FLOWS, Fresh(), (f: Flow, ts: nat) => Packet(f, ts).0)
  }

  /** One packet of a flow: the new table and the alert, if any. */
  function Rule(t: seq<Tracked>, key: FlowKey, ts: nat): (seq<Tracked>, Option<Alert>) {
    var (i, t') := (Find(t, key), Claim(Flows(), t, key));
    (Touch(Flows(), t, key, ts), if i < |t'| then Packet(t'[i].state, ts).1 else None)
  }

  lemma {:induction false} FlowState(tss: seq<nat>)
    ensures StateAfter(Flows(), tss) == Beacon.After(tss)
  {
    if tss != [] {
      FlowState(tss[..|tss|-1]);
    }
  }

  /**
   For every packet stream, the engine alerts on a packet exactly when the rule alerts on that
   flow's packets alone, unless 1024 other flows came before the flow's first packet.
   */
  lemma {:induction false} EngineAlert(ps: seq<(FlowKey, nat)>, key: FlowKey, ts: nat)
    ensures Rule(TableAfter(Flows(), ps), key, ts).1 ==
            if key in Served(1024, ps + [(key, ts)]) then AlertAt(EventsOf(ps, key) + [ts]) else None
  {
    var tss := EventsOf(ps, key);
    LastEvent(Flows(), ps, key, ts);
    FlowState(tss);
    assert (tss + [ts])[..|tss|] == tss;
  }

  // ---- the fixed arrays ---------------------------------------------------

  datatype Slot = Slot(used: bool, key: FlowKey, lastTs: nat, ngaps: nat, alerted: bool)

  /** One `slots` entry and one row of `gaps` make up a flow's record; records in use come first. */
  class FlowTable {
    const slots: array<Slot>
    const gaps: array2<real>
    ghost var count: nat

    ghost predicate Valid()
      reads this, slots, gaps
    {
      && slots.Length == gaps.Length0 == MAX_FLOWS && gaps.Length1 == MAX_GAPS
      && count <= MAX_FLOWS
      && (forall i :: 0 <= i < MAX_FLOWS ==> (slots[i].used <==> i < count))
      && forall i, j :: count <= i < MAX_FLOWS && 0 <= j < MAX_GAPS ==> gaps[i, j] == 0.0
    }

    ghost function Row(i: nat): (row: seq<real>)
      requires i < gaps.Length0 && gaps.Length1 == MAX_GAPS
      reads gaps
    {
      seq(MAX_GAPS, j requires 0 <= j < MAX_GAPS reads gaps => gaps[i, j])
    }

    ghost function FlowAt(i: nat): Flow
      requires Valid() && i < count
      reads this, slots, gaps
    {
      Flow(slots[i].lastTs, Row(i), slots[i].ngaps, slots[i].alerted)
    }

    ghost function View(): seq<Tracked>
      requires Valid()
      reads this, slots, gaps
    {
      seq(count, i requires 0 <= i < count && Valid() reads this, slots, gaps => Entry(slots[i].key, FlowAt(i)))
    }

    constructor ()
      ensures Valid() && View() == [] && fresh(slots) && fresh(gaps)
    {
      slots := new Slot[MAX_FLOWS](_ => Slot(false, FlowKey(0, 0, 0, 0), 0, 0, false));
      gaps := new real[MAX_FLOWS, MAX_GAPS]((_, _) => 0.0);
      count := 0;
    }

    /** Look the flow up, or claim the first free record for it. */
    method FlowGet(key: FlowKey) returns (r: Option<nat>)
      requires Valid()
      modifies this, slots
      ensures Valid()
      ensures View() == Claim(Flows(), old(View()), key)
      ensures var i := Find(old(View()), key); r == if i < |View()| then Some(i) else None
    {
      var free: Option<nat> := None;
      var i := 0;
      while i < MAX_FLOWS
        invariant i <= MAX_FLOWS
        invariant forall j :: 0 <= j < i && j < count ==> slots[j].key != key
        invariant free == if count < i then Some(count) else None
      {
        if !slots[i].used {
          if free == None {
            free := Some(i);
          }
        } else if slots[i].key == key {
          assert View()[i].key == key && i == Find(View(), key);
          return Some(i);
        }
        i := i + 1;
      }
      ghost var t := View();
      assert forall j :: 0 <= j < |t| ==> t[j].key == slots[j].key;
      if free == None {
        return None;
      }
      slots[free.value] := Slot(true, key, 0, 0, false);
      count := count + 1;
      assert FlowAt(free.value) == Fresh();
      assert View() == t + [Entry(key, Fresh())];
      return free;
    }

    /** Write the new gap into the ring. */
    method Note(i: nat, ts: nat)
      requires Valid() && i < |View()|
      modifies slots, gaps
      ensures Valid()
      ensures View() == old(View())[i := old(View())[i].(state := Noted(old(View())[i].state, ts))]
    {
      ghost var row := Row(i);
      if slots[i].lastTs != 0 {
        var gap := Gap(ts, slots[i].lastTs);
        gaps[i, slots[i].ngaps % MAX_GAPS] := gap;
        assert Row(i) == row[slots[i].ngaps % MAX_GAPS := gap];
        slots[i] := slots[i].(ngaps := slots[i].ngaps + 1);
      }
      slots[i] := slots[i].(lastTs := ts);
      assert FlowAt(i) == Noted(old(FlowAt(i)), ts);
      forall k | 0 <= k < count && k != i
        ensures FlowAt(k) == old(FlowAt(k))
      {
        assert Row(k) == old(Row(k));
      }
    }

    method SumRow(i: nat, n: nat) returns (sum: real)
      requires Valid() && i < count && n <= MAX_GAPS
      ensures sum == Total(Row(i)[..n], Itself())
    {
      ghost var xs := Row(i)[..n];
      sum := 0.0;
      for j := 0 to n
        invariant sum == Total(xs[..j], Itself())
      {
        assert xs[..j + 1][..j] == xs[..j];
        sum := sum + gaps[i, j];
      }
      assert xs[..n] == xs;
    }

    method SumDeviations(i: nat, n: nat, mean: real) returns (sum: real)
      requires Valid() && i < count && n <= MAX_GAPS
      ensures sum == Total(Row(i)[..n], Deviation(mean))
    {
      ghost var xs := Row(i)[..n];
      sum := 0.0;
      for j := 0 to n
        invariant sum == Total(xs[..j], Deviation(mean))
      {
        assert xs[..j + 1][..j] == xs[..j];
        var d := (gaps[i, j] - mean) * (gaps[i, j] - mean);
        assert d == Deviation(mean)(xs[j]);
        sum := sum + d;
      }
      assert xs[..n] == xs;
    }

    /** Mean and variance of the first `n` gaps of row `i`, by two passes over them. */
    method Measure(i: nat, n: nat) returns (s: Summary)
      requires Valid() && i < count && 0 < n <= MAX_GAPS
      ensures s == Summarise(Row(i)[..n])
    {
      var sum := SumRow(i, n);
      var mean := sum / n as real;
      var deviation := SumDeviations(i, n, mean);
      return Summary(n, mean, deviation / n as real);
    }

    /** Alert on flow `i` if its gaps are steady and it has not alerted before. */
    method Judge(i: nat) returns (alert: Option<Alert>)
      requires Valid() && i < |View()|
      modifies slots
      ensures Valid()
      ensures var j := Beacon.Judge(old(View())[i].state);
              View() == old(View())[i := old(View())[i].(state := j.0)] && alert == j.1
    {
      ghost var v, f := View(), FlowAt(i);
      assert v[i].state == f;
      var n := if slots[i].ngaps < MAX_GAPS then slots[i].ngaps else MAX_GAPS;
      if n < 1 {
        return None;
      }
      var s := Measure(i, n);
      assert s == Summarise(Kept(f));
      if slots[i].alerted || n < BEACON_MIN_SAMPLES {
        return None;
      }
      if s.mean < BEACON_MIN_INTERVAL || s.mean > BEACON_MAX_INTERVAL {
        return None;
      }
      if s.variance > (BEACON_CV_MAX * s.mean) * (BEACON_CV_MAX * s.mean) {
        return None;
      }
      slots[i] := slots[i].(alerted := true);
      assert FlowAt(i) == f.(alerted := true);
      assert View() == v[i := v[i].(state := f.(alerted := true))];
      return Some(AlertOn(s));
    }

    /** The rule on one packet of flow `i`. */
    method RuleBeacon(i: nat, ts: nat) returns (alert: Option<Alert>)
      requires Valid() && i < |View()|
      modifies slots, gaps
      ensures Valid()
      ensures var p := Packet(old(View())[i].state, ts);
              View() == old(View())[i := old(View())[i].(state := p.0)] && alert == p.1
    {
      Note(i, ts);
      alert := Judge(i);
    }

    /** One packet does to the arrays what `Rule` does to the list of flows. */
    method HandleEvent(key: FlowKey, ts: nat) returns (alert: Option<Alert>)
      requires Valid()
      modifies this, slots, gaps
      ensures Valid()
      ensures (View(), alert) == Rule(old(View()), key, ts)
    {
      var r := FlowGet(key);
      if r == None {
        return None;
      }
      alert := RuleBeacon(r.value, ts);
    }
  }
}
