/**
 The port-scan rule over all sources: a fixed table of 64 sources that never evicts, each with
 a fixed row of 256 entries compacted in place.
 */
module PortScanTable {
  import opened Words
  import opened Options
  import opened PortScan
  import opened SlotTable

  const MAX_SCAN_SRC: nat := 64

  type Source = Entry<nat, Src>

  function Scans(): Machine<Src, Pkt> {
    Machine(MAX_SCAN_SRC, Src([], 0), (s: Src, k: Pkt) => Hit(s, k).0)
  }

  /** One packet of a source: the new table and, on an alert, the number of ports reported. */
  function Rule(t: seq<Source>, saddr: nat, k: Pkt): (seq<Source>, Option<nat>) {
    var (i, t') := (Find(t, saddr), SlotTable.Claim(Scans(), t, saddr));
    (Touch(Scans(), t, saddr, k), if i < |t'| then Hit(t'[i].state, k).1 else None)
  }

  lemma {:induction false} ScanState(ks: seq<Pkt>)
    ensures StateAfter(Scans(), ks) == PortScan.After(ks)
  {
    if ks != [] {
      ScanState(ks[..|ks|-1]);
    }
  }

  /**
   For every packet stream, the engine alerts on a packet exactly when the rule alerts on that
   source's packets alone, unless 64 other sources came before the source's first packet.
   */
  lemma {:induction false} EngineAlert(ps: seq<(nat, Pkt)>, saddr: nat, k: Pkt)
    ensures Rule(TableAfter(Scans(), ps), saddr, k).1 ==
            if saddr in Served(64, ps + [(saddr, k)]) then AlertAt(EventsOf(ps, saddr) + [k]) else None
  {
    var ks := EventsOf(ps, saddr);
    LastEvent(Scans(), ps, saddr, k);
    ScanState(ks);
    assert (ks + [k])[..|ks|] == ks;
  }

  // ---- the fixed arrays ---------------------------------------------------

  function WithSeen(t: seq<Source>, i: nat, seen: seq<Seen>): seq<Source>
    requires i < |t|
  {
    t[i := t[i].(state := t[i].state.(seen := seen))]
  }

  /** The rule is: find or add the source, expire, record, and judge the result. */
  lemma RuleInSteps(t0: seq<Source>, t: seq<Source>, t1: seq<Source>, t2: seq<Source>, i: nat, saddr: nat, k: Pkt)
    requires t == SlotTable.Claim(Scans(), t0, saddr) && i == Find(t0, saddr) < |t|
    requires t1 == WithSeen(t, i, Expire(t[i].state.seen, k.ts))
    requires t2 == WithSeen(t1, i, Record(t1[i].state.seen, k.port, k.ts))
    ensures var j := PortScan.Judge(t2[i].state, k.ts);
            Rule(t0, saddr, k) == (t2[i := t2[i].(state := j.0)], j.1)
  {
    var j := PortScan.Judge(t2[i].state, k.ts);
    assert j == Hit(t[i].state, k);
    assert t2[i := t2[i].(state := j.0)] == t[i := Entry(saddr, j.0)];
  }

  datatype Slot = Slot(used: bool, saddr: nat, n: nat, lastAlert: nat)

  /** One `slots` entry and one row of `seen` make up a source's record; records in use come first. */
  class ScanTable {
    const slots: array<Slot>
    const seen: array2<Seen>
    ghost var count: nat

    ghost predicate Valid()
      reads this, slots
    {
      && slots.Length == seen.Length0 == MAX_SCAN_SRC && seen.Length1 == MAX_SCAN_PORTS
      && count <= MAX_SCAN_SRC
      && (forall i :: 0 <= i < MAX_SCAN_SRC ==> (slots[i].used <==> i < count))
      && forall i :: 0 <= i < count ==> slots[i].n <= MAX_SCAN_PORTS
    }

    ghost function Row(i: nat, n: nat): (row: seq<Seen>)
      requires i < seen.Length0 && n <= seen.Length1
      reads seen
    {
      seq(n, j requires 0 <= j < n reads seen => seen[i, j])
    }

    ghost function EntryAt(i: nat): Source
      requires Valid() && i < count
      reads this, slots, seen
    {
      Entry(slots[i].saddr, Src(Row(i, slots[i].n), slots[i].lastAlert))
    }

    ghost function View(): seq<Source>
      requires Valid()
      reads this, slots, seen
    {
      seq(count, i requires 0 <= i < count && Valid() reads this, slots, seen => EntryAt(i))
    }

    constructor ()
      ensures Valid() && View() == [] && fresh(slots) && fresh(seen)
    {
      slots := new Slot[MAX_SCAN_SRC](_ => Slot(false, 0, 0, 0));
      seen := new Seen[MAX_SCAN_SRC, MAX_SCAN_PORTS]((_, _) => Seen(0, 0));
      count := 0;
    }

    /** Look the source up, or claim the first free record for it. */
    method Claim(saddr: nat) returns (r: Option<nat>)
      requires Valid()
      modifies this, slots
      ensures Valid()
      ensures View() == SlotTable.Claim(Scans(), old(View()), saddr)
      ensures var i := Find(old(View()), saddr); r == if i < |View()| then Some(i) else None
    {
      var free: Option<nat> := None;
      var i := 0;
      while i < MAX_SCAN_SRC
        invariant i <= MAX_SCAN_SRC
        invariant forall j :: 0 <= j < i && j < count ==> slots[j].saddr != saddr
        invariant free == if count < i then Some(count) else None
      {
        if !slots[i].used {
          if free == None {
            free := Some(i);
          }
        } else if slots[i].saddr == saddr {
          assert View()[i].key == saddr && i == Find(View(), saddr);
          return Some(i);
        }
        i := i + 1;
      }
      ghost var t := View();
      assert forall j :: 0 <= j < |t| ==> t[j].key == slots[j].saddr;
      if free == None {
        return None;
      }
      slots[free.value] := Slot(true, saddr, 0, 0);
      count := count + 1;
      assert Row(free.value, 0) == [];
      assert View() == t + [Entry(saddr, Src([], 0))];
      return free;
    }

    /** Compact row `i` in place: read and write positions move through the same row. */
    method Compact(i: nat, now: nat) returns (w: nat)
      requires Valid() && i < count
      modifies seen
      ensures w <= slots[i].n && Row(i, w) == Expire(old(Row(i, slots[i].n)), now)
      ensures forall k, j :: 0 <= k < MAX_SCAN_SRC && k != i && 0 <= j < MAX_SCAN_PORTS ==> seen[k, j] == old(seen[k, j])
    {
      w := 0;
      ghost var row := Row(i, slots[i].n);
      for r := 0 to slots[i].n
        invariant w <= r && Row(i, w) == Expire(row[..r], now)
        invariant forall j :: r <= j < slots[i].n ==> seen[i, j] == row[j]
        invariant forall k, j :: 0 <= k < MAX_SCAN_SRC && k != i && 0 <= j < MAX_SCAN_PORTS ==> seen[k, j] == old(seen[k, j])
      {
        assert row[..r + 1][..r] == row[..r];
        ghost var kept := Row(i, w);
        if Since(now, seen[i, r].ts) < SCAN_WINDOW_NS {
          seen[i, w] := seen[i, r];
          w := w + 1;
          assert Row(i, w) == kept + [row[r]];
        }
      }
      assert row[..slots[i].n] == row;
    }

    method ExpireRow(i: nat, now: nat)
      requires Valid() && i < |View()|
      modifies slots, seen
      ensures Valid()
      ensures View() == WithSeen(old(View()), i, Expire(old(View())[i].state.seen, now))
    {
      var w := Compact(i, now);
      slots[i] := slots[i].(n := w);
      forall k | 0 <= k < count && k != i
        ensures EntryAt(k) == old(EntryAt(k))
      {
        assert Row(k, slots[k].n) == old(Row(k, slots[k].n));
      }
    }

    /** Refresh the port's entry in row `i`, or append one while the row has room. */
    method RecordPort(i: nat, port: nat, now: nat)
      requires Valid() && i < |View()|
      modifies slots, seen
      ensures Valid()
      ensures View() == WithSeen(old(View()), i, Record(old(View())[i].state.seen, port, now))
    {
      ghost var row := Row(i, slots[i].n);
      var r := 0;
      while r < slots[i].n && seen[i, r].port != port
        invariant r <= slots[i].n
        invariant forall j :: 0 <= j < r ==> row[j].port != port
      {
        r := r + 1;
      }
      assert r < |row| ==> row[r].port == port;
      assert r == IndexOf(row, port);
      if r < slots[i].n {
        seen[i, r] := Seen(seen[i, r].port, now);
        assert Row(i, slots[i].n) == row[r := Seen(port, now)];
      } else if slots[i].n < MAX_SCAN_PORTS {
        seen[i, slots[i].n] := Seen(port, now);
        slots[i] := slots[i].(n := slots[i].n + 1);
        assert Row(i, slots[i].n) == row + [Seen(port, now)];
      }
      forall k | 0 <= k < count && k != i
        ensures EntryAt(k) == old(EntryAt(k))
      {
        assert Row(k, slots[k].n) == old(Row(k, slots[k].n));
      }
    }

    /** Alert on record `i` if it has too many ports and the last alert is long enough ago. */
    method Judge(i: nat, now: nat) returns (alert: Option<nat>)
      requires Valid() && i < |View()|
      modifies slots
      ensures Valid()
      ensures var j := PortScan.Judge(old(View())[i].state, now);
              View() == old(View())[i := old(View())[i].(state := j.0)] && alert == j.1
    {
      assert View()[i] == EntryAt(i);
      if slots[i].n > SCAN_PORT_THRESH &&
         (slots[i].lastAlert == 0 || Since(now, slots[i].lastAlert) > SCAN_COOLDOWN_NS)
      {
        alert := Some(slots[i].n);
        slots[i] := slots[i].(lastAlert := now);
      } else {
        alert := None;
      }
    }

    /** The rule on one packet does to the arrays what `Rule` does to the list of sources. */
    method RulePortscan(saddr: nat, k: Pkt) returns (alert: Option<nat>)
      requires Valid()
      modifies this, slots, seen
      ensures Valid()
      ensures (View(), alert) == Rule(old(View()), saddr, k)
    {
      var r := Claim(saddr);
      if r == None {
        return None;
      }
      ghost var t := View();
      ExpireRow(r.value, k.ts);
      ghost var t1 := View();
      RecordPort(r.value, k.port, k.ts);
      RuleInSteps(old(View()), t, t1, View(), r.value, saddr, k);
      alert := Judge(r.value, k.ts);
    }
  }
}
