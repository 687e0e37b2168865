/**
 nettop's poller: the walk over the map, the in-place previous-sample table, and one pass of
 `sample`, proved equal to the pass that the theorems about runs replay.
 */
module NettopPoller {
  import opened Sets
  import opened Options
  import opened NettopModel
  import opened NettopFrame
  import Runs = NettopRuns

  predicate Distinct(s: seq<Pid>) {
    forall i, j :: 0 <= i < j < |s| ==> s[i] != s[j]
  }

  lemma RemoveAt(s: seq<Pid>, i: nat, s': seq<Pid>)
    requires Distinct(s) && i < |s| && s' == s[..i] + s[i + 1..]
    ensures Distinct(s') && forall p :: p in s' <==> p in s && p != s[i]
  {
    forall p | p in s && p != s[i]
      ensures p in s'
    {
      var k :| 0 <= k < |s| && s[k] == p;
      assert p == if k < i then s'[k] else s'[k - 1];
    }
  }

  /** `key` is at index `pos` of `order`, or absent when `pos` is -1. */
  ghost predicate At(order: seq<Pid>, key: Pid, pos: int) {
    -1 <= pos < |order| && if pos == -1 then key !in order else order[pos] == key
  }

  /**
   `proc_stats_map` as the poller reaches it through bpf(2). `order` is the order in which
   the hash table would hand out its keys; inserting may place a key anywhere, deleting
   leaves the others in their order.
   */
  class StatsMap {
    var order: seq<Pid>
    var rows: map<Pid, Stats>

    ghost predicate Valid()
      reads this
    {
      && |order| == |rows|
      && Distinct(order)
      && (forall p :: p in order <==> p in rows)
    }

    method Position(key: Pid) returns (i: nat)
      ensures i <= |order| && key !in order[..i]
      ensures i < |order| ==> order[i] == key
    {
      i := 0;
      while i < |order| && order[i] != key
        invariant i <= |order| && key !in order[..i]
      {
        i := i + 1;
      }
    }

    /** A key that is not in the map (`pos` is -1) is followed by the first key. */
    method GetNextKey(key: Pid, ghost pos: int) returns (next: Option<Pid>)
      requires Valid() && At(order, key, pos)
      ensures next == if pos + 1 < |order| then Some(order[pos + 1]) else None
    {
      var i := Position(key);
      if i == |order| {
        next := if order == [] then None else Some(order[0]);
      } else {
        next := if i + 1 < |order| then Some(order[i + 1]) else None;
      }
    }

    method Delete(key: Pid)
      requires Valid()
      modifies this
      ensures Valid() && rows == old(rows) - {key} && key !in order
      ensures key in old(rows) ==> |order| == |old(order)| - 1
    {
      var i := Position(key);
      if i < |order| {
        RemoveAt(order, i, order[..i] + order[i + 1..]);
        assert rows.Keys == (rows - {key}).Keys + {key};
        rows := rows - {key};
        order := order[..i] + order[i + 1..];
      } else {
        assert rows - {key} == rows;
      }
    }
  }

  datatype Prev = Prev(pid: Pid, base: Base, seen: bool)

  /** The slots of `s` by pid. */
  ghost function ByPid(s: seq<Prev>): map<Pid, Prev> {
    if s == [] then map[] else ByPid(s[..|s|-1])[s[|s|-1].pid := s[|s|-1]]
  }

  ghost predicate DistinctPids(s: seq<Prev>) {
    s == [] || (DistinctPids(s[..|s|-1]) && s[|s|-1].pid !in ByPid(s[..|s|-1]))
  }

  ghost function SeenOnly(view: map<Pid, Prev>): map<Pid, Prev> {
    map p | p in view && view[p].seen :: view[p]
  }

  ghost function Unseen(view: map<Pid, Prev>): map<Pid, Prev> {
    map p | p in view :: view[p].(seen := false)
  }

  /** The slots seen in this pass, in their order. */
  function Kept(s: seq<Prev>): seq<Prev> {
    if s == [] then []
    else Kept(s[..|s|-1]) + if s[|s|-1].seen then [s[|s|-1]] else []
  }

  lemma {:induction false} ByPidCard(s: seq<Prev>)
    requires DistinctPids(s)
    ensures |ByPid(s)| == |s|
  {
    if s != [] {
      ByPidCard(s[..|s|-1]);
      assert ByPid(s).Keys == ByPid(s[..|s|-1]).Keys + {s[|s|-1].pid};
    }
  }

  lemma {:induction false} ByPidAt(s: seq<Prev>, i: nat)
    requires DistinctPids(s) && i < |s|
    ensures s[i].pid in ByPid(s) && ByPid(s)[s[i].pid] == s[i]
  {
    if i < |s| - 1 {
      ByPidAt(s[..|s|-1], i);
    }
  }

  lemma {:induction false} ByPidAbsent(s: seq<Prev>, pid: Pid)
    requires forall j :: 0 <= j < |s| ==> s[j].pid != pid
    ensures pid !in ByPid(s)
  {
    if s != [] {
      ByPidAbsent(s[..|s|-1], pid);
    }
  }

  lemma {:induction false} ByPidSet(s: seq<Prev>, i: nat, e: Prev)
    requires DistinctPids(s) && i < |s| && s[i].pid == e.pid
    ensures DistinctPids(s[i := e]) && ByPid(s[i := e]) == ByPid(s)[e.pid := e]
  {
    var s' := s[..|s|-1];
    if i == |s| - 1 {
      assert s[i := e][..|s|-1] == s';
    } else {
      assert s[i := e][..|s|-1] == s'[i := e];
      ByPidAt(s', i);
      ByPidSet(s', i, e);
    }
  }

  lemma {:induction false} ByPidUnseen(s: seq<Prev>, t: seq<Prev>)
    requires DistinctPids(s) && |t| == |s| && forall i :: 0 <= i < |s| ==> t[i] == s[i].(seen := false)
    ensures DistinctPids(t) && ByPid(t) == Unseen(ByPid(s))
  {
    if s != [] {
      ByPidUnseen(s[..|s|-1], t[..|s|-1]);
    }
  }

  lemma {:induction false} ByPidKept(s: seq<Prev>)
    requires DistinctPids(s)
    ensures DistinctPids(Kept(s)) && ByPid(Kept(s)) == SeenOnly(ByPid(s))
  {
    if s != [] {
      var s', last := s[..|s|-1], s[|s|-1];
      ByPidKept(s');
      if last.seen {
        assert Kept(s)[..|Kept(s)|-1] == Kept(s');
      } else {
        assert Kept(s) == Kept(s');
      }
    }
  }

  /** `prev[]` and `prev_n`: an array of slots, updated and compacted in place. */
  class PrevTable {
    const slots: array<Prev>
    var n: nat

    ghost predicate Valid()
      reads this, slots
    {
      slots.Length == MAX_ROWS && n <= MAX_ROWS && DistinctPids(slots[..n])
    }

    /** The slots in use, by pid. */
    ghost function View(): map<Pid, Prev>
      requires Valid()
      reads this, slots
    {
      ByPid(slots[..n])
    }

    constructor ()
      ensures Valid() && View() == map[] && fresh(slots)
    {
      slots := new Prev[MAX_ROWS](_ => Prev(0, ZeroBase(), false));
      n := 0;
    }

    method Find(pid: Pid) returns (i: int)
      requires Valid()
      ensures if pid in View() then 0 <= i < n && slots[i] == View()[pid] && slots[i].pid == pid else i == -1
    {
      i := 0;
      while i < n
        invariant 0 <= i <= n
        invariant forall j :: 0 <= j < i ==> slots[j].pid != pid
      {
        if slots[i].pid == pid {
          ByPidAt(slots[..n], i);
          return;
        }
        i := i + 1;
      }
      ByPidAbsent(slots[..n], pid);
      i := -1;
    }

    method ClearSeen()
      requires Valid()
      modifies slots
      ensures Valid() && View() == Unseen(old(View()))
    {
      for i := 0 to n
        invariant forall j :: 0 <= j < i ==> slots[j] == old(slots[j]).(seen := false)
        invariant forall j :: i <= j < n ==> slots[j] == old(slots[j])
      {
        slots[i] := slots[i].(seen := false);
      }
      ByPidUnseen(old(slots[..n]), slots[..n]);
    }

    method Append(e: Prev)
      requires Valid() && n < MAX_ROWS && e.pid !in View()
      modifies this, slots
      ensures Valid() && View() == old(View())[e.pid := e] && n == old(n) + 1
    {
      slots[n] := e;
      n := n + 1;
      assert slots[..n][..n - 1] == old(slots[..n]);
    }

    method Set(i: nat, e: Prev)
      requires Valid() && i < n && slots[i].pid == e.pid
      modifies slots
      ensures Valid() && View() == old(View())[e.pid := e]
    {
      ByPidSet(slots[..n], i, e);
      slots[i] := e;
      assert slots[..n] == old(slots[..n])[i := e];
    }

    /**
     Look `pid` up, start a slot for it if there is room, move its baseline to `cur` and say
     what it gained. Nothing is gained by a pid that finds no room, or by a first sighting on
     the priming pass.
     */
    method Touch(pid: Pid, cur: Base, priming: bool) returns (gain: Option<Delta>)
      requires Valid()
      modifies this, slots
      ensures Valid()
      ensures pid !in old(View()) && |old(View())| == MAX_ROWS ==> View() == old(View()) && gain == None
      ensures pid in old(View()) || |old(View())| < MAX_ROWS ==>
        && View() == old(View())[pid := Prev(pid, cur, true)]
        && gain == if pid in old(View()) then Some(DeltaFrom(cur, old(View())[pid].base))
                   else if priming then None else Some(DeltaFrom(cur, ZeroBase()))
    {
      ByPidCard(slots[..n]);
      var i := Find(pid);
      if i < 0 {
        if n >= MAX_ROWS {
          return None;
        }
        Append(Prev(pid, cur, true));
        return if priming then None else Some(DeltaFrom(cur, ZeroBase()));
      }
      gain := Some(DeltaFrom(cur, slots[i].base));
      Set(i, Prev(pid, cur, true));
    }

    /** Squeeze out, in place, the slots not seen in this pass. */
    method Compact()
      requires Valid()
      modifies this, slots
      ensures Valid() && View() == SeenOnly(old(View()))
    {
      var w := 0;
      for i := 0 to n
        invariant w <= i && n == old(n)
        invariant slots[..w] == Kept(old(slots[..i]))
        invariant forall j :: i <= j < n ==> slots[j] == old(slots[j])
      {
        assert old(slots[..i + 1])[..i] == old(slots[..i]);
        if slots[i].seen {
          slots[w] := slots[i];
          w := w + 1;
        }
      }
      ByPidKept(old(slots[..n]));
      n := w;
    }
  }

  // ---- one pass -----------------------------------------------------------

  ghost function Bases(view: map<Pid, Prev>): map<Pid, Base> {
    map p | p in view :: view[p].base
  }

  /**
   The table midway through a pass that began with `before`: visited pids that have a slot
   carry the current totals, the others are as they were, and a visited pid is without a slot
   only when the table is full.
   */
  ghost predicate Tracked(before: map<Pid, Prev>, stats: map<Pid, Stats>, visited: set<Pid>, view: map<Pid, Prev>) {
    && visited <= stats.Keys && before.Keys <= view.Keys
    && (forall p :: p in view && p in visited ==> view[p] == Prev(p, BaseOf(stats[p]), true))
    && (forall p :: p in view && p !in visited ==> p in before && view[p] == before[p])
    && (forall p :: p in visited && p !in view ==> |view| == MAX_ROWS)
  }

  /** What is listed midway through a pass, out of what is due; a due row is missing only when the buffer is full. */
  ghost predicate Collected(due: Frame, done: set<Pid>, maxRows: nat, shown: Frame) {
    && |shown| <= maxRows
    && (forall p :: p in shown ==> p in done && p in due && shown[p] == due[p])
    && (|shown| == maxRows || forall p :: p in done && p in due ==> p in shown)
  }

  lemma VisitTracked(before: map<Pid, Prev>, stats: map<Pid, Stats>, visited: set<Pid>, view: map<Pid, Prev>, p: Pid)
    requires Tracked(before, stats, visited, view) && p in stats && |view| <= MAX_ROWS
    ensures Tracked(before, stats, visited + {p}, Touched(view, p, BaseOf(stats[p])))
  {
    var view' := Touched(view, p, BaseOf(stats[p]));
    if p !in view && |view| < MAX_ROWS {
      assert forall q :: q in visited ==> q in view;
    } else {
      assert view'.Keys == view.Keys;
      assert |view'| == |view'.Keys| == |view.Keys| == |view|;
    }
  }

  lemma CollectedGrows(due: Frame, done: set<Pid>, maxRows: nat, shown: Frame, p: Pid)
    requires p !in done && Collected(due, done, maxRows, shown)
    ensures Collected(due, done + {p}, maxRows, if p in due && |shown| < maxRows then shown[p := due[p]] else shown)
  {
    if p in due && |shown| < maxRows {
      assert shown[p := due[p]].Keys == shown.Keys + {p};
    }
  }

  /** What `Touch` reports for `p` when its slot is in `view`. */
  ghost function GainOf(view: map<Pid, Prev>, p: Pid, cur: Base, priming: bool): Option<Delta> {
    if p in view then Some(DeltaFrom(cur, view[p].base))
    else if priming || |view| == MAX_ROWS then None
    else Some(DeltaFrom(cur, ZeroBase()))
  }

  ghost function Touched(view: map<Pid, Prev>, p: Pid, cur: Base): map<Pid, Prev> {
    if p in view || |view| < MAX_ROWS then view[p := Prev(p, cur, true)] else view
  }

  /** The gain reported for `p` is the one due on its first visit, and zero or none on a later one. */
  ghost predicate GainFits(due: Frame, visited: set<Pid>, view: map<Pid, Prev>, p: Pid, gain: Option<Delta>) {
    if p in view && p in visited then gain == Some(ZeroDelta())
    else if p !in view && |view| == MAX_ROWS then gain == None
    else
      && (p in due <==> gain.Some? && gain.value != ZeroDelta())
      && (p in due ==> gain == Some(due[p]))
  }

  lemma GainIsDue(before: map<Pid, Prev>, stats: map<Pid, Stats>, priming: bool, visited: set<Pid>, view: map<Pid, Prev>, p: Pid)
    requires Tracked(before, stats, visited, view) && p in stats && |view| <= MAX_ROWS
    ensures GainFits(FrameOf(stats, Bases(before), priming), visited, view, p, GainOf(view, p, BaseOf(stats[p]), priming))
  {
  }

  lemma VisitCollected(due: Frame, visited: set<Pid>, view: map<Pid, Prev>, p: Pid, cur: Base, gain: Option<Delta>,
                       maxRows: nat, shown: Frame)
    requires |view| <= MAX_ROWS && GainFits(due, visited, view, p, gain)
    requires p in visited && p !in view ==> |view| == MAX_ROWS
    requires Collected(due, visited * view.Keys, maxRows, shown)
    ensures var done := (visited + {p}) * Touched(view, p, cur).Keys;
            if gain.Some? && gain.value != ZeroDelta() && |shown| < maxRows then
              p !in shown && Collected(due, done, maxRows, shown[p := gain.value])
            else
              Collected(due, done, maxRows, shown)
  {
    var done := (visited + {p}) * Touched(view, p, cur).Keys;
    if (p in view && p in visited) || (p !in view && |view| == MAX_ROWS) {
      assert done == visited * view.Keys;
    } else {
      assert done == visited * view.Keys + {p};
      CollectedGrows(due, visited * view.Keys, maxRows, shown, p);
    }
  }

  /** What holds of the table and the rows midway through a pass. */
  ghost predicate Midway(before: map<Pid, Prev>, stats: map<Pid, Stats>, priming: bool, maxRows: nat, elapsed: real,
                         visited: set<Pid>, view: map<Pid, Prev>, rows: seq<Row>, shown: Frame)
    requires elapsed > 0.0
  {
    && Tracked(before, stats, visited, view)
    && Collected(FrameOf(stats, Bases(before), priming), visited * view.Keys, maxRows, shown)
    && shown.Keys <= stats.Keys && |rows| == |shown| && ListsOnce(rows, RowsOf(shown, stats, elapsed))
  }

  lemma ShowsAppend(rows: seq<Row>, shown: Frame, stats: map<Pid, Stats>, elapsed: real, p: Pid, d: Delta)
    requires elapsed > 0.0 && shown.Keys <= stats.Keys && p in stats && p !in shown
    requires |rows| == |shown| && ListsOnce(rows, RowsOf(shown, stats, elapsed))
    ensures var (rows', shown') := (rows + [RowOf(p, stats[p], d, elapsed)], shown[p := d]);
            shown'.Keys <= stats.Keys && |rows'| == |shown'| && ListsOnce(rows', RowsOf(shown', stats, elapsed))
  {
    var r := RowOf(p, stats[p], d, elapsed);
    ListsOnceAppend(rows, RowsOf(shown, stats, elapsed), r);
    assert RowsOf(shown[p := d], stats, elapsed) == RowsOf(shown, stats, elapsed)[p := r];
    assert shown[p := d].Keys == shown.Keys + {p};
  }

  lemma VisitKeeps(before: map<Pid, Prev>, stats: map<Pid, Stats>, priming: bool, maxRows: nat, elapsed: real,
                   visited: set<Pid>, view: map<Pid, Prev>, rows: seq<Row>, shown: Frame, p: Pid)
    requires elapsed > 0.0 && p in stats && |view| <= MAX_ROWS
    requires Midway(before, stats, priming, maxRows, elapsed, visited, view, rows, shown)
    ensures var gain := GainOf(view, p, BaseOf(stats[p]), priming);
            var view' := Touched(view, p, BaseOf(stats[p]));
            if gain.Some? && gain.value != ZeroDelta() && |rows| < maxRows then
              Midway(before, stats, priming, maxRows, elapsed, visited + {p}, view',
                     rows + [RowOf(p, stats[p], gain.value, elapsed)], shown[p := gain.value])
            else
              Midway(before, stats, priming, maxRows, elapsed, visited + {p}, view', rows, shown)
  {
    var gain := GainOf(view, p, BaseOf(stats[p]), priming);
    GainIsDue(before, stats, priming, visited, view, p);
    VisitTracked(before, stats, visited, view, p);
    VisitCollected(FrameOf(stats, Bases(before), priming), visited, view, p, BaseOf(stats[p]), gain, maxRows, shown);
    if gain.Some? && gain.value != ZeroDelta() && |rows| < maxRows {
      ShowsAppend(rows, shown, stats, elapsed, p, gain.value);
    }
  }

  /** The table and the rows as the pass goes along. */
  datatype Tally = Tally(view: map<Pid, Prev>, rows: seq<Row>)

  ghost function VisitOf(t: Tally, p: Pid, s: Stats, priming: bool, maxRows: nat, elapsed: real): Tally
    requires elapsed > 0.0
  {
    var gain := GainOf(t.view, p, BaseOf(s), priming);
    Tally(Touched(t.view, p, BaseOf(s)),
          if gain.Some? && gain.value != ZeroDelta() && |t.rows| < maxRows
          then t.rows + [RowOf(p, s, gain.value, elapsed)] else t.rows)
  }

  ghost function VisitAll(before: map<Pid, Prev>, stats: map<Pid, Stats>, trace: seq<Pid>,
                          priming: bool, maxRows: nat, elapsed: real): Tally
    requires elapsed > 0.0 && forall p :: p in trace ==> p in stats
  {
    if trace == [] then Tally(before, [])
    else
      var (trace', p) := (trace[..|trace|-1], trace[|trace|-1]);
      VisitOf(VisitAll(before, stats, trace', priming, maxRows, elapsed), p, stats[p], priming, maxRows, elapsed)
  }

  ghost function Elements(trace: seq<Pid>): set<Pid> {
    if trace == [] then {} else Elements(trace[..|trace|-1]) + {trace[|trace|-1]}
  }

  lemma {:induction false} ElementsIn(trace: seq<Pid>, p: Pid)
    ensures p in Elements(trace) <==> p in trace
  {
    if trace != [] {
      ElementsIn(trace[..|trace|-1], p);
      assert trace == trace[..|trace|-1] + [trace[|trace|-1]];
    }
  }

  lemma {:induction false} TraceMidway(before: map<Pid, Prev>, stats: map<Pid, Stats>, trace: seq<Pid>,
                                       priming: bool, maxRows: nat, elapsed: real) returns (shown: Frame)
    requires elapsed > 0.0 && |before| <= MAX_ROWS && forall p :: p in trace ==> p in stats
    ensures var t := VisitAll(before, stats, trace, priming, maxRows, elapsed);
            |t.view| <= MAX_ROWS &&
            Midway(before, stats, priming, maxRows, elapsed, Elements(trace), t.view, t.rows, shown)
  {
    if trace == [] {
      shown := map[];
    } else {
      var (trace', p) := (trace[..|trace|-1], trace[|trace|-1]);
      shown := TraceMidway(before, stats, trace', priming, maxRows, elapsed);
      var t := VisitAll(before, stats, trace', priming, maxRows, elapsed);
      VisitKeeps(before, stats, priming, maxRows, elapsed, Elements(trace'), t.view, t.rows, shown, p);
      TouchedCard(t.view, p, BaseOf(stats[p]));
      var gain := GainOf(t.view, p, BaseOf(stats[p]), priming);
      if gain.Some? && gain.value != ZeroDelta() && |t.rows| < maxRows {
        shown := shown[p := gain.value];
      }
    }
  }

  lemma TouchedCard(view: map<Pid, Prev>, p: Pid, cur: Base)
    requires |view| <= MAX_ROWS
    ensures |Touched(view, p, cur)| <= MAX_ROWS
  {
    assert view[p := Prev(p, cur, true)].Keys == view.Keys + {p};
    if p in view {
      assert view.Keys + {p} == view.Keys;
    }
  }

  /** What a whole pass leaves in the table: current totals, and no slot missing unless the table was full. */
  ghost predicate Settled(before: map<Pid, Prev>, kept: map<Pid, Stats>, after: map<Pid, Prev>) {
    && after.Keys <= kept.Keys
    && (forall p :: p in after ==> after[p] == Prev(p, BaseOf(kept[p]), true))
    && (forall p :: p in kept && p !in after ==> p !in before && |before.Keys + after.Keys| == MAX_ROWS)
  }

  lemma SeenAreVisited(before: map<Pid, Prev>, stats: map<Pid, Stats>, visited: set<Pid>, view: map<Pid, Prev>)
    requires Tracked(Unseen(before), stats, visited, view)
    ensures SeenOnly(view).Keys == visited * view.Keys && view.Keys == before.Keys + SeenOnly(view).Keys
  {
    forall p | p in view
      ensures view[p].seen <==> p in visited
    {
      if p !in visited {
        assert view[p] == Unseen(before)[p];
      }
    }
  }

  lemma TrackedSettles(before: map<Pid, Prev>, stats: map<Pid, Stats>, kept: map<Pid, Stats>, view: map<Pid, Prev>)
    requires Tracked(Unseen(before), stats, kept.Keys, view)
    requires forall p :: p in kept ==> p in stats && kept[p] == stats[p]
    ensures Settled(before, kept, SeenOnly(view)) && SeenOnly(view).Keys == kept.Keys * view.Keys
  {
    SeenAreVisited(before, stats, kept.Keys, view);
    var after := SeenOnly(view);
    forall p | p in kept && p !in after
      ensures p !in before && |before.Keys + after.Keys| == MAX_ROWS
    {
      assert p !in view && |view| == MAX_ROWS;
      assert |view| == |view.Keys|;
    }
  }

  lemma FullLeavesNoRoom(a: set<Pid>, b: set<Pid>, p: Pid)
    requires a <= b && |a| == MAX_ROWS && p in b && p !in a
    ensures |b| > MAX_ROWS
  {
    SubsetCard(a, b);
  }

  /** With room for every pid, every kept row has its slot. */
  lemma RoomSettles(before: map<Pid, Prev>, stats: map<Pid, Stats>, kept: map<Pid, Stats>, after: map<Pid, Prev>)
    requires Settled(before, kept, after) && kept.Keys <= stats.Keys
    requires |before.Keys + stats.Keys| <= MAX_ROWS
    ensures Bases(after) == Baselines(kept) && after.Keys == kept.Keys
  {
    forall p | p in kept.Keys
      ensures p in after.Keys
    {
      if p !in after {
        FullLeavesNoRoom(before.Keys + after.Keys, before.Keys + stats.Keys, p);
      }
    }
  }

  /** With room for every row, the rows listed are the whole frame. */
  lemma RoomShowsAll(due: Frame, kept: set<Pid>, maxRows: nat, shown: Frame)
    requires Collected(due, kept, maxRows, shown) && |kept| <= maxRows
    ensures shown == map p | p in due && p in kept :: due[p]
  {
    if |shown| == maxRows {
      SubsetCard(shown.Keys, kept);
    }
  }

  // ---- the walk -----------------------------------------------------------

  /**
   The walk over a map that held `rows0` stands at index `pos`, or, at -1, has yet to start or
   to restart. Every key up to there has been visited and kept; every key gone was reapable.
   `trace` is the sequence of kept keys visited so far.
   */
  ghost predicate Walking(rows0: map<Pid, Stats>, alive: set<Pid>, now: nat, rows: map<Pid, Stats>, order: seq<Pid>,
                          trace: seq<Pid>, pos: int)
  {
    && pos < |order| <= |rows0|
    && (forall p :: p in rows ==> p in rows0 && rows[p] == rows0[p])
    && (forall p :: p in rows0 && p !in rows ==> Reapable(rows0[p], p in alive, now))
    && (forall p :: p in trace ==> p in rows0 && !Reapable(rows0[p], p in alive, now))
    && (forall i :: 0 <= i <= pos ==> order[i] in trace)
  }

  lemma WalkVisits(rows0: map<Pid, Stats>, alive: set<Pid>, now: nat, rows: map<Pid, Stats>, order: seq<Pid>,
                   trace: seq<Pid>, pos: nat)
    requires Walking(rows0, alive, now, rows, order, trace, pos - 1) && pos < |order|
    requires order[pos] in rows && !Reapable(rows[order[pos]], order[pos] in alive, now)
    ensures Walking(rows0, alive, now, rows, order, trace + [order[pos]], pos)
  {
  }

  /** `stood` is every key the walk stood on, in order: each a row of the map, each row gone or kept among them. */
  ghost predicate Standing(rows0: map<Pid, Stats>, rows: map<Pid, Stats>, trace: seq<Pid>, stood: seq<Pid>) {
    && (forall p :: p in stood ==> p in rows0)
    && (forall p :: p in trace ==> p in stood)
    && (forall p :: p in rows0 && p !in rows ==> p in stood)
  }

  lemma StandsOn(rows0: map<Pid, Stats>, rows: map<Pid, Stats>, trace: seq<Pid>, stood: seq<Pid>,
                 rows': map<Pid, Stats>, trace': seq<Pid>, key: Pid)
    requires Standing(rows0, rows, trace, stood) && key in rows0
    requires rows' == rows || rows' == rows - {key}
    requires trace' == trace || trace' == trace + [key]
    ensures Standing(rows0, rows', trace', stood + [key])
  {
  }

  lemma WalkEnds(rows0: map<Pid, Stats>, alive: set<Pid>, now: nat, rows: map<Pid, Stats>, order: seq<Pid>,
                 trace: seq<Pid>)
    requires Walking(rows0, alive, now, rows, order, trace, |order| - 1)
    requires forall p :: p in order <==> p in rows
    ensures rows == Survivors(rows0, alive, now) && Elements(trace) == rows.Keys
  {
    forall p
      ensures p in Elements(trace) <==> p in rows
    {
      ElementsIn(trace, p);
      assert p in rows ==> p in order;
    }
  }

  /** `trips` times around a map of `n` keys. */
  ghost function Trips(trips: nat, n: nat): nat {
    if trips == 0 then 0 else Trips(trips - 1, n) + n
  }

  lemma TripMore(trips: nat, n: nat)
    ensures Trips(trips + 1, n) == Trips(trips, n) + n
  {
  }

  lemma {:induction false} TripsTimes(trips: nat, n: nat)
    ensures Trips(trips, n) == trips * n
  {
    if trips > 0 {
      TripsTimes(trips - 1, n);
    }
  }

  /** Iterations made and restarts taken on a map that began with `n` keys. */
  datatype Odometer = Odometer(n: nat, reaps: nat, visits: nat) {
    ghost predicate Within(len: nat, pos: int) {
      reaps + len == n && visits <= Trips(reaps, n) + pos + 1
    }

    lemma Next(len: nat, pos: int, restart: bool) returns (o: Odometer)
      requires Within(len, pos) && -1 <= pos < len - 1
      ensures o.Within(if restart then len - 1 else len, if restart then -1 else pos + 1) && o.n == n
      ensures o.visits == visits + 1
    {
      TripMore(reaps, n);
      o := Odometer(n, if restart then reaps + 1 else reaps, visits + 1);
    }

    /** At the end of a walk that left `len` keys: at most (reaps + 1) * n iterations. */
    lemma Bound(len: nat)
      requires Within(len, len - 1)
      ensures reaps == n - len && visits <= (reaps + 1) * n
    {
      TripsTimes(reaps + 1, n);
    }
  }

  /** The keys stood on are the rows the map had, and no more often than (rows reaped + 1) times their number. */
  ghost predicate Brief(stood: seq<Pid>, rows0: map<Pid, Stats>, n: nat, left: nat) {
    left <= n && Elements(stood) == rows0.Keys && |stood| <= (n - left + 1) * n
  }

  lemma WalkIsBrief(rows0: map<Pid, Stats>, alive: set<Pid>, now: nat, rows: map<Pid, Stats>, order: seq<Pid>,
                    trace: seq<Pid>, odo: Odometer, stood: seq<Pid>)
    requires Walking(rows0, alive, now, rows, order, trace, |order| - 1) && Standing(rows0, rows, trace, stood)
    requires forall p :: p in order <==> p in rows
    requires odo.Within(|order|, |order| - 1) && odo.visits == |stood|
    ensures Brief(stood, rows0, odo.n, |order|)
  {
    odo.Bound(|order|);
    forall p
      ensures p in Elements(stood) <==> p in rows0
    {
      ElementsIn(stood, p);
      assert p in rows ==> p in order;
    }
  }

  lemma FrameRestricts(stats: map<Pid, Stats>, kept: map<Pid, Stats>, prev: map<Pid, Base>, priming: bool)
    requires forall p :: p in kept ==> p in stats && kept[p] == stats[p]
    ensures var due := FrameOf(stats, prev, priming);
            FrameOf(kept, prev, priming) == map p | p in due && p in kept.Keys :: due[p]
  {
  }

  lemma SampleRoom(before: map<Pid, Prev>, stats: map<Pid, Stats>, kept: map<Pid, Stats>, after: map<Pid, Prev>,
                   priming: bool, maxRows: nat, shown: Frame)
    requires Settled(before, kept, after)
    requires forall p :: p in kept ==> p in stats && kept[p] == stats[p]
    requires Collected(FrameOf(stats, Bases(before), priming), after.Keys, maxRows, shown)
    requires |before.Keys + stats.Keys| <= MAX_ROWS && |stats| <= maxRows
    ensures Bases(after) == Baselines(kept) && shown == FrameOf(kept, Bases(before), priming)
  {
    RoomSettles(before, stats, kept, after);
    SubsetCard(kept.Keys, stats.Keys);
    RoomShowsAll(FrameOf(stats, Bases(before), priming), kept.Keys, maxRows, shown);
    FrameRestricts(stats, kept, Bases(before), priming);
  }

  lemma UnseenBases(view: map<Pid, Prev>)
    ensures Bases(Unseen(view)) == Bases(view)
  {
  }

  /** What the walk's facts say about the whole pass. */
  lemma PassFacts(before: map<Pid, Prev>, stats: map<Pid, Stats>, alive: set<Pid>, now: nat, kept: map<Pid, Stats>,
                  order: seq<Pid>, trace: seq<Pid>, t: Tally, priming: bool, maxRows: nat, elapsed: real)
    returns (shown: Frame)
    requires elapsed > 0.0 && |Unseen(before)| <= MAX_ROWS && forall p :: p in order <==> p in kept
    requires Walking(stats, alive, now, kept, order, trace, |order| - 1)
    requires t == VisitAll(Unseen(before), stats, trace, priming, maxRows, elapsed)
    ensures kept == Survivors(stats, alive, now)
    ensures Settled(before, kept, SeenOnly(t.view))
    ensures Collected(FrameOf(stats, Bases(before), priming), SeenOnly(t.view).Keys, maxRows, shown)
    ensures shown.Keys <= stats.Keys && ListsOnce(t.rows, RowsOf(shown, stats, elapsed))
  {
    WalkEnds(stats, alive, now, kept, order, trace);
    shown := TraceMidway(Unseen(before), stats, trace, priming, maxRows, elapsed);
    TrackedSettles(before, stats, kept, t.view);
    UnseenBases(before);
  }

  lemma PollIsApply(before: map<Pid, Prev>, stats: map<Pid, Stats>, primed: bool, now: nat, alive: set<Pid>,
                    kept: map<Pid, Stats>, after: map<Pid, Prev>, shown: Frame)
    requires Runs.Linked(Runs.Sys(stats, Bases(before), primed))
    requires kept == Survivors(stats, alive, now) && Settled(before, kept, after)
    requires Collected(FrameOf(stats, Bases(before), !primed), after.Keys, MAX_ROWS, shown)
    ensures var s := Runs.Sys(stats, Bases(before), primed);
            var poll := Runs.Poll(now, alive);
            Runs.Apply(s, poll) == Runs.Sys(kept, Bases(after), true) && Runs.Emits(s, poll) == shown
  {
    assert before.Keys + stats.Keys == stats.Keys by {
      assert before.Keys == Bases(before).Keys;
    }
    SampleRoom(before, stats, kept, after, !primed, MAX_ROWS, shown);
  }

  // ---- what is printed ----------------------------------------------------

  /** A printed row: rates that come to `d` over the interval, and the row's own totals and name. */
  ghost predicate ShowsDelta(s: Stats, d: Delta, elapsed: real, r: Row) {
    && r.comm == s.comm && r.txTotal == s.tx && r.rxTotal == s.rx
    && r.txBps * elapsed == d.tx as real && r.rxBps * elapsed == d.rx as real && r.retrans == d.retrans
  }

  /** A row that shows what was recorded for its pid since the pass before. */
  ghost predicate PrintsRow(es: seq<Runs.Step>, stats: map<Pid, Stats>, elapsed: real, r: Row) {
    r.pid in stats && ShowsDelta(stats[r.pid], Runs.Pending(es, r.pid), elapsed, r)
  }

  /** Visible, or idle for no more than 60 s. */
  predicate Stays(s: Stats, visible: bool, now: nat) {
    visible || now <= s.lastNs + 60_000_000_000
  }

  /** A pass deletes exactly the rows that do not stay, and changes none. */
  ghost predicate Keeps(before: map<Pid, Stats>, after: map<Pid, Stats>, alive: set<Pid>, now: nat) {
    && (forall p :: p in after <==> p in before && Stays(before[p], p in alive, now))
    && (forall p :: p in after ==> after[p] == before[p])
  }

  lemma KeepsSurvivors(rows: map<Pid, Stats>, alive: set<Pid>, now: nat)
    ensures Keeps(rows, Survivors(rows, alive, now), alive, now)
  {
  }

  /**
   A pass after the run `es` prints, busiest first and each pid once, what was recorded since
   the pass before for exactly the rows that stay and have something to report.
   */
  ghost predicate Prints(es: seq<Runs.Step>, stats: map<Pid, Stats>, alive: set<Pid>, now: nat, elapsed: real, rows: seq<Row>) {
    && (forall r :: r in rows ==> PrintsRow(es, stats, elapsed, r))
    && (forall p :: (exists r :: r in rows && r.pid == p) <==>
          p in stats && Stays(stats[p], p in alive, now) && Runs.Pending(es, p) != Delta(0, 0, 0))
    && (forall i, j :: 0 <= i < j < |rows| ==>
          var (x, y) := (rows[i].txBps + rows[i].rxBps, rows[j].txBps + rows[j].rxBps);
          x > y || (x == y && rows[i].pid < rows[j].pid))
  }

  lemma RateTimes(n: nat, elapsed: real)
    requires elapsed > 0.0
    ensures n as real / elapsed * elapsed == n as real
  {
  }

  lemma RowShows(p: Pid, s: Stats, d: Delta, elapsed: real)
    requires elapsed > 0.0
    ensures ShowsDelta(s, d, elapsed, RowOf(p, s, d, elapsed))
  {
    RateTimes(d.tx, elapsed);
    RateTimes(d.rx, elapsed);
  }

  lemma {:induction false} FrameIsPending(es: seq<Runs.Step>, gap: nat, e: Runs.Step, p: Pid)
    requires Runs.WellTimed(es, gap) && Runs.NoWrap(es) && Runs.After(es).primed && e.Poll?
    requires p in Runs.Emits(Runs.After(es), e)
    ensures Runs.Emits(Runs.After(es), e)[p] == Runs.Pending(es, p)
  {
    Runs.SurvivorReported(es, gap, e, p);
  }

  lemma {:induction false} FrameLists(es: seq<Runs.Step>, gap: nat, e: Runs.Step, p: Pid)
    requires Runs.WellTimed(es, gap) && Runs.NoWrap(es) && Runs.After(es).primed && e.Poll?
    ensures var rows := Runs.After(es).rows;
            p in Runs.Emits(Runs.After(es), e) <==>
            p in rows && Stays(rows[p], p in e.alive, e.now) && Runs.Pending(es, p) != Delta(0, 0, 0)
  {
    var rows := Runs.After(es).rows;
    if p in rows && Stays(rows[p], p in e.alive, e.now) {
      Runs.SurvivorReported(es, gap, e, p);
    }
  }

  lemma ListsNone(rows: seq<Row>)
    requires ListsOnce(rows, map[])
    ensures rows == []
  {
    if rows != [] {
      HasRow(rows);
    }
  }

  lemma HasRow(rows: seq<Row>)
    requires rows != []
    ensures exists r :: r in rows
  {
    assert rows[0] in rows;
  }

  lemma {:induction false} RowsPrint(es: seq<Runs.Step>, gap: nat, e: Runs.Step, elapsed: real, rows: seq<Row>)
    requires Runs.WellTimed(es, gap) && Runs.NoWrap(es) && Runs.After(es).primed && e.Poll? && elapsed > 0.0
    requires Sorted(rows) && ListsOnce(rows, RowsOf(Runs.Emits(Runs.After(es), e), Runs.After(es).rows, elapsed))
    ensures Prints(es, Runs.After(es).rows, e.alive, e.now, elapsed, rows)
  {
    var stats, want := Runs.After(es).rows, RowsOf(Runs.Emits(Runs.After(es), e), Runs.After(es).rows, elapsed);
    forall r | r in rows
      ensures PrintsRow(es, stats, elapsed, r)
    {
      FrameIsPending(es, gap, e, r.pid);
      RowShows(r.pid, stats[r.pid], Runs.Pending(es, r.pid), elapsed);
    }
    forall p
      ensures (exists r :: r in rows && r.pid == p) <==>
              p in stats && Stays(stats[p], p in e.alive, e.now) && Runs.Pending(es, p) != Delta(0, 0, 0)
    {
      FrameLists(es, gap, e, p);
      assert p in want ==> want[p] in rows && want[p].pid == p;
    }
    forall i, j | 0 <= i < j < |rows|
      ensures var (x, y) := (rows[i].txBps + rows[i].rxBps, rows[j].txBps + rows[j].rxBps);
              x > y || (x == y && rows[i].pid < rows[j].pid)
    {
      assert ByTraffic(rows[i], rows[j]) <= 0 && rows[i].pid != rows[j].pid;
    }
  }

  lemma {:induction false} PrimingPrintsNothing(es: seq<Runs.Step>, e: Runs.Step, elapsed: real, rows: seq<Row>)
    requires e.Poll? && !Runs.After(es).primed && elapsed > 0.0
    requires ListsOnce(rows, RowsOf(Runs.Emits(Runs.After(es), e), Runs.After(es).rows, elapsed))
    ensures rows == []
  {
    Runs.UnprimedRun(es, 0);
    Runs.PrimingFrameIsEmpty(Runs.After(es), e);
    ListsNone(rows);
  }

  class Poller {
    const stats: StatsMap
    const prev: PrevTable

    constructor (stats: StatsMap)
      ensures this.stats == stats && fresh(prev) && fresh(prev.slots) && prev.Valid() && prev.View() == map[]
    {
      this.stats := stats;
      prev := new PrevTable();
    }

    /** Diff one row against its baseline and list it if it changed. */
    method Visit(key: Pid, s: Stats, priming: bool, maxRows: nat, elapsed: real, rows: seq<Row>) returns (rows': seq<Row>)
      requires prev.Valid() && elapsed > 0.0
      modifies prev, prev.slots
      ensures prev.Valid()
      ensures Tally(prev.View(), rows') == VisitOf(Tally(old(prev.View()), rows), key, s, priming, maxRows, elapsed)
    {
      ByPidCard(prev.slots[..prev.n]);
      var gain := prev.Touch(key, BaseOf(s), priming);
      rows' := rows;
      if gain.Some? && gain.value != ZeroDelta() && |rows| < maxRows {
        rows' := rows + [RowOf(key, s, gain.value, elapsed)];
      }
    }

    /** Delete a reapable row; the walk then restarts. */
    method Reap(key: Pid, now: nat, alive: set<Pid>, ghost rows0: map<Pid, Stats>, ghost trace: seq<Pid>, ghost pos: int)
      requires stats.Valid() && key in stats.rows && Reapable(stats.rows[key], key in alive, now)
      requires Walking(rows0, alive, now, stats.rows, stats.order, trace, pos)
      modifies stats
      ensures stats.Valid() && At(stats.order, key, -1) && |stats.order| == |old(stats.order)| - 1
      ensures Walking(rows0, alive, now, stats.rows, stats.order, trace, -1)
      ensures stats.rows == old(stats.rows) - {key}
    {
      stats.Delete(key);
    }

    /** One iteration, standing on `key`. */
    method Iterate(key: Pid, now: nat, alive: set<Pid>, priming: bool, maxRows: nat, elapsed: real, rows: seq<Row>,
                   ghost view0: map<Pid, Prev>, ghost rows0: map<Pid, Stats>, ghost trace: seq<Pid>, ghost pos: nat)
      returns (rows': seq<Row>, ghost trace': seq<Pid>, ghost pos': int)
      requires stats.Valid() && prev.Valid() && elapsed > 0.0 && At(stats.order, key, pos)
      requires Walking(rows0, alive, now, stats.rows, stats.order, trace, pos - 1)
      requires Tally(prev.View(), rows) == VisitAll(view0, rows0, trace, priming, maxRows, elapsed)
      modifies stats, prev, prev.slots
      ensures stats.Valid() && prev.Valid() && At(stats.order, key, pos')
      ensures Walking(rows0, alive, now, stats.rows, stats.order, trace', pos')
      ensures Tally(prev.View(), rows') == VisitAll(view0, rows0, trace', priming, maxRows, elapsed)
      ensures (pos' == pos && |stats.order| == old(|stats.order|)) || (pos' == -1 && |stats.order| == old(|stats.order|) - 1)
      ensures stats.rows == old(stats.rows) || stats.rows == old(stats.rows) - {key}
      ensures trace' == trace || trace' == trace + [key]
    {
      assert key in stats.rows;
      if Reapable(stats.rows[key], key in alive, now) {
        Reap(key, now, alive, rows0, trace, pos - 1);
        rows', trace', pos' := rows, trace, -1;
      } else {
        WalkVisits(rows0, alive, now, stats.rows, stats.order, trace, pos);
        rows' := Visit(key, stats.rows[key], priming, maxRows, elapsed, rows);
        trace', pos' := trace + [key], pos;
        assert trace'[..|trace|] == trace;
      }
    }

    /** Ask for the key after `key` and, if there is one, do its iteration: one key more stood on, and one visit counted. */
    method Advance(key: Pid, now: nat, alive: set<Pid>, priming: bool, maxRows: nat, elapsed: real, rows: seq<Row>,
                   ghost view0: map<Pid, Prev>, ghost rows0: map<Pid, Stats>, ghost trace: seq<Pid>, ghost pos: int, ghost odo: Odometer,
                   ghost stood: seq<Pid>)
      returns (more: bool, key': Pid, rows': seq<Row>, ghost trace': seq<Pid>, ghost pos': int, ghost odo': Odometer,
               ghost stood': seq<Pid>)
      requires stats.Valid() && prev.Valid() && elapsed > 0.0 && At(stats.order, key, pos)
      requires Walking(rows0, alive, now, stats.rows, stats.order, trace, pos)
      requires Tally(prev.View(), rows) == VisitAll(view0, rows0, trace, priming, maxRows, elapsed)
      requires odo.Within(|stats.order|, pos) && odo.visits == |stood| && Standing(rows0, stats.rows, trace, stood)
      modifies stats, prev, prev.slots
      ensures stats.Valid() && prev.Valid() && At(stats.order, key', pos')
      ensures Walking(rows0, alive, now, stats.rows, stats.order, trace', pos')
      ensures Tally(prev.View(), rows') == VisitAll(view0, rows0, trace', priming, maxRows, elapsed)
      ensures odo'.Within(|stats.order|, pos') && odo'.n == odo.n
      ensures stood' == (if more then stood + [key'] else stood) && odo'.visits == |stood'|
      ensures Standing(rows0, stats.rows, trace', stood')
      ensures if more then |stats.order| < old(|stats.order|) || (|stats.order| == old(|stats.order|) && pos' > pos)
              else pos' == |stats.order| - 1 && |stats.order| == old(|stats.order|) && pos' == pos
    {
      var next := stats.GetNextKey(key, pos);
      more, key', rows', trace', pos', odo', stood' := next.Some?, key, rows, trace, pos, odo, stood;
      if more {
        key', stood' := next.value, stood + [next.value];
        ghost var before := stats.rows;
        rows', trace', pos' := Iterate(key', now, alive, priming, maxRows, elapsed, rows, view0, rows0, trace, pos + 1);
        odo' := odo.Next(|old(stats.order)|, pos, pos' == -1);
        StandsOn(rows0, before, trace, stood, stats.rows, trace', key');
      }
    }

    /**
     The walk over a map that no hook changes meanwhile. Deleting the key it stands on sends
     the walk back to the first key; `stood` is every key it stood on, one per iteration.
     */
    method Walk(now: nat, alive: set<Pid>, priming: bool, maxRows: nat, elapsed: real)
      returns (rows: seq<Row>, ghost trace: seq<Pid>, ghost stood: seq<Pid>)
      requires stats.Valid() && prev.Valid() && 0 !in stats.rows && elapsed > 0.0
      modifies stats, prev, prev.slots
      ensures stats.Valid() && prev.Valid()
      ensures Walking(old(stats.rows), alive, now, stats.rows, stats.order, trace, |stats.order| - 1)
      ensures Tally(prev.View(), rows) == VisitAll(old(prev.View()), old(stats.rows), trace, priming, maxRows, elapsed)
      ensures Brief(stood, old(stats.rows), old(|stats.order|), |stats.order|)
    {
      ghost var rows0, view0, pos := stats.rows, prev.View(), -1;
      ghost var odo := Odometer(|stats.order|, 0, 0);
      rows, trace, stood := [], [], [];
      var key, more := 0, true;
      while more
        invariant stats.Valid() && prev.Valid() && At(stats.order, key, pos)
        invariant Walking(rows0, alive, now, stats.rows, stats.order, trace, pos)
        invariant Tally(prev.View(), rows) == VisitAll(view0, rows0, trace, priming, maxRows, elapsed)
        invariant odo.Within(|stats.order|, pos) && odo.n == old(|stats.order|)
        invariant odo.visits == |stood| && Standing(rows0, stats.rows, trace, stood)
        invariant !more ==> pos == |stats.order| - 1
        decreases |stats.order|, |stats.order| - pos, more
      {
        more, key, rows, trace, pos, odo, stood :=
          Advance(key, now, alive, priming, maxRows, elapsed, rows, view0, rows0, trace, pos, odo, stood);
      }
      WalkIsBrief(rows0, alive, now, stats.rows, stats.order, trace, odo, stood);
    }

    /** Clear the seen marks and walk; the table still holds the slots that were not seen. */
    method Scan(now: nat, alive: set<Pid>, priming: bool, maxRows: nat, elapsed: real)
      returns (rows: seq<Row>, ghost shown: Frame, ghost stood: seq<Pid>)
      requires stats.Valid() && prev.Valid() && 0 !in stats.rows && elapsed > 0.0
      modifies stats, prev, prev.slots
      ensures stats.Valid() && prev.Valid()
      ensures stats.rows == Survivors(old(stats.rows), alive, now)
      ensures Brief(stood, old(stats.rows), old(|stats.order|), |stats.order|)
      ensures Settled(old(prev.View()), stats.rows, SeenOnly(prev.View()))
      ensures Collected(FrameOf(old(stats.rows), Bases(old(prev.View())), priming), SeenOnly(prev.View()).Keys, maxRows, shown)
      ensures shown.Keys <= old(stats.rows).Keys && ListsOnce(rows, RowsOf(shown, old(stats.rows), elapsed))
    {
      ghost var rows0, view0 := stats.rows, prev.View();
      prev.ClearSeen();
      ByPidCard(prev.slots[..prev.n]);
      ghost var trace;
      rows, trace, stood := Walk(now, alive, priming, maxRows, elapsed);
      shown := PassFacts(view0, rows0, alive, now, stats.rows, stats.order, trace,
                         Tally(prev.View(), rows), priming, maxRows, elapsed);
    }

    /**
     `sample`: each surviving row visited, and listed at most once. A row may find the
     previous-sample table or the row buffer full.
     */
    method Sample(now: nat, alive: set<Pid>, priming: bool, maxRows: nat, elapsed: real)
      returns (rows: seq<Row>, ghost shown: Frame, ghost stood: seq<Pid>)
      requires stats.Valid() && prev.Valid() && 0 !in stats.rows && elapsed > 0.0
      modifies stats, prev, prev.slots
      ensures stats.Valid() && prev.Valid()
      ensures stats.rows == Survivors(old(stats.rows), alive, now)
      ensures Brief(stood, old(stats.rows), old(|stats.order|), |stats.order|)
      ensures Settled(old(prev.View()), stats.rows, prev.View())
      ensures Collected(FrameOf(old(stats.rows), Bases(old(prev.View())), priming), prev.View().Keys, maxRows, shown)
      ensures Sorted(rows) && shown.Keys <= old(stats.rows).Keys && ListsOnce(rows, RowsOf(shown, old(stats.rows), elapsed))
    {
      rows, shown, stood := Scan(now, alive, priming, maxRows, elapsed);
      prev.Compact();
      rows := Sort(rows);
    }

    /** The state the theorems about runs speak of. */
    ghost function State(primed: bool): Runs.Sys
      requires prev.Valid()
      reads stats, prev, prev.slots
    {
      Runs.Sys(stats.rows, Bases(prev.View()), primed)
    }

    /**
     One pass of the main loop, or the priming pass before it. From any state a run can be in,
     it is exactly the replayed pass, and the rows it prints are exactly that pass's frame.
     */
    method Poll(now: nat, alive: set<Pid>, primed: bool, elapsed: real) returns (rows: seq<Row>, ghost stood: seq<Pid>)
      requires stats.Valid() && prev.Valid() && elapsed > 0.0 && Runs.Linked(State(primed))
      modifies stats, prev, prev.slots
      ensures stats.Valid() && prev.Valid()
      ensures State(true) == Runs.Apply(old(State(primed)), Runs.Poll(now, alive))
      ensures var frame := Runs.Emits(old(State(primed)), Runs.Poll(now, alive));
              Sorted(rows) && ListsOnce(rows, RowsOf(frame, old(stats.rows), elapsed))
      ensures Brief(stood, old(stats.rows), old(|stats.order|), |stats.order|)
    {
      ghost var rows0, view0 := stats.rows, prev.View();
      ghost var shown;
      rows, shown, stood := Sample(now, alive, !primed, MAX_ROWS, elapsed);
      PollIsApply(view0, rows0, primed, now, alive, stats.rows, prev.View(), shown);
    }

    /**
     One turn of the main loop after any run: the priming pass prints nothing, and every later
     pass prints what was recorded since the one before.
     */
    method PrintPass(ghost es: seq<Runs.Step>, ghost gap: nat, now: nat, alive: set<Pid>, primed: bool, elapsed: real)
        returns (rows: seq<Row>)
      requires stats.Valid() && prev.Valid() && elapsed > 0.0
      requires Runs.WellTimed(es, gap) && Runs.NoWrap(es) && State(primed) == Runs.After(es)
      modifies stats, prev, prev.slots
      ensures stats.Valid() && prev.Valid() && State(true) == Runs.After(es + [Runs.Poll(now, alive)])
      ensures Keeps(old(stats.rows), stats.rows, alive, now)
      ensures !primed ==> rows == []
      ensures primed ==> Prints(es, old(stats.rows), alive, now, elapsed, rows)
    {
      Runs.RunLinked(es);
      Runs.AfterStep(es, Runs.Poll(now, alive));
      KeepsSurvivors(stats.rows, alive, now);
      ghost var stood;
      rows, stood := Poll(now, alive, primed, elapsed);
      if primed {
        RowsPrint(es, gap, Runs.Poll(now, alive), elapsed, rows);
      } else {
        PrimingPrintsNothing(es, Runs.Poll(now, alive), elapsed, rows);
      }
    }
  }
}
