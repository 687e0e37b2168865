/**
 The rows nettop prints: how a frame's deltas become rows, and the order `by_traffic` puts
 them in, which makes a printed frame independent of the order of the map walk.
 */
module NettopFrame {
  import opened NettopModel

  datatype Row = Row(pid: Pid, comm: string, txBps: real, rxBps: real, txTotal: nat, rxTotal: nat, retrans: nat)

  function RowOf(p: Pid, s: Stats, d: Delta, elapsed: real): Row
    requires elapsed > 0.0
  {
    Row(p, s.comm, d.tx as real / elapsed, d.rx as real / elapsed, s.tx, s.rx, d.retrans)
  }

  ghost predicate DistinctRows(rows: seq<Row>) {
    forall i, j :: 0 <= i < j < |rows| ==> rows[i].pid != rows[j].pid
  }

  /** The rows of a frame, by pid: deltas as rates. */
  ghost function RowsOf(frame: Frame, stats: map<Pid, Stats>, elapsed: real): map<Pid, Row>
    requires elapsed > 0.0 && frame.Keys <= stats.Keys
  {
    map p | p in frame :: RowOf(p, stats[p], frame[p], elapsed)
  }

  /** `rows` lists each row of `want` once, and nothing else. */
  ghost predicate ListsOnce(rows: seq<Row>, want: map<Pid, Row>) {
    && DistinctRows(rows)
    && (forall r :: r in rows ==> r.pid in want && r == want[r.pid])
    && (forall p :: p in want ==> want[p] in rows && want[p].pid == p)
  }

  lemma ListsOnceAppend(rows: seq<Row>, want: map<Pid, Row>, r: Row)
    requires ListsOnce(rows, want) && r.pid !in want
    ensures ListsOnce(rows + [r], want[r.pid := r])
  {
  }

  /** The comparison function given to qsort: busiest first, then by pid. */
  function ByTraffic(x: Row, y: Row): int {
    var xt, yt := x.txBps + x.rxBps, y.txBps + y.rxBps;
    if xt > yt then -1
    else if xt < yt then 1
    else if x.pid > y.pid then 1 else if x.pid < y.pid then -1 else 0
  }

  ghost predicate Sorted(rows: seq<Row>) {
    forall i, j :: 0 <= i < j < |rows| ==> ByTraffic(rows[i], rows[j]) <= 0
  }

  function Insert(rows: seq<Row>, r: Row): seq<Row> {
    if rows == [] || ByTraffic(r, rows[0]) <= 0 then [r] + rows
    else [rows[0]] + Insert(rows[1..], r)
  }

  lemma ByTrafficOrders(x: Row, y: Row, z: Row)
    ensures ByTraffic(x, y) <= 0 || ByTraffic(y, x) <= 0
    ensures ByTraffic(x, y) <= 0 && ByTraffic(y, z) <= 0 ==> ByTraffic(x, z) <= 0
    ensures ByTraffic(x, y) <= 0 && ByTraffic(y, x) <= 0 ==> x.pid == y.pid
  {
  }

  lemma SortedCons(r: Row, rest: seq<Row>)
    requires Sorted(rest) && forall x :: x in rest ==> ByTraffic(r, x) <= 0
    ensures Sorted([r] + rest)
  {
    forall i, j | 0 <= i < j < |rest| + 1
      ensures ByTraffic(([r] + rest)[i], ([r] + rest)[j]) <= 0
    {
      assert rest[j - 1] in rest;
    }
  }

  lemma {:induction false} InsertKeeps(rows: seq<Row>, r: Row)
    requires Sorted(rows)
    ensures Sorted(Insert(rows, r)) && multiset(Insert(rows, r)) == multiset(rows) + multiset{r}
  {
    if rows == [] {
    } else if ByTraffic(r, rows[0]) <= 0 {
      forall x | x in rows
        ensures ByTraffic(r, x) <= 0
      {
        ByTrafficOrders(r, rows[0], x);
      }
      SortedCons(r, rows);
    } else {
      var rest := Insert(rows[1..], r);
      InsertKeeps(rows[1..], r);
      assert rows == [rows[0]] + rows[1..];
      forall x | x in rest
        ensures ByTraffic(rows[0], x) <= 0
      {
        assert x in multiset(rest);
        ByTrafficOrders(rows[0], r, r);
      }
      SortedCons(rows[0], rest);
    }
  }

  lemma {:induction false} InsertDistinct(rows: seq<Row>, r: Row)
    requires DistinctRows(rows) && forall x :: x in rows ==> x.pid != r.pid
    ensures DistinctRows(Insert(rows, r))
    ensures forall x :: x in Insert(rows, r) ==> x in rows || x == r
  {
    if rows == [] || ByTraffic(r, rows[0]) <= 0 {
    } else {
      var rest := Insert(rows[1..], r);
      InsertDistinct(rows[1..], r);
      forall x | x in rest
        ensures x.pid != rows[0].pid
      {
        assert x in rows[1..] || x == r;
      }
    }
  }

  /** The rows before `i`, sorted. */
  ghost predicate SortedSoFar(rows: seq<Row>, i: nat, out: seq<Row>)
    requires i <= |rows|
  {
    Sorted(out) && multiset(out) == multiset(rows[..i]) && (DistinctRows(rows) ==> DistinctRows(out))
  }

  lemma {:induction false} SortStep(rows: seq<Row>, i: nat, out: seq<Row>)
    requires i < |rows| && SortedSoFar(rows, i, out)
    ensures SortedSoFar(rows, i + 1, Insert(out, rows[i]))
  {
    InsertKeeps(out, rows[i]);
    assert rows[..i + 1] == rows[..i] + [rows[i]];
    if DistinctRows(rows) {
      forall x | x in out
        ensures x.pid != rows[i].pid
      {
        assert x in multiset(rows[..i]);
      }
      InsertDistinct(out, rows[i]);
    }
  }

  /** What qsort promises: a sorted permutation. */
  method Sort(rows: seq<Row>) returns (out: seq<Row>)
    ensures Sorted(out) && multiset(out) == multiset(rows)
    ensures forall r :: r in out <==> r in rows
    ensures DistinctRows(rows) ==> DistinctRows(out)
  {
    out := [];
    for i := 0 to |rows|
      invariant SortedSoFar(rows, i, out)
    {
      SortStep(rows, i, out);
      out := Insert(out, rows[i]);
    }
    assert rows[..|rows|] == rows;
    assert forall r :: r in out <==> r in multiset(out);
  }

  /** `by_traffic` leaves no freedom: rows with distinct pids have one sorted order. */
  lemma {:induction false} SortedUnique(a: seq<Row>, b: seq<Row>)
    requires Sorted(a) && Sorted(b) && DistinctRows(a) && DistinctRows(b)
    requires forall r :: r in a <==> r in b
    ensures a == b
  {
    assert a != [] ==> a[0] in b;
    assert b != [] ==> b[0] in a;
    if a != [] {
      assert ByTraffic(a[0], b[0]) <= 0 && ByTraffic(b[0], a[0]) <= 0;
      assert a[0] == b[0];
      forall r
        ensures r in a[1..] <==> r in b[1..]
      {
        assert r in a[1..] <==> r in a && r != a[0];
        assert r in b[1..] <==> r in b && r != b[0];
      }
      SortedUnique(a[1..], b[1..]);
    }
  }

  /** Whatever order the map is walked in, the same rows are printed the same way. */
  lemma PrintedFrameUnique(a: seq<Row>, b: seq<Row>, want: map<Pid, Row>)
    requires Sorted(a) && ListsOnce(a, want)
    requires Sorted(b) && ListsOnce(b, want)
    ensures a == b
  {
    SortedUnique(a, b);
  }
}
