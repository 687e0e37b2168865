/**
 The last lines of a verifier log: one scan that keeps the starts of the latest nonblank lines
 in a ring, against a splitter that keeps every line.
 */
module LogTail {
  import opened Options

  const RING: nat := 64

  /** A C string holds no NUL; position `|s|` is its terminator. */
  type CString = s: string | '\0' !in s

  datatype Output = NoLog | Tail(lines: seq<string>)

  // ---- lines --------------------------------------------------------------

  function Lines(s: string): (ls: seq<string>)
    ensures ls != []
  {
    if s == [] then [[]]
    else
      var (ls, c) := (Lines(s[..|s|-1]), s[|s|-1]);
      if c == '\n' then ls + [[]] else ls[|ls|-1 := ls[|ls|-1] + [c]]
  }

  function Join(ls: seq<string>): string
    requires ls != []
  {
    if |ls| == 1 then ls[0] else Join(ls[..|ls|-1]) + ['\n'] + ls[|ls|-1]
  }

  /** `Lines` is the splitting: its lines hold no newline, and joined by newlines they give the text back. */
  lemma {:induction false} LinesSplit(s: string)
    ensures Join(Lines(s)) == s && forall i :: 0 <= i < |Lines(s)| ==> '\n' !in Lines(s)[i]
  {
    if s != [] {
      var before, c := s[..|s|-1], s[|s|-1];
      LinesSplit(before);
      var ls := Lines(before);
      if c == '\n' {
        assert (ls + [[]])[..|ls|] == ls;
        assert before + ['\n'] + [] == s;
      } else {
        var ls' := Lines(s);
        assert ls'[..|ls'|-1] == ls[..|ls|-1];
        JoinLast(ls, c);
        assert before + [c] == s;
      }
    }
  }

  lemma JoinLast(ls: seq<string>, c: char)
    requires ls != []
    ensures Join(ls[|ls|-1 := ls[|ls|-1] + [c]]) == Join(ls) + [c]
  {
    var ls' := ls[|ls|-1 := ls[|ls|-1] + [c]];
    assert ls'[..|ls'|-1] == ls[..|ls|-1];
  }

  function NonBlank(ls: seq<string>): seq<string> {
    if ls == [] then []
    else NonBlank(ls[..|ls|-1]) + if ls[|ls|-1] == [] then [] else [ls[|ls|-1]]
  }

  function Last<T>(xs: seq<T>, n: nat): seq<T> {
    if |xs| <= n then xs else xs[|xs| - n..]
  }

  function Clamp(n: int): nat {
    if n < 1 then 1 else if n > 64 then 64 else n
  }

  // ---- the scan -----------------------------------------------------------

  /** Where the line that starts at `s` ends. */
  function EndOf(log: string, s: nat): (e: nat)
    requires s <= |log|
    ensures s <= e <= |log| && (e < |log| ==> log[e] == '\n')
    ensures '\n' !in log[s..e]
    decreases |log| - s
  {
    if s == |log| || log[s] == '\n' then s
    else
      var e := EndOf(log, s + 1);
      assert log[s..e] == [log[s]] + log[s + 1..e];
      e
  }

  /** The line that starts at `s`. */
  function Text(log: string, s: nat): string
    requires s <= |log|
  {
    log[s..EndOf(log, s)]
  }

  lemma {:induction false} EndOfIs(log: string, s: nat, e: nat)
    requires s <= e <= |log| && (e < |log| ==> log[e] == '\n') && '\n' !in log[s..e]
    ensures EndOf(log, s) == e
  {
  }

  /** The nonblank lines ended by a newline or the terminator at a position before `p`. */
  function Ended(log: string, p: nat): seq<string>
    requires p <= |log| + 1
  {
    if p <= |log| then NonBlank(Lines(log[..p])[..|Lines(log[..p])|-1]) else NonBlank(Lines(log))
  }

  predicate EndsAt(log: string, p: nat)
    requires p <= |log|
  {
    p == |log| || log[p] == '\n'
  }

  /** The line that position `p` belongs to began at `line`. */
  ghost predicate InLine(log: string, p: nat, line: nat)
    requires p <= |log|
  {
    line <= p && Lines(log[..p])[|Lines(log[..p])|-1] == log[line..p]
  }

  lemma SliceSnoc<T>(s: seq<T>, a: nat, b: nat)
    requires a <= b < |s|
    ensures s[a..b] + [s[b]] == s[a..b + 1]
  {
  }

  lemma {:induction false} LineEnds(log: string, p: nat, line: nat)
    requires p <= |log| && InLine(log, p, line)
    ensures Ended(log, p + 1) == Ended(log, p) + if EndsAt(log, p) && line < p then [log[line..p]] else []
    ensures p < |log| ==> InLine(log, p + 1, if EndsAt(log, p) then p + 1 else line)
    ensures '\n' !in log[line..p]
  {
    LinesSplit(log[..p]);
    var ls := Lines(log[..p]);
    if p == |log| {
      assert log[..p] == log;
    } else {
      var s := log[..p + 1];
      assert s[..|s|-1] == log[..p];
      if log[p] == '\n' {
        assert Lines(s)[..|Lines(s)|-1] == ls;
      } else {
        assert Lines(s)[..|Lines(s)|-1] == ls[..|ls|-1];
        SliceSnoc(log, line, p);
      }
    }
  }

  /** What the scan has seen before position `p`: the lines ended, and the start of the next. */
  function Progress(log: string, p: nat): (r: (seq<string>, nat))
    requires p <= |log| + 1
    ensures r.1 <= p
  {
    if p == 0 then ([], 0)
    else
      var (lines, line) := Progress(log, p - 1);
      if !EndsAt(log, p - 1) then (lines, line)
      else (if line < p - 1 then lines + [log[line..p - 1]] else lines, p)
  }

  lemma {:induction false} ProgressIs(log: string, p: nat)
    requires p <= |log| + 1
    ensures Progress(log, p).0 == Ended(log, p)
    ensures p <= |log| ==> InLine(log, p, Progress(log, p).1) && '\n' !in log[Progress(log, p).1..p]
  {
    if p == 0 {
      assert log[..0] == [];
    } else {
      ProgressIs(log, p - 1);
      LineEnds(log, p - 1, Progress(log, p - 1).1);
      if p <= |log| {
        LineEnds(log, p, Progress(log, p).1);
      }
    }
  }

  // ---- the ring -----------------------------------------------------------

  lemma Multiples(n: int, d: int)
    requires 0 < n
    ensures (d >= 1 ==> n * d >= n) && (d <= -1 ==> n * d <= -n)
  {
    assert d >= 1 ==> n * (d - 1) >= 0;
    assert d <= -1 ==> n * (-1 - d) >= 0;
  }

  lemma Remainder(x: nat, n: nat, q: int, r: int)
    requires 0 < n && x == n * q + r && 0 <= r < n
    ensures x % n == r
  {
    var d := x / n - q;
    assert n * (x / n) + x % n == x;
    assert n * d == n * (x / n) - n * q;
    Multiples(n, d);
    assert d == 0;
  }

  /** The remainder by repeated subtraction: the place of start number `g` in a ring of `n`. */
  function Place(g: nat, n: nat): (r: nat)
    requires 0 < n
    ensures r < n
  {
    if g < n then g else Place(g - n, n)
  }

  lemma {:induction false} PlaceIsRemainder(g: nat, n: nat)
    requires 0 < n
    ensures g % n == Place(g, n)
  {
    if g < n {
      Remainder(g, n, 0, g);
    } else {
      PlaceIsRemainder(g - n, n);
      var q := (g - n) / n;
      assert g - n == n * q + Place(g - n, n);
      assert n * (q + 1) == n * q + n;
      Remainder(g, n, q + 1, Place(g, n));
    }
  }

  lemma {:induction false} PlacesApart(g: nat, c: nat, n: nat)
    requires 0 < n && g < c < g + n
    ensures Place(g, n) != Place(c, n)
  {
    if g >= n {
      PlacesApart(g - n, c - n, n);
    }
  }

  lemma {:induction false} PlaceOf(c: nat, i: nat, n: nat)
    requires 0 < n <= c && i < n
    ensures Place(Place(c, n) + i, n) == Place(c - n + i, n)
  {
    if c >= 2 * n {
      PlaceOf(c - n, i, n);
    }
  }

  /** Which starts the ring holds: of the starts so far, number `g` sits in its place until `n` more come. */
  ghost predicate RingHolds(ring: seq<nat>, n: nat, starts: seq<nat>)
    requires 0 < n <= |ring|
  {
    forall g :: 0 <= g < |starts| && |starts| - n <= g ==> ring[Place(g, n)] == starts[g]
  }

  lemma {:induction false} RingAdd(ring: seq<nat>, n: nat, starts: seq<nat>, line: nat)
    requires 0 < n <= |ring| && RingHolds(ring, n, starts)
    ensures RingHolds(ring[Place(|starts|, n) := line], n, starts + [line])
  {
    forall g | 0 <= g < |starts| && |starts| + 1 - n <= g
      ensures Place(g, n) != Place(|starts|, n)
    {
      PlacesApart(g, |starts|, n);
    }
  }

  /** The starts found so far are those of the finished nonblank lines, in order. */
  ghost predicate StartsOf(log: string, starts: seq<nat>, lines: seq<string>) {
    |starts| == |lines| && forall g :: 0 <= g < |starts| ==>
      starts[g] <= |log| && Text(log, starts[g]) == lines[g]
  }

  lemma {:induction false} StartsAdd(log: string, starts: seq<nat>, lines: seq<string>, line: nat, p: nat)
    requires StartsOf(log, starts, lines) && line <= p <= |log|
    requires (p < |log| ==> log[p] == '\n') && '\n' !in log[line..p]
    ensures StartsOf(log, starts + [line], lines + [log[line..p]])
  {
    EndOfIs(log, line, p);
  }

  /** Reading the ring from its oldest place on gives the latest starts in order. */
  lemma {:induction false} RingRead(ring: seq<nat>, n: nat, starts: seq<nat>, start: nat, i: nat)
    requires 0 < n <= |ring| && RingHolds(ring, n, starts)
    requires i < |Last(starts, n)|
    requires start == if |starts| < n then 0 else Place(|starts|, n)
    ensures ring[Place(start + i, n)] == Last(starts, n)[i]
  {
    if |starts| >= n {
      PlaceOf(|starts|, i, n);
      assert ring[Place(|starts| - n + i, n)] == starts[|starts| - n + i];
    }
  }

  /** Keep the start of a finished nonblank line, over the oldest one if the ring is full. */
  method Keep(log: CString, ring: array<nat>, n: nat, count: nat, line: nat, ghost p: nat,
              ghost starts: seq<nat>, ghost lines: seq<string>)
    requires 0 < n <= ring.Length && count == |starts| && line <= p <= |log|
    requires RingHolds(ring[..], n, starts) && StartsOf(log, starts, lines)
    requires EndsAt(log, p) && '\n' !in log[line..p]
    modifies ring
    ensures RingHolds(ring[..], n, starts + [line]) && StartsOf(log, starts + [line], lines + [log[line..p]])
  {
    ghost var before := ring[..];
    PlaceIsRemainder(count, n);
    ring[count % n] := line;
    assert ring[..] == before[Place(|starts|, n) := line];
    RingAdd(before, n, starts, line);
    StartsAdd(log, starts, lines, line, p);
  }

  /** The scan, with its ring of `n` starts. */
  method Scan(log: CString, n: nat) returns (ring: array<nat>, count: nat, ghost starts: seq<nat>)
    requires 0 < n <= RING
    ensures ring.Length == RING && count == |starts|
    ensures RingHolds(ring[..], n, starts) && StartsOf(log, starts, NonBlank(Lines(log)))
  {
    ring := new nat[RING];
    count, starts := 0, [];
    var line, p := 0, 0;
    ghost var lines: seq<string> := [];
    while p <= |log|
      invariant p <= |log| + 1 && count == |starts|
      invariant (lines, line) == Progress(log, p)
      invariant RingHolds(ring[..], n, starts) && StartsOf(log, starts, lines)
      invariant fresh(ring)
    {
      if p == |log| || log[p] == '\n' {
        if p > line {
          ProgressIs(log, p);
          Keep(log, ring, n, count, line, p, starts, lines);
          count, starts, lines := count + 1, starts + [line], lines + [log[line..p]];
        }
        line := p + 1;
      }
      p := p + 1;
    }
    ProgressIs(log, p);
  }

  lemma {:induction false} LastStart(log: string, starts: seq<nat>, lines: seq<string>, n: nat, i: nat)
    requires StartsOf(log, starts, lines) && i < |Last(lines, n)|
    ensures |Last(starts, n)| == |Last(lines, n)|
    ensures var at := Last(starts, n)[i]; at <= |log| && Text(log, at) == Last(lines, n)[i]
  {
    var g := if |starts| <= n then i else |starts| - n + i;
    assert Last(starts, n)[i] == starts[g] && Last(lines, n)[i] == lines[g];
  }

  lemma {:induction false} LineKept(log: string, ring: seq<nat>, n: nat, starts: seq<nat>, lines: seq<string>,
                                    start: nat, i: nat)
    requires 0 < n <= |ring| && i < |Last(lines, n)|
    requires RingHolds(ring, n, starts) && StartsOf(log, starts, lines)
    requires start == if |starts| < n then 0 else Place(|starts|, n)
    ensures var at := ring[Place(start + i, n)]; at <= |log| && Text(log, at) == Last(lines, n)[i]
  {
    LastStart(log, starts, lines, n, i);
    RingRead(ring, n, starts, start, i);
  }

  method Wrap(at: nat, n: nat) returns (k: nat)
    requires 0 < n
    ensures k == Place(at, n)
  {
    PlaceIsRemainder(at, n);
    k := at % n;
  }

  /** Line number `i` of those kept, oldest first, from its place `k`. */
  method LineAt(log: CString, ring: array<nat>, k: nat, n: nat,
                ghost start: nat, ghost i: nat, ghost starts: seq<nat>, ghost lines: seq<string>)
      returns (l: string)
    requires 0 < n <= ring.Length && i < |Last(lines, n)| && k == Place(start + i, n)
    requires RingHolds(ring[..], n, starts) && StartsOf(log, starts, lines)
    requires start == if |starts| < n then 0 else Place(|starts|, n)
    ensures l == Last(lines, n)[i]
  {
    LineKept(log, ring[..], n, starts, lines, start, i);
    return Text(log, ring[k]);
  }

  /** Print what the ring holds, oldest first. */
  method Show(log: CString, ring: array<nat>, count: nat, n: nat, ghost starts: seq<nat>, ghost lines: seq<string>)
      returns (printed: seq<string>)
    requires 0 < n <= ring.Length && count == |starts|
    requires RingHolds(ring[..], n, starts) && StartsOf(log, starts, lines)
    ensures printed == Last(lines, n)
  {
    var shown := if count < n then count else n;
    var start := 0;
    if count >= n {
      start := Wrap(count, n);
    }
    printed := [];
    ghost var last := Last(lines, n);
    for i := 0 to shown
      invariant printed == last[..i]
    {
      var k := Wrap(start + i, n);
      var l := LineAt(log, ring, k, n, start, i, starts, lines);
      printed := printed + [l];
    }
  }

  /** For every log and every `n`, exactly the last nonblank lines, as many as there are up to `n` clamped. */
  method PrintLogTail(log: Option<CString>, n: int) returns (out: Output)
    ensures out == match log
                   case None => NoLog
                   case Some(s) => if s == [] then NoLog else Tail(Last(NonBlank(Lines(s)), Clamp(n)))
  {
    if log == None || log.value == [] {
      return NoLog;
    }
    var m := n;
    if m < 1 {
      m := 1;
    }
    if m > RING {
      m := RING;
    }
    var ring, count, starts := Scan(log.value, m);
    var printed := Show(log.value, ring, count, m, starts, NonBlank(Lines(log.value)));
    return Tail(printed);
  }
}
