/**
 From execve to the printed line: the kernel splits each command into records and may find the
 ring full at any reservation; records of many processes interleave; the dictionary consumer
 puts the lines back together.
 */
module ArgvRoundTrip {
  import opened Options
  import opened ArgvEvents
  import opened ArgvConsumers

  datatype Cmd = Cmd(pid: Pid, uid: nat, comm: string, argv: seq<string>)

  /** One ARG record per argument, for the first 20. */
  function ArgRecords(c: Cmd): seq<Event> {
    var n := if |c.argv| < MAXARGS then |c.argv| else MAXARGS;
    seq(n, i requires 0 <= i < n => Arg(c.pid, c.uid, c.comm, CopyArg(c.argv[i])))
  }

  function Records(c: Cmd): seq<Event> {
    ArgRecords(c) + [Ret(c.pid, c.uid, c.comm)]
  }

  /** An execve whose first `room` reservations succeed and whose next, if it makes one, fails. */
  datatype Exec = Exec(cmd: Cmd, room: nat)

  function Emit(x: Exec): seq<Event> {
    First(x.room, Records(x.cmd))
  }

  predicate Complete(x: Exec) {
    x.room >= |Records(x.cmd)|
  }

  /** The tracepoint program: stop at the argv terminator, give up at the first failed reservation. */
  method TraceExecve(c: Cmd, room: nat) returns (ring: seq<Event>)
    ensures ring == Emit(Exec(c, room))
    ensures var n := if |c.argv| <= 20 then |c.argv| else 20;
            && |ring| == (if room <= n then room else n + 1)
            && (forall i :: 0 <= i < |ring| && i < n ==>
                  ring[i].Arg? && ring[i] == Arg(c.pid, c.uid, c.comm, ring[i].arg) && Cut(ring[i].arg, c.argv[i]))
            && (|ring| == n + 1 ==> ring[n] == Ret(c.pid, c.uid, c.comm))
  {
    ring := [];
    var i := 0;
    while i < MAXARGS && i < |c.argv|
      invariant 0 <= i <= |ArgRecords(c)| && i <= room
      invariant ring == Records(c)[..i]
      invariant forall k :: 0 <= k < i ==> Cut(ring[k].arg, c.argv[k])
    {
      if |ring| >= room {
        return;
      }
      CopyCuts(c.argv[i]);
      ring := ring + [Arg(c.pid, c.uid, c.comm, CopyArg(c.argv[i]))];
      i := i + 1;
    }
    if |ring| >= room {
      return;
    }
    ring := ring + [Ret(c.pid, c.uid, c.comm)];
  }

  /** Commands of one pid run one after another. */
  function Stream(xs: seq<Exec>): seq<Event> {
    if xs == [] then [] else Stream(xs[..|xs|-1]) + Emit(xs[|xs|-1])
  }

  lemma StreamAppend(xs: seq<Exec>, x: Exec)
    ensures Stream(xs + [x]) == Stream(xs) + Emit(x)
  {
    assert (xs + [x])[..|xs|] == xs;
  }

  function ForPid(evs: seq<Event>, p: Pid): seq<Event> {
    if evs == [] then []
    else ForPid(evs[..|evs|-1], p) + if evs[|evs|-1].pid == p then [evs[|evs|-1]] else []
  }

  // ---- what should come out -----------------------------------------------

  /** ARG records left pending by commands that lost their RET. */
  function Leftover(xs: seq<Exec>): seq<Event> {
    if xs == [] then []
    else if Complete(xs[|xs|-1]) then []
    else Leftover(xs[..|xs|-1]) + Emit(xs[|xs|-1])
  }

  ghost predicate AllOf(xs: seq<Exec>, p: Pid) {
    forall i :: 0 <= i < |xs| ==> xs[i].cmd.pid == p
  }

  lemma ArgRecordsAre(c: Cmd)
    ensures ArgsOnly(ArgRecords(c), c.pid)
    ensures forall i :: 0 <= i < |ArgRecords(c)| ==> ArgRecords(c)[i] == Arg(c.pid, c.uid, c.comm, CopyArg(c.argv[i]))
  {
  }

  lemma {:induction false} LeftoverArgs(xs: seq<Exec>, p: Pid)
    requires AllOf(xs, p)
    ensures ArgsOnly(Leftover(xs), p)
  {
    if xs != [] {
      LeftoverArgs(xs[..|xs|-1], p);
      ArgRecordsAre(xs[|xs|-1].cmd);
    }
  }

  /** The leftover is all that was sent by the commands since the last complete one. */
  lemma {:induction false} LeftoverIsSinceComplete(xs: seq<Exec>) returns (k: nat)
    ensures k <= |xs| && Leftover(xs) == Stream(xs[k..])
    ensures forall j :: k <= j < |xs| ==> !Complete(xs[j])
    ensures k > 0 ==> Complete(xs[k - 1])
  {
    if xs == [] || Complete(xs[|xs|-1]) {
      k := |xs|;
    } else {
      var xs', x := xs[..|xs|-1], xs[|xs|-1];
      k := LeftoverIsSinceComplete(xs');
      SuffixLast(xs, k);
      StreamAppend(xs'[k..], x);
    }
  }

  /** The line at each RET of a pid: the complete command's arguments, after whatever was left pending before it. */
  function Expected(xs: seq<Exec>, p: Pid): seq<Option<Line>>
    requires AllOf(xs, p)
  {
    if xs == [] then []
    else
      var (xs', x) := (xs[..|xs|-1], xs[|xs|-1]);
      assert ArgsOnly(Leftover(xs') + ArgRecords(x.cmd), p) by { LeftoverArgs(xs', p); ArgRecordsAre(x.cmd); }
      var line := LineOf(p, Leftover(xs') + ArgRecords(x.cmd));
      if Complete(x) then Expected(xs', p) + [line] else Expected(xs', p)
  }

  function RetRecord(c: Cmd): Event {
    Ret(c.pid, c.uid, c.comm)
  }

  /** The RET records of the complete commands. */
  function CompleteRets(xs: seq<Exec>): seq<Event> {
    if xs == [] then []
    else if Complete(xs[|xs|-1]) then CompleteRets(xs[..|xs|-1]) + [RetRecord(xs[|xs|-1].cmd)]
    else CompleteRets(xs[..|xs|-1])
  }

  function CompleteCmds(xs: seq<Exec>): seq<Cmd> {
    if xs == [] then []
    else if Complete(xs[|xs|-1]) then CompleteCmds(xs[..|xs|-1]) + [xs[|xs|-1].cmd]
    else CompleteCmds(xs[..|xs|-1])
  }

  /** The line, if the command has arguments, is the pid's and ends with the command's own first 20, cut to 127 characters. */
  ghost predicate EndsWith(o: Option<Line>, c: Cmd) {
    c.argv != [] ==>
      var n := if |c.argv| <= 20 then |c.argv| else 20;
      && o.Some? && o.value.pid == c.pid && |o.value.argv| >= n
      && CutAll(o.value.argv[|o.value.argv| - n..], c.argv)
  }

  lemma {:induction false} RecordStrings(c: Cmd)
    ensures ArgsOnly(ArgRecords(c), c.pid) && CutAll(Strings(ArgRecords(c)), c.argv)
  {
    ArgRecordsAre(c);
    forall i | 0 <= i < |ArgRecords(c)|
      ensures Cut(Strings(ArgRecords(c))[i], c.argv[i])
    {
      CopyCuts(c.argv[i]);
    }
  }

  lemma {:induction false} LineEnds(left: seq<Event>, c: Cmd)
    requires ArgsOnly(left, c.pid)
    ensures ArgsOnly(left + ArgRecords(c), c.pid) && EndsWith(LineOf(c.pid, left + ArgRecords(c)), c)
  {
    RecordStrings(c);
    var all := left + ArgRecords(c);
    assert ArgsOnly(all, c.pid);
    assert Strings(all)[|left|..] == Strings(ArgRecords(c));
  }

  /** The lines expected end with the complete commands' arguments, one for one. */
  lemma {:induction false} ExpectedEnds(xs: seq<Exec>, p: Pid, j: nat)
    requires AllOf(xs, p) && j < |CompleteCmds(xs)|
    ensures |Expected(xs, p)| == |CompleteRets(xs)| == |CompleteCmds(xs)|
    ensures CompleteRets(xs)[j] == RetRecord(CompleteCmds(xs)[j]) && EndsWith(Expected(xs, p)[j], CompleteCmds(xs)[j])
  {
    var xs', x := xs[..|xs|-1], xs[|xs|-1];
    CompleteSizes(xs', p);
    LeftoverArgs(xs', p);
    LineEnds(Leftover(xs'), x.cmd);
    if j < |CompleteCmds(xs')| {
      ExpectedEnds(xs', p, j);
    }
  }

  lemma {:induction false} CompleteSizes(xs: seq<Exec>, p: Pid)
    requires AllOf(xs, p)
    ensures |Expected(xs, p)| == |CompleteRets(xs)| == |CompleteCmds(xs)|
  {
    if xs != [] {
      CompleteSizes(xs[..|xs|-1], p);
    }
  }

  // ---- the history of a stream, record by record --------------------------

  function RetsOf(evs: seq<Event>, p: Pid): seq<Event> {
    if evs == [] then []
    else
      var (evs', e) := (evs[..|evs|-1], evs[|evs|-1]);
      if RetOf(e, p) then RetsOf(evs', p) + [e] else RetsOf(evs', p)
  }

  /** The line `p`'s history calls for at each of its RETs. */
  function History(evs: seq<Event>, p: Pid): seq<Option<Line>> {
    if evs == [] then []
    else
      var (evs', e) := (evs[..|evs|-1], evs[|evs|-1]);
      assert ArgsOnly(SinceRet(evs', p), p) by { SinceRetArgs(evs', p); }
      if RetOf(e, p) then History(evs', p) + [LineOf(p, SinceRet(evs', p))] else History(evs', p)
  }

  lemma {:induction false} OneLinePerRet(evs: seq<Event>, p: Pid)
    ensures |History(evs, p)| == |RetsOf(evs, p)|
  {
    if evs != [] {
      OneLinePerRet(evs[..|evs|-1], p);
    }
  }

  lemma {:induction false} OutputLength(evs: seq<Event>)
    ensures |DictOutput(evs)| == |evs|
  {
    if evs != [] {
      OutputLength(evs[..|evs|-1]);
    }
  }

  /** The k-th record's output is the history's line at that RET, and nothing at an ARG. */
  lemma {:induction false} OutputIsHistory(evs: seq<Event>, k: nat)
    requires k < |evs|
    ensures |DictOutput(evs)| == |evs| && (evs[k].Arg? ==> DictOutput(evs)[k] == None)
    ensures evs[k].Ret? ==>
              var (p, j) := (evs[k].pid, |RetsOf(evs[..k], evs[k].pid)|);
              && j < |RetsOf(evs, p)| == |History(evs, p)|
              && RetsOf(evs, p)[j] == evs[k] && DictOutput(evs)[k] == History(evs, p)[j]
  {
    var evs', e := evs[..|evs|-1], evs[|evs|-1];
    OutputLength(evs');
    OneLinePerRet(evs, evs[k].pid);
    OneLinePerRet(evs', evs[k].pid);
    if k == |evs| - 1 {
      if e.Ret? {
        DictLine(evs', e);
      }
    } else {
      OutputIsHistory(evs', k);
      assert evs'[..k] == evs[..k];
    }
  }

  /** Interleaving does not matter: what a pid has pending, its RETs and its lines depend on its own records only. */
  lemma {:induction false} HistoryIsLocal(evs: seq<Event>, p: Pid)
    ensures SinceRet(ForPid(evs, p), p) == SinceRet(evs, p)
    ensures History(ForPid(evs, p), p) == History(evs, p) && RetsOf(ForPid(evs, p), p) == RetsOf(evs, p)
  {
    if evs != [] {
      var evs', e := evs[..|evs|-1], evs[|evs|-1];
      HistoryIsLocal(evs', p);
      var mine := ForPid(evs, p);
      if e.pid == p {
        assert mine[..|mine|-1] == ForPid(evs', p);
      } else {
        assert mine == ForPid(evs', p);
      }
    }
  }

  lemma AppendArg(evs: seq<Event>, a: Event, p: Pid)
    requires ArgOf(a, p)
    ensures SinceRet(evs + [a], p) == SinceRet(evs, p) + [a]
    ensures History(evs + [a], p) == History(evs, p) && RetsOf(evs + [a], p) == RetsOf(evs, p)
  {
    assert (evs + [a])[..|evs|] == evs;
  }

  lemma {:induction false} AppendArgs(evs: seq<Event>, args: seq<Event>, p: Pid)
    requires ArgsOnly(args, p)
    ensures SinceRet(evs + args, p) == SinceRet(evs, p) + args
    ensures History(evs + args, p) == History(evs, p) && RetsOf(evs + args, p) == RetsOf(evs, p)
  {
    if args == [] {
      assert evs + args == evs;
    } else {
      var args', a := args[..|args|-1], args[|args|-1];
      assert a in args && forall x :: x in args' ==> x in args;
      AppendArgs(evs, args', p);
      AppendArg(evs + args', a, p);
      ConcatLast(evs, args);
      ConcatLast(SinceRet(evs, p), args);
    }
  }

  lemma {:induction false} AppendExec(evs: seq<Event>, x: Exec)
    ensures var p := x.cmd.pid;
            && ArgsOnly(SinceRet(evs, p) + ArgRecords(x.cmd), p)
            && SinceRet(evs + Emit(x), p) == (if Complete(x) then [] else SinceRet(evs, p) + Emit(x))
            && RetsOf(evs + Emit(x), p) == (if Complete(x) then RetsOf(evs, p) + [RetRecord(x.cmd)] else RetsOf(evs, p))
            && History(evs + Emit(x), p) ==
                 if Complete(x) then History(evs, p) + [LineOf(p, SinceRet(evs, p) + ArgRecords(x.cmd))] else History(evs, p)
  {
    var p, args := x.cmd.pid, ArgRecords(x.cmd);
    SinceRetArgs(evs, p);
    ArgRecordsAre(x.cmd);
    if Complete(x) {
      AppendArgs(evs, args, p);
      assert (evs + Emit(x))[..|evs + Emit(x)|-1] == evs + args;
    } else {
      AppendArgs(evs, args[..x.room], p);
      assert Emit(x) == args[..x.room];
    }
  }

  lemma {:induction false} StreamHistory(xs: seq<Exec>, p: Pid)
    requires AllOf(xs, p)
    ensures SinceRet(Stream(xs), p) == Leftover(xs)
    ensures RetsOf(Stream(xs), p) == CompleteRets(xs) && History(Stream(xs), p) == Expected(xs, p)
  {
    if xs != [] {
      StreamHistory(xs[..|xs|-1], p);
      AppendExec(Stream(xs[..|xs|-1]), xs[|xs|-1]);
    }
  }

  // ---- the theorems -------------------------------------------------------

  /** `evs` interleaves the commands of every pid, those of one pid running one after another. */
  ghost predicate Interleaves(evs: seq<Event>, execs: Pid -> seq<Exec>) {
    forall p :: AllOf(execs(p), p) && ForPid(evs, p) == Stream(execs(p))
  }

  lemma {:induction false} PidHistory(evs: seq<Event>, execs: Pid -> seq<Exec>, p: Pid)
    requires Interleaves(evs, execs)
    ensures AllOf(execs(p), p)
    ensures RetsOf(evs, p) == CompleteRets(execs(p)) && History(evs, p) == Expected(execs(p), p)
  {
    assert AllOf(execs(p), p) && ForPid(evs, p) == Stream(execs(p));
    HistoryIsLocal(evs, p);
    StreamHistory(execs(p), p);
  }

  /**
   The whole output, with arbitrary ring-full exits and any interleaving: nothing at an ARG, and
   at the j-th RET of a pid, which is that of its j-th complete command, a line that ends with
   all of that command's arguments, preceded only by what was sent of the pid's commands since
   the complete one before. Every complete command has its RET.
   */
  lemma {:induction false} RoundTripWithDrops(evs: seq<Event>, execs: Pid -> seq<Exec>, k: nat)
    requires Interleaves(evs, execs) && k < |evs|
    ensures |DictOutput(evs)| == |evs| && (evs[k].Arg? ==> DictOutput(evs)[k] == None)
    ensures evs[k].Ret? ==>
              var (p, j) := (evs[k].pid, |RetsOf(evs[..k], evs[k].pid)|);
              && AllOf(execs(p), p) && RetsOf(evs, p) == CompleteRets(execs(p))
              && j < |CompleteRets(execs(p))| == |Expected(execs(p), p)|
              && evs[k] == CompleteRets(execs(p))[j] && DictOutput(evs)[k] == Expected(execs(p), p)[j]
              && j < |CompleteCmds(execs(p))|
              && evs[k] == RetRecord(CompleteCmds(execs(p))[j]) && EndsWith(DictOutput(evs)[k], CompleteCmds(execs(p))[j])
  {
    OutputIsHistory(evs, k);
    var p := evs[k].pid;
    PidHistory(evs, execs, p);
    CompleteSizes(execs(p), p);
    if evs[k].Ret? {
      ExpectedEnds(execs(p), p, |RetsOf(evs[..k], p)|);
    }
  }

  /** Nothing for a command without arguments, and otherwise its identity and its first 20 arguments cut to 127 characters. */
  ghost predicate PrintsCommand(o: Option<Line>, c: Cmd) {
    if c.argv == [] then o == None
    else o.Some? && o.value == Line(c.pid, c.uid, c.comm, o.value.argv) && CutAll(o.value.argv, c.argv)
  }

  lemma {:induction false} WholeLine(c: Cmd)
    ensures ArgsOnly(ArgRecords(c), c.pid) && PrintsCommand(LineOf(c.pid, ArgRecords(c)), c)
  {
    ArgRecordsAre(c);
    RecordStrings(c);
  }

  lemma {:induction false} CompleteLeavesNothing(xs: seq<Exec>)
    requires forall i :: 0 <= i < |xs| ==> Complete(xs[i])
    ensures Leftover(xs) == [] && |CompleteRets(xs)| == |xs|
  {
    if xs != [] {
      CompleteLeavesNothing(xs[..|xs|-1]);
    }
  }

  lemma {:induction false} LastComplete(xs: seq<Exec>, p: Pid)
    requires AllOf(xs, p) && xs != [] && Complete(xs[|xs|-1]) && Leftover(xs[..|xs|-1]) == []
    ensures var c := xs[|xs|-1].cmd;
            && ArgsOnly(ArgRecords(c), p)
            && Expected(xs, p) == Expected(xs[..|xs|-1], p) + [LineOf(p, ArgRecords(c))]
            && CompleteRets(xs) == CompleteRets(xs[..|xs|-1]) + [RetRecord(c)]
  {
    var c := xs[|xs|-1].cmd;
    ArgRecordsAre(c);
    assert [] + ArgRecords(c) == ArgRecords(c);
  }

  lemma {:induction false} CompleteExpected(xs: seq<Exec>, p: Pid, i: nat)
    requires AllOf(xs, p) && (forall i :: 0 <= i < |xs| ==> Complete(xs[i])) && i < |xs|
    ensures |Expected(xs, p)| == |CompleteRets(xs)| == |xs|
    ensures PrintsCommand(Expected(xs, p)[i], xs[i].cmd) && CompleteRets(xs)[i] == RetRecord(xs[i].cmd)
  {
    var xs', c := xs[..|xs|-1], xs[|xs|-1].cmd;
    CompleteLeavesNothing(xs');
    CompleteSizes(xs', p);
    LastComplete(xs, p);
    WholeLine(c);
    if i < |xs'| {
      CompleteExpected(xs', p, i);
    }
  }

  ghost predicate NothingDropped(execs: Pid -> seq<Exec>) {
    forall p, i :: 0 <= i < |execs(p)| ==> Complete(execs(p)[i])
  }

  /** When nothing is dropped, each command prints at its own RET, in RET order over all pids, as its first 20 arguments. */
  lemma {:induction false} RoundTrip(evs: seq<Event>, execs: Pid -> seq<Exec>, k: nat)
    requires Interleaves(evs, execs) && NothingDropped(execs) && k < |evs|
    ensures |DictOutput(evs)| == |evs| && (evs[k].Arg? ==> DictOutput(evs)[k] == None)
    ensures evs[k].Ret? ==>
              var (p, j) := (evs[k].pid, |RetsOf(evs[..k], evs[k].pid)|);
              && j < |execs(p)| == |RetsOf(evs, p)|
              && evs[k] == RetRecord(execs(p)[j].cmd) && PrintsCommand(DictOutput(evs)[k], execs(p)[j].cmd)
  {
    RoundTripWithDrops(evs, execs, k);
    if evs[k].Ret? {
      var p := evs[k].pid;
      CompleteLeavesNothing(execs(p));
      CompleteExpected(execs(p), p, |RetsOf(evs[..k], p)|);
    }
  }

  // ---- a line the table cuts short ----------------------------------------

  /** A command of 20 arguments or more loses its RET to a full ring and the pid runs another: at its RET the consumers differ. */
  lemma {:induction false} TableCutsShort(c: Cmd, d: Cmd, room: nat)
    requires c.pid == d.pid && |c.argv| >= MAXARGS && d.argv != [] && room > |d.argv|
    ensures var sent := Stream([Exec(c, MAXARGS), Exec(d, room)]);
            && sent != [] && sent[|sent|-1] == RetRecord(d)
            && var evs := sent[..|sent|-1];
               CellStep(CellAfter(evs, d.pid % TABLE_SIZE), RetRecord(d)).1 != DictStep(DictAfter(evs), RetRecord(d)).1
  {
    var evs := Emit(Exec(c, MAXARGS)) + ArgRecords(d);
    Sent(c, d, room);
    var sent := Stream([Exec(c, MAXARGS), Exec(d, room)]);
    assert sent[..|sent|-1] == evs;
    TooManyPending(c, d);
    LinesAgreeExactlyWhen(evs, RetRecord(d));
  }

  lemma {:induction false} Sent(c: Cmd, d: Cmd, room: nat)
    requires room > |d.argv|
    ensures Stream([Exec(c, MAXARGS), Exec(d, room)]) == Emit(Exec(c, MAXARGS)) + ArgRecords(d) + [RetRecord(d)]
  {
    var x, y := Exec(c, MAXARGS), Exec(d, room);
    StreamAppend([x], y);
    StreamAppend([], x);
    assert [] + [x] == [x] && [x] + [y] == [x, y];
    assert Emit(y) == ArgRecords(d) + [RetRecord(d)];
  }

  lemma {:induction false} ArgsFit(c: Cmd)
    ensures Fits(ArgRecords(c))
  {
    forall e | e in ArgRecords(c)
      ensures e.Arg? && |e.arg| < ARGSIZE
    {
      ArgRecordsAre(c);
    }
  }

  lemma {:induction false} TooManyPending(c: Cmd, d: Cmd)
    requires c.pid == d.pid && |c.argv| >= MAXARGS && d.argv != []
    ensures var evs := Emit(Exec(c, MAXARGS)) + ArgRecords(d);
            Fits(evs) && |SinceRet(evs, d.pid)| > MAXARGS
  {
    var xs, ys := ArgRecords(c), ArgRecords(d);
    ArgsFit(c);
    ArgsFit(d);
    assert Emit(Exec(c, MAXARGS)) == xs;
    PendingOf(c, d);
  }

  lemma {:induction false} PendingOf(c: Cmd, d: Cmd)
    requires c.pid == d.pid
    ensures SinceRet(ArgRecords(c) + ArgRecords(d), d.pid) == ArgRecords(c) + ArgRecords(d)
  {
    ArgRecordsAre(c);
    ArgRecordsAre(d);
    assert [] + ArgRecords(c) == ArgRecords(c);
    AppendArgs([], ArgRecords(c), c.pid);
    AppendArgs(ArgRecords(c), ArgRecords(d), d.pid);
  }
}
