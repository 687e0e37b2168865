/**
 The two consumers of the record stream: chapter 6's dictionary and chapter 8's fixed table of
 slots, what each prints as a function of the stream's history, and when they agree.
 */
module ArgvConsumers {
  import opened Options
  import opened ArgvEvents

  ghost predicate ArgsOnly(args: seq<Event>, p: Pid) {
    forall e :: e in args ==> ArgOf(e, p)
  }

  lemma {:induction false} SinceRetArgs(evs: seq<Event>, p: Pid)
    ensures ArgsOnly(SinceRet(evs, p), p)
  {
    if evs != [] {
      SinceRetArgs(evs[..|evs|-1], p);
    }
  }

  lemma {:induction false} SinceBreakArgs(evs: seq<Event>, p: Pid)
    ensures ArgsOnly(SinceBreak(evs, p), p)
  {
    if evs != [] {
      SinceBreakArgs(evs[..|evs|-1], p);
    }
  }

  /** What pending arguments print as: the identity is the first argument's. */
  function LineOf(p: Pid, args: seq<Event>): Option<Line>
    requires forall e :: e in args ==> e.Arg?
  {
    if args == [] then None else Some(Line(p, args[0].uid, args[0].comm, Strings(args)))
  }

  // ---- the dictionary -----------------------------------------------------

  datatype Slot = Slot(uid: nat, comm: string, argv: seq<string>)

  type Dict = map<Pid, Slot>

  function DictStep(d: Dict, e: Event): (Dict, Option<Line>) {
    match e
    case Arg(pid, uid, comm, arg) =>
      var slot := if pid in d then d[pid] else Slot(uid, comm, []);
      (d[pid := slot.(argv := slot.argv + [arg])], None)
    case Ret(pid, _, _) =>
      if pid in d then (d - {pid}, Some(Line(pid, d[pid].uid, d[pid].comm, d[pid].argv))) else (d, None)
  }

  class PendingDict {
    var pending: Dict

    constructor ()
      ensures pending == map[]
    {
      pending := map[];
    }

    method PrintEvent(e: Event) returns (line: Option<Line>)
      modifies this
      ensures (pending, line) == DictStep(old(pending), e)
    {
      line := None;
      if e.Arg? {
        if e.pid !in pending {
          pending := pending[e.pid := Slot(e.uid, e.comm, [])];
        }
        var slot := pending[e.pid];
        pending := pending[e.pid := slot.(argv := slot.argv + [e.arg])];
        assert pending == DictStep(old(pending), e).0;
      } else if e.pid in pending {
        var slot := pending[e.pid];
        pending := pending - {e.pid};
        line := Some(Line(e.pid, slot.uid, slot.comm, slot.argv));
      }
    }

    /** Drain a whole stream from the start. */
    method Consume(evs: seq<Event>) returns (out: seq<Option<Line>>)
      requires pending == map[]
      modifies this
      ensures out == DictOutput(evs) && pending == DictAfter(evs)
    {
      out := [];
      for n := 0 to |evs|
        invariant out == DictOutput(evs[..n]) && pending == DictAfter(evs[..n])
      {
        assert evs[..n + 1][..n] == evs[..n];
        var line := PrintEvent(evs[n]);
        out := out + [line];
      }
      assert evs[..|evs|] == evs;
    }
  }

  function DictAfter(evs: seq<Event>): Dict {
    if evs == [] then map[] else DictStep(DictAfter(evs[..|evs|-1]), evs[|evs|-1]).0
  }

  /** The dictionary holds, for each pid, exactly its arguments since its last RET. */
  lemma {:induction false} DictMeaning(evs: seq<Event>, p: Pid)
    ensures ArgsOnly(SinceRet(evs, p), p)
    ensures var args := SinceRet(evs, p);
            var d := DictAfter(evs);
            && (p in d <==> args != [])
            && (p in d ==> d[p] == Slot(args[0].uid, args[0].comm, Strings(args)))
  {
    SinceRetArgs(evs, p);
    if evs != [] {
      var evs' := evs[..|evs|-1];
      DictMeaning(evs', p);
      var args := SinceRet(evs', p);
      var e := evs[|evs|-1];
      if ArgOf(e, p) {
        assert Strings(args + [e]) == Strings(args) + [e.arg];
      }
    }
  }

  lemma DictLine(evs: seq<Event>, e: Event)
    requires e.Ret?
    ensures ArgsOnly(SinceRet(evs, e.pid), e.pid)
    ensures DictStep(DictAfter(evs), e).1 == LineOf(e.pid, SinceRet(evs, e.pid))
  {
    DictMeaning(evs, e.pid);
  }

  // ---- the table ----------------------------------------------------------

  datatype Cell = Cell(active: bool, pid: Pid, uid: nat, comm: string, argv: seq<string>)

  function CellStep(c: Cell, e: Event): (Cell, Option<Line>) {
    var mine := c.active && c.pid == e.pid;
    match e
    case Arg(pid, uid, comm, arg) =>
      var c' := if mine then c else Cell(true, pid, uid, comm, []);
      (if |c'.argv| < MAXARGS then c'.(argv := c'.argv + [CopyArg(arg)]) else c', None)
    case Ret(_, _, _) =>
      if mine then (c.(active := false), Some(Line(c.pid, c.uid, c.comm, c.argv))) else (c, None)
  }

  class PendingTable {
    const table: array<Cell>

    ghost predicate Valid() {
      table.Length == TABLE_SIZE
    }

    constructor ()
      ensures Valid() && fresh(table)
      ensures forall i :: 0 <= i < TABLE_SIZE ==> table[i] == IdleCell()
    {
      table := new Cell[TABLE_SIZE](_ => Cell(false, 0, 0, "", []));
    }

    method HandleEvent(e: Event) returns (line: Option<Line>)
      requires Valid()
      modifies table
      ensures var k := e.pid % 4096;
              && (table[k], line) == CellStep(old(table[k]), e)
              && forall i :: 0 <= i < 4096 && i != k ==> table[i] == old(table[i])
    {
      var k := e.pid % TABLE_SIZE;
      line := None;
      if e.Arg? {
        if !table[k].active || table[k].pid != e.pid {
          table[k] := Cell(true, e.pid, e.uid, e.comm, []);
        }
        if |table[k].argv| < MAXARGS {
          table[k] := table[k].(argv := table[k].argv + [CopyArg(e.arg)]);
        }
      } else {
        if !table[k].active || table[k].pid != e.pid {
          return;
        }
        line := Some(Line(table[k].pid, table[k].uid, table[k].comm, table[k].argv));
        table[k] := table[k].(active := false);
      }
    }

    /** Drain a whole stream from the start. */
    method Consume(evs: seq<Event>) returns (out: seq<Option<Line>>)
      requires Valid() && forall i :: 0 <= i < TABLE_SIZE ==> table[i] == IdleCell()
      modifies table
      ensures out == TableOutput(evs)
      ensures forall k :: 0 <= k < TABLE_SIZE ==> table[k] == CellAfter(evs, k)
    {
      out := [];
      for n := 0 to |evs|
        invariant out == TableOutput(evs[..n])
        invariant forall k :: 0 <= k < TABLE_SIZE ==> table[k] == CellAfter(evs[..n], k)
      {
        assert evs[..n + 1][..n] == evs[..n];
        var line := HandleEvent(evs[n]);
        out := out + [line];
      }
      assert evs[..|evs|] == evs;
    }
  }

  function IdleCell(): Cell {
    Cell(false, 0, 0, "", [])
  }

  /** The cell at index `k` after a stream. */
  function CellAfter(evs: seq<Event>, k: nat): Cell {
    if evs == [] then IdleCell()
    else
      var (evs', e) := (evs[..|evs|-1], evs[|evs|-1]);
      if e.pid % TABLE_SIZE == k then CellStep(CellAfter(evs', k), e).0 else CellAfter(evs', k)
  }

  /** The strings as the table stores them. */
  function Copies(args: seq<Event>): seq<string>
    requires forall e :: e in args ==> e.Arg?
  {
    seq(|args|, i requires 0 <= i < |args| => CopyArg(args[i].arg))
  }

  /** `p` owns its slot exactly when it has arguments since the last break, and the slot holds the first 20. */
  lemma {:induction false} TableMeaning(evs: seq<Event>, p: Pid)
    ensures ArgsOnly(SinceBreak(evs, p), p)
    ensures var args := SinceBreak(evs, p);
            var c := CellAfter(evs, p % TABLE_SIZE);
            && (c.active && c.pid == p <==> args != [])
            && (args != [] ==> c == Cell(true, p, args[0].uid, args[0].comm, First(MAXARGS, Copies(args))))
  {
    SinceBreakArgs(evs, p);
    if evs != [] {
      var evs', e := evs[..|evs|-1], evs[|evs|-1];
      TableMeaning(evs', p);
      var args := SinceBreak(evs', p);
      if ArgOf(e, p) {
        assert Copies(args + [e]) == Copies(args) + [CopyArg(e.arg)];
      }
    }
  }

  /** What the table prints at a RET, for every stream: the first 20 arguments since the last break, of this pid only. */
  lemma TableLine(evs: seq<Event>, e: Event)
    requires e.Ret?
    ensures ArgsOnly(SinceBreak(evs, e.pid), e.pid)
    ensures var args := SinceBreak(evs, e.pid);
            CellStep(CellAfter(evs, e.pid % TABLE_SIZE), e).1
            == if args == [] then None
               else Some(Line(e.pid, args[0].uid, args[0].comm, First(MAXARGS, Copies(args))))
    ensures CutAll(First(MAXARGS, Copies(SinceBreak(evs, e.pid))), Strings(SinceBreak(evs, e.pid)))
  {
    TableMeaning(evs, e.pid);
    var args := SinceBreak(evs, e.pid);
    forall i | 0 <= i < |args|
      ensures Cut(Copies(args)[i], Strings(args)[i])
    {
      assert args[i] in args;
      CopyCuts(args[i].arg);
    }
  }

  // ---- when they agree ----------------------------------------------------

  /** Everything after `p`'s last RET. */
  function AfterRet(evs: seq<Event>, p: Pid): seq<Event> {
    if evs == [] then []
    else if RetOf(evs[|evs|-1], p) then []
    else AfterRet(evs[..|evs|-1], p) + [evs[|evs|-1]]
  }

  /** Since `p`'s last RET, an intruder came after one of `p`'s arguments. */
  ghost predicate Collided(evs: seq<Event>, p: Pid) {
    var s := AfterRet(evs, p);
    exists i, j :: 0 <= i < j < |s| && ArgOf(s[i], p) && Intruder(s[j], p)
  }

  lemma {:induction false} SinceRetHasArgs(evs: seq<Event>, p: Pid)
    ensures SinceRet(evs, p) != [] <==> exists i :: 0 <= i < |AfterRet(evs, p)| && ArgOf(AfterRet(evs, p)[i], p)
  {
    if evs != [] {
      var evs', e := evs[..|evs|-1], evs[|evs|-1];
      SinceRetHasArgs(evs', p);
      if !RetOf(e, p) {
        var s', s := AfterRet(evs', p), AfterRet(evs, p);
        assert forall i :: 0 <= i < |s'| ==> s[i] == s'[i];
        assert s[|s|-1] == e;
      }
    }
  }

  lemma {:induction false} PendingArg(evs: seq<Event>, p: Pid, i: nat)
    requires i < |AfterRet(evs, p)| && ArgOf(AfterRet(evs, p)[i], p)
    ensures SinceRet(evs, p) != []
  {
    SinceRetHasArgs(evs, p);
  }

  lemma {:induction false} BreakIsSuffix(evs: seq<Event>, p: Pid)
    ensures |SinceBreak(evs, p)| <= |SinceRet(evs, p)|
    ensures SinceBreak(evs, p) == SinceRet(evs, p)[|SinceRet(evs, p)| - |SinceBreak(evs, p)|..]
  {
    if evs != [] {
      BreakIsSuffix(evs[..|evs|-1], p);
    }
  }

  lemma CollidedStep(evs: seq<Event>, p: Pid)
    requires evs != [] && !RetOf(evs[|evs|-1], p)
    ensures var (evs', e) := (evs[..|evs|-1], evs[|evs|-1]);
            Collided(evs, p) <==> Collided(evs', p) || (Intruder(e, p) && SinceRet(evs', p) != [])
  {
    var evs', e := evs[..|evs|-1], evs[|evs|-1];
    var s', s := AfterRet(evs', p), AfterRet(evs, p);
    assert s == s' + [e];
    SinceRetHasArgs(evs', p);
    if Collided(evs', p) {
      var i, j :| 0 <= i < j < |s'| && ArgOf(s'[i], p) && Intruder(s'[j], p);
      assert ArgOf(s[i], p) && Intruder(s[j], p);
    }
    if Intruder(e, p) && SinceRet(evs', p) != [] {
      var i :| 0 <= i < |s'| && ArgOf(s'[i], p);
      assert ArgOf(s[i], p) && Intruder(s[|s|-1], p);
    }
    if Collided(evs, p) {
      var i, j :| 0 <= i < j < |s| && ArgOf(s[i], p) && Intruder(s[j], p);
      assert i < |s'| && s'[i] == s[i];
      PendingArg(evs', p, i);
      if j < |s'| {
        assert s'[j] == s[j] && Intruder(s'[j], p);
      } else {
        assert s[j] == e;
      }
    }
  }

  lemma {:induction false} NothingOverwrittenExactlyWhen(evs: seq<Event>, p: Pid)
    ensures SinceBreak(evs, p) == SinceRet(evs, p) <==> !Collided(evs, p)
  {
    if evs != [] {
      var evs', e := evs[..|evs|-1], evs[|evs|-1];
      NothingOverwrittenExactlyWhen(evs', p);
      BreakIsSuffix(evs', p);
      if !RetOf(e, p) {
        CollidedStep(evs, p);
        if ArgOf(e, p) {
          var b, r := SinceBreak(evs', p), SinceRet(evs', p);
          assert b + [e] == r + [e] ==> |b| == |r| && r[0..] == r;
        }
      }
    }
  }

  /** The kernel sends no argument longer than the table's buffers hold. */
  ghost predicate Fits(evs: seq<Event>) {
    forall e :: e in evs && e.Arg? ==> |e.arg| < ARGSIZE
  }

  lemma {:induction false} SinceRetFits(evs: seq<Event>, p: Pid)
    requires Fits(evs)
    ensures Fits(SinceRet(evs, p))
  {
    if evs != [] {
      SinceRetFits(evs[..|evs|-1], p);
      assert evs[|evs|-1] in evs;
    }
  }

  lemma FitsCopies(args: seq<Event>, p: Pid)
    requires ArgsOnly(args, p) && Fits(args)
    ensures Copies(args) == Strings(args)
  {
    forall i | 0 <= i < |args|
      ensures args[i].Arg? && CopyArg(args[i].arg) == args[i].arg
    {
      assert args[i] in args;
    }
  }

  /** At a RET, both consumers print the same exactly when nothing was overwritten and at most 20 arguments are pending. */
  lemma LinesAgreeExactlyWhen(evs: seq<Event>, e: Event)
    requires e.Ret? && Fits(evs)
    ensures CellStep(CellAfter(evs, e.pid % TABLE_SIZE), e).1 == DictStep(DictAfter(evs), e).1
            <==> !Collided(evs, e.pid) && |SinceRet(evs, e.pid)| <= MAXARGS
  {
    var p := e.pid;
    var args, all := SinceBreak(evs, p), SinceRet(evs, p);
    DictLine(evs, e);
    TableLine(evs, e);
    NothingOverwrittenExactlyWhen(evs, p);
    BreakIsSuffix(evs, p);
    SinceRetFits(evs, p);
    var tl, dl := CellStep(CellAfter(evs, p % TABLE_SIZE), e).1, DictStep(DictAfter(evs), e).1;
    if args == all {
      FitsCopies(all, p);
      LinesOfSameArgs(p, all, tl, dl);
    } else {
      LinesOfFewerArgs(p, args, all, tl, dl);
    }
  }

  lemma LinesOfSameArgs(p: Pid, all: seq<Event>, tl: Option<Line>, dl: Option<Line>)
    requires ArgsOnly(all, p) && dl == LineOf(p, all)
    requires tl == if all == [] then None else Some(Line(p, all[0].uid, all[0].comm, First(MAXARGS, Strings(all))))
    ensures tl == dl <==> |all| <= MAXARGS
  {
  }

  lemma LinesOfFewerArgs(p: Pid, args: seq<Event>, all: seq<Event>, tl: Option<Line>, dl: Option<Line>)
    requires ArgsOnly(args, p) && ArgsOnly(all, p) && |args| <= |all| && args == all[|all| - |args|..] && args != all
    requires dl == LineOf(p, all)
    requires tl == if args == [] then None else Some(Line(p, args[0].uid, args[0].comm, First(MAXARGS, Copies(args))))
    ensures tl != dl
  {
    assert all[0..] == all;
    assert tl.Some? ==> |tl.value.argv| <= |args|;
    assert |dl.value.argv| == |all|;
  }

  /** Two processes that share a slot: the second's argument takes it from the first, whose line is then not printed. */
  lemma {:induction false} CollisionLosesLine(p: Pid, evs: seq<Event>)
    requires evs == [Arg(p, 0, "", "a"), Arg(p + 4096, 0, "", "b")]
    ensures DictStep(DictAfter(evs), Ret(p, 0, "")).1 == Some(Line(p, 0, "", ["a"]))
    ensures CellStep(CellAfter(evs, p % TABLE_SIZE), Ret(p, 0, "")).1 == None
  {
    var e := Ret(p, 0, "");
    var one := evs[..1];
    assert evs[..|evs|-1] == one && one[..0] == [];
    assert SameSlot(p + TABLE_SIZE, p);
    assert SinceRet(one, p) == [evs[0]] && SinceRet(evs, p) == [evs[0]];
    assert SinceBreak(evs, p) == [];
    DictLine(evs, e);
    TableLine(evs, e);
    assert Strings([evs[0]]) == ["a"];
  }

  // ---- whole streams ------------------------------------------------------

  /** Pending pids are in different slots, and none holds more than 20 arguments. */
  ghost predicate Comfortable(d: Dict) {
    && (forall p, q :: p in d && q in d && p != q ==> !SameSlot(p, q))
    && (forall p :: p in d ==> |d[p].argv| <= MAXARGS)
  }

  ghost predicate AlwaysComfortable(evs: seq<Event>) {
    Comfortable(DictAfter(evs)) && (evs == [] || AlwaysComfortable(evs[..|evs|-1]))
  }

  function DictOutput(evs: seq<Event>): seq<Option<Line>> {
    if evs == [] then []
    else DictOutput(evs[..|evs|-1]) + [DictStep(DictAfter(evs[..|evs|-1]), evs[|evs|-1]).1]
  }

  function TableOutput(evs: seq<Event>): seq<Option<Line>> {
    if evs == [] then []
    else
      var (evs', e) := (evs[..|evs|-1], evs[|evs|-1]);
      TableOutput(evs') + [CellStep(CellAfter(evs', e.pid % TABLE_SIZE), e).1]
  }

  lemma {:induction false} ComfortNoCollision(evs: seq<Event>, p: Pid)
    requires AlwaysComfortable(evs)
    ensures !Collided(evs, p)
  {
    if evs != [] {
      var evs', e := evs[..|evs|-1], evs[|evs|-1];
      ComfortNoCollision(evs', p);
      if !RetOf(e, p) {
        CollidedStep(evs, p);
        DictMeaning(evs', p);
        assert e.pid != p && p in DictAfter(evs') ==> p in DictAfter(evs);
        assert e.Arg? ==> e.pid in DictAfter(evs);
      }
    }
  }

  /** The table refines the dictionary: same output, event by event, while every pending state is comfortable. */
  lemma {:induction false} TableRefinesDict(evs: seq<Event>)
    requires AlwaysComfortable(evs) && Fits(evs)
    ensures TableOutput(evs) == DictOutput(evs)
  {
    if evs != [] {
      var evs', e := evs[..|evs|-1], evs[|evs|-1];
      assert forall x :: x in evs' ==> x in evs;
      TableRefinesDict(evs');
      if e.Ret? {
        ComfortNoCollision(evs', e.pid);
        DictMeaning(evs', e.pid);
        LinesAgreeExactlyWhen(evs', e);
      }
    }
  }
}
