/**
 nettop's kernel side: the seven hooks over `proc_stats_map` and `sock_owner`, and who gets the
 blame for a retransmit when the slab reuses a socket's address.
 */
module NettopHooks {
  import opened Options
  import opened Words
  import opened NettopModel
  import Runs = NettopRuns

  type Sock = nat

  const AF_INET: nat := 2
  const AF_INET6: nat := 10
  const MAX_SOCKS: nat := 10240

  /** Traffic of kernel threads and of non-IP sockets is ignored before any map is touched. */
  predicate Counted(pid: Pid, family: nat) {
    pid != 0 && (family == AF_INET || family == AF_INET6)
  }

  /** The task a hook runs in: its pid and command name. */
  datatype Task = Task(pid: Pid, comm: string)

  /** What can happen: sockets come and go, hooks fire, the LRU map loses an entry, the poller passes. */
  datatype Step =
    | Open(sk: Sock)
    | Transfer(sk: Sock, family: nat, task: Task, bytes: nat, isTx: bool, now: nat)
    | Retransmitted(sk: Sock)
    | Evict(sk: Sock)
    | Close(sk: Sock)
    | Free(sk: Sock)
    | Polled(now: nat, alive: set<Pid>)

  /** The two maps. */
  datatype Kernel = Kernel(stats: map<Pid, Stats>, owner: map<Sock, Pid>)

  function OwnerAfter(owner: map<Sock, Pid>, e: Step): map<Sock, Pid> {
    match e
    case Transfer(sk, family, task, _, _, _) => if Counted(task.pid, family) then owner[sk := task.pid] else owner
    case Evict(sk) => owner - {sk}
    case Close(sk) => owner - {sk}
    case _ => owner
  }

  function StatsAfter(k: Kernel, e: Step): map<Pid, Stats> {
    match e
    case Transfer(_, family, task, bytes, isTx, now) =>
      if Counted(task.pid, family) then AccountRow(k.stats, task.pid, bytes, isTx, now, task.comm) else k.stats
    case Retransmitted(sk) => if sk in k.owner then RetransmitRow(k.stats, k.owner[sk]) else k.stats
    case Polled(now, alive) => Survivors(k.stats, alive, now)
    case _ => k.stats
  }

  /** What a step does to the maps. */
  function Fire(k: Kernel, e: Step): Kernel {
    Kernel(StatsAfter(k, e), OwnerAfter(k.owner, e))
  }

  /** An IPv4 or IPv6 transfer of any process adds to its own direction only, if its row exists or there is room for one. */
  lemma TransferCounts(k: Kernel, sk: Sock, family: nat, task: Task, bytes: nat, isTx: bool, now: nat, s: Stats)
    requires task.pid != 0 && (family == 2 || family == 10)
    requires if task.pid in k.stats then s == k.stats[task.pid]
             else |k.stats| < 4096 && s == Stats(0, 0, 0, 0, 0, 0, task.comm)
    requires s.tx + bytes < U64 && s.rx + bytes < U64 && s.txCalls + 1 < U64 && s.rxCalls + 1 < U64
    ensures var s' := if isTx then Stats(s.tx + bytes, s.rx, s.txCalls + 1, s.rxCalls, s.retrans, now, s.comm)
                      else Stats(s.tx, s.rx + bytes, s.txCalls, s.rxCalls + 1, s.retrans, now, s.comm);
            Fire(k, Transfer(sk, family, task, bytes, isTx, now)) == Kernel(k.stats[task.pid := s'], k.owner[sk := task.pid])
  {
  }

  /** Kernel threads and other families leave no trace, and a full map drops the sample of a new process. */
  lemma TransferIgnored(k: Kernel, sk: Sock, family: nat, task: Task, bytes: nat, isTx: bool, now: nat)
    ensures var k' := Fire(k, Transfer(sk, family, task, bytes, isTx, now));
            && (task.pid == 0 || (family != 2 && family != 10) ==> k' == k)
            && (task.pid !in k.stats && |k.stats| >= 4096 ==> k'.stats == k.stats)
  {
  }

  function Without(k: Kernel, victim: Option<Sock>): Kernel {
    if victim.Some? then Fire(k, Evict(victim.value)) else k
  }

  class Hooks {
    var stats: map<Pid, Stats>
    var owner: map<Sock, Pid>

    function View(): Kernel
      reads this
    {
      Kernel(stats, owner)
    }

    constructor ()
      ensures View() == Kernel(map[], map[])
    {
      stats, owner := map[], map[];
    }

    /** Writing to the LRU map never fails; when the map is full, some other entry goes. */
    method Register(sk: Sock, pid: Pid) returns (ghost victim: Option<Sock>)
      modifies this`owner
      ensures owner == Without(old(View()), victim).owner[sk := pid]
      ensures victim.Some? ==> victim.value in old(owner) && sk !in old(owner) && |old(owner)| >= 10240
    {
      victim := None;
      if sk !in owner && |owner| >= MAX_SOCKS {
        var oldest :| oldest in owner;
        owner := owner - {oldest};
        victim := Some(oldest);
      }
      owner := owner[sk := pid];
    }

    /** A transfer step, after at most one eviction, and that only from a full map that lacks the socket. */
    method Account(sk: Sock, family: nat, task: Task, bytes: nat, isTx: bool, now: nat) returns (ghost victim: Option<Sock>)
      modifies this
      ensures View() == Fire(Without(old(View()), victim), Transfer(sk, family, task, bytes, isTx, now))
      ensures victim.Some? ==> Counted(task.pid, family) && sk !in old(owner) && |old(owner)| >= 10240
    {
      victim := None;
      var pid := task.pid;
      if pid == 0 {
        return;
      }
      if family != AF_INET && family != AF_INET6 {
        return;
      }
      victim := Register(sk, pid);
      Credit(task, bytes, isTx, now);
    }

    /** Fetch or create the row, then add to one direction and stamp. */
    method Credit(task: Task, bytes: nat, isTx: bool, now: nat)
      requires task.pid != 0
      modifies this`stats
      ensures stats == AccountRow(old(stats), task.pid, bytes, isTx, now, task.comm)
    {
      var pid := task.pid;
      if pid !in stats {
        if |stats| < MAX_PROCS {
          stats := stats[pid := NewStats(task.comm)];
        }
        if pid !in stats {
          return;
        }
      }
      var s := stats[pid];
      if isTx {
        s := s.(tx := Add64(s.tx, bytes), txCalls := Add64(s.txCalls, 1));
      } else {
        s := s.(rx := Add64(s.rx, bytes), rxCalls := Add64(s.rxCalls, 1));
      }
      stats := stats[pid := s.(lastNs := now)];
    }

    /** A receive hook fires with a signed length and ignores anything but a positive one. */
    method Received(sk: Sock, family: nat, task: Task, copied: int, now: nat) returns (ghost victim: Option<Sock>)
      modifies this
      ensures copied <= 0 ==> View() == old(View())
      ensures copied > 0 ==> View() == Fire(Without(old(View()), victim), Transfer(sk, family, task, copied, false, now))
      ensures victim.Some? ==> copied > 0 && Counted(task.pid, family) && sk !in old(owner) && |old(owner)| >= 10240
    {
      victim := None;
      if copied <= 0 {
        return;
      }
      victim := Account(sk, family, task, copied, false, now);
    }

    /** Runs in whatever task the timer interrupted, so the owner comes from `sock_owner`. */
    method Retransmit(sk: Sock)
      modifies this`stats
      ensures View() == Fire(old(View()), Retransmitted(sk))
    {
      if sk !in owner {
        return;
      }
      var pid := owner[sk];
      if pid !in stats {
        return;
      }
      stats := stats[pid := stats[pid].(retrans := Add64(stats[pid].retrans, 1))];
    }

    method TcpClose(sk: Sock)
      modifies this`owner
      ensures View() == Fire(old(View()), Close(sk))
    {
      owner := owner - {sk};
    }
  }

  // ---- runs over reused addresses -----------------------------------------

  /** A socket between its opening and the reuse of its address; `Closing` is after `tcp_close`. */
  datatype Phase = Opened | Closing

  /** The maps; the poller's baselines and whether it has primed; and which addresses hold a socket. */
  datatype World = World(kernel: Kernel, prev: map<Pid, Base>, primed: bool, live: map<Sock, Phase>)

  predicate Possible(live: map<Sock, Phase>, e: Step) {
    match e
    case Open(sk) => sk !in live
    case Transfer(sk, _, _, _, _, _) => sk in live && live[sk] == Opened
    case Retransmitted(sk) => sk in live
    case Close(sk) => sk in live && live[sk] == Opened
    case Free(sk) => sk in live
    case _ => true
  }

  function LiveAfter(live: map<Sock, Phase>, e: Step): map<Sock, Phase> {
    match e
    case Open(sk) => live[sk := Opened]
    case Close(sk) => live[sk := Closing]
    case Free(sk) => live - {sk}
    case _ => live
  }

  function Apply(w: World, e: Step): World {
    var k := Fire(w.kernel, e);
    if e.Polled? then World(k, Baselines(k.stats), true, w.live)
    else World(k, w.prev, w.primed, LiveAfter(w.live, e))
  }

  /** The hooks attach while `start` holds the sockets already alive; the maps begin empty. */
  function After(start: map<Sock, Phase>, es: seq<Step>): World {
    if es == [] then World(Kernel(map[], map[]), map[], false, start)
    else Apply(After(start, es[..|es|-1]), es[|es|-1])
  }

  predicate Run(start: map<Sock, Phase>, es: seq<Step>) {
    es == [] || (Run(start, es[..|es|-1]) && Possible(After(start, es[..|es|-1]).live, es[|es|-1]))
  }

  function Owners(start: map<Sock, Phase>, es: seq<Step>): map<Sock, Pid> {
    After(start, es).kernel.owner
  }

  // ---- the same run as the byte theorems see it ---------------------------

  /** What a step is to the rows: an accounted transfer, a credited retransmit, a pass, or nothing. */
  function Seen(owner: map<Sock, Pid>, e: Step): (r: seq<Runs.Step>)
    ensures |r| <= 1
  {
    match e
    case Transfer(_, family, task, bytes, isTx, now) =>
      if Counted(task.pid, family) then [Runs.Account(task.pid, bytes, isTx, now, task.comm)] else []
    case Retransmitted(sk) => if sk in owner then [Runs.Retransmit(owner[sk])] else []
    case Polled(now, alive) => [Runs.Poll(now, alive)]
    case _ => []
  }

  function Replayed(start: map<Sock, Phase>, es: seq<Step>): seq<Runs.Step> {
    if es == [] then []
    else Replayed(start, es[..|es|-1]) + Seen(Owners(start, es[..|es|-1]), es[|es|-1])
  }

  function SysOf(w: World): Runs.Sys {
    Runs.Sys(w.kernel.stats, w.prev, w.primed)
  }

  lemma StepIsSeen(w: World, e: Step)
    ensures var seen := Seen(w.kernel.owner, e);
            SysOf(Apply(w, e)) == if seen == [] then SysOf(w) else Runs.Apply(SysOf(w), seen[0])
  {
  }

  /** Every run of the hooks is, to the rows and baselines, one of the runs the byte theorems are about. */
  lemma {:induction false} RunIsReplayed(start: map<Sock, Phase>, es: seq<Step>)
    ensures Runs.After(Replayed(start, es)) == SysOf(After(start, es))
  {
    if es != [] {
      var before, e := es[..|es|-1], es[|es|-1];
      RunIsReplayed(start, before);
      StepIsSeen(After(start, before), e);
      var rs, seen := Replayed(start, before), Seen(Owners(start, before), e);
      if seen == [] {
        assert rs + seen == rs;
      } else {
        assert seen == [seen[0]];
        Runs.AfterStep(rs, seen[0]);
      }
    }
  }

  /** So every byte the hooks count after priming is in exactly one frame, with passes at most 60 s apart. */
  lemma {:induction false} HookConservation(start: map<Sock, Phase>, es: seq<Step>, p: Pid)
    requires Runs.WellTimed(Replayed(start, es), REAP_IDLE_NS) && Runs.NoWrap(Replayed(start, es)) && After(start, es).primed
    ensures Runs.Conserved(Replayed(start, es), p)
  {
    RunIsReplayed(start, es);
    Runs.Conservation(Replayed(start, es), p);
  }

  // ---- attribution --------------------------------------------------------

  /** Someone moved counted bytes on the socket at `sk`. */
  predicate Uses(e: Step, sk: Sock) {
    e.Transfer? && e.sk == sk && Counted(e.task.pid, e.family)
  }

  /** The pid that last moved counted bytes on the socket that is at `sk` now. */
  function LastUser(es: seq<Step>, sk: Sock): Option<Pid> {
    if es == [] then None
    else
      var (es', e) := (es[..|es|-1], es[|es|-1]);
      if e == Open(sk) then None else if Uses(e, sk) then Some(e.task.pid) else LastUser(es', sk)
  }

  /** Bytes were moved at `sk` after its last opening. */
  ghost predicate UsedSinceOpen(es: seq<Step>, sk: Sock) {
    exists i :: 0 <= i < |es| && Uses(es[i], sk) && forall j :: i < j < |es| ==> es[j] != Open(sk)
  }

  lemma {:induction false} LastUserExists(es: seq<Step>, sk: Sock)
    ensures LastUser(es, sk).Some? <==> UsedSinceOpen(es, sk)
  {
    if es != [] {
      var es', e := es[..|es|-1], es[|es|-1];
      LastUserExists(es', sk);
      if Uses(e, sk) {
        assert Uses(es[|es|-1], sk);
      } else if e != Open(sk) && UsedSinceOpen(es', sk) {
        var i :| 0 <= i < |es'| && Uses(es'[i], sk) && forall j :: i < j < |es'| ==> es'[j] != Open(sk);
        assert Uses(es[i], sk);
      }
      if UsedSinceOpen(es, sk) && !Uses(e, sk) {
        var i :| 0 <= i < |es| && Uses(es[i], sk) && forall j :: i < j < |es| ==> es[j] != Open(sk);
        assert i < |es'| && Uses(es'[i], sk);
      }
    }
  }

  /** Every socket at `sk` ended through `tcp_close`. */
  predicate EndsByClose(start: map<Sock, Phase>, es: seq<Step>, sk: Sock) {
    es == [] ||
    var (es', e) := (es[..|es|-1], es[|es|-1]);
    EndsByClose(start, es', sk) && (e == Free(sk) ==> sk !in After(start, es').live || After(start, es').live[sk] == Closing)
  }

  lemma {:induction false} OwnerIsLastUser(start: map<Sock, Phase>, es: seq<Step>, sk: Sock)
    requires Run(start, es)
    ensures sk in Owners(start, es) && LastUser(es, sk).Some? ==> Owners(start, es)[sk] == LastUser(es, sk).value
  {
    if es != [] {
      OwnerIsLastUser(start, es[..|es|-1], sk);
    }
  }

  lemma {:induction false} OwnerIsOfThisSocket(start: map<Sock, Phase>, es: seq<Step>, sk: Sock)
    requires Run(start, es) && EndsByClose(start, es, sk)
    ensures var w := After(start, es);
            sk in w.kernel.owner ==> sk in w.live && w.live[sk] == Opened && LastUser(es, sk).Some?
  {
    if es != [] {
      OwnerIsOfThisSocket(start, es[..|es|-1], sk);
    }
  }

  /**
   Attribution: where every socket at an address ends through `tcp_close`, a retransmit there is
   credited, if at all, to the pid that last moved bytes on that same socket, whatever was
   evicted and however often the address was reused.
   */
  lemma {:induction false} Attribution(start: map<Sock, Phase>, es: seq<Step>, sk: Sock)
    requires Run(start, es) && EndsByClose(start, es, sk)
    requires sk in Owners(start, es)
    ensures LastUser(es, sk) == Some(Owners(start, es)[sk])
  {
    OwnerIsLastUser(start, es, sk);
    OwnerIsOfThisSocket(start, es, sk);
  }

  /** In any run, the credit is right exactly when someone has moved bytes on this socket since it was opened. */
  lemma {:induction false} AttributionExactlyWhen(start: map<Sock, Phase>, es: seq<Step>, sk: Sock)
    requires Run(start, es) && sk in Owners(start, es)
    ensures LastUser(es, sk) == Some(Owners(start, es)[sk]) <==> UsedSinceOpen(es, sk)
  {
    OwnerIsLastUser(start, es, sk);
    LastUserExists(es, sk);
  }

  /** Where a run stands, as far as owners, sockets and what the rows saw go. */
  ghost predicate Stands(es: seq<Step>, owner: map<Sock, Pid>, live: map<Sock, Phase>, seen: seq<Runs.Step>) {
    Run(map[], es) && Owners(map[], es) == owner && After(map[], es).live == live && Replayed(map[], es) == seen
  }

  lemma {:induction false} Then(es: seq<Step>, e: Step, owner: map<Sock, Pid>, live: map<Sock, Phase>, seen: seq<Runs.Step>)
    requires Stands(es, owner, live, seen) && Possible(live, e)
    ensures Stands(es + [e], OwnerAfter(owner, e), LiveAfter(live, e), seen + Seen(owner, e))
  {
    assert (es + [e])[..|es|] == es;
  }

  /** A socket of `pid` that is freed without `tcp_close`, as a UDP socket is; another opens at its address. */
  ghost predicate UdpReuse(es: seq<Step>, sk: Sock, pid: Pid) {
    |es| == 4 && es[0] == Open(sk) && es[1] == Transfer(sk, AF_INET, Task(pid, ""), 5, true, 0)
    && es[2] == Free(sk) && es[3] == Open(sk)
  }

  /** The next socket at the address inherits the owner. */
  lemma {:induction false} StaleOwner(es: seq<Step>, sk: Sock, pid: Pid)
    requires pid != 0 && UdpReuse(es, sk, pid)
    ensures Run(map[], es) && sk in Owners(map[], es)
    ensures Owners(map[], es)[sk] == pid && LastUser(es, sk) == None
  {
    var a, b, c := es[..1], es[..2], es[..3];
    assert a == [] + [es[0]] && b == a + [es[1]] && c == b + [es[2]] && es == c + [es[3]];
    var one := [Runs.Account(pid, 5, true, 0, "")];
    Then([], es[0], map[], map[], []);
    Then(a, es[1], map[], map[sk := Opened], []);
    Then(b, es[2], map[sk := pid], map[sk := Opened], one);
    Then(c, es[3], map[sk := pid], map[], one);
  }

  // ---- a retransmit that no frame reports ---------------------------------

  /** Process 1 cannot be seen in /proc; it sends once, keeps its socket open, and is reaped a pass too early. */
  ghost predicate HiddenProcess(es: seq<Step>, sk: Sock) {
    && |es| == 6 && es[0] == Polled(0, {}) && es[1] == Open(sk)
    && es[2] == Transfer(sk, AF_INET, Task(1, ""), 5, true, 0) && es[3] == Polled(REAP_IDLE_NS, {})
    && es[4] == Retransmitted(sk) && es[5] == Polled(REAP_IDLE_NS + 1, {})
  }

  lemma {:induction false} HiddenStart(es: seq<Step>, sk: Sock)
    requires |es| == 3 && es[0] == Polled(0, {}) && es[1] == Open(sk)
    requires es[2] == Transfer(sk, AF_INET, Task(1, ""), 5, true, 0)
    ensures Stands(es, map[sk := 1], map[sk := Opened], [Runs.Poll(0, {}), Runs.Account(1, 5, true, 0, "")])
  {
    var a, b := es[..1], es[..2];
    assert a == [] + [es[0]] && b == a + [es[1]] && es == b + [es[2]];
    var p := Runs.Poll(0, {});
    Then([], es[0], map[], map[], []);
    Then(a, es[1], map[], map[], [p]);
    Then(b, es[2], map[], map[sk := Opened], [p]);
  }

  lemma {:induction false} HiddenReplayed(es: seq<Step>, sk: Sock, seen: seq<Runs.Step>)
    requires HiddenProcess(es, sk)
    requires seen == [Runs.Poll(0, {}), Runs.Account(1, 5, true, 0, ""), Runs.Poll(REAP_IDLE_NS, {}),
                      Runs.Retransmit(1), Runs.Poll(REAP_IDLE_NS + 1, {})]
    ensures Stands(es, map[sk := 1], map[sk := Opened], seen)
  {
    var c, d, f := es[..3], es[..4], es[..5];
    assert d == c + [es[3]] && f == d + [es[4]] && es == f + [es[5]];
    var owner, live := map[sk := 1], map[sk := Opened];
    HiddenStart(c, sk);
    assert seen[..2] == [seen[0], seen[1]] && seen[..3] == seen[..2] + [seen[2]];
    assert seen[..4] == seen[..3] + [seen[3]] && seen == seen[..4] + [seen[4]];
    Then(c, es[3], owner, live, seen[..2]);
    Then(d, es[4], owner, live, seen[..3]);
    Then(f, es[5], owner, live, seen[..4]);
  }

  /** The hook does not stamp the row, so a retransmit of a live socket can be counted and then reaped unreported. */
  lemma {:induction false} RetransmitCanBeLost(es: seq<Step>, sk: Sock)
    requires HiddenProcess(es, sk)
    ensures Run(map[], es) && sk in After(map[], es).live
    ensures var r := Replayed(map[], es);
            && Runs.WellTimed(r, REAP_IDLE_NS) && Runs.NoWrap(r)
            && Runs.SincePriming(r, 1).retrans == 1
            && Runs.Reported(r, 1).retrans == 0 && Runs.Pending(r, 1).retrans == 0
  {
    var seen := [Runs.Poll(0, {}), Runs.Account(1, 5, true, 0, ""), Runs.Poll(REAP_IDLE_NS, {}),
                 Runs.Retransmit(1), Runs.Poll(REAP_IDLE_NS + 1, {})];
    HiddenReplayed(es, sk, seen);
    Runs.QuietRunLoses(seen);
  }
}
