/**
 nettop: the per-process totals that the kernel hooks bump and the poller samples.

 This module holds the vocabulary shared by the poller, the hooks and the theorems about
 whole runs: the rows of `proc_stats_map`, the previous-sample baselines, and, as functions
 on values, what one `account` call and one sampling pass do.
 */
module NettopModel {
  import opened Words

  const MAX_PROCS: nat := 4096
  const MAX_ROWS: nat := 4096
  const REAP_IDLE_NS: nat := 60_000_000_000

  type Pid = nat

  /** One row of `proc_stats_map`. */
  datatype Stats = Stats(tx: nat, rx: nat, txCalls: nat, rxCalls: nat, retrans: nat, lastNs: nat, comm: string)

  /** The totals a row had at the previous sample. */
  datatype Base = Base(tx: nat, rx: nat, retrans: nat)

  /** What a row gained since the previous sample. */
  datatype Delta = Delta(tx: nat, rx: nat, retrans: nat)

  function ZeroBase(): Base {
    Base(0, 0, 0)
  }

  function ZeroDelta(): Delta {
    Delta(0, 0, 0)
  }

  /** A frame lists the rows that changed; an absent pid gained nothing. */
  type Frame = map<Pid, Delta>

  // ---- the kernel side ----------------------------------------------------

  function NewStats(comm: string): Stats {
    Stats(0, 0, 0, 0, 0, 0, comm)
  }

  function Bump(s: Stats, bytes: nat, isTx: bool, now: nat): Stats {
    if isTx then s.(tx := Add64(s.tx, bytes), txCalls := Add64(s.txCalls, 1), lastNs := now)
    else s.(rx := Add64(s.rx, bytes), rxCalls := Add64(s.rxCalls, 1), lastNs := now)
  }

  /** `account` drops its sample exactly when the row is missing and the map is full. */
  predicate Accepts(rows: map<Pid, Stats>, pid: Pid) {
    pid != 0 && (pid in rows || |rows| < MAX_PROCS)
  }

  function AccountRow(rows: map<Pid, Stats>, pid: Pid, bytes: nat, isTx: bool, now: nat, comm: string): map<Pid, Stats> {
    if !Accepts(rows, pid) then rows
    else
      var s := if pid in rows then rows[pid] else NewStats(comm);
      rows[pid := Bump(s, bytes, isTx, now)]
  }

  /** The retransmit hook touches an existing row only, and does not stamp `lastNs`. */
  function RetransmitRow(rows: map<Pid, Stats>, pid: Pid): map<Pid, Stats> {
    if pid in rows then rows[pid := rows[pid].(retrans := Add64(rows[pid].retrans, 1))] else rows
  }

  // ---- the poller ---------------------------------------------------------

  function BaseOf(s: Stats): Base {
    Base(s.tx, s.rx, s.retrans)
  }

  function Idle(now: nat, lastNs: nat): nat {
    if now > lastNs then now - lastNs else 0
  }

  predicate Reapable(s: Stats, alive: bool, now: nat) {
    !alive && Idle(now, s.lastNs) > REAP_IDLE_NS
  }

  function Gain(now: nat, before: nat): nat {
    if now >= before then now - before else 0
  }

  function DeltaFrom(cur: Base, base: Base): Delta {
    Delta(Gain(cur.tx, base.tx), Gain(cur.rx, base.rx), Gain(cur.retrans, base.retrans))
  }

  function BaseFor(prev: map<Pid, Base>, p: Pid): Base {
    if p in prev then prev[p] else ZeroBase()
  }

  function DeltaIn(frame: Frame, p: Pid): Delta {
    if p in frame then frame[p] else ZeroDelta()
  }

  function Survivors(rows: map<Pid, Stats>, alive: set<Pid>, now: nat): map<Pid, Stats> {
    map p | p in rows && !Reapable(rows[p], p in alive, now) :: rows[p]
  }

  /** A row is listed when it changed; a first sighting on the priming pass only sets its baseline. */
  predicate Listed(s: Stats, prev: map<Pid, Base>, p: Pid, priming: bool) {
    (p in prev || !priming) && DeltaFrom(BaseOf(s), BaseFor(prev, p)) != ZeroDelta()
  }

  function FrameOf(rows: map<Pid, Stats>, prev: map<Pid, Base>, priming: bool): Frame {
    map p | p in rows && Listed(rows[p], prev, p, priming) :: DeltaFrom(BaseOf(rows[p]), BaseFor(prev, p))
  }

  function Baselines(rows: map<Pid, Stats>): map<Pid, Base> {
    map p | p in rows :: BaseOf(rows[p])
  }
}
