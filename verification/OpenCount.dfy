/**
 The per-user counter of openat(2) on several CPUs. A call is two steps, a lookup and then an
 add or an insert that must not overwrite; the lookups of different CPUs may all come first.
 */
module OpenCount {
  import opened Options
  import opened Words

  const MAX_USERS: nat := 1024

  /** Where a CPU stands: no call, or a call whose lookup found the counter, or missed it. */
  datatype Cpu = Idle | Found(uid: nat) | Missed(uid: nat)

  datatype State = State(counts: map<nat, nat>, cpus: seq<Cpu>)

  datatype Step = Lookup(cpu: nat, uid: nat) | Finish(cpu: nat)

  predicate Possible(s: State, e: Step) {
    e.cpu < |s.cpus| && (s.cpus[e.cpu].Idle? <==> e.Lookup?)
  }

  /** The second step of a call: an add, an insert, an insert that lost the race, or a full map. */
  function Ended(counts: map<nat, nat>, c: Cpu): map<nat, nat>
    requires c.Found? ==> c.uid in counts
  {
    match c
    case Idle => counts
    case Found(uid) => counts[uid := Add64(counts[uid], 1)]
    case Missed(uid) => if uid !in counts && |counts| < MAX_USERS then counts[uid := 1] else counts
  }

  /** Nothing deletes counters, so a counter once found is still there. */
  ghost predicate PointersLive(s: State) {
    forall i :: 0 <= i < |s.cpus| && s.cpus[i].Found? ==> s.cpus[i].uid in s.counts
  }

  function Apply(s: State, e: Step): State
    requires Possible(s, e) && PointersLive(s)
  {
    match e
    case Lookup(i, uid) => s.(cpus := s.cpus[i := if uid in s.counts then Found(uid) else Missed(uid)])
    case Finish(i) => State(Ended(s.counts, s.cpus[i]), s.cpus[i := Idle])
  }

  function Start(cpus: nat): State {
    State(map[], seq(cpus, _ => Idle))
  }

  /** A run of `n` CPUs that leads to `s`. Every reachable state keeps its pointers live (see `RunInv`). */
  ghost predicate Reaches(n: nat, es: seq<Step>, s: State)
    decreases |es|
  {
    if es == [] then s == Start(n)
    else exists before :: Reaches(n, es[..|es|-1], before) && PointersLive(before)
                          && Possible(before, es[|es|-1]) && s == Apply(before, es[|es|-1])
  }

  // ---- the calls of a run, from its steps alone ---------------------------

  /** The user of the latest lookup on a CPU. */
  function LastLookup(es: seq<Step>, cpu: nat): Option<nat> {
    if es == [] then None
    else
      var e := es[|es|-1];
      if e.Lookup? && e.cpu == cpu then Some(e.uid) else LastLookup(es[..|es|-1], cpu)
  }

  /** The calls of a user that have finished. */
  function Calls(es: seq<Step>, uid: nat): nat {
    if es == [] then 0
    else
      var (before, e) := (es[..|es|-1], es[|es|-1]);
      Calls(before, uid) + if e.Finish? && LastLookup(before, e.cpu) == Some(uid) then 1 else 0
  }

  function Count(s: State, uid: nat): nat {
    if uid in s.counts then s.counts[uid] else 0
  }

  /** The CPUs whose lookup missed the counter and that are about to insert it. */
  function Waiting(cpus: seq<Cpu>, uid: nat): nat {
    if cpus == [] then 0
    else Waiting(cpus[..|cpus|-1], uid) + if cpus[|cpus|-1] == Missed(uid) then 1 else 0
  }

  lemma {:induction false} WaitingUpdate(cpus: seq<Cpu>, i: nat, c: Cpu, uid: nat)
    requires i < |cpus|
    ensures Waiting(cpus[i := c], uid) + (if cpus[i] == Missed(uid) then 1 else 0)
         == Waiting(cpus, uid) + if c == Missed(uid) then 1 else 0
  {
    if i == |cpus| - 1 {
      assert cpus[i := c][..|cpus|-1] == cpus[..|cpus|-1];
    } else {
      WaitingUpdate(cpus[..|cpus|-1], i, c, uid);
      assert cpus[i := c][..|cpus|-1] == cpus[..|cpus|-1][i := c];
    }
  }

  lemma {:induction false} WaitingAtMost(cpus: seq<Cpu>, uid: nat)
    ensures Waiting(cpus, uid) <= |cpus|
  {
    if cpus != [] {
      WaitingAtMost(cpus[..|cpus|-1], uid);
    }
  }

  /** A CPU in the middle of a call is so for the user of its latest lookup. */
  ghost predicate Looking(s: State, es: seq<Step>) {
    forall i :: 0 <= i < |s.cpus| && !s.cpus[i].Idle? ==> LastLookup(es, i) == Some(s.cpus[i].uid)
  }

  /**
   What every step keeps, for one user, on `n` CPUs and after `calls` calls: once there is a
   counter, the calls it misses and the inserts still to come are fewer than the CPUs.
   */
  ghost predicate Inv(s: State, n: nat, uid: nat, calls: nat) {
    && |s.cpus| == n && PointersLive(s) && |s.counts| <= MAX_USERS
    && Count(s, uid) <= calls
    && (uid in s.counts && calls < U64 ==> calls - Count(s, uid) + Waiting(s.cpus, uid) < n)
    && (uid !in s.counts && calls > 0 ==> |s.counts| == MAX_USERS)
  }

  lemma {:induction false} StepInv(s: State, e: Step, n: nat, uid: nat, calls: nat)
    requires Inv(s, n, uid, calls) && Possible(s, e)
    ensures Inv(Apply(s, e), n, uid, calls + if e.Finish? && s.cpus[e.cpu].uid == uid then 1 else 0)
  {
    var s' := Apply(s, e);
    WaitingUpdate(s.cpus, e.cpu, s'.cpus[e.cpu], uid);
    WaitingAtMost(s.cpus, uid);
  }

  lemma {:induction false} StartWaiting(n: nat, uid: nat)
    ensures Waiting(Start(n).cpus, uid) == 0
  {
    if n > 0 {
      StartWaiting(n - 1, uid);
      assert Start(n).cpus[..n-1] == Start(n - 1).cpus;
    }
  }

  lemma {:induction false} RunInv(n: nat, es: seq<Step>, s: State, uid: nat)
    requires Reaches(n, es, s)
    ensures Inv(s, n, uid, Calls(es, uid)) && Looking(s, es)
    decreases |es|
  {
    if es == [] {
      StartWaiting(n, uid);
    } else {
      var before :| Reaches(n, es[..|es|-1], before) && PointersLive(before)
                    && Possible(before, es[|es|-1]) && s == Apply(before, es[|es|-1]);
      RunInv(n, es[..|es|-1], before, uid);
      StepInv(before, es[|es|-1], n, uid, Calls(es[..|es|-1], uid));
    }
  }

  /**
   In every interleaving on `n` CPUs the stored count never exceeds the calls finished; a user
   that has a counter lacks at most n-1 of them, however long the run, and so none on one CPU;
   and a user with calls but no counter found the map full.
   */
  lemma {:induction false} BoundedLoss(n: nat, es: seq<Step>, s: State, uid: nat)
    requires n > 0 && Reaches(n, es, s)
    ensures Count(s, uid) <= Calls(es, uid)
    ensures uid in s.counts && Calls(es, uid) < U64 ==> Calls(es, uid) - (n - 1) <= Count(s, uid)
    ensures uid !in s.counts && Calls(es, uid) > 0 ==> |s.counts| == 1024
  {
    RunInv(n, es, s, uid);
  }

  // ---- the bound is attained ----------------------------------------------

  function Lookups(k: nat, uid: nat): seq<Step> {
    if k == 0 then [] else Lookups(k - 1, uid) + [Lookup(k - 1, uid)]
  }

  /** All `n` CPUs look the user up, and then all of them go on. */
  function Race(n: nat, k: nat, uid: nat): seq<Step> {
    if k == 0 then Lookups(n, uid) else Race(n, k - 1, uid) + [Finish(k - 1)]
  }

  function Racing(n: nat, k: nat, uid: nat): State
    requires k <= n
  {
    Start(n).(cpus := seq(n, i => if i < k then Missed(uid) else Idle))
  }

  function Raced(n: nat, k: nat, uid: nat): State
    requires 0 < k <= n
  {
    State(map[uid := 1], seq(n, i => if i < k then Idle else Missed(uid)))
  }

  lemma {:induction false} OneMore(n: nat, es: seq<Step>, before: State, e: Step)
    requires Reaches(n, es, before) && PointersLive(before) && Possible(before, e)
    ensures Reaches(n, es + [e], Apply(before, e))
  {
    assert (es + [e])[..|es|] == es;
  }

  lemma {:induction false} NextLookup(n: nat, k: nat, uid: nat)
    requires k < n
    ensures Racing(n, k + 1, uid) == Apply(Racing(n, k, uid), Lookup(k, uid))
  {
    assert Racing(n, k + 1, uid).cpus == Apply(Racing(n, k, uid), Lookup(k, uid)).cpus;
  }

  lemma {:induction false} LookupsReach(n: nat, k: nat, uid: nat)
    requires k <= n
    ensures Reaches(n, Lookups(k, uid), Racing(n, k, uid))
  {
    if k > 0 {
      LookupsReach(n, k - 1, uid);
      NextLookup(n, k - 1, uid);
      OneMore(n, Lookups(k - 1, uid), Racing(n, k - 1, uid), Lookup(k - 1, uid));
    } else {
      assert Racing(n, 0, uid) == Start(n);
    }
  }

  lemma {:induction false} FirstFinish(n: nat, uid: nat)
    requires n > 0
    ensures Raced(n, 1, uid) == Apply(Racing(n, n, uid), Finish(0))
  {
    var s := Apply(Racing(n, n, uid), Finish(0));
    assert s.cpus == Raced(n, 1, uid).cpus;
  }

  lemma {:induction false} NextFinish(n: nat, k: nat, uid: nat)
    requires 0 < k < n
    ensures Raced(n, k + 1, uid) == Apply(Raced(n, k, uid), Finish(k))
  {
    var s := Apply(Raced(n, k, uid), Finish(k));
    assert s.cpus == Raced(n, k + 1, uid).cpus;
  }

  lemma {:induction false} RaceReaches(n: nat, k: nat, uid: nat)
    requires 0 < k <= n
    ensures Reaches(n, Race(n, k, uid), Raced(n, k, uid))
  {
    if k == 1 {
      LookupsReach(n, n, uid);
      FirstFinish(n, uid);
      OneMore(n, Race(n, 0, uid), Racing(n, n, uid), Finish(0));
    } else {
      RaceReaches(n, k - 1, uid);
      NextFinish(n, k - 1, uid);
      OneMore(n, Race(n, k - 1, uid), Raced(n, k - 1, uid), Finish(k - 1));
    }
  }

  lemma {:induction false} LookupsLook(k: nat, uid: nat, cpu: nat)
    ensures Calls(Lookups(k, uid), uid) == 0
    ensures cpu < k ==> LastLookup(Lookups(k, uid), cpu) == Some(uid)
  {
    if k > 0 {
      LookupsLook(k - 1, uid, cpu);
      assert Lookups(k, uid)[..|Lookups(k, uid)|-1] == Lookups(k - 1, uid);
    }
  }

  lemma {:induction false} RaceLooks(n: nat, k: nat, uid: nat, cpu: nat)
    requires cpu < n
    ensures LastLookup(Race(n, k, uid), cpu) == Some(uid)
  {
    if k == 0 {
      LookupsLook(n, uid, cpu);
    } else {
      RaceLooks(n, k - 1, uid, cpu);
      assert Race(n, k, uid)[..|Race(n, k, uid)|-1] == Race(n, k - 1, uid);
    }
  }

  lemma {:induction false} RaceCalls(n: nat, k: nat, uid: nat)
    requires k <= n
    ensures Calls(Race(n, k, uid), uid) == k
  {
    if k == 0 {
      LookupsLook(n, uid, 0);
    } else {
      RaceCalls(n, k - 1, uid);
      RaceLooks(n, k - 1, uid, k - 1);
      assert Race(n, k, uid)[..|Race(n, k, uid)|-1] == Race(n, k - 1, uid);
    }
  }

  /** On any number of CPUs some run does lose n-1 calls: all but one of n first calls. */
  lemma {:induction false} LossIsAttained(n: nat, uid: nat)
    requires n > 0
    ensures exists es, s :: Reaches(n, es, s) && Calls(es, uid) == n && Count(s, uid) == 1
  {
    RaceReaches(n, n, uid);
    RaceCalls(n, n, uid);
    var es, s := Race(n, n, uid), Raced(n, n, uid);
    assert Reaches(n, es, s) && Calls(es, uid) == n && Count(s, uid) == 1;
  }

  // ---- one call, undisturbed ----------------------------------------------

  class Counter {
    var counts: map<nat, nat>

    constructor ()
      ensures counts == map[]
    {
      counts := map[];
    }

    /** A call that nothing interrupts counts once, unless the map is full; and it is its two steps in a row. */
    method CountOpen(uid: nat, ghost s: State, ghost cpu: nat)
      requires Possible(s, Lookup(cpu, uid)) && PointersLive(s) && s.counts == counts
      modifies this
      ensures var s1 := Apply(s, Lookup(cpu, uid));
              && PointersLive(s1)
              && var s2 := Apply(s1, Finish(cpu));
                 counts == s2.counts && s2.cpus == s.cpus
      ensures uid in old(counts) && old(counts)[uid] + 1 < U64 ==> counts == old(counts)[uid := old(counts)[uid] + 1]
      ensures uid !in old(counts) && |old(counts)| < 1024 ==> counts == old(counts)[uid := 1]
      ensures uid !in old(counts) && |old(counts)| >= 1024 ==> counts == old(counts)
    {
      if uid in counts {
        counts := counts[uid := Add64(counts[uid], 1)];
      } else {
        if |counts| < MAX_USERS {
          counts := counts[uid := 1];
        }
      }
      assert s.cpus[cpu := if uid in s.counts then Found(uid) else Missed(uid)][cpu := Idle] == s.cpus;
    }
  }
}
