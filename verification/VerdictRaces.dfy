/**
 The verdict cache in every interleaving: many `verify_file` calls, policy changes, epoch bumps
 and evictions, each call advancing by one read or one write at a time.
 */
module VerdictRaces {
  import opened Options
  import opened VerdictCache

  /** The next operation of a call, or how it ended. */
  datatype Pc =
    | ReadEpoch
    | ReadCache
    | ReadContent
    | LookupKey
    | CheckSignature
    | CreateEntry
    | WriteApproved
    | WriteEpoch
    | Ended(answer: Answer)

  datatype Call = Call(ino: Inode, epoch: nat, pc: Pc)

  /**
   All policies so far, the latest in force; `bumpedAt[k]`, the number of the policy in force
   at the bump to epoch k+1; the cache; and the calls.
   */
  datatype World = World(policies: seq<Policy>, bumpedAt: seq<nat>, cache: map<Inode, Verdict>, calls: seq<Call>)

  /** `stored` says whether inode storage could be had; it matters to one operation only. */
  datatype Step =
    | Begin(ino: Inode)
    | Advance(i: nat, stored: bool)
    | Change(policy: Policy)
    | Bump
    | Evict(ino: Inode)

  predicate Possible(w: World, e: Step) {
    e.Advance? ==> e.i < |w.calls| && !w.calls[e.i].pc.Ended?
  }

  function Current(w: World): Policy
    requires w.policies != []
  {
    w.policies[|w.policies|-1]
  }

  /** One operation of `c`: the cache after it, and the call. */
  function Operate(disk: Inode -> File, w: World, c: Call, stored: bool): (map<Inode, Verdict>, Call)
    requires w.policies != []
  {
    var cache := w.cache;
    match c.pc
    case ReadEpoch => (cache, c.(epoch := EpochOf(|w.bumpedAt|), pc := ReadCache))
    case ReadCache =>
      var hit := c.ino in cache && cache[c.ino].approved && cache[c.ino].epoch == c.epoch;
      (cache, c.(pc := if hit then Ended(Allow) else ReadContent))
    case ReadContent =>
      var readable := disk(c.ino).digest.Some? && disk(c.ino).sig.Some?;
      (cache, c.(pc := if readable then LookupKey else Ended(Deny)))
    case LookupKey => (cache, c.(pc := if Current(w).key then CheckSignature else Ended(Deny)))
    case CheckSignature => (cache, c.(pc := if Trusts(Current(w), disk(c.ino)) then CreateEntry else Ended(Deny)))
    case CreateEntry =>
      if !stored then (cache, c.(pc := Ended(Allow)))
      else (if c.ino in cache then cache else cache[c.ino := Verdict(true, c.epoch)], c.(pc := WriteApproved))
    case WriteApproved =>
      (if c.ino in cache then cache[c.ino := cache[c.ino].(approved := true)] else cache, c.(pc := WriteEpoch))
    case WriteEpoch =>
      (if c.ino in cache then cache[c.ino := cache[c.ino].(epoch := c.epoch)] else cache, c.(pc := Ended(Allow)))
    case Ended(_) => (cache, c)
  }

  function Apply(disk: Inode -> File, w: World, e: Step): World
    requires w.policies != [] && Possible(w, e)
  {
    match e
    case Begin(ino) => w.(calls := w.calls + [Call(ino, 0, ReadEpoch)])
    case Advance(i, stored) =>
      var (cache, c) := Operate(disk, w, w.calls[i], stored);
      w.(cache := cache, calls := w.calls[i := c])
    case Change(p) => w.(policies := w.policies + [p])
    case Bump => w.(bumpedAt := w.bumpedAt + [|w.policies| - 1])
    case Evict(ino) => w.(cache := w.cache - {ino})
  }

  /** The world after `es`, if each step was possible when taken. */
  function Replay(disk: Inode -> File, p0: Policy, es: seq<Step>): (r: Option<World>)
    ensures r.Some? ==> r.value.policies != []
  {
    if es == [] then Some(World([p0], [], map[], []))
    else
      var before := Replay(disk, p0, es[..|es|-1]);
      if before.Some? && Possible(before.value, es[|es|-1])
      then Some(Apply(disk, before.value, es[|es|-1])) else None
  }

  // ---- what a stamp vouches for -------------------------------------------

  /** The number of the policy in force at the bump to epoch `e`; epoch 0 began with the first. */
  function PolicyAt(bumpedAt: seq<nat>, e: nat): nat
    requires e <= |bumpedAt|
  {
    if e == 0 then 0 else bumpedAt[e - 1]
  }

  /** Some policy from number `r` on has the key, and that one or a later one verifies the file. */
  ghost predicate Granted(disk: Inode -> File, policies: seq<Policy>, r: nat, ino: Inode) {
    var f := disk(ino);
    f.digest.Some? && f.sig.Some? &&
    exists v1, v2 :: r <= v1 <= v2 < |policies| && policies[v1].key && policies[v2].verifies(f.digest.value, f.sig.value)
  }

  ghost predicate Keyed(policies: seq<Policy>, r: nat) {
    exists v1 :: r <= v1 < |policies| && policies[v1].key
  }

  /** The two lookups behind an approval were granted by policies no older than the one at the bump to `e`. */
  ghost predicate Vouched(disk: Inode -> File, policies: seq<Policy>, bumpedAt: seq<nat>, ino: Inode, e: nat) {
    e <= |bumpedAt| && Granted(disk, policies, PolicyAt(bumpedAt, e), ino)
  }

  ghost predicate Ordered(policies: seq<Policy>, bumpedAt: seq<nat>) {
    && policies != []
    && (forall k :: 0 <= k < |bumpedAt| ==> bumpedAt[k] < |policies|)
    && (forall j, k :: 0 <= j < k < |bumpedAt| ==> bumpedAt[j] <= bumpedAt[k])
  }

  ghost predicate CallSound(disk: Inode -> File, policies: seq<Policy>, bumpedAt: seq<nat>, c: Call) {
    match c.pc
    case ReadEpoch => true
    case CheckSignature => c.epoch <= |bumpedAt| && Keyed(policies, PolicyAt(bumpedAt, c.epoch))
    case CreateEntry => Vouched(disk, policies, bumpedAt, c.ino, c.epoch)
    case WriteApproved => Vouched(disk, policies, bumpedAt, c.ino, c.epoch)
    case WriteEpoch => Vouched(disk, policies, bumpedAt, c.ino, c.epoch)
    case Ended(a) => a == Allow ==> Vouched(disk, policies, bumpedAt, c.ino, c.epoch)
    case _ => c.epoch <= |bumpedAt|
  }

  ghost predicate Inv(disk: Inode -> File, w: World) {
    && Ordered(w.policies, w.bumpedAt)
    && (forall ino :: ino in w.cache ==>
          w.cache[ino].approved && Vouched(disk, w.policies, w.bumpedAt, ino, w.cache[ino].epoch))
    && (forall i :: 0 <= i < |w.calls| ==> CallSound(disk, w.policies, w.bumpedAt, w.calls[i]))
  }

  /** Policies and bumps only accumulate, so what was vouched for stays so. */
  lemma VouchedStays(disk: Inode -> File, ps: seq<Policy>, bs: seq<nat>, ps': seq<Policy>, bs': seq<nat>, ino: Inode, e: nat)
    requires Vouched(disk, ps, bs, ino, e) && ps <= ps' && bs <= bs'
    ensures Vouched(disk, ps', bs', ino, e)
  {
    var v1, v2 :| PolicyAt(bs, e) <= v1 <= v2 < |ps| && ps[v1].key && Trusts(ps[v2], disk(ino));
    assert PolicyAt(bs', e) == PolicyAt(bs, e) && ps'[v1] == ps[v1] && ps'[v2] == ps[v2];
  }

  lemma KeyedStays(ps: seq<Policy>, bs: seq<nat>, ps': seq<Policy>, bs': seq<nat>, e: nat)
    requires e <= |bs| && Keyed(ps, PolicyAt(bs, e)) && ps <= ps' && bs <= bs'
    ensures Keyed(ps', PolicyAt(bs', e))
  {
    var v1 :| PolicyAt(bs, e) <= v1 < |ps| && ps[v1].key;
    assert PolicyAt(bs', e) == PolicyAt(bs, e) && ps'[v1] == ps[v1];
  }

  /** A key looked up after the epoch was read is that of a policy at least as new as that epoch's. */
  lemma LookupKeys(w: World, e: nat)
    requires Ordered(w.policies, w.bumpedAt) && e <= |w.bumpedAt| && Current(w).key
    ensures Keyed(w.policies, PolicyAt(w.bumpedAt, e))
  {
    assert PolicyAt(w.bumpedAt, e) <= |w.policies| - 1;
  }

  /** A signature check comes after the key was looked up, under the same policy or a later one. */
  lemma CheckVouches(disk: Inode -> File, w: World, ino: Inode, e: nat)
    requires Ordered(w.policies, w.bumpedAt) && e <= |w.bumpedAt| && Trusts(Current(w), disk(ino))
    requires Keyed(w.policies, PolicyAt(w.bumpedAt, e))
    ensures Vouched(disk, w.policies, w.bumpedAt, ino, e)
  {
    var v1 :| PolicyAt(w.bumpedAt, e) <= v1 < |w.policies| && w.policies[v1].key;
    assert v1 <= |w.policies| - 1 && Trusts(w.policies[|w.policies|-1], disk(ino));
  }

  lemma OperateCall(disk: Inode -> File, w: World, c: Call, stored: bool)
    requires Inv(disk, w) && |w.bumpedAt| < EPOCHS && CallSound(disk, w.policies, w.bumpedAt, c)
    ensures CallSound(disk, w.policies, w.bumpedAt, Operate(disk, w, c, stored).1)
  {
    if c.pc == LookupKey && Current(w).key {
      LookupKeys(w, c.epoch);
    }
    if c.pc == CheckSignature && Trusts(Current(w), disk(c.ino)) {
      CheckVouches(disk, w, c.ino, c.epoch);
    }
  }

  lemma OperateCache(disk: Inode -> File, w: World, c: Call, stored: bool)
    requires Inv(disk, w) && CallSound(disk, w.policies, w.bumpedAt, c)
    ensures forall ino :: ino in Operate(disk, w, c, stored).0 ==>
              var v := Operate(disk, w, c, stored).0[ino];
              v.approved && Vouched(disk, w.policies, w.bumpedAt, ino, v.epoch)
  {
  }

  lemma OperateSound(disk: Inode -> File, w: World, i: nat, stored: bool)
    requires Inv(disk, w) && |w.bumpedAt| < EPOCHS && Possible(w, Advance(i, stored))
    ensures Inv(disk, Apply(disk, w, Advance(i, stored)))
  {
    assert CallSound(disk, w.policies, w.bumpedAt, w.calls[i]);
    OperateCall(disk, w, w.calls[i], stored);
    OperateCache(disk, w, w.calls[i], stored);
  }

  lemma CallStays(disk: Inode -> File, ps: seq<Policy>, bs: seq<nat>, ps': seq<Policy>, bs': seq<nat>, c: Call)
    requires CallSound(disk, ps, bs, c) && ps <= ps' && bs <= bs'
    ensures CallSound(disk, ps', bs', c)
  {
    if c.pc == CheckSignature {
      KeyedStays(ps, bs, ps', bs', c.epoch);
    } else if Vouched(disk, ps, bs, c.ino, c.epoch) {
      VouchedStays(disk, ps, bs, ps', bs', c.ino, c.epoch);
    }
  }

  lemma OtherStepSound(disk: Inode -> File, w: World, e: Step)
    requires Inv(disk, w) && !e.Advance?
    ensures Inv(disk, Apply(disk, w, e))
  {
    var w' := Apply(disk, w, e);
    forall ino | ino in w'.cache
      ensures Vouched(disk, w'.policies, w'.bumpedAt, ino, w'.cache[ino].epoch)
    {
      VouchedStays(disk, w.policies, w.bumpedAt, w'.policies, w'.bumpedAt, ino, w.cache[ino].epoch);
    }
    forall i | 0 <= i < |w'.calls|
      ensures CallSound(disk, w'.policies, w'.bumpedAt, w'.calls[i])
    {
      if i < |w.calls| {
        CallStays(disk, w.policies, w.bumpedAt, w'.policies, w'.bumpedAt, w.calls[i]);
      }
    }
  }

  lemma {:induction false} RunSound(disk: Inode -> File, p0: Policy, es: seq<Step>)
    requires Replay(disk, p0, es).Some? && |Replay(disk, p0, es).value.bumpedAt| < EPOCHS
    ensures Inv(disk, Replay(disk, p0, es).value)
  {
    if es != [] {
      var e := es[|es|-1];
      RunSound(disk, p0, es[..|es|-1]);
      var w := Replay(disk, p0, es[..|es|-1]).value;
      if e.Advance? {
        OperateSound(disk, w, e.i, e.stored);
      } else {
        OtherStepSound(disk, w, e);
      }
    }
  }

  /**
   Every stamp in the cache and every call let through is vouched for: of the policies no older
   than the one in force at the bump to that epoch, one had the key and it or a later one
   trusted the file.
   */
  lemma StampsAreVouched(disk: Inode -> File, p0: Policy, es: seq<Step>, w: World)
    requires Replay(disk, p0, es) == Some(w) && |w.bumpedAt| < EPOCHS
    ensures forall ino :: ino in w.cache ==> Vouched(disk, w.policies, w.bumpedAt, ino, w.cache[ino].epoch)
    ensures forall i :: 0 <= i < |w.calls| && w.calls[i].pc == Ended(Allow) ==>
              Vouched(disk, w.policies, w.bumpedAt, w.calls[i].ino, w.calls[i].epoch)
  {
    RunSound(disk, p0, es);
    forall i | 0 <= i < |w.calls| && w.calls[i].pc == Ended(Allow)
      ensures Vouched(disk, w.policies, w.bumpedAt, w.calls[i].ino, w.calls[i].epoch)
    {
      assert CallSound(disk, w.policies, w.bumpedAt, w.calls[i]);
    }
  }

  // ---- revocation ---------------------------------------------------------

  /** Call `i` read its epoch after a bump made under policy number `r` or a later one. */
  ghost predicate ReadAfter(w: World, i: nat, r: nat) {
    && i < |w.calls| && w.calls[i].pc.Ended?
    && exists e :: 1 <= e <= |w.bumpedAt| && e <= w.calls[i].epoch && PolicyAt(w.bumpedAt, e) >= r
  }

  lemma {:induction false} AdmittedIsGranted(disk: Inode -> File, p0: Policy, es: seq<Step>, w: World, r: nat, i: nat)
    requires Replay(disk, p0, es) == Some(w) && |w.bumpedAt| < EPOCHS
    requires ReadAfter(w, i, r) && w.calls[i].pc == Ended(Allow)
    ensures Granted(disk, w.policies, r, w.calls[i].ino)
  {
    RunSound(disk, p0, es);
    var c := w.calls[i];
    assert CallSound(disk, w.policies, w.bumpedAt, c);
    var e :| 1 <= e <= |w.bumpedAt| && e <= c.epoch && PolicyAt(w.bumpedAt, e) >= r;
    assert PolicyAt(w.bumpedAt, e) <= PolicyAt(w.bumpedAt, c.epoch);
    var v1, v2 :| PolicyAt(w.bumpedAt, c.epoch) <= v1 <= v2 < |w.policies|
                  && w.policies[v1].key && Trusts(w.policies[v2], disk(c.ino));
    assert r <= v1;
  }

  /**
   Revocation: once the key is gone from policy number `r` on, or the file is trusted by none
   from `r` on, no call that read its epoch after a bump under `r` or later lets the file
   through, however calls, writes to the cache and policy changes interleave.
   */
  lemma {:induction false} RevokedIsDenied(disk: Inode -> File, p0: Policy, es: seq<Step>, w: World, r: nat, i: nat)
    requires Replay(disk, p0, es) == Some(w) && |w.bumpedAt| < EPOCHS && ReadAfter(w, i, r)
    requires || (forall v :: r <= v < |w.policies| ==> !w.policies[v].key)
             || (var f := disk(w.calls[i].ino);
                 f.digest.None? || f.sig.None? ||
                 forall v :: r <= v < |w.policies| ==> !w.policies[v].verifies(f.digest.value, f.sig.value))
    ensures w.calls[i].pc == Ended(Deny)
  {
    var c := w.calls[i];
    assert c.pc == Ended(Allow) ==> Granted(disk, w.policies, r, c.ino) by {
      if c.pc == Ended(Allow) {
        AdmittedIsGranted(disk, p0, es, w, r, i);
      }
    }
    assert c.pc.answer == Allow || c.pc.answer == Deny;
  }

  // ---- exactly which policies can let a file through ----------------------

  lemma {:induction false} Then(disk: Inode -> File, p0: Policy, es: seq<Step>, w: World, e: Step)
    requires Replay(disk, p0, es) == Some(w) && Possible(w, e)
    ensures Replay(disk, p0, es + [e]) == Some(Apply(disk, w, e))
  {
    assert (es + [e])[..|es|] == es;
  }

  lemma {:induction false} ThenAdvance(disk: Inode -> File, p0: Policy, es: seq<Step>, w: World, c: Call)
      returns (es': seq<Step>, w': World)
    requires Replay(disk, p0, es) == Some(w) && w.calls == [c] && !c.pc.Ended?
    ensures es' == es + [Advance(0, false)] && Replay(disk, p0, es') == Some(w')
    ensures w.policies != [] && w' == w.(cache := w'.cache, calls := [Operate(disk, w, c, false).1])
    ensures w'.cache == Operate(disk, w, c, false).0
  {
    Then(disk, p0, es, w, Advance(0, false));
    es', w' := es + [Advance(0, false)], Apply(disk, w, Advance(0, false));
    assert w'.calls == [Operate(disk, w, c, false).1];
  }

  lemma {:induction false} ThenChanges(disk: Inode -> File, ps: seq<Policy>, es: seq<Step>, w: World, from: nat, n: nat)
      returns (es': seq<Step>, w': World)
    requires 0 < from <= n <= |ps| && Replay(disk, ps[0], es) == Some(w) && w.policies == ps[..from]
    ensures Replay(disk, ps[0], es') == Some(w') && w' == w.(policies := ps[..n])
    decreases n
  {
    es', w' := es, w;
    if from < n {
      es', w' := ThenChanges(disk, ps, es, w, from, n - 1);
      var e := Step.Change(ps[n - 1]);
      Then(disk, ps[0], es', w', e);
      es', w' := es' + [e], Apply(disk, w', e);
      assert ps[..n - 1] + [ps[n - 1]] == ps[..n];
    }
  }

  lemma {:induction false} ThenCall(disk: Inode -> File, p0: Policy, es: seq<Step>, w: World, ino: Inode)
      returns (es': seq<Step>, w': World)
    requires Replay(disk, p0, es) == Some(w) && w.policies != [] && w.bumpedAt == [] && w.calls == []
    ensures es' == es + [Step.Bump, Begin(ino)] && Replay(disk, p0, es') == Some(w')
    ensures w' == w.(bumpedAt := [|w.policies| - 1], calls := [Call(ino, 0, ReadEpoch)])
  {
    Then(disk, p0, es, w, Step.Bump);
    w' := Apply(disk, w, Step.Bump);
    assert w'.bumpedAt == [|w.policies| - 1];
    Then(disk, p0, es + [Step.Bump], w', Begin(ino));
    es', w' := es + [Step.Bump, Begin(ino)], Apply(disk, w', Begin(ino));
    assert w'.calls == [Call(ino, 0, ReadEpoch)];
    assert es' == es + [Step.Bump] + [Begin(ino)];
  }

  /** The first three operations of a call whose inode has no entry and whose file can be read. */
  lemma {:induction false} ThenMiss(disk: Inode -> File, p0: Policy, es: seq<Step>, w: World, ino: Inode)
      returns (es': seq<Step>, w': World)
    requires Replay(disk, p0, es) == Some(w) && w.calls == [Call(ino, 0, ReadEpoch)] && |w.bumpedAt| == 1 && w.cache == map[]
    requires disk(ino).digest.Some? && disk(ino).sig.Some?
    ensures es' == es + [Advance(0, false), Advance(0, false), Advance(0, false)] && Replay(disk, p0, es') == Some(w')
    ensures w' == w.(calls := [Call(ino, 1, LookupKey)])
  {
    es', w' := ThenAdvance(disk, p0, es, w, Call(ino, 0, ReadEpoch));
    es', w' := ThenAdvance(disk, p0, es', w', Call(ino, 1, ReadCache));
    es', w' := ThenAdvance(disk, p0, es', w', Call(ino, 1, ReadContent));
  }

  lemma {:induction false} ThenGranted(disk: Inode -> File, ps: seq<Policy>, es: seq<Step>, w: World, r: nat, v1: nat, v2: nat, ino: Inode)
      returns (es': seq<Step>, w': World)
    requires r <= v1 <= v2 < |ps| && ps[v1].key && Trusts(ps[v2], disk(ino))
    requires Replay(disk, ps[0], es) == Some(w) && w == World(ps[..r + 1], [r], map[], [Call(ino, 1, LookupKey)])
    ensures Replay(disk, ps[0], es') == Some(w')
    ensures w' == World(ps[..v2 + 1], [r], map[], [Call(ino, 1, Ended(Allow))])
  {
    es', w' := ThenChanges(disk, ps, es, w, r + 1, v1 + 1);
    assert Current(w') == ps[v1];
    es', w' := ThenAdvance(disk, ps[0], es', w', Call(ino, 1, LookupKey));
    es', w' := ThenChanges(disk, ps, es', w', v1 + 1, v2 + 1);
    assert Current(w') == ps[v2];
    es', w' := ThenAdvance(disk, ps[0], es', w', Call(ino, 1, CheckSignature));
    es', w' := ThenAdvance(disk, ps[0], es', w', Call(ino, 1, CreateEntry));
  }

  /** A call that reads its epoch after the bump, then looks up the key under `v1` and checks under `v2`. */
  lemma {:induction false} GrantedRun(disk: Inode -> File, ps: seq<Policy>, r: nat, v1: nat, v2: nat, ino: Inode)
      returns (es: seq<Step>, w: World)
    requires r <= v1 <= v2 < |ps| && ps[v1].key && Trusts(ps[v2], disk(ino))
    ensures Replay(disk, ps[0], es) == Some(w)
    ensures w == World(ps, [r], map[], [Call(ino, 1, Ended(Allow))])
  {
    es, w := [], World([ps[0]], [], map[], []);
    es, w := ThenChanges(disk, ps, es, w, 1, r + 1);
    es, w := ThenCall(disk, ps[0], es, w, ino);
    es, w := ThenMiss(disk, ps[0], es, w, ino);
    es, w := ThenGranted(disk, ps, es, w, r, v1, v2, ino);
    es, w := ThenChanges(disk, ps, es, w, v2 + 1, |ps|);
    assert ps[..|ps|] == ps;
  }

  /** A run through the policies `ps` in which a call, its epoch read after a bump under `r` or later, is let through. */
  ghost predicate Admits(disk: Inode -> File, ps: seq<Policy>, r: nat, ino: Inode, es: seq<Step>, w: World, i: nat)
    requires ps != []
  {
    && Replay(disk, ps[0], es) == Some(w) && w.policies == ps && |w.bumpedAt| < EPOCHS
    && ReadAfter(w, i, r) && w.calls[i].ino == ino && w.calls[i].pc == Ended(Allow)
  }

  /**
   Some interleaving lets a file through after the bump, exactly when some policy from `r` on
   has the key and that one or a later one trusts the file.
   */
  lemma {:induction false} AdmittedExactlyWhen(disk: Inode -> File, ps: seq<Policy>, r: nat, ino: Inode)
    requires r < |ps|
    ensures (exists es, w, i :: Admits(disk, ps, r, ino, es, w, i)) <==> Granted(disk, ps, r, ino)
  {
    if exists es, w, i :: Admits(disk, ps, r, ino, es, w, i) {
      var es, w, i :| Admits(disk, ps, r, ino, es, w, i);
      AdmittedIsGranted(disk, ps[0], es, w, r, i);
    }
    if Granted(disk, ps, r, ino) {
      var v1, v2 :| r <= v1 <= v2 < |ps| && ps[v1].key && Trusts(ps[v2], disk(ino));
      var es, w := GrantedRun(disk, ps, r, v1, v2, ino);
      assert PolicyAt(w.bumpedAt, 1) == r;
      assert Admits(disk, ps, r, ino, es, w, 0);
    }
  }

  /** Two policies that each reject a file, one for want of trust and the other of the key, can let it through between them. */
  lemma {:induction false} MixedRejection(disk: Inode -> File, pA: Policy, pB: Policy, ino: Inode, es: seq<Step>)
    requires pA.key && !Trusts(pA, disk(ino)) && Trusts(pB, disk(ino)) && !pB.key
    requires es == [Step.Bump, Begin(ino), Advance(0, false), Advance(0, false), Advance(0, false), Advance(0, false),
                    Step.Change(pB), Advance(0, false), Advance(0, false)]
    ensures Uncached(pA, disk(ino)) == Uncached(pB, disk(ino)) == Deny
    ensures Replay(disk, pA, es) == Some(World([pA, pB], [0], map[], [Call(ino, 1, Ended(Allow))]))
  {
    var run, w := [], World([pA], [], map[], []);
    run, w := ThenCall(disk, pA, run, w, ino);
    run, w := ThenMiss(disk, pA, run, w, ino);
    run, w := ThenAdvance(disk, pA, run, w, Call(ino, 1, LookupKey));
    Then(disk, pA, run, w, Step.Change(pB));
    run, w := run + [Step.Change(pB)], Apply(disk, w, Step.Change(pB));
    assert w.policies == [pA, pB];
    run, w := ThenAdvance(disk, pA, run, w, Call(ino, 1, CheckSignature));
    run, w := ThenAdvance(disk, pA, run, w, Call(ino, 1, CreateEntry));
    assert run == es;
  }

  // ---- one call, undisturbed ----------------------------------------------

  /** `n` operations of a call in a row. */
  function Alone(disk: Inode -> File, w: World, c: Call, stored: bool, n: nat): (map<Inode, Verdict>, Call)
    requires w.policies != []
    decreases n
  {
    if n == 0 then (w.cache, c)
    else
      var (cache, c') := Operate(disk, w, c, stored);
      Alone(disk, w.(cache := cache), c', stored, n - 1)
  }

  /** Uninterrupted, the operations of a call add up to the atomic check that runs of the cache replay. */
  lemma {:induction false} AloneIsAtomic(disk: Inode -> File, w: World, ino: Inode, stored: bool)
    requires w.policies != []
    ensures var s := State(Current(w), |w.bumpedAt|, w.cache);
            var (cache, c) := Alone(disk, w, Call(ino, 0, ReadEpoch), stored, 8);
            && cache == Stamped(s, ino, disk(ino), stored)
            && c == Call(ino, EpochOf(|w.bumpedAt|), Ended(Cached(s, ino, disk(ino))))
  {
    var e := EpochOf(|w.bumpedAt|);
    FromMiss(disk, w, Call(ino, e, ReadContent), stored);
    EndedStays(disk, w, Call(ino, e, Ended(Allow)), stored, 6);
  }

  lemma {:induction false} EndedStays(disk: Inode -> File, w: World, c: Call, stored: bool, n: nat)
    requires w.policies != [] && c.pc.Ended?
    ensures Alone(disk, w, c, stored, n) == (w.cache, c)
  {
    if n > 0 {
      EndedStays(disk, w, c, stored, n - 1);
    }
  }

  lemma {:induction false} FromMiss(disk: Inode -> File, w: World, c: Call, stored: bool)
    requires w.policies != [] && c.pc == ReadContent
    ensures var a := Uncached(Current(w), disk(c.ino));
            Alone(disk, w, c, stored, 6) ==
            (if stored && a == Allow then w.cache[c.ino := Verdict(true, c.epoch)] else w.cache, c.(pc := Ended(a)))
  {
    var p := Current(w);
    EndedStays(disk, w, c.(pc := Ended(Deny)), stored, 5);
    EndedStays(disk, w, c.(pc := Ended(Deny)), stored, 4);
    EndedStays(disk, w, c.(pc := Ended(Deny)), stored, 3);
    FromGrant(disk, w, c.(pc := CreateEntry), stored);
  }

  lemma {:induction false} FromGrant(disk: Inode -> File, w: World, c: Call, stored: bool)
    requires w.policies != [] && c.pc == CreateEntry
    ensures Alone(disk, w, c, stored, 3) ==
            (if stored then w.cache[c.ino := Verdict(true, c.epoch)] else w.cache, c.(pc := Ended(Allow)))
  {
    EndedStays(disk, w, c.(pc := Ended(Allow)), stored, 2);
    if stored {
      var v := if c.ino in w.cache then w.cache else w.cache[c.ino := Verdict(true, c.epoch)];
      var w1 := w.(cache := v);
      var w2 := w.(cache := v[c.ino := v[c.ino].(approved := true)]);
      assert Alone(disk, w, c, stored, 3) == Alone(disk, w1, c.(pc := WriteApproved), stored, 2);
      assert Alone(disk, w1, c.(pc := WriteApproved), stored, 2) == Alone(disk, w2, c.(pc := WriteEpoch), stored, 1);
      assert w2.cache[c.ino := Verdict(true, c.epoch)] == w.cache[c.ino := Verdict(true, c.epoch)];
    }
  }
}
