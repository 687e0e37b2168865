/**
 The exec gate's verdict cache: a per-inode approval stamped with the policy epoch.

 fs-verity makes a file's digest immutable, so a file is a fixed value and only the policy
 moves. This module has the gate as atomic calls; VerdictRaces lets calls, policy changes and
 epoch bumps interleave operation by operation.
 */
module VerdictCache {
  import opened Options

  const EPOCHS: nat := 0x1_0000_0000

  type Inode = nat
  type Digest = seq<bv8>
  type Signature = seq<bv8>

  /** What the content reads yield: no digest on overlay or squashfs, no signature without the xattr. */
  datatype File = File(digest: Option<Digest>, sig: Option<Signature>)

  /** Whether the keyring can be looked up, and which signatures it verifies. */
  datatype Policy = Policy(key: bool, verifies: (Digest, Signature) -> bool)

  datatype Verdict = Verdict(approved: bool, epoch: nat)

  datatype Answer = Allow | Deny

  /** The PKCS#7 check succeeds. */
  predicate Trusts(p: Policy, f: File) {
    f.digest.Some? && f.sig.Some? && p.verifies(f.digest.value, f.sig.value)
  }

  /** Verification with no cache. */
  function Uncached(p: Policy, f: File): Answer {
    if p.key && Trusts(p, f) then Allow else Deny
  }

  /** The epoch is a 32-bit count of bumps. */
  function EpochOf(bumps: nat): nat {
    bumps % EPOCHS
  }

  datatype State = State(policy: Policy, bumps: nat, cache: map<Inode, Verdict>)

  /** The inode has an approval stamped with the current epoch. */
  predicate Hit(s: State, ino: Inode) {
    ino in s.cache && s.cache[ino].approved && s.cache[ino].epoch == EpochOf(s.bumps)
  }

  function Cached(s: State, ino: Inode, f: File): Answer {
    if Hit(s, ino) then Allow else Uncached(s.policy, f)
  }

  /** The cache after a check: a fresh approval is stamped if storage can be had; a hit or a denial changes nothing. */
  function Stamped(s: State, ino: Inode, f: File, stored: bool): map<Inode, Verdict> {
    if stored && !Hit(s, ino) && Uncached(s.policy, f) == Allow
    then s.cache[ino := Verdict(true, EpochOf(s.bumps))] else s.cache
  }

  datatype Fs = Tmpfs | Hugetlbfs | OtherFs

  /** An unlinked file on tmpfs or hugetlbfs: a memfd or its like. */
  predicate AnonExec(nlink: nat, fs: Fs) {
    nlink == 0 && (fs == Tmpfs || fs == Hugetlbfs)
  }

  datatype Opened = Opened(ino: Inode, nlink: nat, fs: Fs, file: File)

  class Gate {
    var policy: Policy
    var bumps: nat
    var cache: map<Inode, Verdict>
    const denyAnonExec: bool

    function View(): State
      reads this
    {
      State(policy, bumps, cache)
    }

    constructor (policy: Policy, denyAnonExec: bool)
      ensures View() == State(policy, 0, map[]) && this.denyAnonExec == denyAnonExec
    {
      this.policy, this.bumps, this.cache, this.denyAnonExec := policy, 0, map[], denyAnonExec;
    }

    /**
     A current stamp admits; without one, only a readable digest and signature that the keyring is
     there to verify and does verify. `stored` says whether inode storage could be had.
     */
    method VerifyFile(ino: Inode, f: File, stored: bool) returns (a: Answer)
      modifies this`cache
      ensures var stamped := ino in old(cache) && old(cache)[ino] == Verdict(true, bumps % 0x1_0000_0000);
              var valid := f.digest.Some? && f.sig.Some? && policy.key && policy.verifies(f.digest.value, f.sig.value);
              && (a == Allow <==> stamped || valid)
              && cache == if !stamped && valid && stored then old(cache)[ino := Verdict(true, bumps % 0x1_0000_0000)] else old(cache)
      ensures a == Cached(old(View()), ino, f) && cache == Stamped(old(View()), ino, f, stored)
    {
      var epoch := EpochOf(bumps);
      if ino in cache && cache[ino].approved && cache[ino].epoch == epoch {
        return Allow;
      }
      if f.digest.None? {
        return Deny;
      }
      if f.sig.None? {
        return Deny;
      }
      if !policy.key {
        return Deny;
      }
      if !policy.verifies(f.digest.value, f.sig.value) {
        return Deny;
      }
      if stored {
        cache := cache[ino := Verdict(true, epoch)];
      }
      a := Allow;
    }

    /** An unlinked file on tmpfs or hugetlbfs is refused outright, any other file verified. */
    method ExecGate(o: Opened, stored: bool) returns (a: Answer)
      modifies this`cache
      ensures o.nlink == 0 && o.fs in {Tmpfs, Hugetlbfs} ==> a == Deny && cache == old(cache)
      ensures o.nlink != 0 || o.fs !in {Tmpfs, Hugetlbfs} ==>
        a == Cached(old(View()), o.ino, o.file) && cache == Stamped(old(View()), o.ino, o.file, stored)
    {
      if AnonExec(o.nlink, o.fs) {
        return Deny;
      }
      a := VerifyFile(o.ino, o.file, stored);
    }

    method MmapGate(o: Option<Opened>, protExec: bool, stored: bool) returns (a: Answer)
      modifies this`cache
      ensures !protExec ==> a == Allow && cache == old(cache)
      ensures protExec && o.None? ==> a == (if denyAnonExec then Deny else Allow) && cache == old(cache)
      ensures protExec && o.Some? ==>
        if o.value.nlink == 0 && o.value.fs in {Tmpfs, Hugetlbfs} then a == Deny && cache == old(cache)
        else (a == Cached(old(View()), o.value.ino, o.value.file)
              && cache == Stamped(old(View()), o.value.ino, o.value.file, stored))
    {
      if !protExec {
        return Allow;
      }
      if o.None? {
        return if denyAnonExec then Deny else Allow;
      }
      if AnonExec(o.value.nlink, o.value.fs) {
        return Deny;
      }
      a := VerifyFile(o.value.ino, o.value.file, stored);
    }
  }

  // ---- runs of atomic calls -----------------------------------------------

  /** User space changes the policy and bumps the epoch in two steps, and may forget the second. */
  datatype Step =
    | Check(ino: Inode, stored: bool)
    | Change(policy: Policy)
    | Bump
    | Evict(ino: Inode)

  function Apply(disk: Inode -> File, s: State, e: Step): State {
    match e
    case Check(ino, stored) => s.(cache := Stamped(s, ino, disk(ino), stored))
    case Change(p) => s.(policy := p)
    case Bump => s.(bumps := s.bumps + 1)
    case Evict(ino) => s.(cache := s.cache - {ino})
  }

  function After(disk: Inode -> File, p0: Policy, es: seq<Step>): State {
    if es == [] then State(p0, 0, map[]) else Apply(disk, After(disk, p0, es[..|es|-1]), es[|es|-1])
  }

  // ---- the same, from the history alone -----------------------------------

  function Bumps(es: seq<Step>): nat {
    if es == [] then 0 else Bumps(es[..|es|-1]) + if es[|es|-1].Bump? then 1 else 0
  }

  function InForce(p0: Policy, es: seq<Step>): Policy {
    if es == [] then p0 else if es[|es|-1].Change? then es[|es|-1].policy else InForce(p0, es[..|es|-1])
  }

  /** How many bumps had been made at the last check, since the inode's last eviction, that its policy granted. */
  function LastGrant(disk: Inode -> File, p0: Policy, es: seq<Step>, ino: Inode): Option<nat> {
    if es == [] then None
    else
      var (before, e) := (es[..|es|-1], es[|es|-1]);
      if e == Evict(ino) then None
      else if e == Check(ino, true) && Uncached(InForce(p0, before), disk(ino)) == Allow then Some(Bumps(before))
      else LastGrant(disk, p0, before, ino)
  }

  /** Since the last such check the epoch has been bumped not at all, or full circle. */
  ghost predicate EpochUnchanged(disk: Inode -> File, p0: Policy, es: seq<Step>, ino: Inode) {
    var g := LastGrant(disk, p0, es, ino);
    g.Some? && (Bumps(es) - g.value) % 0x1_0000_0000 == 0
  }

  lemma SameEpoch(a: nat, b: nat)
    requires a <= b
    ensures EpochOf(a) == EpochOf(b) <==> (b - a) % EPOCHS == 0
  {
  }

  /** The inode's entry is the stamp of its last grant, modulo the 32 bits of the epoch. */
  ghost predicate EntryIs(s: State, ino: Inode, g: Option<nat>) {
    if g.Some? then ino in s.cache && s.cache[ino] == Verdict(true, EpochOf(g.value)) && g.value <= s.bumps
    else ino !in s.cache
  }

  lemma {:induction false} CacheIsHistory(disk: Inode -> File, p0: Policy, es: seq<Step>, ino: Inode)
    ensures var s := After(disk, p0, es);
            && s.policy == InForce(p0, es) && s.bumps == Bumps(es)
            && EntryIs(s, ino, LastGrant(disk, p0, es, ino))
  {
    if es != [] {
      CacheIsHistory(disk, p0, es[..|es|-1], ino);
    }
  }

  /** In every run, a check hits exactly when a grant is remembered whose epoch looks like the present one. */
  lemma {:induction false} HitExactlyWhen(disk: Inode -> File, p0: Policy, es: seq<Step>, ino: Inode)
    ensures Hit(After(disk, p0, es), ino) <==> EpochUnchanged(disk, p0, es, ino)
  {
    CacheIsHistory(disk, p0, es, ino);
    var g := LastGrant(disk, p0, es, ino);
    if g.Some? {
      SameEpoch(g.value, Bumps(es));
    }
  }

  /** In every run, cached and uncached answers differ exactly on such a grant that the policy in force denies. */
  lemma {:induction false} CacheDiffersExactlyWhen(disk: Inode -> File, p0: Policy, es: seq<Step>, ino: Inode)
    ensures var (s, p) := (After(disk, p0, es), InForce(p0, es));
            Cached(s, ino, disk(ino)) != Uncached(p, disk(ino))
            <==> EpochUnchanged(disk, p0, es, ino) && Uncached(p, disk(ino)) == Deny
  {
    CacheIsHistory(disk, p0, es, ino);
    HitExactlyWhen(disk, p0, es, ino);
  }

  // ---- announced changes --------------------------------------------------

  /** The policy was changed after the last bump. */
  predicate Unannounced(es: seq<Step>) {
    es != [] && !es[|es|-1].Bump? && (es[|es|-1].Change? || Unannounced(es[..|es|-1]))
  }

  /** Every change is followed by its bump before the next check. */
  predicate Announced(es: seq<Step>) {
    es == [] || (Announced(es[..|es|-1]) && (es[|es|-1].Check? ==> !Unannounced(es[..|es|-1])))
  }

  lemma {:induction false} GrantStands(disk: Inode -> File, p0: Policy, es: seq<Step>, ino: Inode)
    requires Announced(es)
    ensures var g := LastGrant(disk, p0, es, ino);
            && (g.Some? ==> g.value <= Bumps(es))
            && (g == Some(Bumps(es)) && !Unannounced(es) ==> Uncached(InForce(p0, es), disk(ino)) == Allow)
  {
    if es != [] {
      GrantStands(disk, p0, es[..|es|-1], ino);
    }
  }

  /** With every change announced before the next check and fewer than 2^32 bumps, the cache never changes an answer. */
  lemma {:induction false} CacheTransparent(disk: Inode -> File, p0: Policy, es: seq<Step>, ino: Inode)
    requires Announced(es) && !Unannounced(es) && Bumps(es) < EPOCHS
    ensures Cached(After(disk, p0, es), ino, disk(ino)) == Uncached(InForce(p0, es), disk(ino))
  {
    GrantStands(disk, p0, es, ino);
    CacheDiffersExactlyWhen(disk, p0, es, ino);
  }

  // ---- the two ways it fails ----------------------------------------------

  /** A change without its bump goes unnoticed. */
  lemma {:induction false} StaleApproval(disk: Inode -> File, p0: Policy, p: Policy, es: seq<Step>, ino: Inode)
    requires Uncached(p0, disk(ino)) == Allow && Uncached(p, disk(ino)) == Deny
    requires es == [Check(ino, true), Change(p)]
    ensures Cached(After(disk, p0, es), ino, disk(ino)) == Allow && InForce(p0, es) == p && Unannounced(es)
  {
    StaleAfterBumps(disk, p0, p, es, ino, 0);
    CacheDiffersExactlyWhen(disk, p0, es, ino);
  }

  lemma {:induction false} StaleAfterBumps(disk: Inode -> File, p0: Policy, p: Policy, es: seq<Step>, ino: Inode, n: nat)
    requires Uncached(p0, disk(ino)) == Allow
    requires |es| == n + 2 && es[0] == Check(ino, true) && es[1] == Change(p)
    requires forall i :: 2 <= i < |es| ==> es[i] == Bump
    ensures LastGrant(disk, p0, es, ino) == Some(0) && Bumps(es) == n && InForce(p0, es) == p && Announced(es)
    ensures Unannounced(es) <==> n == 0
  {
    if n > 0 {
      StaleAfterBumps(disk, p0, p, es[..|es|-1], ino, n - 1);
    } else {
      var a := es[..1];
      assert es[..|es|-1] == a && a[..0] == [];
      assert LastGrant(disk, p0, a, ino) == Some(0);
    }
  }

  /** An announced change followed by 2^32 bumps in all brings the old stamp round again. */
  lemma {:induction false} WrappedApproval(disk: Inode -> File, p0: Policy, p: Policy, es: seq<Step>, ino: Inode)
    requires Uncached(p0, disk(ino)) == Allow && Uncached(p, disk(ino)) == Deny
    requires es == [Check(ino, true), Change(p)] + seq(EPOCHS, _ => Bump)
    ensures Cached(After(disk, p0, es), ino, disk(ino)) == Allow && InForce(p0, es) == p && Announced(es) && !Unannounced(es)
  {
    StaleAfterBumps(disk, p0, p, es, ino, EPOCHS);
    CacheDiffersExactlyWhen(disk, p0, es, ino);
  }
}
