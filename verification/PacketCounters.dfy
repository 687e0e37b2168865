/**
 The firewall and the packet counter over any sequence of frames: what their maps hold is what
 really went by.
 */
module PacketCounters {
  import opened Options
  import opened Words
  import opened PacketParsers

  datatype Action = Pass | Drop

  // ---- the firewall -------------------------------------------------------

  /** A frame dies exactly when a port can be read from it and that port is blocked. */
  predicate Blocked(ports: set<nat>, f: Frame) {
    FirewallPort(f).Some? && FirewallPort(f).value in ports
  }

  function Dropped(ports: set<nat>, fs: seq<Frame>, port: nat): nat {
    if fs == [] then 0
    else
      var f := fs[|fs|-1];
      Dropped(ports, fs[..|fs|-1], port) + if Blocked(ports, f) && FirewallPort(f) == Some(port) then 1 else 0
  }

  /** The header checks, in the order the hook makes them. */
  method ParsePort(f: Frame) returns (r: Option<nat>)
    ensures r == FirewallPort(f)
  {
    if ETH_HLEN > |f| {
      return None;
    }
    SwappedAlike(Load16(f, 12));
    if Load16(f, 12) != Ntohs(ETH_P_IP) {
      return None;
    }
    if ETH_HLEN + IP_HLEN > |f| {
      return None;
    }
    if f[23] == IPPROTO_UDP {
      if ETH_HLEN + IP_HLEN + UDP_HLEN > |f| {
        return None;
      }
      return Some(Ntohs(Load16(f, 36)));
    } else if f[23] == IPPROTO_TCP {
      if ETH_HLEN + IP_HLEN + TCP_HLEN > |f| {
        return None;
      }
      return Some(Ntohs(Load16(f, 36)));
    }
    return None;
  }

  lemma AddIsModular(t: nat, n: nat)
    ensures Add64(t % U64, n % U64) == (t + n) % U64
  {
  }

  class Firewall {
    var blocklist: map<nat, nat>
    ghost var seen: seq<Frame>
    ghost const initial: map<nat, nat>

    /** Every rule is still there, and its counter grew by exactly the frames dropped on its port. */
    ghost predicate Valid()
      reads this
    {
      blocklist.Keys == initial.Keys && forall p :: p in blocklist ==>
        blocklist[p] == (initial[p] + Dropped(initial.Keys, seen, p)) % U64
    }

    constructor (rules: map<nat, nat>)
      requires forall p :: p in rules ==> rules[p] < U64
      ensures Valid() && blocklist == initial == rules && seen == []
    {
      blocklist, initial, seen := rules, rules, [];
    }

    method XdpFw(f: Frame) returns (action: Action)
      requires Valid()
      modifies this
      ensures Valid() && seen == old(seen) + [f]
      ensures action == if Blocked(initial.Keys, f) then Drop else Pass
    {
      var dport := ParsePort(f);
      ghost var before := seen;
      seen := seen + [f];
      assert seen[..|seen|-1] == before;
      if dport.Some? && dport.value in blocklist {
        AddIsModular(initial[dport.value] + Dropped(initial.Keys, before, dport.value), 1);
        blocklist := blocklist[dport.value := Add64(blocklist[dport.value], 1)];
        return Drop;
      }
      return Pass;
    }
  }

  // ---- the tap ------------------------------------------------------------

  class TapRing {
    var events: seq<(nat, Sighting)>

    constructor ()
      ensures events == []
    {
      events := [];
    }

    /** One time-stamped record for each frame the tap can read, unless the ring is full. */
    method IdsTap(f: Frame, now: nat, room: bool)
      modifies this
      ensures events == old(events) + if room && Tap(f).Some? then [(now, Tap(f).value)] else []
    {
      var eth := LoadBytes(f, 0, ETH_HLEN);
      if eth.None? || Load16(eth.value, 12) != Ntohs(ETH_P_IP) {
        return;
      }
      var ip := LoadBytes(f, ETH_HLEN, IP_HLEN);
      if ip.None? || (ip.value[9] != IPPROTO_TCP && ip.value[9] != IPPROTO_UDP) {
        return;
      }
      var l4 := LoadBytes(f, ETH_HLEN + IP_HLEN, 4);
      if l4.None? || !room {
        return;
      }
      events := events + [(now, Sighting(ip.value[12..16], ip.value[16..20], Load16(l4.value, 0), Load16(l4.value, 2),
                                         |f| % 0x1_0000, ip.value[9]))];
    }
  }

  // ---- the counter --------------------------------------------------------

  const CAT_MAX: nat := 7

  function Index(c: Category): nat {
    match c
    case Other => 0
    case Tcp => 1
    case Udp => 2
    case Icmp => 3
    case Ipv4Other => 4
    case Ipv6Other => 5
    case Arp => 6
  }

  /** The slot a frame is counted in, by number, for every ethertype and protocol and every way to be cut short. */
  lemma SlotByFrame(macs: Frame, ethertype: nat, body: Frame)
    requires |macs| == 12 && ethertype < 0x1_0000
    ensures Index(Classify(Ether(macs, ethertype, body))) ==
            if ethertype == 0x0806 then 6
            else if ethertype == 0x0800 then
              if |body| < 20 then 0
              else if body[9] == 6 then 1 else if body[9] == 17 then 2 else if body[9] == 1 then 3 else 4
            else if ethertype == 0x86DD then
              if |body| < 40 then 5
              else if body[6] == 6 then 1 else if body[6] == 17 then 2 else if body[6] == 58 then 3 else 5
            else 0
  {
    EtherLayout(macs, ethertype, body);
    var f := Ether(macs, ethertype, body);
    assert |body| > 9 ==> f[14 + 9] == body[9];
    assert |body| > 6 ==> f[14 + 6] == body[6];
  }

  lemma RuntIsOther(f: Frame)
    requires |f| < 14
    ensures Index(Classify(f)) == 0
  {
  }

  /** The frames of one category that one CPU handled. */
  function Tally(es: seq<(nat, Frame)>, cpu: nat, cat: nat): nat {
    if es == [] then 0
    else
      var e := es[|es|-1];
      Tally(es[..|es|-1], cpu, cat) + if e.0 == cpu && Index(Classify(e.1)) == cat then 1 else 0
  }

  /** The sum of one category's tallies over the first `n` CPUs. */
  function OverCpus(es: seq<(nat, Frame)>, n: nat, cat: nat): nat {
    if n == 0 then 0 else OverCpus(es, n - 1, cat) + Tally(es, n - 1, cat)
  }

  function OfCategory(es: seq<(nat, Frame)>, cat: nat): nat {
    if es == [] then 0
    else OfCategory(es[..|es|-1], cat) + if Index(Classify(es[|es|-1].1)) == cat then 1 else 0
  }

  ghost predicate OnCpus(es: seq<(nat, Frame)>, n: nat) {
    forall e :: e in es ==> e.0 < n
  }

  lemma {:induction false} OverCpusStep(es: seq<(nat, Frame)>, n: nat, cat: nat)
    requires es != []
    ensures var e := es[|es|-1];
            OverCpus(es, n, cat) == OverCpus(es[..|es|-1], n, cat) + if e.0 < n && Index(Classify(e.1)) == cat then 1 else 0
  {
    if n > 0 {
      OverCpusStep(es, n - 1, cat);
    }
  }

  lemma {:induction false} NoFrames(n: nat, cat: nat)
    ensures OverCpus([], n, cat) == 0
  {
    if n > 0 {
      NoFrames(n - 1, cat);
    }
  }

  /** Summed over all CPUs, a category's slots count its frames, each once. */
  lemma {:induction false} CpusAddUp(es: seq<(nat, Frame)>, n: nat, cat: nat)
    requires OnCpus(es, n)
    ensures OverCpus(es, n, cat) == OfCategory(es, cat)
  {
    if es == [] {
      NoFrames(n, cat);
    } else {
      CpusAddUp(es[..|es|-1], n, cat);
      OverCpusStep(es, n, cat);
    }
  }

  /** Every frame is in exactly one category. */
  lemma {:induction false} CategoriesAddUp(es: seq<(nat, Frame)>)
    ensures OfCategory(es, 0) + OfCategory(es, 1) + OfCategory(es, 2) + OfCategory(es, 3)
          + OfCategory(es, 4) + OfCategory(es, 5) + OfCategory(es, 6) == |es|
  {
    if es != [] {
      CategoriesAddUp(es[..|es|-1]);
    }
  }

  /** The header checks, in the order the hook makes them. */
  method Categorise(f: Frame) returns (cat: Category)
    ensures cat == Classify(f)
  {
    cat := Other;
    if ETH_HLEN > |f| {
      return;
    }
    var proto := Ntohs(Load16(f, 12));
    if proto == ETH_P_ARP {
      cat := Arp;
    } else if proto == ETH_P_IP {
      if ETH_HLEN + IP_HLEN > |f| {
        return;
      }
      if f[23] == IPPROTO_TCP {
        cat := Tcp;
      } else if f[23] == IPPROTO_UDP {
        cat := Udp;
      } else if f[23] == IPPROTO_ICMP {
        cat := Icmp;
      } else {
        cat := Ipv4Other;
      }
    } else if proto == ETH_P_IPV6 {
      if ETH_HLEN + IP6_HLEN > |f| {
        cat := Ipv6Other;
        return;
      }
      if f[20] == IPPROTO_TCP {
        cat := Tcp;
      } else if f[20] == IPPROTO_UDP {
        cat := Udp;
      } else if f[20] == IPPROTO_ICMPV6 {
        cat := Icmp;
      } else {
        cat := Ipv6Other;
      }
    }
  }

  class PacketCounter {
    const counts: array2<nat>
    ghost var seen: seq<(nat, Frame)>

    /** Every CPU's slot of a category holds the number of such frames it handled, modulo the word. */
    ghost predicate Valid()
      reads this, counts
    {
      && counts.Length1 == CAT_MAX && OnCpus(seen, counts.Length0)
      && forall cpu, cat :: 0 <= cpu < counts.Length0 && 0 <= cat < CAT_MAX ==>
           counts[cpu, cat] == Tally(seen, cpu, cat) % U64
    }

    constructor (cpus: nat)
      ensures Valid() && counts.Length0 == cpus && seen == [] && fresh(counts)
    {
      counts := new nat[cpus, CAT_MAX]((_, _) => 0);
      seen := [];
    }

    method Bump(cpu: nat, cat: nat)
      requires cpu < counts.Length0 && cat < counts.Length1
      modifies counts
      ensures forall c, k :: 0 <= c < counts.Length0 && 0 <= k < counts.Length1 ==>
                counts[c, k] == if c == cpu && k == cat then Add64(old(counts[c, k]), 1) else old(counts[c, k])
    {
      counts[cpu, cat] := Add64(counts[cpu, cat], 1);
    }

    method XdpCount(cpu: nat, f: Frame) returns (action: Action)
      requires Valid() && cpu < counts.Length0
      modifies this, counts
      ensures Valid() && seen == old(seen) + [(cpu, f)]
      ensures forall c, k :: 0 <= c < counts.Length0 && 0 <= k < 7 ==>
                counts[c, k] == if c == cpu && k == Index(Classify(f)) then Add64(old(counts[c, k]), 1) else old(counts[c, k])
      ensures action == Pass
    {
      var cat := Categorise(f);
      Bump(cpu, Index(cat));
      ghost var before := seen;
      seen := seen + [(cpu, f)];
      assert seen[..|seen|-1] == before;
      forall c, k | 0 <= c < counts.Length0 && 0 <= k < CAT_MAX
        ensures counts[c, k] == Tally(seen, c, k) % U64
      {
        AddIsModular(Tally(before, c, k), 1);
      }
      return Pass;
    }

    /** What the reader prints for a category: its slots added up over the CPUs. */
    method Total(cat: nat) returns (sum: nat)
      requires Valid() && cat < CAT_MAX
      ensures sum == OfCategory(seen, cat) % U64
    {
      sum := 0;
      for i := 0 to counts.Length0
        invariant sum == OverCpus(seen, i, cat) % U64
      {
        AddIsModular(OverCpus(seen, i, cat), Tally(seen, i, cat));
        sum := Add64(sum, counts[i, cat]);
      }
      CpusAddUp(seen, counts.Length0, cat);
    }
  }
}
