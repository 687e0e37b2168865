/**
 Three readers of the same frames: the firewall, the packet counter and the IDS tap. Offsets
 follow the Ethernet frame, the IPv4 header of section 3.1 of RFC 791 without options, and the
 port words that open both the UDP header and the TCP header of section 3.1 of RFC 9293.
 */
module PacketParsers {
  import opened Options

  type Byte = b: nat | b < 256

  type Frame = seq<Byte>

  const ETH_P_IP: nat := 0x0800
  const ETH_P_ARP: nat := 0x0806
  const ETH_P_IPV6: nat := 0x86DD

  const IPPROTO_ICMP: nat := 1
  const IPPROTO_TCP: nat := 6
  const IPPROTO_UDP: nat := 17
  const IPPROTO_ICMPV6: nat := 58

  const ETH_HLEN: nat := 14
  const IP_HLEN: nat := 20
  const IP6_HLEN: nat := 40
  const UDP_HLEN: nat := 8
  const TCP_HLEN: nat := 20

  function Word(low: nat, high: nat): nat {
    low + 256 * high
  }

  /** A two-byte load on a little-endian machine, and the swap that makes it a number. */
  function Load16(f: Frame, at: nat): nat
    requires at + 2 <= |f|
  {
    Word(f[at], f[at + 1])
  }

  function Ntohs(x: nat): nat {
    (x % 256) * 256 + x / 256 % 256
  }

  lemma NtohsLoad(f: Frame, at: nat)
    requires at + 2 <= |f|
    ensures Ntohs(Load16(f, at)) == Word(f[at + 1], f[at])
  {
    WordParts(f[at], f[at + 1]);
  }

  lemma WordParts(low: nat, high: nat)
    requires low < 256 && high < 256
    ensures Word(low, high) % 256 == low && Word(low, high) / 256 == high
  {
  }

  // ---- the three parsers --------------------------------------------------

  /** The destination port the firewall extracts, in host order; none means the frame passes. */
  function FirewallPort(f: Frame): Option<nat> {
    if ETH_HLEN > |f| || Ntohs(Load16(f, 12)) != ETH_P_IP then None
    else if ETH_HLEN + IP_HLEN > |f| then None
    else if f[23] == IPPROTO_UDP then
      if ETH_HLEN + IP_HLEN + UDP_HLEN > |f| then None else Some(Ntohs(Load16(f, 36)))
    else if f[23] == IPPROTO_TCP then
      if ETH_HLEN + IP_HLEN + TCP_HLEN > |f| then None else Some(Ntohs(Load16(f, 36)))
    else None
  }

  datatype Category = Other | Tcp | Udp | Icmp | Ipv4Other | Ipv6Other | Arp

  function Classify(f: Frame): Category {
    if ETH_HLEN > |f| then Other
    else
      var proto := Ntohs(Load16(f, 12));
      if proto == ETH_P_ARP then Arp
      else if proto == ETH_P_IP then
        if ETH_HLEN + IP_HLEN > |f| then Other
        else if f[23] == IPPROTO_TCP then Tcp
        else if f[23] == IPPROTO_UDP then Udp
        else if f[23] == IPPROTO_ICMP then Icmp
        else Ipv4Other
      else if proto == ETH_P_IPV6 then
        if ETH_HLEN + IP6_HLEN > |f| then Ipv6Other
        else if f[20] == IPPROTO_TCP then Tcp
        else if f[20] == IPPROTO_UDP then Udp
        else if f[20] == IPPROTO_ICMPV6 then Icmp
        else Ipv6Other
      else Other
  }

  /** What the tap copies out of a frame; addresses and ports stay as they lie in memory. */
  datatype Sighting = Sighting(saddr: Frame, daddr: Frame, sport: nat, dport: nat, len: nat, proto: nat)

  /** `bpf_skb_load_bytes`: a copy, or nothing if it would pass the end. */
  function LoadBytes(f: Frame, at: nat, n: nat): Option<Frame> {
    if at + n > |f| then None else Some(f[at..at + n])
  }

  function Tap(f: Frame): Option<Sighting> {
    match LoadBytes(f, 0, ETH_HLEN)
    case None => None
    case Some(eth) =>
      if Load16(eth, 12) != Ntohs(ETH_P_IP) then None
      else
        match LoadBytes(f, ETH_HLEN, IP_HLEN)
        case None => None
        case Some(ip) =>
          if ip[9] != IPPROTO_TCP && ip[9] != IPPROTO_UDP then None
          else
            match LoadBytes(f, ETH_HLEN + IP_HLEN, 4)
            case None => None
            case Some(l4) =>
              Some(Sighting(ip[12..16], ip[16..20], Load16(l4, 0), Load16(l4, 2), |f| % 0x1_0000, ip[9]))
  }

  // ---- they agree ---------------------------------------------------------

  /** A port the firewall extracts is the one the tap records, and the firewall misses only short frames. */
  lemma FirewallAgreesWithTap(f: Frame)
    ensures FirewallPort(f).Some? <==>
            && Tap(f).Some?
            && |f| >= ETH_HLEN + IP_HLEN + if Tap(f).value.proto == IPPROTO_UDP then UDP_HLEN else TCP_HLEN
    ensures FirewallPort(f).Some? ==> FirewallPort(f).value == Ntohs(Tap(f).value.dport)
  {
    if |f| >= ETH_HLEN {
      SwappedAlike(Load16(f, 12));
    }
  }

  lemma SwappedAlike(x: nat)
    requires x < 0x1_0000
    ensures x == Ntohs(ETH_P_IP) <==> Ntohs(x) == ETH_P_IP
    ensures Ntohs(Ntohs(x)) == x
  {
  }

  /** The tap records exactly the IPv4 frames counted as TCP or UDP that reach past the port words. */
  lemma TapAgreesWithCounter(f: Frame)
    ensures Tap(f).Some? <==>
            && |f| >= ETH_HLEN + IP_HLEN + 4 && Ntohs(Load16(f, 12)) == ETH_P_IP
            && (Classify(f) == Tcp || Classify(f) == Udp)
    ensures Tap(f).Some? ==> Classify(f) == if Tap(f).value.proto == IPPROTO_TCP then Tcp else Udp
  {
    if |f| >= ETH_HLEN {
      SwappedAlike(Load16(f, 12));
    }
  }

  // ---- against frames built field by field --------------------------------

  function Store16(x: nat): Frame
    requires x < 0x1_0000
  {
    [x / 256, x % 256]
  }

  /** The headers of an IPv4 frame, with every field the readers skip left open. */
  datatype Headers = Headers(macs: Frame, start: Frame, proto: Byte, checksum: Frame,
                             saddr: Frame, daddr: Frame, sport: nat, dport: nat, rest: Frame)

  predicate WellFormed(h: Headers) {
    && |h.macs| == 12 && |h.start| == 9 && |h.checksum| == 2
    && |h.saddr| == 4 && |h.daddr| == 4 && h.sport < 0x1_0000 && h.dport < 0x1_0000
  }

  function Build(h: Headers): Frame
    requires WellFormed(h)
  {
    h.macs + Store16(ETH_P_IP) +
    (h.start + [h.proto] + h.checksum + h.saddr + h.daddr) +
    (Store16(h.sport) + Store16(h.dport) + h.rest)
  }

  lemma TapReads(h: Headers, f: Frame)
    requires WellFormed(h) && (h.proto == IPPROTO_TCP || h.proto == IPPROTO_UDP) && f == Build(h)
    ensures Tap(f) == Some(Sighting(h.saddr, h.daddr, Load16(f, 34), Load16(f, 36), |f| % 0x1_0000, h.proto))
  {
    BuildLayout(h);
    assert f[ETH_HLEN..ETH_HLEN + IP_HLEN][12..16] == f[26..30];
    assert f[ETH_HLEN..ETH_HLEN + IP_HLEN][16..20] == f[30..34];
  }

  lemma PortsRead(h: Headers, f: Frame)
    requires WellFormed(h) && f == Build(h)
    ensures Ntohs(Load16(f, 12)) == ETH_P_IP
    ensures Ntohs(Load16(f, 34)) == h.sport && Ntohs(Load16(f, 36)) == h.dport
  {
    BuildLayout(h);
    NtohsLoad(f, 12);
    NtohsLoad(f, 34);
    NtohsLoad(f, 36);
  }

  /** Every reader gets back the fields a frame was built from. */
  lemma ReadsWhatWasBuilt(h: Headers, f: Frame)
    requires WellFormed(h) && (h.proto == IPPROTO_TCP || h.proto == IPPROTO_UDP) && f == Build(h)
    ensures var t := Tap(f);
            && t.Some? && t.value.saddr == h.saddr && t.value.daddr == h.daddr && t.value.proto == h.proto
            && Ntohs(t.value.sport) == h.sport && Ntohs(t.value.dport) == h.dport && t.value.len == |f| % 65536
    ensures Classify(f) == if h.proto == IPPROTO_TCP then Tcp else Udp
    ensures FirewallPort(f) == if |h.rest| >= (if h.proto == IPPROTO_UDP then 4 else 16) then Some(h.dport) else None
  {
    TapReads(h, f);
    PortsRead(h, f);
    FirewallAgreesWithTap(f);
    TapAgreesWithCounter(f);
    assert |f| == 38 + |h.rest|;
  }

  /** Frames of other protocols have no port to block or record. */
  lemma OtherProtocolsPass(h: Headers, f: Frame)
    requires WellFormed(h) && h.proto != 6 && h.proto != 17 && f == Build(h)
    ensures FirewallPort(f) == None && Tap(f) == None
  {
    BuildLayout(h);
    FirewallAgreesWithTap(f);
  }

  /** A frame of any ethertype. */
  function Ether(macs: Frame, ethertype: nat, body: Frame): Frame
    requires |macs| == 12 && ethertype < 0x1_0000
  {
    macs + Store16(ethertype) + body
  }

  lemma EtherLayout(macs: Frame, ethertype: nat, body: Frame)
    requires |macs| == 12 && ethertype < 0x1_0000
    ensures var f := Ether(macs, ethertype, body);
            && |f| == 14 + |body| && Ntohs(Load16(f, 12)) == ethertype
            && (forall i :: 0 <= i < |body| ==> f[14 + i] == body[i])
  {
    NtohsLoad(Ether(macs, ethertype, body), 12);
  }

  lemma BuildLayout(h: Headers)
    requires WellFormed(h)
    ensures var f := Build(h);
            && |f| == 38 + |h.rest| && f[12] == 8 && f[13] == 0 && f[23] == h.proto
            && f[26..30] == h.saddr && f[30..34] == h.daddr
            && Word(f[35], f[34]) == h.sport && Word(f[37], f[36]) == h.dport
  {
  }
}
