/**
 What a match asks of a packet, said without masks: a wildcard count of n leaves out the n low bits of an
 address, a flag leaves out its field and nothing else. Carried to what a lookup returns.
 */
module Prefixes {
  import opened Bytes
  import opened FlowKey
  import opened FlowList
  import opened Options
  import opened TableLinear
  import opened Words
  import opened Chain
  import FlowMod

  // ----- addresses as numbers

  /** The number that the bits from `n` on stand for, the lowest first. */
  function From(w: Word, n: nat): nat
    requires n <= 32
    decreases 32 - n
  {
    if n == 32 then 0 else 2 * From(w, n + 1) + if w[n] then 1 else 0
  }

  function Value(w: Word): nat { From(w, 0) }

  lemma MultipleGrows(a: nat, b: nat, d: nat)
    requires a > b
    ensures a * d >= b * d + d
  {
    assert a * d == b * d + (a - b - 1) * d + d;
  }

  lemma Doubles(a: nat, d: nat)
    ensures (2 * a) * d == a * (2 * d) && (2 * a + 1) * d == a * (2 * d) + d
  {
  }

  lemma QuotientIs(x: nat, d: nat, q: nat, r: nat)
    requires x == q * d + r && r < d
    ensures x / d == q
  {
    var k := x / d;
    assert x == k * d + x % d;
    if k > q {
      MultipleGrows(k, q, d);
    } else if k < q {
      MultipleGrows(q, k, d);
    }
  }

  /** The low bits are what is left over. */
  lemma {:induction false} FromLeaves(w: Word, n: nat) returns (low: nat)
    requires n <= 32
    ensures low < Pow2(n) && Value(w) == From(w, n) * Pow2(n) + low
  {
    if n == 0 {
      low := 0;
    } else {
      var before := FromLeaves(w, n - 1);
      Doubles(From(w, n), Pow2(n - 1));
      low := if w[n - 1] then Pow2(n - 1) + before else before;
    }
  }

  /** Leaving out the low bits is dividing. */
  lemma FromIsQuotient(w: Word, n: nat)
    requires n <= 32
    ensures Pow2(n) > 0 && From(w, n) == Value(w) / Pow2(n)
  {
    var low := FromLeaves(w, n);
    QuotientIs(Value(w), Pow2(n), From(w, n), low);
  }

  lemma {:induction false} FromEqual(a: Word, b: Word, n: nat)
    requires n <= 32
    ensures From(a, n) == From(b, n) <==> forall i :: n <= i < 32 ==> a[i] == b[i]
    decreases 32 - n
  {
    if n < 32 {
      FromEqual(a, b, n + 1);
      assert From(a, n) == From(b, n) <==> a[n] == b[n] && From(a, n + 1) == From(b, n + 1);
    }
  }

  /** The addresses agree but for the `bits` low bits. */
  predicate SamePrefix(a: Word, b: Word, bits: nat) {
    bits >= 32 || (Pow2(bits) > 0 && Value(a) / Pow2(bits) == Value(b) / Pow2(bits))
  }

  lemma AgreeIsPrefix(a: Word, b: Word, bits: Bits)
    ensures Agree(a, b, Mask(bits)) <==> SamePrefix(a, b, bits)
  {
    if bits < 32 {
      FromEqual(a, b, bits);
      FromIsQuotient(a, bits);
      FromIsQuotient(b, bits);
      assert forall i :: 0 <= i < 32 ==> (Mask(bits)[i] <==> bits <= i);
    }
  }

  // ----- a match and a packet

  /** The match is about IPv4 packets. */
  predicate AboutIp(m: Match) { !m.w.dlType && m.f.dlType == 0x0800 }

  /** ... and about TCP, UDP or ICMP. */
  predicate AboutPorts(m: Match) { AboutIp(m) && !m.w.nwProto && m.f.nwProto in {1, 6, 17} }

  predicate LinkFits(m: Match, p: Fields) {
    && (m.w.inPort || p.inPort == m.f.inPort)
    && (m.w.dlVlan || p.dlVlan == m.f.dlVlan)
    && (m.w.dlVlanPcp || p.dlVlanPcp == m.f.dlVlanPcp)
    && (m.w.dlSrc || p.dlSrc == m.f.dlSrc)
    && (m.w.dlDst || p.dlDst == m.f.dlDst)
    && (m.w.dlType || p.dlType == m.f.dlType)
  }

  predicate NetworkFits(m: Match, p: Fields) {
    && (m.w.nwTos || p.nwTos / 4 == m.f.nwTos / 4)
    && (m.w.nwProto || p.nwProto == m.f.nwProto)
    && SamePrefix(p.nwSrc, m.f.nwSrc, m.w.srcBits)
    && SamePrefix(p.nwDst, m.f.nwDst, m.w.dstBits)
  }

  predicate PortsFit(m: Match, p: Fields) {
    (m.w.tpSrc || p.tpSrc == m.f.tpSrc) && (m.w.tpDst || p.tpDst == m.f.tpDst)
  }

  lemma NetworkWithoutIp(m: Match, p: Fields)
    requires IsPacket(p) && !AboutIp(m)
    ensures Matches(p, Extract(m)) <==> LinkFits(m, p)
  {
    var k := Extract(m);
    MaskEnds();
    if m.w.dlType {
      assert k.srcMask == k.dstMask == ZERO;
    } else {
      assert k.srcMask == k.dstMask == ONES && k.f.nwSrc == k.f.nwDst == ZERO;
      AgreeAll(p.nwSrc, ZERO);
      AgreeAll(p.nwDst, ZERO);
    }
  }

  /** The two low bits of the type of service are zero in a packet. */
  lemma TosFits(t: byte, u: byte)
    requires t % 4 == 0
    ensures t == u - u % 4 <==> t / 4 == u / 4
  {
  }

  lemma IpMasks(m: Match)
    requires AboutIp(m)
    ensures var k := Extract(m);
            && k.srcMask == Mask(m.w.srcBits) && k.dstMask == Mask(m.w.dstBits)
            && k.f.nwSrc == m.f.nwSrc && k.f.nwDst == m.f.nwDst
            && k.w.nwTos == m.w.nwTos && k.f.nwTos == m.f.nwTos - m.f.nwTos % 4
            && k.w.nwProto == m.w.nwProto && k.f.nwProto == m.f.nwProto
  {
  }

  lemma AddressesFit(m: Match, p: Fields)
    requires AboutIp(m)
    ensures var k := Extract(m);
            && (Agree(p.nwSrc, k.f.nwSrc, k.srcMask) <==> SamePrefix(p.nwSrc, m.f.nwSrc, m.w.srcBits))
            && (Agree(p.nwDst, k.f.nwDst, k.dstMask) <==> SamePrefix(p.nwDst, m.f.nwDst, m.w.dstBits))
  {
    IpMasks(m);
    AgreeIsPrefix(p.nwSrc, m.f.nwSrc, m.w.srcBits);
    AgreeIsPrefix(p.nwDst, m.f.nwDst, m.w.dstBits);
  }

  /** The fields of the IP header, as the key has them. */
  lemma IpFits(m: Match, p: Fields)
    requires IsPacket(p) && AboutIp(m)
    ensures var k := Extract(m);
            NetworkFits(m, p) <==>
            && (k.w.nwTos || p.nwTos == k.f.nwTos) && (k.w.nwProto || p.nwProto == k.f.nwProto)
            && Agree(p.nwSrc, k.f.nwSrc, k.srcMask) && Agree(p.nwDst, k.f.nwDst, k.dstMask)
  {
    IpMasks(m);
    AddressesFit(m, p);
    TosFits(p.nwTos, m.f.nwTos);
  }

  lemma PortsOfIp(m: Match, p: Fields)
    requires IsPacket(p) && AboutIp(m) && (m.w.nwProto || p.nwProto == m.f.nwProto)
    ensures var k := Extract(m);
            (AboutPorts(m) ==> PortsFit(m, p)) <==>
            (k.w.tpSrc || p.tpSrc == k.f.tpSrc) && (k.w.tpDst || p.tpDst == k.f.tpDst)
  {
  }

  lemma NetworkOfIp(m: Match, p: Fields)
    requires IsPacket(p) && AboutIp(m)
    ensures Matches(p, Extract(m)) <==>
              LinkFits(m, p) && NetworkFits(m, p) && (AboutPorts(m) ==> PortsFit(m, p))
  {
    IpFits(m, p);
    if m.w.nwProto || p.nwProto == m.f.nwProto {
      PortsOfIp(m, p);
    }
  }

  /**
   A packet is matched if and only if it has every field that the match does not leave out. Network fields
   count only if the match is about IP, where the low two bits of the type of service do not; transport
   fields count only if it is about a protocol that has them.
   */
  predicate Fits(m: Match, p: Fields) {
    && LinkFits(m, p)
    && (AboutIp(m) ==> NetworkFits(m, p))
    && (AboutPorts(m) ==> PortsFit(m, p))
  }

  lemma MatchesIff(m: Match, p: Fields)
    requires IsPacket(p)
    ensures Matches(p, Extract(m)) <==> Fits(m, p)
  {
    if AboutIp(m) {
      NetworkOfIp(m, p);
    } else {
      NetworkWithoutIp(m, p);
    }
  }

  // ----- a lookup

  lemma OnlyRule(l: seq<Flow>, p: Fields)
    requires |l| == 1
    ensures Best(l, p) == if Matches(p, l[0].key) then Some(l[0]) else None
    ensures !Overtaken(l, p)
  {
    FirstIsBest(l, Hit(p));
  }

  /** Adding a flow to a chain without rules: it answers for exactly the packets that its match fits. */
  method AddAndLookup(c: Chain, msg: FlowMod.Message, p: Fields) returns (r: Option<Flow>)
    requires c.Valid() && c.rules == [] && c.linear.maxFlows > 0
    requires msg.Add? && !msg.emerg && IsPacket(p)
    modifies c, c.Working(), c.emerg
    ensures c.Valid() && c.rules == [FlowMod.FlowOf(msg)]
    ensures r == if Fits(msg.m, p) then Some(FlowMod.FlowOf(msg)) else None
    ensures r.Some? ==> r.value.acts == msg.acts && r.value.idle == msg.idle && r.value.hard == msg.hard
  {
    var _ := FlowMod.ReceiveFlow(c, msg);
    OnlyRule(c.rules, p);
    MatchesIff(msg.m, p);
    r := c.Lookup(p, false);
  }

  /**
   A flow for an IP prefix: of two packets that differ in their addresses only, one of which the flow answers
   for, it answers for the other exactly if their addresses agree but for the wildcarded bits.
   */
  method PrefixDecides(c: Chain, msg: FlowMod.Message, p: Fields, src: Word, dst: Word) returns (r: Option<Flow>)
    requires c.Valid() && c.rules == [] && c.linear.maxFlows > 0
    requires msg.Add? && !msg.emerg && IsPacket(p) && p.dlType == 0x0800 && AboutIp(msg.m) && Fits(msg.m, p)
    modifies c, c.Working(), c.emerg
    ensures r.Some? <==> SamePrefix(src, p.nwSrc, msg.m.w.srcBits) && SamePrefix(dst, p.nwDst, msg.m.w.dstBits)
  {
    r := AddAndLookup(c, msg, p.(nwSrc := src, nwDst := dst));
  }
}
