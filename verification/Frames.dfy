/** What the key of a packet says about the frame it was taken from, header by header. */
module Frames {
  import opened Bytes
  import opened FlowKey
  import opened Options
  import opened Words

  /** No field of a network or transport header. */
  predicate NoNetwork(p: Fields) {
    p.nwTos == 0 && p.nwProto == 0 && p.nwSrc == ZERO && p.nwDst == ZERO && p.tpSrc == 0 && p.tpDst == 0
  }

  /**
   A type of at least 1536 is that of the payload, a smaller number stands for a length, after which SNAP may
   name the type.
   */
  lemma LinkRead(port: u16, dst: Mac, src: Mac, proto: u16, snap: Option<u16>, tag: Option<Tag>, ip: Option<Ip>)
    ensures var p := Extracted(Frame(dst, src, proto, snap, tag, ip), port);
            var kind := if proto >= 1536 then proto else if snap.Some? then snap.value else 1535;
            && p.inPort == port && p.dlSrc == src && p.dlDst == dst
            && (kind != 0x8100 ==> p.dlType == kind && p.dlVlan == 0xffff && p.dlVlanPcp == 0)
            && (kind == 0x8100 && tag.None? ==> p.dlType == 0x8100 && p.dlVlan == 0xffff && p.dlVlanPcp == 0)
            && (p.dlType != 0x0800 || ip.None? ==> NoNetwork(p))
  {
  }

  lemma TagParts(pcp: nat, bit: nat, vlan: nat)
    requires pcp < 8 && bit < 2 && vlan < 4096
    ensures (8192 * pcp + 4096 * bit + vlan) % 4096 == vlan && (8192 * pcp + 4096 * bit + vlan) / 8192 == pcp
  {
  }

  /** A tag under type 0x8100 holds priority, a bit that is ignored, VLAN and the type behind it. */
  lemma TagRead(port: u16, dst: Mac, src: Mac, pcp: nat, bit: nat, vlan: nat, inner: u16, ip: Option<Ip>)
    requires pcp < 8 && bit < 2 && vlan < 4096
    ensures var tag := Tag(8192 * pcp + 4096 * bit + vlan, inner);
            var p := Extracted(Frame(dst, src, 0x8100, None, Some(tag), ip), port);
            p.dlType == inner && p.dlVlan == vlan && p.dlVlanPcp == pcp
  {
    TagParts(pcp, bit, vlan);
  }

  /**
   The network fields of an IPv4 packet without options of the link layer; ports, or type and code, are known
   only if the packet is whole and its transport header is there. If it should be there and is not, the
   protocol is not given away either.
   */
  lemma IpRead(port: u16, dst: Mac, src: Mac, ip: Ip)
    ensures var p := Extracted(Frame(dst, src, 0x0800, None, None, Some(ip)), port);
            && p.nwSrc == ip.src && p.nwDst == ip.dst && p.nwTos == 4 * (ip.tos / 4)
            && (ip.fragment || ip.proto !in {1, 6, 17} ==> p.nwProto == ip.proto && p.tpSrc == p.tpDst == 0)
            && (!ip.fragment && ip.proto in {1, 6, 17} && ip.transport.None? ==>
                  p.nwProto == p.tpSrc == p.tpDst == 0)
            && (!ip.fragment && ip.proto in {1, 6, 17} && ip.transport.Some? ==>
                  var t := ip.transport.value;
                  && p.nwProto == ip.proto
                  && (ip.proto == 1 ==> p.tpSrc == t.b0 && p.tpDst == t.b1)
                  && (ip.proto != 1 ==> p.tpSrc == 256 * t.b0 as int + t.b1 as int && p.tpDst == t.next))
  {
    assert ip.tos - ip.tos % 4 == 4 * (ip.tos / 4);
  }
}
