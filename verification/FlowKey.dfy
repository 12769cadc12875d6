/**
 Flow keys of the datapath: matching with wildcards, the conversion to and from the OpenFlow match
 structure, and what it means for two keys to overlap.
 */
module FlowKey {
  import opened Bytes
  import opened Options
  import opened Words

  /**
   The 22 bits of `wildcards`, one member per OFPFW_* flag and the two 6-bit counts of wildcarded
   address bits.
   */
  datatype Wild = Wild(inPort: bool, dlVlan: bool, dlVlanPcp: bool, dlSrc: bool, dlDst: bool, dlType: bool,
                       nwTos: bool, nwProto: bool, tpSrc: bool, tpDst: bool, srcBits: Bits, dstBits: Bits)

  type Bits = n: nat | n < 64

  const EXACT := Wild(false, false, false, false, false, false, false, false, false, false, 0, 0)
  const ANY := Wild(true, true, true, true, true, true, true, true, true, true, 63, 63)

  /** An Ethernet address as a number. */
  type Mac = x: int | 0 <= x < 0x1_0000_0000_0000

  /** The part of a key that hashing and `flow_keys_equal` look at; also the key of a packet. */
  datatype Fields = Fields(inPort: u16, dlVlan: u16, dlVlanPcp: byte, dlSrc: Mac, dlDst: Mac, dlType: u16,
                           nwTos: byte, nwProto: byte, nwSrc: Word, nwDst: Word, tpSrc: u16, tpDst: u16)

  /** `struct sw_flow_key` */
  datatype Key = Key(f: Fields, w: Wild, srcMask: Word, dstMask: Word)

  const OFP_VLAN_NONE := 0xffff
  const OFP_DL_TYPE_ETH2_CUTOFF := 0x0600
  const OFP_DL_TYPE_NOT_ETH_TYPE := 0x05ff
  const ETH_P_8021Q := 0x8100
  const ETH_P_IP := 0x0800
  const IPPROTO_ICMP := 1
  const IPPROTO_TCP := 6
  const IPPROTO_UDP := 17

  /** `!((a ^ b) & mask)` */
  predicate Agree(a: Word, b: Word, mask: Word) { forall i :: 0 <= i < 32 && mask[i] ==> a[i] == b[i] }

  /** `flow_fields_match`, with the wildcard word as a predicate per field. */
  predicate FieldsMatch(a: Fields, b: Fields, w: Wild, srcMask: Word, dstMask: Word) {
    && (w.inPort || a.inPort == b.inPort)
    && (w.dlVlan || a.dlVlan == b.dlVlan)
    && (w.dlVlanPcp || a.dlVlanPcp == b.dlVlanPcp)
    && (w.dlSrc || a.dlSrc == b.dlSrc)
    && (w.dlDst || a.dlDst == b.dlDst)
    && (w.dlType || a.dlType == b.dlType)
    && (w.nwTos || a.nwTos == b.nwTos)
    && (w.nwProto || a.nwProto == b.nwProto)
    && Agree(a.nwSrc, b.nwSrc, srcMask)
    && Agree(a.nwDst, b.nwDst, dstMask)
    && (w.tpSrc || a.tpSrc == b.tpSrc)
    && (w.tpDst || a.tpDst == b.tpDst)
  }

  function Either(a: Wild, b: Wild): Wild {
    Wild(a.inPort || b.inPort, a.dlVlan || b.dlVlan, a.dlVlanPcp || b.dlVlanPcp, a.dlSrc || b.dlSrc,
         a.dlDst || b.dlDst, a.dlType || b.dlType, a.nwTos || b.nwTos, a.nwProto || b.nwProto,
         a.tpSrc || b.tpSrc, a.tpDst || b.tpDst, a.srcBits, a.dstBits)
  }

  /** `flow_matches_1wild` */
  predicate Matches(p: Fields, k: Key) { FieldsMatch(p, k.f, k.w, k.srcMask, k.dstMask) }

  /** `flow_matches_2wild` */
  predicate Overlap(a: Key, b: Key) {
    FieldsMatch(a.f, b.f, Either(a.w, b.w), And(a.srcMask, b.srcMask), And(a.dstMask, b.dstMask))
  }

  /** `flow_matches_desc` */
  predicate MatchesDesc(t: Key, d: Key, strict: bool) { (strict ==> d.w == t.w) && Matches(t.f, d) }

  // ----- the OpenFlow match structure

  /** `make_nw_mask`: the low `n` bits cleared, all of them from 32 on. */
  function Mask(n: Bits): Word { seq(32, i => i >= n) }

  /** `struct ofp_match` */
  datatype Match = Match(f: Fields, w: Wild)

  function AllNw(w: Wild): Wild { w.(nwTos := true, nwProto := true, srcBits := 63, dstBits := 63) }
  function NoNw(w: Wild): Wild { w.(nwTos := false, nwProto := false, srcBits := 0, dstBits := 0) }
  function Tp(w: Wild, on: bool): Wild { w.(tpSrc := on, tpDst := on) }

  predicate HasPorts(proto: nat) { proto == IPPROTO_TCP || proto == IPPROTO_UDP || proto == IPPROTO_ICMP }

  function WithMasks(f: Fields, w: Wild): Key { Key(f, w, Mask(w.srcBits), Mask(w.dstBits)) }

  /** `flow_extract_match` */
  function Extract(m: Match): Key {
    var f, w := m.f, m.w;
    var bare := f.(nwTos := 0, nwProto := 0, nwSrc := ZERO, nwDst := ZERO, tpSrc := 0, tpDst := 0);
    if w.dlType then WithMasks(bare, Tp(AllNw(w), true))
    else if f.dlType == ETH_P_IP then
      var ip := bare.(nwTos := f.nwTos - f.nwTos % 4, nwProto := f.nwProto, nwSrc := f.nwSrc, nwDst := f.nwDst);
      if w.nwProto then WithMasks(ip, Tp(w, true))
      else if HasPorts(f.nwProto) then WithMasks(ip.(tpSrc := f.tpSrc, tpDst := f.tpDst), w)
      else WithMasks(ip, Tp(w, false))
    else WithMasks(bare, Tp(NoNw(w), false))
  }

  /** `flow_fill_match` */
  function Fill(k: Key): Match { Match(k.f, k.w) }

  /** What `flow_extract_match` can produce. */
  predicate Normal(k: Key) {
    && k.srcMask == Mask(k.w.srcBits) && k.dstMask == Mask(k.w.dstBits)
    && (k.w.dlType ==> NoIp(k.f) && k.w == Tp(AllNw(k.w), true))
    && (!k.w.dlType && k.f.dlType != ETH_P_IP ==> NoIp(k.f) && k.w == Tp(NoNw(k.w), false))
    && (!k.w.dlType && k.f.dlType == ETH_P_IP ==>
          && k.f.nwTos % 4 == 0
          && (k.w.nwProto || !HasPorts(k.f.nwProto) ==> k.f.tpSrc == 0 && k.f.tpDst == 0)
          && (k.w.nwProto ==> k.w == Tp(k.w, true))
          && (!k.w.nwProto && !HasPorts(k.f.nwProto) ==> k.w == Tp(k.w, false)))
  }

  /** The least normal key there is. */
  const NULL_KEY := Key(Fields(0, 0, 0, 0, 0, 0, 0, 0, ZERO, ZERO, 0, 0), EXACT, Mask(0), Mask(0))

  type NormalKey = k: Key | Normal(k) witness NULL_KEY

  predicate NoIp(f: Fields) {
    f.nwTos == 0 && f.nwProto == 0 && f.nwSrc == ZERO && f.nwDst == ZERO && f.tpSrc == 0 && f.tpDst == 0
  }

  /** Extraction normalises, and undoes filling in on what it produced. */
  lemma ExtractNormal(m: Match)
    ensures Normal(Extract(m))
  {
  }

  lemma ExtractFill(k: Key)
    requires Normal(k)
    ensures Extract(Fill(k)) == k
  {
  }

  // ----- packets

  /** An 802.1Q tag: the control information, and the type of what is tagged. */
  datatype Tag = Tag(tci: u16, inner: u16)

  /** How a TCP, UDP or ICMP header begins. */
  datatype Transport = Transport(b0: byte, b1: byte, next: u16)

  datatype Ip = Ip(tos: byte, proto: byte, src: Word, dst: Word, fragment: bool, transport: Option<Transport>)

  /**
   What `flow_extract` reads of a frame. A header that is missing or does not pass its test is not there;
   a short frame has no Ethernet header, or could not be pulled.
   */
  datatype Frame = Short | Frame(dst: Mac, src: Mac, proto: u16, snap: Option<u16>, tag: Option<Tag>, ip: Option<Ip>)

  function ExtractedIp(f: Fields, ip: Ip): Fields {
    var nw := f.(nwTos := ip.tos - ip.tos % 4, nwProto := ip.proto, nwSrc := ip.src, nwDst := ip.dst);
    if ip.fragment || !HasPorts(ip.proto) then nw
    else
      match ip.transport
      case None => nw.(nwProto := 0)
      case Some(Transport(b0, b1, next)) =>
        if ip.proto == IPPROTO_ICMP then nw.(tpSrc := b0, tpDst := b1)
        else nw.(tpSrc := FromBe16([b0, b1]), tpDst := next)
  }

  /** `flow_extract` */
  function Extracted(frame: Frame, port: u16): Fields {
    var blank := Fields(port, OFP_VLAN_NONE, 0, 0, 0, 0, 0, 0, ZERO, ZERO, 0, 0);
    match frame
    case Short => blank
    case Frame(dst, src, proto, snap, tag, ip) =>
      var outer := if proto >= OFP_DL_TYPE_ETH2_CUTOFF then proto
                   else if snap.Some? then snap.value
                   else OFP_DL_TYPE_NOT_ETH_TYPE;
      var link := if outer == ETH_P_8021Q && tag.Some? then
                    var tci := tag.value.tci;
                    blank.(dlType := tag.value.inner, dlVlan := tci % 0x1000, dlVlanPcp := tci / 0x2000)
                  else blank.(dlType := outer);
      var f := link.(dlSrc := src, dlDst := dst);
      if f.dlType == ETH_P_IP && ip.Some? then ExtractedIp(f, ip.value) else f
  }

  /** Without a tag there is no VLAN priority; an id has 12 bits and a priority 3. */
  predicate Tagging(vlan: u16, pcp: byte) { (vlan == OFP_VLAN_NONE && pcp == 0) || (vlan < 0x1000 && pcp < 8) }

  /** Type and code of an ICMP message are single bytes. */
  predicate IcmpSized(f: Fields) { f.nwProto == IPPROTO_ICMP ==> f.tpSrc < 0x100 && f.tpDst < 0x100 }

  /** The key of some packet. */
  predicate IsPacket(p: Fields) {
    && Tagging(p.dlVlan, p.dlVlanPcp)
    && (p.dlType != ETH_P_IP ==> NoIp(p))
    && p.nwTos % 4 == 0
    && (!HasPorts(p.nwProto) ==> p.tpSrc == 0 && p.tpDst == 0)
    && IcmpSized(p)
  }

  lemma Packed(p: Fields) returns (frame: Frame)
    requires IsPacket(p)
    ensures Extracted(frame, p.inPort) == p
  {
    var tp := if p.nwProto == IPPROTO_ICMP then Transport(p.tpSrc, p.tpDst, 0)
              else Transport(p.tpSrc / 256, p.tpSrc % 256, p.tpDst);
    var ip := if p.dlType == ETH_P_IP then Some(Ip(p.nwTos, p.nwProto, p.nwSrc, p.nwDst, false, Some(tp))) else None;
    if p.dlVlan == OFP_VLAN_NONE {
      frame := Frame(p.dlDst, p.dlSrc, 0, Some(p.dlType), None, ip);
    } else {
      var vlan: int, pcp: int := p.dlVlan, p.dlVlanPcp;
      frame := Frame(p.dlDst, p.dlSrc, ETH_P_8021Q, None, Some(Tag(vlan + pcp * 0x2000, p.dlType)), ip);
    }
  }

  /** These are exactly the keys that `flow_extract` makes of frames. */
  lemma PacketIffExtracted(p: Fields)
    ensures IsPacket(p) <==> exists frame :: Extracted(frame, p.inPort) == p
  {
    if IsPacket(p) {
      var _ := Packed(p);
    }
  }

  lemma AgreeMerge(a: Word, b: Word, ma: Word, mb: Word) returns (x: Word)
    requires Agree(a, b, And(ma, mb))
    ensures Agree(x, a, ma) && Agree(x, b, mb)
    ensures a == ZERO && b == ZERO ==> x == ZERO
  {
    x := seq(32, i requires 0 <= i < 32 => if ma[i] then a[i] else b[i]);
  }

  lemma AgreeBoth(x: Word, a: Word, b: Word, ma: Word, mb: Word)
    requires Agree(x, a, ma) && Agree(x, b, mb)
    ensures Agree(a, b, And(ma, mb))
  {
  }

  /** The value that one of two fields asks for; where both are wildcarded, zero. */
  function Pick<T>(wildA: bool, a: T, wildB: bool, b: T, zero: T): T {
    if !wildA then a else if !wildB then b else zero
  }

  /** What both keys ask of a packet, addresses aside. */
  function Merged(a: Key, b: Key): Fields {
    var v, w := a.w, b.w;
    Fields(Pick(v.inPort, a.f.inPort, w.inPort, b.f.inPort, 0),
           Pick(v.dlVlan, a.f.dlVlan, w.dlVlan, b.f.dlVlan, 0),
           Pick(v.dlVlanPcp, a.f.dlVlanPcp, w.dlVlanPcp, b.f.dlVlanPcp, 0),
           Pick(v.dlSrc, a.f.dlSrc, w.dlSrc, b.f.dlSrc, 0), Pick(v.dlDst, a.f.dlDst, w.dlDst, b.f.dlDst, 0),
           Pick(v.dlType, a.f.dlType, w.dlType, b.f.dlType, 0), Pick(v.nwTos, a.f.nwTos, w.nwTos, b.f.nwTos, 0),
           Pick(v.nwProto, a.f.nwProto, w.nwProto, b.f.nwProto, 0), ZERO, ZERO,
           Pick(v.tpSrc, a.f.tpSrc, w.tpSrc, b.f.tpSrc, 0), Pick(v.tpDst, a.f.tpDst, w.tpDst, b.f.tpDst, 0))
  }

  /**
   Nothing about the VLAN tag and the ICMP header that the two keys ask for together is impossible: no
   priority without a tag, no value that is too large.
   */
  predicate Possible(a: Key, b: Key) {
    Tagging(Merged(a, b).dlVlan, Merged(a, b).dlVlanPcp) && IcmpSized(Merged(a, b))
  }

  /** A packet that both keys match, when they overlap and ask for nothing impossible. */
  lemma SharedPacket(a: Key, b: Key) returns (p: Fields)
    requires Normal(a) && Normal(b) && Overlap(a, b) && Possible(a, b)
    ensures IsPacket(p) && Matches(p, a) && Matches(p, b)
  {
    var src := AgreeMerge(a.f.nwSrc, b.f.nwSrc, a.srcMask, b.srcMask);
    var dst := AgreeMerge(a.f.nwDst, b.f.nwDst, a.dstMask, b.dstMask);
    p := Merged(a, b).(nwSrc := src, nwDst := dst);
  }

  lemma SharedMeansOverlap(a: Key, b: Key, p: Fields)
    requires Matches(p, a) && Matches(p, b)
    ensures Overlap(a, b)
  {
    AgreeBoth(p.nwSrc, a.f.nwSrc, b.f.nwSrc, a.srcMask, b.srcMask);
    AgreeBoth(p.nwDst, a.f.nwDst, b.f.nwDst, a.dstMask, b.dstMask);
  }

  ghost predicate SharesPacket(a: Key, b: Key) { exists p :: IsPacket(p) && Matches(p, a) && Matches(p, b) }

  lemma SharedMeansPossible(a: Key, b: Key, p: Fields)
    requires Normal(a) && Normal(b) && IsPacket(p) && Matches(p, a) && Matches(p, b)
    ensures Possible(a, b)
  {
  }

  /**
   Two keys that some packet matches overlap; two keys that overlap have such a packet exactly if they ask
   for nothing impossible.
   */
  lemma SharedIff(a: Key, b: Key)
    requires Normal(a) && Normal(b)
    ensures SharesPacket(a, b) <==> Overlap(a, b) && Possible(a, b)
  {
    if SharesPacket(a, b) {
      var p :| IsPacket(p) && Matches(p, a) && Matches(p, b);
      SharedMeansOverlap(a, b, p);
      SharedMeansPossible(a, b, p);
    }
    if Overlap(a, b) && Possible(a, b) {
      var p := SharedPacket(a, b);
    }
  }

  /** Untagged frames, and frames of VLAN priority 3: the keys overlap, and no packet matches both. */
  const UNTAGGED := Extract(Match(NULL_KEY.f.(dlVlan := OFP_VLAN_NONE), ANY.(dlVlan := false)))
  const PRIORITY3 := Extract(Match(NULL_KEY.f.(dlVlanPcp := 3), ANY.(dlVlanPcp := false)))

  lemma OverlapWithoutPacket()
    ensures Overlap(UNTAGGED, PRIORITY3) && !SharesPacket(UNTAGGED, PRIORITY3)
  {
    MaskEnds();
    SharedIff(UNTAGGED, PRIORITY3);
  }

  // ----- exact keys

  lemma MaskEnds()
    ensures Mask(0) == ONES && Mask(63) == ZERO
  {
  }

  /** A key without wildcards matches one packet. */
  lemma ExactMatches(p: Fields, k: Key)
    requires Normal(k) && k.w == EXACT
    ensures Matches(p, k) <==> p == k.f
  {
    MaskEnds();
    AgreeAll(p.nwSrc, k.f.nwSrc);
    AgreeAll(p.nwDst, k.f.nwDst);
  }

  lemma AgreeAll(a: Word, b: Word)
    ensures Agree(a, b, ONES) <==> a == b
  {
  }

  /** Same wildcards, same fields where they are not wildcarded. */
  predicate SameKey(a: Key, b: Key) { a.w == b.w && Overlap(a, b) }

  lemma AgreeEquivalence(a: Word, b: Word, c: Word, m: Word)
    ensures And(m, m) == m && Agree(a, a, m)
    ensures Agree(a, b, m) ==> Agree(b, a, m)
    ensures Agree(a, b, m) && Agree(b, c, m) ==> Agree(a, c, m)
  {
  }

  lemma SameKeyEquivalence(a: Key, b: Key, c: Key)
    requires Normal(a) && Normal(b) && Normal(c)
    ensures SameKey(a, a)
    ensures SameKey(a, b) ==> SameKey(b, a)
    ensures SameKey(a, b) && SameKey(b, c) ==> SameKey(a, c)
  {
    AgreeEquivalence(a.f.nwSrc, b.f.nwSrc, c.f.nwSrc, a.srcMask);
    AgreeEquivalence(a.f.nwDst, b.f.nwDst, c.f.nwDst, a.dstMask);
  }

  lemma SameExact(a: Key, b: Key)
    requires Normal(a) && Normal(b) && a.w == b.w == EXACT
    ensures SameKey(a, b) <==> a == b
    ensures a == b <==> a.f == b.f
  {
    MaskEnds();
    AgreeAll(a.f.nwSrc, b.f.nwSrc);
    AgreeAll(a.f.nwDst, b.f.nwDst);
    AgreeEquivalence(a.f.nwSrc, b.f.nwSrc, ZERO, a.srcMask);
  }
}
