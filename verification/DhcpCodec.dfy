/**
 The DHCP wire format: what `dhcp_assemble` writes, what `dhcp_parse` reads, and that reading undoes
 writing. Options longer than 255 bytes are split and re-joined as section 4.1 of RFC 2131 says.
 */
module DhcpCodec {
  import opened Bytes
  import opened Seqs
  import opened DhcpArena

  const BOOTREQUEST: byte := 1
  const BOOTREPLY: byte := 2
  const ETHERNET: byte := 1
  const ETH_ADDR_LEN: byte := 6
  const HEADER_LEN := 236
  const COOKIE: seq<byte> := [0x63, 0x82, 0x53, 0x63]
  const VENDOR_OFS := 256

  const VENDOR_SPECIFIC := 43
  const OPTION_OVERLOAD := 52
  const MSG_TYPE := 53
  const VENDOR_CLASS := 60
  const OPENFLOW: seq<byte> := [79, 112, 101, 110, 70, 108, 111, 119]

  /** An IP address, kept in network byte order. */
  type Ip = s: seq<byte> | |s| == 4 witness [0, 0, 0, 0]
  type Mac = s: seq<byte> | |s| == 6 witness [0, 0, 0, 0, 0, 0]

  datatype Header = Header(op: byte, xid: u32, secs: u16, flags: u16,
                           ciaddr: Ip, yiaddr: Ip, siaddr: Ip, giaddr: Ip, chaddr: Mac)

  /** `struct dhcp_msg`. */
  datatype Msg = Msg(header: Header, kind: byte, options: map<nat, seq<byte>>)

  function Zeros(n: nat): seq<byte> { seq(n, _ => 0) }

  // ----- writing

  function Chunk(code: byte, d: seq<byte>): seq<byte>
    requires |d| < 256
  {
    [code, |d|] + d
  }

  /** `put_option`: chunks of 248 bytes while more than 255 remain. */
  function Chunks(code: byte, d: seq<byte>): seq<byte> {
    if |d| > 255 then Chunk(code, d[..248]) + Chunks(code, d[248..]) else Chunk(code, d)
  }

  /** The options with codes `lo..hi`, each under its code less `base`. */
  function Listing(m: map<nat, seq<byte>>, lo: nat, hi: nat, base: nat): seq<byte>
    requires base <= lo && hi <= base + 256
    decreases |m|, hi - lo
  {
    if lo >= hi then []
    else (if lo in m then Chunks(lo - base, m[lo]) else []) + Listing(m, lo + 1, hi, base)
  }

  function VendorBytes(m: map<nat, seq<byte>>): seq<byte> { Listing(m, VENDOR_OFS, N_OPTIONS, VENDOR_OFS) }

  /** Option 43 around the vendor options, if there are any. */
  function Wrapped(v: seq<byte>): seq<byte> { if v != [] then Chunks(VENDOR_SPECIFIC, v) else [] }

  function HeaderBytes(h: Header): seq<byte> {
    [h.op, ETHERNET, ETH_ADDR_LEN, 0] + Be32(h.xid) + Be16(h.secs) + Be16(h.flags)
    + h.ciaddr + h.yiaddr + h.siaddr + h.giaddr + h.chaddr + Zeros(10 + 64 + 128)
  }

  function OptionBytes(kind: byte, m: map<nat, seq<byte>>): seq<byte> {
    (if kind != 0 then Chunks(MSG_TYPE, [kind]) else [])
    + Listing(m, 0, VENDOR_OFS, 0)
    + Wrapped(VendorBytes(m))
    + [END]
  }

  /** `dhcp_assemble` */
  function Encode(msg: Msg): seq<byte> {
    HeaderBytes(msg.header) + COOKIE + OptionBytes(msg.kind, msg.options)
  }

  // ----- reading

  /** `parse_options` */
  function ParseInto(s: Store, b: seq<byte>, ofs: nat): Store
    decreases |b|
  {
    if b == [] || b[0] == END then s
    else if b[0] == PAD then ParseInto(s, b[1..], ofs)
    else if |b| < 2 then s
    else
      var code: int, len: int := b[0], b[1];
      if |b| < 2 + len then s
      else ParseInto(Appended(s, code + ofs, b[2..2 + len]), b[2 + len..], ofs)
  }

  /** Bytes per argument, fewest and (if bounded) most arguments of an option. */
  datatype Class = Class(size: nat, min: nat, bounded: bool)

  function ClassOf(code: nat): Class {
    if code in {1, 28, 32, 50, 54, 2, 24, 35, 38, 51, 58, 59} then Class(4, 1, true)
    else if code in {3, 6, 9, 41, 42, 44, 45, 48, 49, 65, 69, 70, 71, 72, 73, 74} then Class(4, 1, false)
    else if code in {21, 33} then Class(4, 2, false)
    else if code == 68 then Class(4, 0, false)
    else if code in {13, 22, 26, 57} then Class(2, 1, true)
    else if code == 25 then Class(2, 2, false)
    else if code in {19, 20, 23, 27, 29, 30, 31, 36, 37, 39, 46, 52, 53} then Class(1, 1, true)
    else if code in {12, 15, 17, 18, 40, 43, 47, 55, 56, 60, 64, 66, 67, 257, 258} then Class(1, 1, false)
    else if code == 61 then Class(1, 2, false)
    else Class(1, 0, false)
  }

  /** `validate_options`: a whole number of arguments, neither too few nor too many. */
  predicate ValidLength(code: nat, n: nat) {
    var c := ClassOf(code);
    c.size > 0 && n % c.size == 0 && c.min <= n / c.size && (c.bounded ==> n / c.size <= 1)
  }

  function Kept(m: map<nat, seq<byte>>, ok: (nat, nat) -> bool): map<nat, seq<byte>> {
    map c | c in m && ok(c, |m[c]|) :: m[c]
  }

  function Validated(m: map<nat, seq<byte>>): map<nat, seq<byte>> { Kept(m, ValidLength) }

  /** `strcmp(..., "OpenFlow") == 0` on the NUL-terminated copy of an option. */
  predicate IsOpenFlow(m: map<nat, seq<byte>>) {
    VENDOR_CLASS in m && OPENFLOW <= m[VENDOR_CLASS] &&
    (|m[VENDOR_CLASS]| > 8 ==> m[VENDOR_CLASS][8] == 0)
  }

  function ParseHeader(b: seq<byte>): Header
    requires |b| >= HEADER_LEN
  {
    Header(b[0], FromBe32(b[4..8]), FromBe16(b[8..10]), FromBe16(b[10..12]),
           b[12..16], b[16..20], b[20..24], b[24..28], b[28..34])
  }

  function Overload(m: map<nat, seq<byte>>): byte {
    if OPTION_OVERLOAD in m && m[OPTION_OVERLOAD] != [] then m[OPTION_OVERLOAD][0] else 0
  }

  /** The options proper, then those in `file` and in `sname` if OPTION_OVERLOAD says so. */
  function ParseFields(b: seq<byte>, opts: seq<byte>): Store
    requires |b| >= HEADER_LEN
  {
    var s := ParseInto(EMPTY, opts, 0);
    var o := Overload(s.m);
    var s := if o % 2 == 1 then ParseInto(s, b[108..236], 0) else s;
    if o / 2 % 2 == 1 then ParseInto(s, b[44..108], 0) else s
  }

  function ParseVendor(s: Store): Store {
    if IsOpenFlow(s.m) then ParseInto(s, Content(s.m, VENDOR_SPECIFIC), VENDOR_OFS) else s
  }

  datatype Result = Ok(msg: Msg) | Error

  /**
   `dhcp_parse`. `width` is how many bytes are pulled for the cookie: the source pulls
   `sizeof cookie`, the size of a pointer.
   */
  function Decode(b: seq<byte>, width: nat): Result {
    if |b| < HEADER_LEN then Error
    else if b[0] != BOOTREPLY && b[0] != BOOTREQUEST then Error
    else if b[1] != ETHERNET || b[2] != ETH_ADDR_LEN then Error
    else
      var rest := b[HEADER_LEN..];
      var s := if |rest| >= width && COOKIE <= rest then ParseFields(b, rest[width..]) else EMPTY;
      Finish(ParseHeader(b), Validated(ParseVendor(s).m))
  }

  /** A message without a type is rejected. */
  function Finish(h: Header, m: map<nat, seq<byte>>): Result {
    if MSG_TYPE in m && m[MSG_TYPE] != [] then Ok(Msg(h, m[MSG_TYPE][0], m)) else Error
  }

  // ----- one option

  lemma AppendTwice(s: Store, code: nat, a: seq<byte>, b: seq<byte>)
    requires code != PAD && code != END && (s.ready || a != [])
    ensures Appended(Appended(s, code, a), code, b) == Appended(s, code, a + b)
  {
    Assoc(Content(s.m, code), a, b);
  }

  /** Reading `w`, whatever comes after it, takes the store from `s` to `t`. */
  ghost predicate Reads(s: Store, w: seq<byte>, t: Store, ofs: nat) {
    forall rest {:trigger ParseInto(s, w + rest, ofs)} :: ParseInto(s, w + rest, ofs) == ParseInto(t, rest, ofs)
  }

  lemma ReadsSeq(s: Store, a: seq<byte>, t: Store, b: seq<byte>, u: Store, ofs: nat)
    requires Reads(s, a, t, ofs) && Reads(t, b, u, ofs)
    ensures Reads(s, a + b, u, ofs)
  {
    forall rest ensures ParseInto(s, (a + b) + rest, ofs) == ParseInto(u, rest, ofs) {
      Assoc(a, b, rest);
    }
  }

  lemma ReadsNothing(s: Store, ofs: nat)
    ensures Reads(s, [], s, ofs)
  {
    forall rest: seq<byte> ensures ParseInto(s, [] + rest, ofs) == ParseInto(s, rest, ofs) {
      Unit(rest);
    }
  }

  lemma ChunkReads(s: Store, code: byte, d: seq<byte>, ofs: nat)
    requires code != PAD && code != END && |d| < 256
    ensures Reads(s, Chunk(code, d), Appended(s, code + ofs, d), ofs)
  {
    forall rest ensures ParseInto(s, Chunk(code, d) + rest, ofs) == ParseInto(Appended(s, code + ofs, d), rest, ofs) {
      var b := Chunk(code, d) + rest;
      assert b[2..2 + |d|] == d && b[2 + |d|..] == rest;
    }
  }

  /** However long, an option is read back whole. */
  lemma {:induction false} ChunksRead(s: Store, code: byte, d: seq<byte>, ofs: nat)
    requires code != PAD && code != END && code + ofs != END && (s.ready || d != [])
    ensures Reads(s, Chunks(code, d), Appended(s, code + ofs, d), ofs)
    decreases |d|
  {
    if |d| > 255 {
      var a, z := d[..248], d[248..];
      var t := Appended(s, code + ofs, a);
      ChunkReads(s, code, a, ofs);
      ChunksRead(t, code, z, ofs);
      AppendTwice(s, code + ofs, a, z);
      assert d == a + z;
      ReadsSeq(s, Chunk(code, a), t, Chunks(code, z), Appended(s, code + ofs, d), ofs);
    } else {
      ChunkReads(s, code, d, ofs);
    }
  }

  // ----- a range of options

  /** Options of `m` with codes in `lo..hi` put one after the other. */
  function AppendRange(s: Store, m: map<nat, seq<byte>>, lo: nat, hi: nat): Store
    decreases |m|, hi - lo
  {
    if lo >= hi then s
    else AppendRange(if lo in m then Appended(s, lo, m[lo]) else s, m, lo + 1, hi)
  }

  /** None of the codes is one the wire gives another meaning. */
  predicate Nameable(m: map<nat, seq<byte>>, lo: nat, hi: nat, base: nat) {
    forall c :: c in m && lo <= c < hi ==> c - base != PAD && c - base != END && c != END && c != PAD
  }

  lemma ListingReadsStep(s: Store, m: map<nat, seq<byte>>, lo: nat, hi: nat, base: nat, t: Store, u: Store)
    requires base <= lo < hi <= base + 256 && s.ready && Nameable(m, lo, hi, base)
    requires t == if lo in m then Appended(s, lo, m[lo]) else s
    requires Reads(t, Listing(m, lo + 1, hi, base), u, base)
    ensures Reads(s, Listing(m, lo, hi, base), u, base)
  {
    var tail := Listing(m, lo + 1, hi, base);
    if lo in m {
      ChunksRead(s, lo - base, m[lo], base);
      ReadsSeq(s, Chunks(lo - base, m[lo]), t, tail, u, base);
    } else {
      Unit(tail);
    }
  }

  lemma {:induction false} ListingReads(s: Store, m: map<nat, seq<byte>>, lo: nat, hi: nat, base: nat)
    requires base <= lo && hi <= base + 256 && s.ready && Nameable(m, lo, hi, base)
    ensures Reads(s, Listing(m, lo, hi, base), AppendRange(s, m, lo, hi), base)
    decreases hi - lo
  {
    if lo >= hi {
      ReadsNothing(s, base);
    } else {
      var t := if lo in m then Appended(s, lo, m[lo]) else s;
      ListingReads(t, m, lo + 1, hi, base);
      ListingReadsStep(s, m, lo, hi, base, t, AppendRange(s, m, lo, hi));
    }
  }

  function Slice(m: map<nat, seq<byte>>, lo: nat, hi: nat): map<nat, seq<byte>> {
    map c | c in m && lo <= c < hi :: m[c]
  }

  lemma SliceStep(a: map<nat, seq<byte>>, m: map<nat, seq<byte>>, lo: nat, hi: nat)
    requires lo < hi
    ensures lo in m ==> a[lo := m[lo]] + Slice(m, lo + 1, hi) == a + Slice(m, lo, hi)
    ensures lo !in m ==> Slice(m, lo + 1, hi) == Slice(m, lo, hi)
  {
  }

  lemma AppendedNew(s: Store, c: nat, d: seq<byte>)
    requires s.ready && c != PAD && c != END && c !in s.m
    ensures Appended(s, c, d) == Store(s.m[c := d], true)
  {
    Unit(d);
  }

  /** Putting options that were not there adds them as they are. */
  lemma {:induction false} AppendRangeIs(s: Store, m: map<nat, seq<byte>>, lo: nat, hi: nat)
    requires s.ready && (forall c :: c in m && lo <= c < hi ==> c != PAD && c != END && c !in s.m)
    ensures AppendRange(s, m, lo, hi) == Store(s.m + Slice(m, lo, hi), true)
    decreases hi - lo
  {
    if lo >= hi {
      assert s.m + Slice(m, lo, hi) == s.m;
    } else if lo in m {
      AppendedNew(s, lo, m[lo]);
      AppendRangeIs(Store(s.m[lo := m[lo]], true), m, lo + 1, hi);
      SliceStep(s.m, m, lo, hi);
    } else {
      AppendRangeIs(s, m, lo + 1, hi);
      SliceStep(s.m, m, lo, hi);
    }
  }

  // ----- the fixed part

  lemma HeaderFields(h: Header, tail: seq<byte>)
    ensures |HeaderBytes(h)| == HEADER_LEN && ParseHeader(HeaderBytes(h) + tail) == h
  {
    var b := HeaderBytes(h) + tail;
    BeRoundTrip(h.xid, h.secs);
    BeRoundTrip(h.xid, h.flags);
    assert b[4..8] == Be32(h.xid) && b[8..10] == Be16(h.secs) && b[10..12] == Be16(h.flags);
    assert b[12..16] == h.ciaddr && b[16..20] == h.yiaddr && b[20..24] == h.siaddr && b[24..28] == h.giaddr;
    assert b[28..34] == h.chaddr;
  }

  lemma HeaderLayout(h: Header, tail: seq<byte>)
    ensures |HeaderBytes(h)| == HEADER_LEN
    ensures var b := HeaderBytes(h) + tail;
            && b[0] == h.op && b[1] == ETHERNET && b[2] == ETH_ADDR_LEN
            && ParseHeader(b) == h
            && b[44..108] == Zeros(64) && b[108..236] == Zeros(128)
            && b[HEADER_LEN..] == tail
  {
    HeaderFields(h, tail);
    var b := HeaderBytes(h) + tail;
    assert b[44..108] == Zeros(64) && b[108..236] == Zeros(128);
    assert b[HEADER_LEN..] == tail;
  }

  lemma {:induction false} ZerosParse(s: Store, n: nat, ofs: nat)
    ensures ParseInto(s, Zeros(n), ofs) == s
  {
    if n > 0 {
      assert Zeros(n)[1..] == Zeros(n - 1);
      ZerosParse(s, n - 1, ofs);
    }
  }

  // ----- whole messages

  /** Codes the wire or the message itself reserves are not used as options. */
  predicate Sendable(msg: Msg) {
    && (msg.header.op == BOOTREQUEST || msg.header.op == BOOTREPLY)
    && msg.kind != 0
    && (forall c :: c in msg.options ==> c < N_OPTIONS)
    && (forall c :: c in {0, VENDOR_SPECIFIC, MSG_TYPE, 255, 256, 511} ==> c !in msg.options)
  }

  function VendorOption(v: seq<byte>): map<nat, seq<byte>> {
    if v != [] then map[VENDOR_SPECIFIC := v] else map[]
  }

  /** What is read before vendor options are looked at. */
  function Standard(msg: Msg): map<nat, seq<byte>> {
    map[MSG_TYPE := [msg.kind]] + Slice(msg.options, 0, VENDOR_OFS) + VendorOption(VendorBytes(msg.options))
  }

  lemma VendorReads(s: Store, v: seq<byte>)
    requires s.ready && VENDOR_SPECIFIC !in s.m
    ensures Reads(s, Wrapped(v), Store(s.m + VendorOption(v), true), 0)
  {
    if v != [] {
      ChunksRead(s, VENDOR_SPECIFIC, v, 0);
      Unit(v);
      assert s.m[VENDOR_SPECIFIC := v] == s.m + VendorOption(v);
    } else {
      ReadsNothing(s, 0);
      assert s.m + VendorOption(v) == s.m;
    }
  }

  lemma TypeReads(kind: byte)
    ensures Reads(EMPTY, Chunks(MSG_TYPE, [kind]), Store(map[MSG_TYPE := [kind]], true), 0)
  {
    Unit([kind]);
    assert Appended(EMPTY, MSG_TYPE, [kind]) == Store(map[MSG_TYPE := [kind]], true);
    ChunksRead(EMPTY, MSG_TYPE, [kind], 0);
  }

  lemma StandardReads(s: Store, m: map<nat, seq<byte>>)
    requires s.ready && 0 !in m && 255 !in m && (forall c :: c in s.m ==> c !in m)
    ensures Reads(s, Listing(m, 0, VENDOR_OFS, 0), Store(s.m + Slice(m, 0, VENDOR_OFS), true), 0)
  {
    ListingReads(s, m, 0, VENDOR_OFS, 0);
    AppendRangeIs(s, m, 0, VENDOR_OFS);
  }

  lemma ReadsAll(s: Store, w: seq<byte>, t: Store, ofs: nat)
    requires Reads(s, w, t, ofs)
    ensures ParseInto(s, w, ofs) == t
  {
    Unit(w);
    assert ParseInto(s, w + [], ofs) == ParseInto(t, [], ofs);
  }

  lemma EndsHere(s: Store, w: seq<byte>, t: Store, ofs: nat)
    requires Reads(s, w, t, ofs)
    ensures ParseInto(s, w + [END], ofs) == t
  {
  }

  lemma OptionsParse(msg: Msg)
    requires Sendable(msg)
    ensures ParseInto(EMPTY, OptionBytes(msg.kind, msg.options), 0) == Store(Standard(msg), true)
  {
    var m, v := msg.options, VendorBytes(msg.options);
    var w1, w2 := Chunks(MSG_TYPE, [msg.kind]), Listing(m, 0, VENDOR_OFS, 0);
    var s1 := Store(map[MSG_TYPE := [msg.kind]], true);
    var s2, s3 := Store(s1.m + Slice(m, 0, VENDOR_OFS), true), Store(Standard(msg), true);
    TypeReads(msg.kind);
    StandardReads(s1, m);
    VendorReads(s2, v);
    ReadsSeq(EMPTY, w1, s1, w2, s2, 0);
    ReadsSeq(EMPTY, w1 + w2, s2, Wrapped(v), s3, 0);
    EndsHere(EMPTY, w1 + w2 + Wrapped(v), s3, 0);
  }

  /** The overloaded fields of an assembled message are empty. */
  lemma FieldsParse(msg: Msg)
    requires Sendable(msg)
    ensures ParseFields(Encode(msg), OptionBytes(msg.kind, msg.options)) == Store(Standard(msg), true)
  {
    HeaderLayout(msg.header, COOKIE + OptionBytes(msg.kind, msg.options));
    Assoc(HeaderBytes(msg.header), COOKIE, OptionBytes(msg.kind, msg.options));
    OptionsParse(msg);
    ZerosParse(Store(Standard(msg), true), 64, 0);
    ZerosParse(Store(Standard(msg), true), 128, 0);
  }

  /** Everything that reaches the receiver, before options of the wrong length are dropped. */
  function Arriving(msg: Msg): map<nat, seq<byte>> {
    Standard(msg) + if IsOpenFlow(msg.options) then Slice(msg.options, VENDOR_OFS, N_OPTIONS) else map[]
  }

  lemma VendorParse(m: map<nat, seq<byte>>, s: Store, v: seq<byte>)
    requires s.ready && v == VendorBytes(m) == Content(s.m, VENDOR_SPECIFIC)
    requires (forall c :: c in s.m ==> c < VENDOR_OFS) && 256 !in m && 511 !in m
    ensures ParseInto(s, v, VENDOR_OFS) == Store(s.m + Slice(m, VENDOR_OFS, N_OPTIONS), true)
  {
    ListingReads(s, m, VENDOR_OFS, N_OPTIONS, VENDOR_OFS);
    AppendRangeIs(s, m, VENDOR_OFS, N_OPTIONS);
    ReadsAll(s, v, AppendRange(s, m, VENDOR_OFS, N_OPTIONS), VENDOR_OFS);
  }

  lemma VendorArrives(msg: Msg)
    requires Sendable(msg)
    ensures ParseVendor(Store(Standard(msg), true)).m == Arriving(msg)
  {
    var m, s := msg.options, Store(Standard(msg), true);
    assert IsOpenFlow(s.m) == IsOpenFlow(m);
    if IsOpenFlow(m) {
      VendorParse(m, s, VendorBytes(m));
    } else {
      assert Standard(msg) + map[] == Standard(msg);
    }
  }

  lemma EncodeLayout(msg: Msg)
    ensures var b := Encode(msg);
            && |b| >= HEADER_LEN && b[0] == msg.header.op && b[1] == ETHERNET && b[2] == ETH_ADDR_LEN
            && ParseHeader(b) == msg.header
            && b[HEADER_LEN..] == COOKIE + OptionBytes(msg.kind, msg.options)
  {
    var opts := OptionBytes(msg.kind, msg.options);
    Assoc(HeaderBytes(msg.header), COOKIE, opts);
    HeaderLayout(msg.header, COOKIE + opts);
  }

  lemma DecodeWith(b: seq<byte>, h: Header, kind: byte, opts: seq<byte>, s: Store, m: map<nat, seq<byte>>)
    requires |b| >= HEADER_LEN && b[0] in {BOOTREPLY, BOOTREQUEST} && b[1] == ETHERNET && b[2] == ETH_ADDR_LEN
    requires ParseHeader(b) == h && b[HEADER_LEN..] == COOKIE + opts && ParseFields(b, opts) == s
    requires ParseVendor(s).m == m && MSG_TYPE in m && m[MSG_TYPE] == [kind]
    ensures Decode(b, 4) == Ok(Msg(h, kind, Validated(m)))
  {
    assert b[HEADER_LEN..][4..] == opts;
    assert ValidLength(MSG_TYPE, 1);
  }

  /** What decoding an assembled message yields, for every message that can be sent at all. */
  lemma DecodeEncode(msg: Msg)
    requires Sendable(msg)
    ensures Decode(Encode(msg), 4) == Ok(Msg(msg.header, msg.kind, Validated(Arriving(msg))))
  {
    var opts, std := OptionBytes(msg.kind, msg.options), Store(Standard(msg), true);
    EncodeLayout(msg);
    FieldsParse(msg);
    VendorArrives(msg);
    TypeArrives(msg);
    DecodeWith(Encode(msg), msg.header, msg.kind, opts, std, Arriving(msg));
  }

  lemma TypeArrives(msg: Msg)
    requires Sendable(msg)
    ensures MSG_TYPE in Arriving(msg) && Arriving(msg)[MSG_TYPE] == [msg.kind]
  {
  }

  /** The message as the receiver should see it: with option 53, and option 43 if vendor options were set. */
  function Expected(msg: Msg): Msg {
    msg.(options := msg.options + map[MSG_TYPE := [msg.kind]] + VendorOption(VendorBytes(msg.options)))
  }

  predicate HasVendor(m: map<nat, seq<byte>>) { exists c :: c in m && c >= VENDOR_OFS }

  /** The maps the round trip compares, with the vendor bytes and the class check as parameters. */
  function ArrivingMap(m: map<nat, seq<byte>>, kind: byte, v: seq<byte>, open: bool): map<nat, seq<byte>> {
    map[MSG_TYPE := [kind]] + Slice(m, 0, VENDOR_OFS) + VendorOption(v)
    + if open then Slice(m, VENDOR_OFS, N_OPTIONS) else map[]
  }

  function ExpectedMap(m: map<nat, seq<byte>>, kind: byte, v: seq<byte>): map<nat, seq<byte>> {
    m + map[MSG_TYPE := [kind]] + VendorOption(v)
  }

  lemma KeptAll(m: map<nat, seq<byte>>, ok: (nat, nat) -> bool)
    requires forall c :: c in m ==> ok(c, |m[c]|)
    ensures Kept(m, ok) == m
  {
  }

  /** All options, cut at the first vendor option, are the options. */
  lemma ArrivingIs(m: map<nat, seq<byte>>, kind: byte, v: seq<byte>, open: bool)
    requires (forall c :: c in m ==> c < N_OPTIONS) && MSG_TYPE !in m && VENDOR_SPECIFIC !in m
    requires HasVendor(m) ==> open
    ensures ArrivingMap(m, kind, v, open) == ExpectedMap(m, kind, v)
  {
  }

  lemma NothingLost(m: map<nat, seq<byte>>, kind: byte, v: seq<byte>, open: bool, ok: (nat, nat) -> bool)
    requires (forall c :: c in m ==> c < N_OPTIONS) && MSG_TYPE !in m && VENDOR_SPECIFIC !in m
    requires ok(MSG_TYPE, 1) && (v != [] ==> ok(VENDOR_SPECIFIC, |v|))
    requires (forall c :: c in m ==> ok(c, |m[c]|)) && (HasVendor(m) ==> open)
    ensures Kept(ArrivingMap(m, kind, v, open), ok) == ExpectedMap(m, kind, v)
  {
    ArrivingIs(m, kind, v, open);
    KeptAll(ExpectedMap(m, kind, v), ok);
  }

  lemma SomethingLost(m: map<nat, seq<byte>>, kind: byte, v: seq<byte>, open: bool, ok: (nat, nat) -> bool, c: nat)
    requires c in m && c != MSG_TYPE && c != VENDOR_SPECIFIC
    requires !ok(c, |m[c]|) || (c >= VENDOR_OFS && !open)
    ensures Kept(ArrivingMap(m, kind, v, open), ok) != ExpectedMap(m, kind, v)
  {
    assert c in ExpectedMap(m, kind, v);
    assert c !in Kept(ArrivingMap(m, kind, v, open), ok);
  }

  /**
   The round trip, and exactly when it holds: parsing an assembled message returns the same
   header, type and options if and only if every option has a length its class allows and vendor
   options are used with vendor class "OpenFlow" only.
   */
  lemma RoundTripIff(msg: Msg)
    requires Sendable(msg)
    ensures Decode(Encode(msg), 4) == Ok(Expected(msg))
       <==> && (forall c :: c in msg.options ==> ValidLength(c, |msg.options[c]|))
            && (HasVendor(msg.options) ==> IsOpenFlow(msg.options))
  {
    DecodeEncode(msg);
    var m, v, open := msg.options, VendorBytes(msg.options), IsOpenFlow(msg.options);
    if exists c :: c in m && !ValidLength(c, |m[c]|) {
      var c :| c in m && !ValidLength(c, |m[c]|);
      SomethingLost(m, msg.kind, v, open, ValidLength, c);
    } else if HasVendor(m) && !open {
      var c :| c in m && c >= VENDOR_OFS;
      SomethingLost(m, msg.kind, v, open, ValidLength, c);
    } else {
      ClassesOfTypeAndVendor(|v|);
      NothingLost(m, msg.kind, v, open, ValidLength);
    }
  }

  lemma ClassesOfTypeAndVendor(n: nat)
    ensures ValidLength(MSG_TYPE, 1) && (n > 0 ==> ValidLength(VENDOR_SPECIFIC, n))
  {
  }

  /** With 8-byte pointers the cookie read swallows the type option: a message without options never parses. */
  lemma WidePointerLosesType(msg: Msg)
    requires Sendable(msg) && msg.options == map[]
    ensures Decode(Encode(msg), 8) == Error
  {
    assert OptionBytes(msg.kind, msg.options) == [MSG_TYPE, 1, msg.kind, END] by {
      EmptyListing(msg.options, 0, VENDOR_OFS, 0);
      EmptyListing(msg.options, VENDOR_OFS, N_OPTIONS, VENDOR_OFS);
    }
    EncodeLayout(msg);
    DecodeNothing(Encode(msg), [MSG_TYPE, 1, msg.kind, END]);
  }

  lemma DecodeNothing(b: seq<byte>, opts: seq<byte>)
    requires |b| >= HEADER_LEN && b[HEADER_LEN..] == COOKIE + opts && |opts| == 4
    ensures Decode(b, 8) == Error
  {
    assert b[HEADER_LEN..][8..] == [];
    assert Overload(map[]) == 0;
  }

  lemma {:induction false} EmptyListing(m: map<nat, seq<byte>>, lo: nat, hi: nat, base: nat)
    requires base <= lo && hi <= base + 256 && forall c :: lo <= c < hi ==> c !in m
    ensures Listing(m, lo, hi, base) == []
    decreases hi - lo
  {
    if lo < hi {
      EmptyListing(m, lo + 1, hi, base);
    }
  }

  // ----- eight bytes for the cookie: the length of the type option is lost, and nothing can stand in for it

  /** How many of the bytes are 1. */
  function Ones(b: seq<byte>): nat {
    if b == [] then 0 else (if b[0] == 1 then 1 else 0) + Ones(b[1..])
  }

  lemma {:induction false} OnesConcat(a: seq<byte>, b: seq<byte>)
    ensures Ones(a + b) == Ones(a) + Ones(b)
  {
    if a == [] {
      assert a + b == b;
    } else {
      OnesConcat(a[1..], b);
      assert (a + b)[1..] == a[1..] + b;
    }
  }

  /** In one chunk: the code, the length and the data. */
  function OnesOf(code: nat, d: seq<byte>): nat {
    (if code == 1 then 1 else 0) + (if |d| == 1 then 1 else 0) + Ones(d)
  }

  /** In the options with codes `lo..hi`, one chunk each. */
  function OnesIn(m: map<nat, seq<byte>>, lo: nat, hi: nat): nat
    decreases |m|, hi - lo
  {
    if lo >= hi then 0 else (if lo in m then OnesOf(lo, m[lo]) else 0) + OnesIn(m, lo + 1, hi)
  }

  lemma {:induction false} OnesUpdate(m: map<nat, seq<byte>>, c: nat, d: seq<byte>, lo: nat, hi: nat)
    ensures OnesIn(m[c := d], lo, hi) ==
              OnesIn(m, lo, hi) + if lo <= c < hi then OnesOf(c, d) - (if c in m then OnesOf(c, m[c]) else 0) else 0
    decreases hi - lo
  {
    if lo < hi {
      OnesUpdate(m, c, d, lo + 1, hi);
    }
  }

  lemma {:induction false} OnesKept(m: map<nat, seq<byte>>, ok: (nat, nat) -> bool, lo: nat, hi: nat)
    ensures OnesIn(Kept(m, ok), lo, hi) <= OnesIn(m, lo, hi)
    decreases hi - lo
  {
    if lo < hi {
      OnesKept(m, ok, lo + 1, hi);
    }
  }

  /** Joined to what was read before, a chunk does not count for more. */
  lemma AppendedOnes(s: Store, code: nat, d: seq<byte>, hi: nat)
    ensures OnesIn(Appended(s, code, d).m, 0, hi) <= OnesIn(s.m, 0, hi) + if code < hi then OnesOf(code, d) else 0
  {
    OnesUpdate(s.m, code, Content(s.m, code) + d, 0, hi);
    OnesConcat(Content(s.m, code), d);
  }

  /** The first option of `b` is read. */
  lemma ParseOne(s: Store, b: seq<byte>, ofs: nat) returns (n: nat, t: Store)
    requires b != [] && b[0] != END && ParseInto(s, b, ofs) != s
    ensures 0 < n <= |b| && ParseInto(s, b, ofs) == ParseInto(t, b[n..], ofs)
    ensures b[0] == PAD ==> n == 1 && t == s
    ensures b[0] != PAD ==> n == 2 + b[1] as int && t == Appended(s, b[0] as int + ofs, b[2..n])
  {
    if b[0] == PAD {
      n, t := 1, s;
    } else {
      var len: int := b[1];
      n := 2 + len;
      t := Appended(s, b[0] as int + ofs, b[2..n]);
    }
  }

  lemma OnesSplit(b: seq<byte>, n: nat)
    requires 2 <= n <= |b|
    ensures Ones(b) == (if b[0] == 1 then 1 else 0) + (if b[1] == 1 then 1 else 0) + Ones(b[2..n]) + Ones(b[n..])
  {
    assert b[1..][1..] == b[2..n] + b[n..];
    OnesConcat(b[2..n], b[n..]);
  }

  /** Reading makes no more ones than there are; codes that are moved out of the range do not count. */
  lemma {:induction false} ParseOnes(s: Store, b: seq<byte>, ofs: nat, hi: nat)
    requires ofs == 0 || ofs >= hi
    ensures OnesIn(ParseInto(s, b, ofs).m, 0, hi) <= OnesIn(s.m, 0, hi) + if ofs == 0 then Ones(b) else 0
    decreases |b|
  {
    if b != [] && b[0] != END && ParseInto(s, b, ofs) != s {
      var n, t := ParseOne(s, b, ofs);
      if b[0] != PAD {
        AppendedOnes(s, b[0] as int + ofs, b[2..n], hi);
        OnesSplit(b, n);
      }
      ParseOnes(t, b[n..], ofs, hi);
    }
  }

  /** Splitting adds no ones: chunks are never one byte long then. */
  lemma {:induction false} ChunksOnes(code: byte, d: seq<byte>)
    requires code == 1 ==> |d| <= 255
    ensures Ones(Chunks(code, d)) == OnesOf(code, d)
    decreases |d|
  {
    if |d| > 255 {
      var a, z := d[..248], d[248..];
      ChunksOnes(code, z);
      OnesConcat([code, 248], a);
      OnesConcat(Chunk(code, a), Chunks(code, z));
      OnesConcat(a, z);
      assert d == a + z;
    } else {
      OnesConcat([code, |d|], d);
    }
  }

  lemma {:induction false} ListingOnes(m: map<nat, seq<byte>>, lo: nat, hi: nat)
    requires hi <= 256 && (1 in m ==> |m[1]| <= 255)
    ensures Ones(Listing(m, lo, hi, 0)) == OnesIn(m, lo, hi)
    decreases hi - lo
  {
    if lo < hi {
      ListingOnes(m, lo + 1, hi);
      OnesConcat(if lo in m then Chunks(lo, m[lo]) else [], Listing(m, lo + 1, hi, 0));
      if lo in m {
        ChunksOnes(lo, m[lo]);
      }
    }
  }

  lemma ExpectedIs(msg: Msg)
    ensures var typed, v := msg.options[MSG_TYPE := [msg.kind]], VendorBytes(msg.options);
            Expected(msg).options == if v != [] then typed[VENDOR_SPECIFIC := v] else typed
  {
  }

  lemma TypedOnes(m: map<nat, seq<byte>>, kind: byte, v: seq<byte>, hi: nat)
    requires MSG_TYPE !in m && VENDOR_SPECIFIC !in m && hi == VENDOR_OFS
    ensures var typed := m[MSG_TYPE := [kind]];
            && OnesIn(typed, 0, hi) == OnesIn(m, 0, hi) + 1 + Ones([kind])
            && OnesIn(typed[VENDOR_SPECIFIC := v], 0, hi) == OnesIn(typed, 0, hi) + OnesOf(VENDOR_SPECIFIC, v)
  {
    OnesUpdate(m, MSG_TYPE, [kind], 0, hi);
    OnesUpdate(m[MSG_TYPE := [kind]], VENDOR_SPECIFIC, v, 0, hi);
  }

  /** All ones that are written belong to what should arrive. */
  lemma ExpectedOnes(msg: Msg, hi: nat)
    requires Sendable(msg) && hi == VENDOR_OFS && (1 in msg.options ==> |msg.options[1]| <= 255)
    ensures OnesIn(Expected(msg).options, 0, hi) == Ones(OptionBytes(msg.kind, msg.options))
  {
    var m, v := msg.options, VendorBytes(msg.options);
    WrittenOnes(msg.kind, m, v, hi);
    ListingOnes(m, 0, hi);
    TypedOnes(m, msg.kind, v, hi);
    ExpectedIs(msg);
  }

  lemma WrittenOnes(kind: byte, m: map<nat, seq<byte>>, v: seq<byte>, hi: nat)
    requires hi == VENDOR_OFS && kind != 0 && v == VendorBytes(m)
    ensures Ones(OptionBytes(kind, m)) ==
              1 + Ones([kind]) + Ones(Listing(m, 0, hi, 0)) + if v != [] then OnesOf(VENDOR_SPECIFIC, v) else 0
  {
    var w1, w2, w3 := Chunks(MSG_TYPE, [kind]), Listing(m, 0, hi, 0), Wrapped(v);
    ChunksOnes(MSG_TYPE, [kind]);
    ChunksOnes(VENDOR_SPECIFIC, v);
    OnesConcat(w1, w2);
    OnesConcat(w1 + w2, w3);
    OnesConcat(w1 + w2 + w3, [END]);
  }

  lemma FieldsAre(msg: Msg, opts: seq<byte>)
    ensures ParseFields(Encode(msg), opts) == ParseInto(EMPTY, opts, 0)
  {
    HeaderLayout(msg.header, COOKIE + OptionBytes(msg.kind, msg.options));
    Assoc(HeaderBytes(msg.header), COOKIE, OptionBytes(msg.kind, msg.options));
    var s := ParseInto(EMPTY, opts, 0);
    ZerosParse(s, 64, 0);
    ZerosParse(s, 128, 0);
  }

  lemma {:induction false} NoOnes(lo: nat, hi: nat)
    ensures OnesIn(map[], lo, hi) == 0
    decreases hi - lo
  {
    if lo < hi {
      NoOnes(lo + 1, hi);
    }
  }

  /** Whatever bytes of options are left, no more ones than those are in the result. */
  lemma ResultOnes(msg: Msg, opts: seq<byte>, hi: nat)
    requires hi == VENDOR_OFS
    ensures OnesIn(Validated(ParseVendor(ParseFields(Encode(msg), opts)).m), 0, hi) <= Ones(opts)
  {
    var s := ParseInto(EMPTY, opts, 0);
    FieldsAre(msg, opts);
    ParseOnes(EMPTY, opts, 0, hi);
    NoOnes(0, hi);
    ParseOnes(s, Content(s.m, VENDOR_SPECIFIC), VENDOR_OFS, hi);
    OnesKept(ParseVendor(s).m, ValidLength, 0, hi);
  }

  /** The first four bytes hold the type option. */
  lemma TypeComesFirst(msg: Msg)
    requires Sendable(msg)
    ensures var opts := OptionBytes(msg.kind, msg.options); |opts| >= 4 && Ones(opts[4..]) < Ones(opts)
  {
    var opts := OptionBytes(msg.kind, msg.options);
    assert Chunks(MSG_TYPE, [msg.kind]) == [MSG_TYPE, 1, msg.kind];
    OnesSplit(opts, 4);
    assert opts[1] == 1;
  }

  lemma DecodeWide(b: seq<byte>, h: Header, opts: seq<byte>)
    requires |b| >= HEADER_LEN && b[0] in {BOOTREPLY, BOOTREQUEST} && b[1] == ETHERNET && b[2] == ETH_ADDR_LEN
    requires ParseHeader(b) == h && b[HEADER_LEN..] == COOKIE + opts && |opts| >= 4
    ensures Decode(b, 8) == Finish(h, Validated(ParseVendor(ParseFields(b, opts[4..])).m))
  {
    assert (COOKIE + opts)[8..] == opts[4..];
  }

  /** An option that should arrive is one that is kept. */
  lemma ExpectedValid(msg: Msg, m: map<nat, seq<byte>>)
    requires Sendable(msg) && Expected(msg).options == Validated(m)
    ensures 1 in msg.options ==> |msg.options[1]| <= 255
  {
    if 1 in msg.options {
      assert 1 in Expected(msg).options;
      assert ValidLength(1, |msg.options[1]|);
    }
  }

  lemma WidePointerLosesOne(msg: Msg, hi: nat)
    requires Sendable(msg) && hi == VENDOR_OFS
    ensures var opts := OptionBytes(msg.kind, msg.options);
            |opts| >= 4 && Expected(msg).options != Validated(ParseVendor(ParseFields(Encode(msg), opts[4..])).m)
  {
    var opts := OptionBytes(msg.kind, msg.options);
    TypeComesFirst(msg);
    var m := ParseVendor(ParseFields(Encode(msg), opts[4..])).m;
    ResultOnes(msg, opts[4..], hi);
    if Expected(msg).options == Validated(m) {
      ExpectedValid(msg, m);
      ExpectedOnes(msg, hi);
    }
  }

  lemma WideDecode(msg: Msg)
    requires Sendable(msg)
    ensures var opts := OptionBytes(msg.kind, msg.options);
            && |opts| >= 4
            && Decode(Encode(msg), 8)
               == Finish(msg.header, Validated(ParseVendor(ParseFields(Encode(msg), opts[4..])).m))
  {
    TypeComesFirst(msg);
    EncodeLayout(msg);
    DecodeWide(Encode(msg), msg.header, OptionBytes(msg.kind, msg.options));
  }

  lemma FinishKeeps(h: Header, m: map<nat, seq<byte>>)
    ensures Finish(h, m).Ok? ==> Finish(h, m).msg.options == m
  {
  }

  /** With 8-byte pointers no message survives the round trip. */
  lemma WidePointerNeverRoundTrips(msg: Msg)
    requires Sendable(msg)
    ensures Decode(Encode(msg), 8) != Ok(Expected(msg))
  {
    WidePointerLosesOne(msg, VENDOR_OFS);
    WideDecode(msg);
    var opts := OptionBytes(msg.kind, msg.options);
    FinishKeeps(msg.header, Validated(ParseVendor(ParseFields(Encode(msg), opts[4..])).m));
  }

  // ----- the code

  /** `put_option` */
  method PutOption(b: seq<byte>, code: byte, d: seq<byte>) returns (r: seq<byte>)
    ensures r == b + Chunks(code, d)
  {
    r := b;
    var n, p := |d|, 0;
    while n > 255
      invariant 0 <= p <= |d| && n + p == |d|
      invariant r + Chunks(code, d[p..]) == b + Chunks(code, d)
    {
      assert d[p..][..248] == d[p..p + 248] && d[p..][248..] == d[p + 248..];
      Assoc(r, Chunk(code, d[p..p + 248]), Chunks(code, d[p + 248..]));
      r := r + Chunk(code, d[p..p + 248]);
      p, n := p + 248, n - 248;
    }
    r := r + Chunk(code, d[p..]);
  }

  method PutIfPresent(b: seq<byte>, a: Arena, i: nat, base: nat) returns (r: seq<byte>)
    requires a.Valid() && base <= i < base + 256 && i < N_OPTIONS
    ensures r == if i in a.store.m then b + Chunks(i - base, a.store.m[i]) else b
  {
    r := b;
    var present, d := a.Get(i);
    if present {
      r := PutOption(b, i - base, d);
    }
  }

  /** Adding the options from `i` on to `r` gives `all`. */
  ghost predicate ToList(r: seq<byte>, m: map<nat, seq<byte>>, i: nat, hi: nat, base: nat, all: seq<byte>) {
    base <= i && hi <= base + 256 && forall t {:trigger r + t} :: t == Listing(m, i, hi, base) ==> r + t == all
  }

  lemma ToListStep(r: seq<byte>, m: map<nat, seq<byte>>, i: nat, hi: nat, base: nat, all: seq<byte>)
    requires ToList(r, m, i, hi, base, all) && i < hi
    ensures ToList(if i in m then r + Chunks(i - base, m[i]) else r, m, i + 1, hi, base, all)
  {
    var tail := Listing(m, i + 1, hi, base);
    assert r + Listing(m, i, hi, base) == all;
    if i in m {
      Assoc(r, Chunks(i - base, m[i]), tail);
    } else {
      Unit(tail);
    }
  }

  lemma ToListEnd(r: seq<byte>, m: map<nat, seq<byte>>, hi: nat, base: nat, all: seq<byte>)
    requires ToList(r, m, hi, hi, base, all)
    ensures r == all
  {
    Unit(r);
    assert r + Listing(m, hi, hi, base) == all;
  }

  /** The loops of `dhcp_assemble` over the options with codes `lo..hi`. */
  method PutListing(b: seq<byte>, a: Arena, lo: nat, hi: nat, base: nat) returns (r: seq<byte>)
    requires a.Valid() && base <= lo <= hi <= base + 256 && hi <= N_OPTIONS
    ensures r == b + Listing(a.store.m, lo, hi, base)
  {
    r := b;
    ghost var all := b + Listing(a.store.m, lo, hi, base);
    for i := lo to hi
      invariant ToList(r, a.store.m, i, hi, base, all)
    {
      ToListStep(r, a.store.m, i, hi, base, all);
      r := PutIfPresent(r, a, i, base);
    }
    ToListEnd(r, a.store.m, hi, base, all);
  }

  /** `dhcp_assemble` */
  method Assemble(h: Header, kind: byte, a: Arena) returns (b: seq<byte>)
    requires a.Valid()
    ensures b == Encode(Msg(h, kind, a.store.m))
  {
    var first: seq<byte> := [];
    if kind != 0 {
      first := PutOption([], MSG_TYPE, [kind]);
      Unit(Chunks(MSG_TYPE, [kind]));
    }
    var opts := PutListing(first, a, 0, VENDOR_OFS, 0);
    var vnd := PutListing([], a, VENDOR_OFS, N_OPTIONS, VENDOR_OFS);
    Unit(VendorBytes(a.store.m));
    b := AssembleRest(h, kind, first, opts, vnd, a.store.m);
  }

  method AssembleRest(h: Header, kind: byte, ghost first: seq<byte>, opts: seq<byte>, vnd: seq<byte>,
                      ghost m: map<nat, seq<byte>>)
    returns (b: seq<byte>)
    requires first == (if kind != 0 then Chunks(MSG_TYPE, [kind]) else [])
    requires opts == first + Listing(m, 0, VENDOR_OFS, 0) && vnd == VendorBytes(m)
    ensures b == Encode(Msg(h, kind, m))
  {
    var all := opts;
    if vnd != [] {
      all := PutOption(opts, VENDOR_SPECIFIC, vnd);
    } else {
      Unit(opts);
    }
    b := HeaderBytes(h) + COOKIE + (all + [END]);
  }

  /** Reading on from `p` will end in `t`. */
  ghost predicate Leads(s: Store, b: seq<byte>, p: nat, ofs: nat, t: Store) {
    p <= |b| && forall w {:trigger ParseInto(s, w, ofs)} :: w == b[p..] ==> ParseInto(s, w, ofs) == t
  }

  lemma LeadsStart(s: Store, b: seq<byte>, ofs: nat)
    ensures Leads(s, b, 0, ofs, ParseInto(s, b, ofs))
  {
    assert b[0..] == b;
  }

  lemma LeadsEnd(s: Store, b: seq<byte>, p: nat, ofs: nat, t: Store)
    requires Leads(s, b, p, ofs, t)
    requires p == |b| || b[p] == END || (b[p] != PAD && (p + 1 == |b| || |b| < p + 2 + b[p + 1] as int))
    ensures s == t
  {
    assert ParseInto(s, b[p..], ofs) == t;
  }

  lemma LeadsPad(s: Store, b: seq<byte>, p: nat, ofs: nat, t: Store)
    requires Leads(s, b, p, ofs, t) && p < |b| && b[p] == PAD
    ensures Leads(s, b, p + 1, ofs, t)
  {
    assert ParseInto(s, b[p..], ofs) == t;
    assert b[p..][1..] == b[p + 1..];
  }

  lemma LeadsOption(s: Store, b: seq<byte>, p: nat, len: nat, ofs: nat, t: Store)
    requires Leads(s, b, p, ofs, t) && p + 2 + len <= |b| && b[p] != END && b[p] != PAD && len == b[p + 1]
    ensures Leads(Appended(s, b[p] as int + ofs, b[p + 2..p + 2 + len]), b, p + 2 + len, ofs, t)
  {
    assert ParseInto(s, b[p..], ofs) == t;
    assert b[p..][2..2 + len] == b[p + 2..p + 2 + len] && b[p..][2 + len..] == b[p + 2 + len..];
  }

  /** `parse_options` */
  method ParseOptions(a: Arena, b: seq<byte>, ofs: nat)
    requires a.Valid() && (ofs == 0 || ofs == VENDOR_OFS)
    modifies a, a.data
    ensures a.Valid() && (a.data == old(a.data) || fresh(a.data))
    ensures a.store == ParseInto(old(a.store), b, ofs)
  {
    ghost var t := ParseInto(a.store, b, ofs);
    LeadsStart(a.store, b, ofs);
    ReadOptions(a, b, ofs, t);
  }

  /** One option, header and all. */
  method ReadOption(a: Arena, b: seq<byte>, p: nat, len: nat, ofs: nat, ghost t: Store)
    requires a.Valid() && (ofs == 0 || ofs == VENDOR_OFS) && Leads(a.store, b, p, ofs, t)
    requires p + 2 + len <= |b| && b[p] != END && b[p] != PAD && len == b[p + 1]
    modifies a, a.data
    ensures a.Valid() && (a.data == old(a.data) || fresh(a.data))
    ensures Leads(a.store, b, p + 2 + len, ofs, t)
  {
    var code, d := b[p] as int + ofs, b[p + 2..p + 2 + len];
    ghost var next := Appended(a.store, code, d);
    LeadsOption(a.store, b, p, len, ofs, t);
    a.Put(code, d);
    assert a.store == next;
  }

  method ReadOptions(a: Arena, b: seq<byte>, ofs: nat, ghost t: Store)
    requires a.Valid() && (ofs == 0 || ofs == VENDOR_OFS) && Leads(a.store, b, 0, ofs, t)
    modifies a, a.data
    ensures a.Valid() && (a.data == old(a.data) || fresh(a.data))
    ensures a.store == t
  {
    var p := 0;
    while p < |b| && b[p] != END
      invariant 0 <= p <= |b| && a.Valid() && (a.data == old(a.data) || fresh(a.data))
      invariant Leads(a.store, b, p, ofs, t)
      decreases |b| - p
    {
      if b[p] == PAD {
        LeadsPad(a.store, b, p, ofs, t);
        p := p + 1;
      } else {
        var len: int := if p + 1 < |b| then b[p + 1] else 0;
        if p + 1 == |b| || |b| < p + 2 + len {
          break;
        }
        ReadOption(a, b, p, len, ofs, t);
        p := p + 2 + len;
      }
    }
    LeadsEnd(a.store, b, p, ofs, t);
  }

  /** What is left when codes below `k` have been validated. */
  function KeptBelow(m: map<nat, seq<byte>>, ok: (nat, nat) -> bool, k: nat): map<nat, seq<byte>> {
    map c | c in m && (c < k ==> ok(c, |m[c]|)) :: m[c]
  }

  lemma KeptBelowStep(m: map<nat, seq<byte>>, ok: (nat, nat) -> bool, k: nat)
    ensures KeptBelow(m, ok, k + 1)
         == if k in m && !ok(k, |m[k]|) then KeptBelow(m, ok, k) - {k} else KeptBelow(m, ok, k)
    ensures k in KeptBelow(m, ok, k) <==> k in m
  {
  }

  lemma KeptBelowAll(m: map<nat, seq<byte>>, ok: (nat, nat) -> bool)
    ensures KeptBelow(m, ok, 0) == m
    ensures (forall c :: c in m ==> c < N_OPTIONS) ==> KeptBelow(m, ok, N_OPTIONS) == Kept(m, ok)
  {
  }

  /** `validate_options` */
  method ValidateOptions(a: Arena)
    requires a.Valid()
    modifies a`options, a`store
    ensures a.Valid() && a.store.m == Validated(old(a.store.m))
  {
    ghost var m := a.store.m;
    KeptBelowAll(m, ValidLength);
    for code := 0 to N_OPTIONS
      invariant a.Valid() && a.store.m == KeptBelow(m, ValidLength, code)
    {
      KeptBelowStep(m, ValidLength, code);
      var present, d := a.Get(code);
      if present && !ValidLength(code, |d|) {
        a.Drop(code);
      }
    }
  }

  method ParseAllFields(a: Arena, b: seq<byte>, opts: seq<byte>)
    requires a.Valid() && a.store == EMPTY && |b| >= HEADER_LEN
    modifies a, a.data
    ensures a.Valid() && (a.data == old(a.data) || fresh(a.data)) && a.store == ParseFields(b, opts)
  {
    ParseOptions(a, opts, 0);
    var present, d := a.Get(OPTION_OVERLOAD);
    if present && d != [] {
      if d[0] % 2 == 1 {
        ParseOptions(a, b[108..236], 0);
      }
      if d[0] / 2 % 2 == 1 {
        ParseOptions(a, b[44..108], 0);
      }
    }
  }

  method ParseVendorOptions(a: Arena)
    requires a.Valid()
    modifies a, a.data
    ensures a.Valid() && (a.data == old(a.data) || fresh(a.data)) && a.store == ParseVendor(old(a.store))
  {
    var present, vc := a.Get(VENDOR_CLASS);
    if present && OPENFLOW <= vc && (|vc| > 8 ==> vc[8] == 0) {
      var _, v := a.Get(VENDOR_SPECIFIC);
      ParseOptions(a, v, VENDOR_OFS);
    }
  }

  /** `dhcp_parse` */
  method ParseMessage(b: seq<byte>, width: nat) returns (ok: bool, kind: byte, a: Arena)
    ensures a.Valid()
    ensures Decode(b, width) == if ok && |b| >= HEADER_LEN then Ok(Msg(ParseHeader(b), kind, a.store.m)) else Error
  {
    a := new Arena();
    ok, kind := false, 0;
    if |b| < HEADER_LEN || (b[0] != BOOTREPLY && b[0] != BOOTREQUEST) || b[1] != ETHERNET || b[2] != ETH_ADDR_LEN {
      return;
    }
    var rest := b[HEADER_LEN..];
    if |rest| >= width && COOKIE <= rest {
      ParseAllFields(a, b, rest[width..]);
    }
    ParseVendorOptions(a);
    ValidateOptions(a);
    var present, d := a.Get(MSG_TYPE);
    if present && d != [] {
      ok, kind := true, d[0];
    }
  }
}
