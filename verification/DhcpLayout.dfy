/**
 The layout of a DHCP message (section 2 of RFC 2131, section 2 of RFC 2132), byte by byte: where each field
 of the fixed part is read and written, how an option is laid out, and which options go where.
 */
module DhcpLayout {
  import opened Bytes
  import opened DhcpArena
  import opened DhcpCodec
  import DhcpClient
  import Seqs

  /** The number that the two bytes, or the four bytes, at `i` stand for. */
  function Two(b: seq<byte>, i: nat): nat
    requires i + 2 <= |b|
  {
    0x100 * b[i] as int + b[i + 1] as int
  }

  function Four(b: seq<byte>, i: nat): nat
    requires i + 4 <= |b|
  {
    0x100_0000 * b[i] as int + 0x1_0000 * b[i + 1] as int + 0x100 * b[i + 2] as int + b[i + 3] as int
  }

  /** Every field of the header is in its place. */
  predicate LaidOut(b: seq<byte>, h: Header) {
    && |b| >= 236
    && b[0] == h.op && b[1] == 1 && b[2] == 6
    && Four(b, 4) == h.xid && Two(b, 8) == h.secs && Two(b, 10) == h.flags
    && b[12..16] == h.ciaddr && b[16..20] == h.yiaddr && b[20..24] == h.siaddr && b[24..28] == h.giaddr
    && b[28..34] == h.chaddr
  }

  lemma TwoIs(b: seq<byte>, i: nat)
    requires i + 2 <= |b|
    ensures FromBe16(b[i..i + 2]) == Two(b, i)
  {
  }

  lemma FourIs(b: seq<byte>, i: nat)
    requires i + 4 <= |b|
    ensures FromBe32(b[i..i + 4]) == Four(b, i)
  {
    var w := b[i..i + 4];
    assert w[..2] == [b[i], b[i + 1]] && w[2..] == [b[i + 2], b[i + 3]];
  }

  lemma HeaderRead(b: seq<byte>)
    requires |b| >= 236 && b[1] == 1 && b[2] == 6
    ensures LaidOut(b, ParseHeader(b))
  {
    FourIs(b, 4);
    TwoIs(b, 8);
    TwoIs(b, 10);
  }

  /** Whatever is accepted, every field of the result is what the bytes say. */
  lemma DecodedFromItsPlace(b: seq<byte>, width: nat)
    requires Decode(b, width).Ok?
    ensures LaidOut(b, Decode(b, width).msg.header) && (b[0] == 1 || b[0] == 2)
  {
    HeaderRead(b);
  }

  /** The address that a client takes is the number at offset 16. */
  lemma GrantedAtSixteen(b: seq<byte>, width: nat)
    requires Decode(b, width).Ok?
    ensures |b| >= 236 && DhcpClient.Granted(Decode(b, width).msg) == Four(b, 16)
  {
    DecodedFromItsPlace(b, width);
    FourIs(b, 16);
  }

  lemma NumbersWritten(x: u32, y: u16)
    ensures |Be32(x)| == 4 && Four(Be32(x), 0) == x && |Be16(y)| == 2 && Two(Be16(y), 0) == y
  {
  }

  lemma FourWithin(b: seq<byte>, i: nat, w: seq<byte>)
    requires |w| == 4 && i + 4 <= |b| && b[i..i + 4] == w
    ensures Four(b, i) == Four(w, 0)
  {
    assert b[i] == w[0] && b[i + 1] == w[1] && b[i + 2] == w[2] && b[i + 3] == w[3];
  }

  lemma TwoWithin(b: seq<byte>, i: nat, w: seq<byte>)
    requires |w| == 2 && i + 2 <= |b| && b[i..i + 2] == w
    ensures Two(b, i) == Two(w, 0)
  {
    assert b[i] == w[0] && b[i + 1] == w[1];
  }

  lemma HeaderWritten(h: Header, tail: seq<byte>)
    ensures var b := HeaderBytes(h) + tail;
            && LaidOut(b, h) && b[236..] == tail
            && b[3] == 0 && forall i :: 34 <= i < 236 ==> b[i] == 0
  {
    var b := HeaderBytes(h) + tail;
    NumbersWritten(h.xid, h.secs);
    NumbersWritten(h.xid, h.flags);
    assert b[4..8] == Be32(h.xid) && b[8..10] == Be16(h.secs) && b[10..12] == Be16(h.flags);
    FourWithin(b, 4, Be32(h.xid));
    TwoWithin(b, 8, Be16(h.secs));
    TwoWithin(b, 10, Be16(h.flags));
    assert b[12..16] == h.ciaddr && b[16..20] == h.yiaddr && b[20..24] == h.siaddr && b[24..28] == h.giaddr;
    assert b[28..34] == h.chaddr;
    assert b[34..236] == Zeros(202);
    assert forall i :: 34 <= i < 236 ==> b[i] == b[34..236][i - 34];
  }

  /** The type of the message comes first, if there is one, and END last. */
  lemma OptionsWritten(kind: byte, m: map<nat, seq<byte>>)
    ensures var o := OptionBytes(kind, m);
            && o != [] && o[|o| - 1] == 255
            && (kind != 0 ==> |o| >= 4 && o[0] == 53 && o[1] == 1 && o[2] == kind)
  {
    var o := OptionBytes(kind, m);
    assert o[|o| - 1] == END;
    if kind != 0 {
      assert Chunks(MSG_TYPE, [kind]) == [53, 1, kind];
      assert o[..3] == [53, 1, kind];
    }
  }

  lemma CookieWritten(b: seq<byte>, o: seq<byte>)
    requires |b| >= 236 && b[236..] == COOKIE + o
    ensures |b| == 240 + |o| && b[236] == 99 && b[237] == 130 && b[238] == 83 && b[239] == 99
    ensures forall i :: 0 <= i < |o| ==> o[i] == b[240 + i]
  {
    forall i | 0 <= i < |o| ensures o[i] == b[240 + i] {
      assert b[236..][4 + i] == o[i];
    }
    assert b[236] == b[236..][0] && b[237] == b[236..][1] && b[238] == b[236..][2] && b[239] == b[236..][3];
  }

  /**
   What is assembled, byte by byte: the fields in their places, zeros between them, the magic cookie, and the
   type of the message as the first option.
   */
  lemma EncodedToItsPlace(msg: Msg)
    ensures var b := Encode(msg);
            && |b| >= 241 && LaidOut(b, msg.header)
            && b[3] == 0 && (forall i :: 34 <= i < 236 ==> b[i] == 0)
            && b[236] == 99 && b[237] == 130 && b[238] == 83 && b[239] == 99
            && b[|b| - 1] == 255
            && (msg.kind != 0 ==> |b| >= 244 && b[240] == 53 && b[241] == 1 && b[242] == msg.kind)
  {
    var opts := OptionBytes(msg.kind, msg.options);
    Seqs.Assoc(HeaderBytes(msg.header), COOKIE, opts);
    HeaderWritten(msg.header, COOKIE + opts);
    OptionsWritten(msg.kind, msg.options);
    CookieWritten(Encode(msg), opts);
    assert opts[|opts| - 1] == Encode(msg)[240 + (|opts| - 1)];
  }

  // ----- options

  /** An option: its code, how many bytes of data, the data. */
  function Laid(code: byte, d: seq<byte>): seq<byte>
    requires |d| <= 255
  {
    [code, |d|] + d
  }

  /** Up to 255 bytes go in one piece, longer data in pieces of 248 bytes. */
  lemma OptionWritten(code: byte, d: seq<byte>)
    ensures |d| <= 255 ==> Chunks(code, d) == Laid(code, d)
    ensures |d| > 255 ==> Chunks(code, d) == Laid(code, d[..248]) + Chunks(code, d[248..])
  {
  }

  /** Reading an option adds its data to what there is under its code; 0 is skipped and 255 ends it all. */
  lemma OptionRead(s: Store, code: byte, d: seq<byte>, rest: seq<byte>, ofs: nat)
    requires |d| <= 255
    ensures var b := Laid(code, d) + rest;
            && (1 <= code <= 254 ==> ParseInto(s, b, ofs) == ParseInto(Appended(s, code + ofs, d), rest, ofs))
            && (code == 0 ==> ParseInto(s, b, ofs) == ParseInto(s, b[1..], ofs))
            && (code == 255 ==> ParseInto(s, b, ofs) == s)
  {
    var b := Laid(code, d) + rest;
    assert b[2..2 + |d|] == d && b[2 + |d|..] == rest;
  }

  /** An option that is cut short, or that is nothing but a code, is not read. */
  lemma OptionCutShort(s: Store, b: seq<byte>, ofs: nat)
    requires b != [] && 1 <= b[0] <= 254 && (|b| == 1 || |b| < 2 + b[1] as int)
    ensures ParseInto(s, b, ofs) == s
  {
  }

  /** What a single option in a field of the message is read as. */
  lemma AloneInField(s: Store, field: seq<byte>, code: byte, d: seq<byte>)
    requires 1 <= code <= 254 && |d| <= 255 && Laid(code, d) + [255] <= field
    ensures ParseInto(s, field, 0) == Appended(s, code, d)
  {
    var rest := field[|d| + 3..];
    assert field == Laid(code, d) + ([255] + rest);
    OptionRead(s, code, d, [255] + rest, 0);
  }

  /** The first byte of an option, or zero. */
  function FirstOf(s: Store, code: nat): byte { if code in s.m && s.m[code] != [] then s.m[code][0] else 0 }

  lemma InTurn(b: seq<byte>, opts: seq<byte>, s: Store, how: byte)
    requires |b| >= 236 && s == ParseInto(EMPTY, opts, 0) && how == FirstOf(s, 52)
    ensures var t := if how % 2 == 1 then ParseInto(s, b[108..236], 0) else s;
            ParseFields(b, opts) == if how / 2 % 2 == 1 then ParseInto(t, b[44..108], 0) else t
  {
  }

  /**
   Options may go on in the field for the boot file name, at offset 108, if bit 0 of option 52 is set, and then
   in the field for the server name, at offset 44, if bit 1 is set.
   */
  lemma OverloadedFields(b: seq<byte>, opts: seq<byte>, inFile: byte, d: seq<byte>, inName: byte, e: seq<byte>)
    requires |b| >= 236 && 1 <= inFile <= 254 && 1 <= inName <= 254 && |d| <= 255 && |e| <= 255
    requires Laid(inFile, d) + [255] <= b[108..236] && Laid(inName, e) + [255] <= b[44..108]
    ensures var s := ParseInto(EMPTY, opts, 0);
            var how := FirstOf(s, 52);
            var t := if how % 2 == 1 then Appended(s, inFile, d) else s;
            ParseFields(b, opts) == if how / 2 % 2 == 1 then Appended(t, inName, e) else t
  {
    var s := ParseInto(EMPTY, opts, 0);
    var t := if FirstOf(s, 52) % 2 == 1 then Appended(s, inFile, d) else s;
    InTurn(b, opts, s, FirstOf(s, 52));
    AloneInField(s, b[108..236], inFile, d);
    AloneInField(t, b[44..108], inName, e);
  }

  // ----- lengths of options

  /** Subnet mask, broadcast address, lease time, T1 and T2, and other single addresses and numbers of seconds. */
  const ONE_FOUR: set<nat> := {1, 2, 24, 28, 32, 35, 38, 50, 51, 54, 58, 59}
  /** Routers, name servers and other lists of addresses. */
  const FOURS: set<nat> := {3, 6, 9, 41, 42, 44, 45, 48, 49, 65, 69, 70, 71, 72, 73, 74}
  /** Policy filters and static routes: at least a pair of addresses. */
  const PAIRS: set<nat> := {21, 33}
  /** Sizes of files and datagrams. */
  const ONE_TWO: set<nat> := {13, 22, 26, 57}
  /** Switches, counters, the type of the message. */
  const ONE_BYTE: set<nat> := {19, 20, 23, 27, 29, 30, 31, 36, 37, 39, 46, 52, 53}
  /** Names, paths and lists of codes, the options of the vendor. */
  const BYTES: set<nat> := {12, 15, 17, 18, 40, 43, 47, 55, 56, 60, 64, 66, 67, 257, 258}

  /** How many bytes of data an option of RFC 2132 may have. */
  predicate Allowed(code: nat, n: nat) {
    if code in ONE_FOUR then n == 4
    else if code in FOURS then n > 0 && n % 4 == 0
    else if code in PAIRS then n >= 8 && n % 4 == 0
    else if code == 68 then n % 4 == 0
    else if code in ONE_TWO then n == 2
    else if code == 25 then n >= 4 && n % 2 == 0
    else if code in ONE_BYTE then n == 1
    else if code in BYTES then n > 0
    else if code == 61 then n >= 2
    else true
  }

  /** A whole number of arguments, in numbers of bytes. */
  lemma ArgumentsAre(n: nat)
    ensures n % 4 == 0 && 1 <= n / 4 <= 1 <==> n == 4
    ensures n % 4 == 0 && 1 <= n / 4 <==> n > 0 && n % 4 == 0
    ensures n % 4 == 0 && 2 <= n / 4 <==> n >= 8 && n % 4 == 0
    ensures n % 2 == 0 && 1 <= n / 2 <= 1 <==> n == 2
    ensures n % 2 == 0 && 2 <= n / 2 <==> n >= 4 && n % 2 == 0
    ensures n % 1 == 0 && n / 1 == n
  {
  }

  lemma LengthsAllowed(code: nat, n: nat)
    ensures ValidLength(code, n) <==> Allowed(code, n)
  {
    ArgumentsAre(n);
  }

  // ----- whole messages

  /** A message without the magic cookie at offset 236 has no options, and without a type it is refused. */
  lemma WithoutCookie(b: seq<byte>, width: nat)
    requires |b| < 240 || b[236..240] != [99, 130, 83, 99]
    ensures Decode(b, width) == Error
  {
    if |b| >= 240 {
      assert b[236..][..4] == b[236..240];
    }
  }

  /** The vendor's options, if option 60 is the string "OpenFlow": they are in option 43, and get codes from 256 on. */
  function VendorRead(s: Store): Store {
    if 60 in s.m && |s.m[60]| >= 8 && s.m[60][..8] == [79, 112, 101, 110, 70, 108, 111, 119]
       && (|s.m[60]| == 8 || s.m[60][8] == 0)
    then ParseInto(s, if 43 in s.m then s.m[43] else [], 256)
    else s
  }

  lemma VendorReadIs(s: Store)
    ensures ParseVendor(s) == VendorRead(s)
  {
  }

  lemma ValidatedAllowed(m: map<nat, seq<byte>>)
    ensures Validated(m) == map c | c in m && Allowed(c, |m[c]|) :: m[c]
  {
    forall c | c in m ensures ValidLength(c, |m[c]|) <==> Allowed(c, |m[c]|) {
      LengthsAllowed(c, |m[c]|);
    }
  }

  /**
   What becomes of a message that has the cookie: every option of an allowed length is there, no other is, and
   the type is what option 53 says; without that option it is refused.
   */
  lemma AcceptedAs(b: seq<byte>)
    requires |b| >= 240 && (b[0] == 1 || b[0] == 2) && b[1] == 1 && b[2] == 6
    requires b[236..240] == [99, 130, 83, 99]
    ensures var m := VendorRead(ParseFields(b, b[240..])).m;
            if 53 in m && |m[53]| == 1 then
              && Decode(b, 4).Ok? && LaidOut(b, Decode(b, 4).msg.header) && Decode(b, 4).msg.kind == m[53][0]
              && Decode(b, 4).msg.options == map c | c in m && Allowed(c, |m[c]|) :: m[c]
            else Decode(b, 4) == Error
  {
    var m := VendorRead(ParseFields(b, b[240..])).m;
    assert COOKIE <= b[236..] by {
      assert b[236..][..4] == b[236..240];
    }
    assert b[236..][4..] == b[240..];
    VendorReadIs(ParseFields(b, b[240..]));
    HeaderRead(b);
    ValidatedAllowed(m);
    assert Decode(b, 4) == Finish(ParseHeader(b), Validated(m));
  }
}
