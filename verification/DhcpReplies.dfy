/**
 Which of the frames waiting for a DHCP client decides what a round of `dhclient_run` does, and what it does:
 in terms of the bytes of the messages and of their order.
 */
module DhcpReplies {
  import opened Bytes
  import opened DhcpClient
  import opened Lease
  import opened Options

  /** The number in an option, or zero if there is none. */
  function AddressIn(m: Msg, code: nat): Ip {
    if code in m.options && |m.options[code]| >= 4 then Weighed(m.options[code]) else 0
  }

  lemma AddressWeighed(m: Msg, code: nat)
    ensures IpIn(m, code, 0) == AddressIn(m, code)
  {
    SecsWeighed(m, code);
  }

  lemma GrantedWeighed(m: Msg)
    ensures Granted(m) == Weighed(m.header.yiaddr)
  {
    var b := m.header.yiaddr;
    assert b[..2] == [b[0], b[1]] && b[2..] == [b[2], b[3]];
  }

  // ----- the frame that decides

  function JunkIn(q: seq<Frame>): nat {
    if q == [] then 0 else (if q[0].Junk? then 1 else 0) + JunkIn(q[1..])
  }

  /** A DHCPACK or a DHCPNAK of this transaction. */
  predicate IsReply(f: Frame, xid: u32) {
    f.Datagram? && f.msg.header.xid == xid && (f.msg.kind == 5 || f.msg.kind == 6)
  }

  /** A DHCPOFFER of this transaction that a client can take, from a server that it names. */
  predicate IsOffer(f: Frame, xid: u32, hook: Msg -> bool) {
    && f.Datagram? && f.msg.header.xid == xid && f.msg.kind == 2
    && Proposed(f.msg, 51) >= 15 && 1 in f.msg.options && |f.msg.options[1]| >= 4 && hook(f.msg)
    && 54 in f.msg.options && |f.msg.options[54]| >= 4
  }

  /** The first frame of its kind, after fewer than 50 frames that are no messages at all. */
  ghost predicate FirstOf(q: seq<Frame>, junk: nat, i: nat, kind: Frame -> bool) {
    i < |q| && kind(q[i]) && (forall j :: 0 <= j < i ==> !kind(q[j])) && junk + JunkIn(q[..i]) < 50
  }

  /** None of that kind before there have been 50 of the others. */
  ghost predicate NoneOf(q: seq<Frame>, junk: nat, kind: Frame -> bool) {
    forall i :: 0 <= i < |q| && junk + JunkIn(q[..i]) < 50 ==> !kind(q[i])
  }

  lemma FirstLater(q: seq<Frame>, junk: nat, i: nat, kind: Frame -> bool)
    requires FirstOf(q, junk, i, kind) && i > 0
    ensures junk < 50 && FirstOf(q[1..], if q[0].Junk? then junk + 1 else junk, i - 1, kind)
    ensures q[i..] == q[1..][i - 1..]
  {
    assert q[..i][1..] == q[1..][..i - 1];
    forall j | 0 <= j < i - 1 ensures !kind(q[1..][j]) {
      assert q[1..][j] == q[j + 1];
    }
  }

  lemma NoneLater(q: seq<Frame>, junk: nat, kind: Frame -> bool)
    requires NoneOf(q, junk, kind) && q != [] && junk < 50
    ensures !kind(q[0]) && NoneOf(q[1..], if q[0].Junk? then junk + 1 else junk, kind)
  {
    assert q[..0] == [];
    var more := if q[0].Junk? then junk + 1 else junk;
    forall i | 0 <= i < |q[1..]| && more + JunkIn(q[1..][..i]) < 50 ensures !kind(q[1..][i]) {
      assert q[..i + 1][1..] == q[1..][..i];
      assert q[1..][i] == q[i + 1];
    }
  }

  /** One frame is read at a time. */
  lemma NextFrame(q: seq<Frame>, junk: nat, kinds: set<byte>, xid: u32)
    requires q != [] && junk < 50
    ensures ReceiveWanted(q, junk, kinds, xid) ==
            if q[0].Junk? then ReceiveWanted(q[1..], junk + 1, kinds, xid)
            else if Wanted(q[0].msg, kinds, xid) then Received(Some(q[0].msg), q[1..], junk)
            else ReceiveWanted(q[1..], junk, kinds, xid)
  {
  }

  lemma {:induction false} ReplyFound(q: seq<Frame>, junk: nat, xid: u32, i: nat)
    requires FirstOf(q, junk, i, (f: Frame) => IsReply(f, xid))
    ensures var r := ReceiveWanted(q, junk, REPLIES, xid); r.msg == Some(q[i].msg) && r.rest == q[i + 1..]
    decreases |q|
  {
    NextFrame(q, junk, REPLIES, xid);
    if i > 0 {
      FirstLater(q, junk, i, (f: Frame) => IsReply(f, xid));
      ReplyFound(q[1..], if q[0].Junk? then junk + 1 else junk, xid, i - 1);
      assert !IsReply(q[0], xid);
    }
  }

  lemma {:induction false} NoReplyFound(q: seq<Frame>, junk: nat, xid: u32)
    requires NoneOf(q, junk, (f: Frame) => IsReply(f, xid))
    ensures var r := ReceiveWanted(q, junk, REPLIES, xid); r.msg == None && r.rest == []
    decreases |q|
  {
    if q != [] && junk < 50 {
      NextFrame(q, junk, REPLIES, xid);
      NoneLater(q, junk, (f: Frame) => IsReply(f, xid));
      assert !IsReply(q[0], xid);
      NoReplyFound(q[1..], if q[0].Junk? then junk + 1 else junk, xid);
    }
  }

  lemma OfferIs(m: Msg, xid: u32, hook: Msg -> bool)
    ensures IsOffer(Datagram(m), xid, hook)
       <==> Wanted(m, {OFFER}, xid) && Acceptable(m, hook) && Has(m, SERVER_IDENTIFIER)
  {
    SecsWeighed(m, LEASE_TIME);
  }

  lemma NextOffer(q: seq<Frame>, junk: nat, xid: u32, hook: Msg -> bool)
    requires q != [] && junk < 50
    ensures ReceiveOffer(q, junk, xid, hook) ==
            if q[0].Junk? then ReceiveOffer(q[1..], junk + 1, xid, hook)
            else if IsOffer(q[0], xid, hook) then Received(Some(q[0].msg), q[1..], junk)
            else ReceiveOffer(q[1..], junk, xid, hook)
  {
    NextFrame(q, junk, {OFFER}, xid);
    if q[0].Datagram? {
      OfferIs(q[0].msg, xid, hook);
    }
  }

  lemma {:induction false} OfferFound(q: seq<Frame>, junk: nat, xid: u32, hook: Msg -> bool, i: nat)
    requires FirstOf(q, junk, i, (f: Frame) => IsOffer(f, xid, hook))
    ensures ReceiveOffer(q, junk, xid, hook).msg == Some(q[i].msg)
    decreases |q|
  {
    NextOffer(q, junk, xid, hook);
    if i > 0 {
      FirstLater(q, junk, i, (f: Frame) => IsOffer(f, xid, hook));
      OfferFound(q[1..], if q[0].Junk? then junk + 1 else junk, xid, hook, i - 1);
      assert !IsOffer(q[0], xid, hook);
    }
  }

  lemma {:induction false} NoOfferFound(q: seq<Frame>, junk: nat, xid: u32, hook: Msg -> bool)
    requires NoneOf(q, junk, (f: Frame) => IsOffer(f, xid, hook))
    ensures var r := ReceiveOffer(q, junk, xid, hook); r.msg == None && r.rest == []
    decreases |q|
  {
    if q != [] && junk < 50 {
      NextOffer(q, junk, xid, hook);
      NoneLater(q, junk, (f: Frame) => IsOffer(f, xid, hook));
      assert !IsOffer(q[0], xid, hook);
      NoOfferFound(q[1..], if q[0].Junk? then junk + 1 else junk, xid, hook);
    }
  }

  // ----- what it decides

  /** Netmask, routers, name servers, and what else tells one lease from another. */
  const TOLD_APART_BY: seq<nat> := [1, 3, 6, 12, 15, 23, 26, 28, 33, 35, 36, 37, 54, 257, 258]

  /** An option is missing from both, or the same in both. */
  predicate OptionAlike(a: Msg, b: Msg, code: nat) {
    if code in a.options then code in b.options && a.options[code] == b.options[code] else code !in b.options
  }

  predicate LeaseAlike(a: Msg, b: Msg) {
    a.header.yiaddr == b.header.yiaddr && forall code :: code in TOLD_APART_BY ==> OptionAlike(a, b, code)
  }

  lemma CodesAre(code: nat)
    ensures code in COMPARED <==> code in TOLD_APART_BY
  {
  }

  lemma SameCodes(a: Msg, b: Msg, s: set<nat>, t: seq<nat>)
    requires forall code: nat :: code in s <==> code in t
    ensures (forall code :: code in s ==> SameOption(a, b, code))
       <==> (forall code :: code in t ==> OptionAlike(a, b, code))
  {
    assert forall code: nat :: SameOption(a, b, code) == OptionAlike(a, b, code);
  }

  lemma LeaseAlikeIs(a: Msg, b: Msg)
    ensures SameBinding(a, b) <==> LeaseAlike(a, b)
  {
    forall code: nat ensures code in COMPARED <==> code in TOLD_APART_BY {
      CodesAre(code);
    }
    SameCodes(a, b, COMPARED, TOLD_APART_BY);
  }

  /** A client bound by `m`, with the timers that follow from its times. */
  ghost predicate BoundBy(was: View, m: Msg, now: u32, v: View) {
    && v.state == Bound && v.entered == now && v.binding == Some(m) && v.server == was.server
    && v.ip == Weighed(m.header.yiaddr) && v.netmask == AddressIn(m, 1) && v.router == AddressIn(m, 3)
    && v.expiration == (if now + Proposed(m, 51) <= 0xffff_ffff then now + Proposed(m, 51) else 0xffff_ffff)
    && Followed(Proposed(m, 51), Proposed(m, 58), Proposed(m, 59), v.timers)
    && v.changed == (was.changed || was.binding.None? || !LeaseAlike(was.binding.value, m))
  }

  /** A state is left for `next` after `secs` seconds, or at the end of time; RENEWING and REBINDING keep the lease. */
  ghost predicate Waited(was: View, secs: u32, next: State, now: u32, v: View) {
    if now >= was.entered + secs || now == 0xffff_ffff then
      && v.state == next && v.entered == now
      && v.ip == was.ip && v.netmask == was.netmask && v.router == was.router && v.server == was.server
      && v.binding == (if next == Renewing || next == Rebinding then was.binding else None)
      && v.expiration == was.expiration && v.timers == was.timers
    else v == was
  }

  ghost predicate Unanswered(was: View, now: u32, v: View)
    requires was.state in {Rebooting, Requesting, Renewing, Rebinding}
  {
    if was.state == Renewing then Waited(was, was.timers.renewing, Rebinding, now, v)
    else if was.state == Rebinding then Waited(was, was.timers.rebinding, Init, now, v)
    else Waited(was, 60, Init, now, v)
  }

  lemma WaitedIs(was: View, secs: u32, next: State, now: u32, v: View)
    requires next in {Init, Renewing, Rebinding} && AfterWait(was, NoReply, secs, next, now, v)
    ensures Waited(was, secs, next, now, v)
  {
  }

  lemma GrantedIs(was: View, m: Msg, now: u32, v: View)
    requires AfterGrant(was, m, now, v) && Proposed(m, 51) >= 15
    ensures BoundBy(was, m, now, v)
  {
    SecsWeighed(m, 51);
    GrantedWeighed(m);
    AddressWeighed(m, 1);
    AddressWeighed(m, 3);
    AckTimesFollow(m, v.timers);
    if was.binding.Some? {
      LeaseAlikeIs(was.binding.value, m);
    }
  }

  /**
   A client that awaits an ACK goes by the first ACK or NAK of its transaction, and by no other frame: a NAK
   makes it give up its address, an ACK that it can accept binds it, any other leaves it waiting.
   */
  lemma ReplyDecides(was: View, q: seq<Frame>, v: View, q': seq<Frame>, now: u32, xid: u32, hook: Msg -> bool, i: nat)
    requires was.state in {Rebooting, Requesting, Renewing, Rebinding} && Turn(was, q, v, q', now, xid, hook)
    requires FirstOf(q, 0, i, (f: Frame) => IsReply(f, xid))
    ensures var m := q[i].msg;
            && q' == q[i + 1..]
            && (m.kind == 6 ==> v.state == Init && v.entered == now && v.binding == None)
            && (m.kind == 5 && Genuine(m, xid, hook) ==> BoundBy(was, m, now, v))
            && (m.kind == 5 && !Genuine(m, xid, hook) ==> Unanswered(was, now, v))
  {
    var m := q[i].msg;
    ReplyFound(q, 0, xid, i);
    SecsWeighed(m, LEASE_TIME);
    if m.kind == 5 && Genuine(m, xid, hook) {
      GrantedIs(was, m, now, v);
    } else if m.kind == 5 {
      WaitedIs(was, Patience(was), NextState(was.state), now, v);
    }
  }

  /** Without one it waits. */
  lemma WithoutReply(was: View, q: seq<Frame>, v: View, q': seq<Frame>, now: u32, xid: u32, hook: Msg -> bool)
    requires was.state in {Rebooting, Requesting, Renewing, Rebinding} && Turn(was, q, v, q', now, xid, hook)
    requires NoneOf(q, 0, (f: Frame) => IsReply(f, xid))
    ensures q' == [] && Unanswered(was, now, v)
  {
    NoReplyFound(q, 0, xid);
    WaitedIs(was, Patience(was), NextState(was.state), now, v);
  }

  /** A bound client reads nothing until it is time to renew. */
  lemma BoundWaits(was: View, q: seq<Frame>, v: View, q': seq<Frame>, now: u32, xid: u32, hook: Msg -> bool)
    requires was.state == Bound && Turn(was, q, v, q', now, xid, hook)
    ensures q' == q && Waited(was, was.timers.bound, Renewing, now, v)
  {
    WaitedIs(was, was.timers.bound, Renewing, now, v);
  }

  /** A client that looks for a server goes by the first offer that it can take: it asks that server for the address. */
  lemma OfferDecides(was: View, q: seq<Frame>, v: View, q': seq<Frame>, now: u32, xid: u32, hook: Msg -> bool, i: nat)
    requires was.state == Selecting && Turn(was, q, v, q', now, xid, hook)
    requires FirstOf(q, 0, i, (f: Frame) => IsOffer(f, xid, hook))
    ensures q' == [] && v.state == Requesting && v.entered == now && v.binding == None
    ensures v.ip == Weighed(q[i].msg.header.yiaddr) && v.server == Weighed(q[i].msg.options[54])
    ensures v.netmask == was.netmask && v.router == was.router && v.timers == was.timers
  {
    OfferFound(q, 0, xid, hook, i);
    GrantedWeighed(q[i].msg);
    AddressWeighed(q[i].msg, 54);
  }

  /** Without one it forgets after a minute the server it knew, and starts over. */
  lemma WithoutOffer(was: View, q: seq<Frame>, v: View, q': seq<Frame>, now: u32, xid: u32, hook: Msg -> bool)
    requires was.state == Selecting && Turn(was, q, v, q', now, xid, hook)
    requires NoneOf(q, 0, (f: Frame) => IsOffer(f, xid, hook))
    ensures q' == []
    ensures if was.server != 0 && (now >= was.entered + 60 || now == 0xffff_ffff) then
              v.state == Init && v.entered == now && v.server == 0 && v.ip == was.ip
            else v == was
  {
    NoOfferFound(q, 0, xid, hook);
  }
}
