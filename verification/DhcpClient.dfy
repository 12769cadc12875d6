/**
 The DHCP client of `dhcp-client.c`: the lease state machine of section 4.4 of RFC 2131 as the code
 runs it. Time is passed in, received datagrams wait in a queue, and every random draw comes from an
 arbitrary sequence.
 */
module DhcpClient {
  import opened Bytes
  import opened Lease
  import opened Options
  import opened Words
  import DhcpCodec

  type Msg = DhcpCodec.Msg
  /** An IP address. */
  type Ip = u32

  const ANY_ADDR: Ip := 0

  const OFFER: byte := 2
  const ACK: byte := 5
  const NAK: byte := 6

  const SUBNET_MASK := 1
  const ROUTER := 3
  const LEASE_TIME := 51
  const SERVER_IDENTIFIER := 54
  const T1 := 58
  const T2 := 59

  datatype State = Init | InitReboot | Rebooting | Selecting | Requesting | Bound | Renewing | Rebinding | Released

  /** `dhclient_is_bound` */
  predicate IsBound(s: State) { s.Bound? || s.Renewing? || s.Rebinding? }

  // ----- messages

  /** `dhcp_msg_get_ip` and `dhcp_msg_get_secs` succeed. */
  predicate Has(m: Msg, code: nat) { code in m.options && |m.options[code]| >= 4 }

  function IpIn(m: Msg, code: nat, default: Ip): Ip { if Has(m, code) then FromBe32(m.options[code][..4]) else default }

  /** `yiaddr`, the address granted or offered. */
  function Granted(m: Msg): Ip { FromBe32(m.header.yiaddr) }

  function SecsIn(m: Msg, code: nat): u32 { if Has(m, code) then FromBe32(m.options[code][..4]) else 0 }

  /** `validate_offered_options`, with the caller's own check as a parameter. */
  predicate Acceptable(m: Msg, hook: Msg -> bool) {
    Has(m, LEASE_TIME) && Has(m, SUBNET_MASK) && SecsIn(m, LEASE_TIME) >= MIN_ACCEPTABLE_LEASE && hook(m)
  }

  /** The options `same_binding` compares. */
  const COMPARED: set<nat> := {1, 3, 6, 12, 15, 23, 26, 28, 33, 35, 36, 37, 54, 257, 258}

  predicate SameOption(a: Msg, b: Msg, code: nat) {
    (code in a.options <==> code in b.options) && (code in a.options ==> a.options[code] == b.options[code])
  }

  predicate SameBinding(a: Msg, b: Msg) {
    a.header.yiaddr == b.header.yiaddr && forall code :: code in COMPARED ==> SameOption(a, b, code)
  }

  /** The timers an ACK may lead to, whatever the random draws. */
  ghost predicate TimersFor(m: Msg, t: Timers) {
    exists d1: nat, d2: nat :: IsDraw(d1, 10) && IsDraw(d2, 10) && t == ChosenTimers(m, d1, d2)
  }

  function ChosenTimers(m: Msg, d1: nat, d2: nat): Timers
    requires IsDraw(d1, 10) && IsDraw(d2, 10)
  {
    var lease := SecsIn(m, LEASE_TIME);
    if lease == 0 then Timers(0, 0, 0) else
    var t2 := T2Of(lease, SecsIn(m, T2), d2);
    TimersOf(lease, T1Of(lease, t2, SecsIn(m, T1), d1), t2)
  }

  /** The times the message proposes leave room for one another. */
  predicate ProposesSoundTimes(lease: u32, t1: u32, t2: u32) {
    lease >= 60 || t2 == 0 || t2 >= lease || t2 >= lease / 2 || 0 < t1 < t2
  }

  /** The three timeouts add up to the lease exactly if the message proposes sound times. */
  lemma AckTimersSumIff(m: Msg, t: Timers)
    requires TimersFor(m, t) && SecsIn(m, LEASE_TIME) >= MIN_ACCEPTABLE_LEASE
    ensures Total(t) == SecsIn(m, LEASE_TIME)
       <==> ProposesSoundTimes(SecsIn(m, LEASE_TIME), SecsIn(m, T1), SecsIn(m, T2))
  {
    var lease := SecsIn(m, LEASE_TIME);
    var d1: nat, d2: nat :| IsDraw(d1, 10) && IsDraw(d2, 10) && t == ChosenTimers(m, d1, d2);
    var t2 := T2Of(lease, SecsIn(m, T2), d2);
    T2Within(lease, SecsIn(m, T2), d2);
    TimeoutsSumIff(lease, t2, SecsIn(m, T1), d1);
    OwnChoiceIsSound(lease, d2);
  }

  /** The number that four bytes stand for. */
  function Weighed(b: seq<byte>): u32
    requires |b| >= 4
  {
    0x100_0000 * b[0] as int + 0x1_0000 * b[1] as int + 0x100 * b[2] as int + b[3] as int
  }

  lemma SecsWeighed(m: Msg, code: nat)
    ensures SecsIn(m, code) == if code in m.options && |m.options[code]| >= 4 then Weighed(m.options[code]) else 0
  {
    if Has(m, code) {
      var b := m.options[code][..4];
      assert b[..2] == [b[0], b[1]] && b[2..] == [b[2], b[3]];
    }
  }

  /** The number of seconds in an option: 51 is the lease, 58 is T1 and 59 is T2; zero if there is none. */
  function Proposed(m: Msg, code: nat): u32 {
    if code in m.options && |m.options[code]| >= 4 then Weighed(m.options[code]) else 0
  }

  lemma ChosenAre(m: Msg, t: Timers) returns (t1: u32, t2: u32)
    requires TimersFor(m, t) && Proposed(m, 51) >= 15
    ensures Follow(Proposed(m, 51), Proposed(m, 58), Proposed(m, 59), t1, t2)
    ensures t == TimersOf(Proposed(m, 51), t1, t2)
  {
    SecsWeighed(m, LEASE_TIME);
    SecsWeighed(m, T1);
    SecsWeighed(m, T2);
    var d1: nat, d2: nat :| IsDraw(d1, 10) && IsDraw(d2, 10) && t == ChosenTimers(m, d1, d2);
    t2 := T2Of(SecsIn(m, LEASE_TIME), SecsIn(m, T2), d2);
    t1 := T1Of(SecsIn(m, LEASE_TIME), t2, SecsIn(m, T1), d1);
    ChosenFollow(SecsIn(m, LEASE_TIME), SecsIn(m, T1), SecsIn(m, T2), d1, d2);
  }

  /** What the client makes of the times in an ACK; T1 and T2 count from the beginning of the lease. */
  lemma AckTimesFollow(m: Msg, t: Timers)
    requires TimersFor(m, t) && Proposed(m, 51) >= 15
    ensures Followed(Proposed(m, 51), Proposed(m, 58), Proposed(m, 59), t)
  {
    var t1, t2 := ChosenAre(m, t);
    TimersFollow(Proposed(m, 51), Proposed(m, 58), Proposed(m, 59), t1, t2);
  }

  /** If the message names its lease only, the address is renewed at half and rebound at seven eighths of it. */
  lemma OwnTimesOfAck(m: Msg, t: Timers)
    requires TimersFor(m, t) && Proposed(m, 51) >= 15 && Proposed(m, 58) == 0 && Proposed(m, 59) == 0
    ensures AboutHalfAndSevenEighths(Proposed(m, 51), t)
  {
    var t1, t2 := ChosenAre(m, t);
    OwnTimers(Proposed(m, 51), t1, t2);
  }

  /** If it proposes T1 < T2 < lease, these are the times. */
  lemma GivenTimesOfAck(m: Msg, t: Timers)
    requires TimersFor(m, t) && Proposed(m, 51) >= 15 && 0 < Proposed(m, 58) < Proposed(m, 59) < Proposed(m, 51)
    ensures t == Timers(Proposed(m, 58), Proposed(m, 59) - Proposed(m, 58), Proposed(m, 51) - Proposed(m, 59))
  {
    var t1, t2 := ChosenAre(m, t);
    GivenTimers(Proposed(m, 51), Proposed(m, 58), Proposed(m, 59), t1, t2);
  }

  // ----- receiving

  /** What the network device delivers: something that is no DHCP reply for us, or one that parses. */
  datatype Frame = Junk | Datagram(msg: Msg)

  const MAX_JUNK := 50

  /** A message, if one was found, what is left of the queue, and how much junk there was so far. */
  datatype Received = Received(msg: Option<Msg>, rest: seq<Frame>, junk: nat)

  /** `do_receive_msg`: too much junk empties the queue. */
  function Receive(q: seq<Frame>, junk: nat): (r: Received)
    ensures |r.rest| <= |q| && (r.msg.Some? ==> |r.rest| < |q| && Datagram(r.msg.value) in q)
    ensures forall f :: f in r.rest ==> f in q
  {
    if junk >= MAX_JUNK || q == [] then Received(None, [], junk)
    else if q[0].Junk? then Receive(q[1..], junk + 1)
    else Received(Some(q[0].msg), q[1..], junk)
  }

  predicate Wanted(m: Msg, kinds: set<byte>, xid: u32) { m.kind <= 31 && m.kind in kinds && m.header.xid == xid }

  /** `dhcp_receive`: messages of other kinds or transactions are passed over. */
  function ReceiveWanted(q: seq<Frame>, junk: nat, kinds: set<byte>, xid: u32): (r: Received)
    ensures |r.rest| <= |q|
    ensures r.msg.Some? ==> |r.rest| < |q| && Datagram(r.msg.value) in q && Wanted(r.msg.value, kinds, xid)
    ensures forall f :: f in r.rest ==> f in q
    decreases |q|
  {
    var r := Receive(q, junk);
    if r.msg.None? || Wanted(r.msg.value, kinds, xid) then r else ReceiveWanted(r.rest, r.junk, kinds, xid)
  }

  /** The offer that SELECTING takes: the first acceptable one that names its server. */
  function ReceiveOffer(q: seq<Frame>, junk: nat, xid: u32, hook: Msg -> bool): (r: Received)
    ensures |r.rest| <= |q| && (r.msg.Some? ==> |r.rest| < |q|)
    ensures r.msg.Some? ==>
              && Wanted(r.msg.value, {OFFER}, xid) && Acceptable(r.msg.value, hook)
              && Has(r.msg.value, SERVER_IDENTIFIER)
    ensures forall f :: f in r.rest ==> f in q
    decreases |q|
  {
    var r := ReceiveWanted(q, junk, {OFFER}, xid);
    if r.msg.None? || (Acceptable(r.msg.value, hook) && Has(r.msg.value, SERVER_IDENTIFIER)) then r
    else ReceiveOffer(r.rest, r.junk, xid, hook)
  }

  datatype Reply = NoReply | Refusal | Grant(msg: Msg)

  const REPLIES: set<byte> := {ACK, NAK}

  /** What `receive_ack` makes of the first reply; an ACK that cannot be accepted is no reply. */
  function ReplyIn(r: Received, hook: Msg -> bool): Reply {
    match r.msg
    case None => NoReply
    case Some(m) => if m.kind == NAK then Refusal else if Acceptable(m, hook) then Grant(m) else NoReply
  }

  /** No frame of the queue is an ACK the client would accept. */
  ghost predicate NoGrant(q: seq<Frame>, xid: u32, hook: Msg -> bool) {
    forall f :: f in q && f.Datagram? && f.msg.header.xid == xid && f.msg.kind == ACK ==> !Acceptable(f.msg, hook)
  }

  ghost predicate NoRefusal(q: seq<Frame>, xid: u32) {
    forall f :: f in q && f.Datagram? && f.msg.header.xid == xid ==> f.msg.kind != NAK
  }

  lemma NotGranted(q: seq<Frame>, junk: nat, xid: u32, hook: Msg -> bool)
    requires NoGrant(q, xid, hook)
    ensures var r := ReceiveWanted(q, junk, REPLIES, xid);
            && !ReplyIn(r, hook).Grant? && NoGrant(r.rest, xid, hook)
            && (NoRefusal(q, xid) ==> ReplyIn(r, hook).NoReply? && NoRefusal(r.rest, xid))
  {
  }

  // ----- retransmission

  /** The delay before the next transmission, from the one before the last. */
  function BackedOff(delay: u32, max: u32): u32 {
    var twice := Wrap(delay * 2);
    var more := if twice > 4 then twice else 4;
    if more < max then more else max
  }

  function DelayAfter(n: nat, max: u32): u32 { if n == 0 then 0 else BackedOff(DelayAfter(n - 1, max), max) }

  lemma BackedOffIs(delay: u32, max: u32)
    requires delay <= max && delay < 0x8000_0000
    ensures BackedOff(delay, max) ==
              var more := if 2 * delay > 4 then 2 * delay else 4;
              if more < max then more else max
  {
    assert Wrap(delay * 2) == delay * 2;
  }

  lemma ModNext(n: nat)
    ensures (n + 1) % 30 == if n % 30 == 29 then 0 else n % 30 + 1
  {
  }

  lemma {:induction false} PowersGrow(a: nat, b: nat)
    requires a <= b
    ensures Pow2(a) <= Pow2(b)
    decreases b - a
  {
    if a < b {
      PowersGrow(a + 1, b);
    }
  }

  /**
   Exponential backoff (section 4.1 of RFC 2131): 4, 8, 16, ... seconds, up to the configured limit. A limit
   of 2^31 or more is never reached: after 2^31 seconds, the product wraps around and it all begins again.
   */
  lemma {:induction false} DelaysDouble(n: nat, max: u32)
    requires n > 0
    ensures DelayAfter(n, max) ==
              if max >= 0x8000_0000 then 4 * Pow2((n - 1) % 30)
              else if 4 * Pow2(n - 1) < max then 4 * Pow2(n - 1) else max
  {
    if n == 1 {
      BackedOffIs(0, max);
    } else {
      DelaysDouble(n - 1, max);
      if max >= 0x8000_0000 {
        LargeLimit((n - 2) % 30, max);
        ModNext(n - 2);
      } else {
        BackedOffIs(DelayAfter(n - 1, max), max);
      }
    }
  }

  lemma FourMore(n: nat)
    ensures Pow2(n + 4) == 16 * Pow2(n)
  {
    assert Pow2(n + 1) == 2 * Pow2(n) && Pow2(n + 2) == 2 * Pow2(n + 1);
    assert Pow2(n + 3) == 2 * Pow2(n + 2) && Pow2(n + 4) == 2 * Pow2(n + 3);
  }

  lemma LargestPower()
    ensures Pow2(29) == 0x2000_0000
  {
    FourMore(1);
    FourMore(5);
    FourMore(9);
    FourMore(13);
    FourMore(17);
    FourMore(21);
    FourMore(25);
  }

  lemma LargeLimit(k: nat, max: u32)
    requires k < 30 && max >= 0x8000_0000
    ensures 4 * Pow2(k) <= 0x8000_0000 && BackedOff(4 * Pow2(k), max) == 4 * Pow2(if k == 29 then 0 else k + 1)
  {
    LargestPower();
    if k == 29 {
      assert Wrap(0x8000_0000 * 2) == 0;
    } else {
      PowersGrow(k + 1, 29);
      PowersGrow(0, k);
      BackedOffIs(4 * Pow2(k), max);
    }
  }

  // ----- the client

  function PhaseOf(s: State): Phase {
    match s
    case Bound => InBound
    case Renewing => InRenewing
    case Rebinding => InRebinding
    case _ => Unbound
  }

  /** One state of the clock, if its time is up. */
  function ExpireOnce(c: Clock, now: u32): Clock {
    if c.phase != Unbound && Due(c.entered, Secs(c), now) then Expired(c, now) else c
  }

  /** Without a message, states follow each other in descending order of this. */
  function StateRank(s: State, server: Ip): nat {
    match s
    case Released => 0
    case Selecting => if server == ANY_ADDR then 1 else 3
    case Init => if server == ANY_ADDR then 2 else 4
    case Rebooting => 5
    case Requesting => 5
    case Rebinding => 5
    case InitReboot => 6
    case Renewing => 6
    case Bound => 7
  }

  /** What the outside can tell of a client, and its timers. */
  datatype View = View(state: State, entered: u32, ip: Ip, netmask: Ip, router: Ip, server: Ip, binding: Option<Msg>,
                       changed: bool, expiration: u32, timers: Timers)

  function ClockOf(v: View): Clock {
    if IsBound(v.state) then Clock(PhaseOf(v.state), v.entered, v.timers) else STOPPED
  }

  /** A binding is held exactly in the bound states, and what is in use is what it granted. */
  ghost predicate Coherent(v: View, hook: Msg -> bool) {
    && (v.binding.Some? <==> IsBound(v.state))
    && (v.binding.Some? ==> Uses(v.binding.value, v.ip, v.netmask, v.router) && Acceptable(v.binding.value, hook))
  }

  predicate Uses(m: Msg, ip: Ip, netmask: Ip, router: Ip) {
    ip == Granted(m) && netmask == IpIn(m, SUBNET_MASK, ANY_ADDR) && router == IpIn(m, ROUTER, ANY_ADDR)
  }

  /** A client that enters a state without a new binding: leaving the bound states it gives up the one it has. */
  function Moved(was: View, s: State, now: u32): View {
    was.(state := s, entered := now, binding := if IsBound(s) then was.binding else None,
         changed := was.changed || IsBound(was.state) != IsBound(s))
  }

  /** What a client makes of an ACK that it accepts. */
  ghost predicate AfterGrant(was: View, m: Msg, now: u32, v: View) {
    && v.state == Bound && v.entered == now && v.server == was.server && v.binding == Some(m)
    && Uses(m, v.ip, v.netmask, v.router)
    && v.expiration == SatAdd(now, SecsIn(m, LEASE_TIME)) && TimersFor(m, v.timers)
    && v.changed == (was.changed || was.binding.None? || !SameBinding(was.binding.value, m))
  }

  /** What a reply, or the lack of one, makes of a client at time `now`. */
  ghost predicate AfterReply(was: View, reply: Reply, now: u32, v: View) {
    match reply
    case NoReply => v == was
    case Refusal => v == Moved(was, Init, now)
    case Grant(m) => AfterGrant(was, m, now, v)
  }

  /** A state that lasts for `secs` unless a reply ends it. */
  ghost predicate AfterWait(was: View, reply: Reply, secs: u32, next: State, now: u32, v: View) {
    if reply.NoReply? && Due(was.entered, secs, now) then v == Moved(was, next, now)
    else AfterReply(was, reply, now, v)
  }

  /** What taking an offer makes of a client. */
  ghost predicate AfterOffer(was: View, m: Msg, now: u32, v: View) {
    v == Moved(was, Requesting, now).(ip := Granted(m), server := IpIn(m, SERVER_IDENTIFIER, ANY_ADDR))
  }

  /** A known server is forgotten after a minute without an offer. */
  ghost predicate AfterSelecting(was: View, now: u32, v: View) {
    if was.server != ANY_ADDR && Due(was.entered, 60, now) then v == Moved(was, Init, now).(server := ANY_ADDR)
    else v == was
  }

  // ----- one round of `dhclient_run`

  /** How long a state that awaits an ACK lasts. */
  function Patience(v: View): u32 {
    match v.state
    case Renewing => v.timers.renewing
    case Rebinding => v.timers.rebinding
    case _ => 60
  }

  /** What one round makes of a client and its queue. */
  ghost predicate Turn(was: View, q: seq<Frame>, v: View, q': seq<Frame>, now: u32, xid: u32, hook: Msg -> bool) {
    match was.state
    case Released => v == was && q' == q
    case Bound => q' == q && AfterWait(was, NoReply, was.timers.bound, Renewing, now, v)
    case Selecting =>
      var r := ReceiveOffer(q, 0, xid, hook);
      if r.msg.Some? then q' == [] && AfterOffer(was, r.msg.value, now, v)
      else q' == r.rest && AfterSelecting(was, now, v)
    case Init => AfterDelay(was, q, v, q', now)
    case InitReboot => AfterDelay(was, q, v, q', now)
    case _ =>
      var r := ReceiveWanted(q, 0, REPLIES, xid);
      q' == r.rest && AfterWait(was, ReplyIn(r, hook), Patience(was), NextState(was.state), now, v)
  }

  /** INIT and INIT-REBOOT wait, for a time that is drawn, and know of no reply. */
  ghost predicate AfterDelay(was: View, q: seq<Frame>, v: View, q': seq<Frame>, now: u32) {
    if v.state == was.state then v == was && q' == q
    else v == Moved(was, NextState(was.state), now) && q' == []
  }

  /**
   A round either keeps the state, or uses up a message, or moves down in rank. As long as nothing in
   the queue renews the lease, the clock only runs down, and it stops early only for a refusal.
   */
  ghost predicate Round(was: View, q: seq<Frame>, v: View, q': seq<Frame>, now: u32, xid: u32, hook: Msg -> bool) {
    && |q'| <= |q|
    && (v.state != was.state ==> |q'| < |q| || StateRank(v.state, v.server) < StateRank(was.state, was.server))
    && (NoGrant(q, xid, hook) ==>
          NoGrant(q', xid, hook) && (ClockOf(v) == STOPPED || ClockOf(v) == ExpireOnce(ClockOf(was), now)))
    && (NoGrant(q, xid, hook) && NoRefusal(q, xid) ==>
          NoRefusal(q', xid) && ClockOf(v) == ExpireOnce(ClockOf(was), now))
  }

  lemma FewerFrames(q: seq<Frame>, q': seq<Frame>, xid: u32, hook: Msg -> bool)
    requires forall f :: f in q' ==> f in q
    ensures (NoGrant(q, xid, hook) ==> NoGrant(q', xid, hook)) && (NoRefusal(q, xid) ==> NoRefusal(q', xid))
  {
  }

  /** The state a state gives way to when its time is up. */
  function NextState(s: State): State {
    match s
    case Bound => Renewing
    case Renewing => Rebinding
    case Init => Selecting
    case InitReboot => Rebooting
    case _ => Init
  }

  lemma RankDrops(s: State, server: Ip)
    requires s != Released && s != Selecting
    ensures StateRank(NextState(s), server) < StateRank(s, server) && NextState(s) != s
  {
  }

  lemma WaitIsRound(was: View, q: seq<Frame>, junk: nat, secs: u32, v: View, now: u32, xid: u32, hook: Msg -> bool)
    requires was.state in {Rebooting, Requesting, Renewing, Rebinding}
    requires IsBound(was.state) ==> secs == Secs(ClockOf(was))
    requires AfterWait(was, ReplyIn(ReceiveWanted(q, junk, REPLIES, xid), hook), secs, NextState(was.state), now, v)
    ensures Round(was, q, v, ReceiveWanted(q, junk, REPLIES, xid).rest, now, xid, hook)
  {
    var r := ReceiveWanted(q, junk, REPLIES, xid);
    RankDrops(was.state, was.server);
    FewerFrames(q, r.rest, xid, hook);
    if NoGrant(q, xid, hook) {
      NotGranted(q, junk, xid, hook);
    }
  }

  lemma LeaveIsRound(was: View, q: seq<Frame>, v: View, q': seq<Frame>, now: u32, xid: u32, hook: Msg -> bool)
    requires was.state in {Init, InitReboot, Bound} && (q' == q || q' == [])
    requires was.state == Bound ==> AfterWait(was, NoReply, was.timers.bound, Renewing, now, v)
    requires was.state != Bound ==> v.server == was.server && (v.state == was.state || v.state == NextState(was.state))
    ensures Round(was, q, v, q', now, xid, hook)
  {
    RankDrops(was.state, was.server);
    FewerFrames(q, q', xid, hook);
  }

  lemma TurnIsRound(was: View, q: seq<Frame>, v: View, q': seq<Frame>, now: u32, xid: u32, hook: Msg -> bool)
    requires Turn(was, q, v, q', now, xid, hook)
    ensures Round(was, q, v, q', now, xid, hook)
  {
    match was.state
    case Released =>
    case Selecting => SelectingIsRound(was, q, 0, v, q', now, xid, hook);
    case Bound => LeaveIsRound(was, q, v, q', now, xid, hook);
    case Init => LeaveIsRound(was, q, v, q', now, xid, hook);
    case InitReboot => LeaveIsRound(was, q, v, q', now, xid, hook);
    case _ => WaitIsRound(was, q, 0, Patience(was), v, now, xid, hook);
  }

  lemma SelectingIsRound(was: View, q: seq<Frame>, junk: nat, v: View, q': seq<Frame>, now: u32, xid: u32,
                         hook: Msg -> bool)
    requires was.state == Selecting
    requires var r := ReceiveOffer(q, junk, xid, hook);
             if r.msg.Some? then q' == [] && AfterOffer(was, r.msg.value, now, v)
             else q' == r.rest && AfterSelecting(was, now, v)
    ensures Round(was, q, v, q', now, xid, hook)
  {
    FewerFrames(q, q', xid, hook);
  }

  // ----- what there is to report

  /** Two bindings a caller would not tell apart: none, or the same address and options. */
  predicate Alike(a: Option<Msg>, b: Option<Msg>) {
    match (a, b)
    case (None, None) => true
    case (Some(m), Some(n)) => SameBinding(m, n)
    case _ => false
  }

  /**
   Something happened since the first `polled` bindings had been noted: an address was gained or lost,
   the binding changed, or the client was created.
   */
  ghost predicate News(held: seq<Option<Msg>>, polled: nat) {
    polled == 0 || exists i :: polled <= i < |held| && !Alike(held[i - 1], held[i])
  }

  ghost predicate Noted(held: seq<Option<Msg>>, binding: Option<Msg>, polled: nat) {
    held != [] && held[|held| - 1] == binding && polled <= |held|
  }

  /** Nothing was noted but the binding that is held in the end. */
  ghost predicate Extends(was: seq<Option<Msg>>, now: seq<Option<Msg>>, b: Option<Msg>) {
    was <= now && forall i :: |was| <= i < |now| ==> now[i] == b
  }

  lemma ExtendsMore(a: seq<Option<Msg>>, b: seq<Option<Msg>>, c: seq<Option<Msg>>, x: Option<Msg>)
    requires Extends(a, b, x) && Extends(b, c, x)
    ensures Extends(a, c, x)
  {
  }

  /** `changed` once a binding `m` has been taken but not yet noted. */
  ghost predicate Unnoted(held: seq<Option<Msg>>, polled: nat, bound: bool, changed: bool, m: Msg) {
    && held != [] && polled <= |held| && bound == held[|held| - 1].Some?
    && changed == (News(held, polled) || (bound && !SameBinding(held[|held| - 1].value, m)))
  }

  lemma NewsSnoc(held: seq<Option<Msg>>, polled: nat, b: Option<Msg>)
    requires held != [] && polled <= |held|
    ensures News(held + [b], polled) == (News(held, polled) || !Alike(held[|held| - 1], b))
  {
    var more := held + [b];
    if polled > 0 {
      if i :| polled <= i < |held| && !Alike(held[i - 1], held[i]) {
        assert more[i - 1] == held[i - 1] && more[i] == held[i];
      }
      assert more[|held| - 1] == held[|held| - 1] && more[|held|] == b;
    }
  }

  /** A client, its queue and how many bindings had been noted, after some round of a run. */
  datatype Beat = Beat(view: View, queue: seq<Frame>, noted: nat)

  function Latest(trail: seq<Beat>): Beat
    requires trail != []
  {
    trail[|trail| - 1]
  }

  /** The rounds of a run: each but the last one changes the state; so does that, if `more` are to come. */
  ghost predicate Rounds(trail: seq<Beat>, now: u32, xid: u32, hook: Msg -> bool, more: bool) {
    trail != [] && if |trail| == 1 then more else
      var front, b := trail[..|trail| - 1], Latest(trail);
      && Rounds(front, now, xid, hook, true)
      && Turn(Latest(front).view, Latest(front).queue, b.view, b.queue, now, xid, hook)
      && more == (b.view.state != Latest(front).view.state)
  }

  /** The bindings noted in each round are those it ended with. */
  ghost predicate Tracks(trail: seq<Beat>, held: seq<Option<Msg>>) {
    trail != [] && Latest(trail).noted <= |held| && (|trail| == 1 ||
      var front, b := trail[..|trail| - 1], Latest(trail);
      Latest(front).noted <= b.noted && Tracks(front, held[..Latest(front).noted])
      && Extends(held[..Latest(front).noted], held[..b.noted], b.view.binding))
  }

  lemma TracksOn(trail: seq<Beat>, was: seq<Option<Msg>>, now: seq<Option<Msg>>, b: Beat)
    requires trail != [] && Tracks(trail, was) && Latest(trail).noted == |was| && b.noted == |now|
    requires Extends(was, now, b.view.binding)
    ensures Tracks(trail + [b], now)
  {
    assert (trail + [b])[..|trail|] == trail;
    assert now[..|was|] == was && now[..b.noted] == now;
  }

  class Client {
    const xid: u32
    const hook: Msg -> bool
    const draws: nat -> nat

    var state: State
    var entered: u32
    var ip: Ip
    var netmask: Ip
    var router: Ip
    var server: Ip
    var binding: Option<Msg>
    var changed: bool

    var retransmit: u32
    var delay: u32
    var maxTimeout: u32
    var initDelay: u32
    var minTimeout: u32

    var leaseExpiration: u32
    var boundTimeout: u32
    var renewingTimeout: u32
    var rebindingTimeout: u32

    var received: nat
    var queue: seq<Frame>
    var drawn: nat
    var transmissions: nat

    /** Every binding held so far, noted at each transition: never shortened, never changed. */
    ghost var held: seq<Option<Msg>>
    /** How much of that had been noted when `dhclient_changed` was last called. */
    ghost var polled: nat

    /**
     Between calls: a binding is held exactly in the three bound states, the address, netmask and
     router in use are those it granted, and a change is pending exactly if there was one since it was
     last asked for.
     */
    ghost predicate Valid()
      reads this
    {
      Coherent(Now(), hook) && Noted(held, binding, polled) && changed == News(held, polled)
    }

    ghost function TimersNow(): Timers
      reads this
    {
      Timers(boundTimeout, renewingTimeout, rebindingTimeout)
    }

    ghost function Now(): View
      reads this
    {
      View(state, entered, ip, netmask, router, server, binding, changed, leaseExpiration, TimersNow())
    }

    ghost function ClockNow(): Clock
      reads this
    {
      ClockOf(Now())
    }

    /** `dhclient_create` */
    constructor (xid: u32, hook: Msg -> bool, draws: nat -> nat, now: u32)
      ensures Valid() && state == Released && queue == [] && held == [None] && this.xid == xid && this.hook == hook
    {
      this.xid, this.hook, this.draws := xid, hook, draws;
      state, entered := Released, now;
      ip, netmask, router, server := ANY_ADDR, ANY_ADDR, ANY_ADDR, ANY_ADDR;
      binding, changed := None, true;
      retransmit, delay, maxTimeout, initDelay, minTimeout := 0, 0, 64, 0, 1;
      leaseExpiration, boundTimeout, renewingTimeout, rebindingTimeout := 0, 0, 0, 0;
      received, queue, drawn, transmissions := 0, [], 0, 0;
      held, polled := [None], 0;
    }

    method Draw(max: nat) returns (d: nat)
      modifies `drawn
      ensures Now() == old(Now()) && (old(Valid()) ==> Valid())
      ensures IsDraw(d, max)
    {
      d := draws(drawn) % (2 * max + 1);
      drawn := drawn + 1;
    }

    /** `timeout` */
    method Timeout(secs: u32, now: u32) returns (due: bool)
      modifies `minTimeout
      ensures Now() == old(Now()) && (old(Valid()) ==> Valid())
      ensures due <==> Due(entered, secs, now)
    {
      minTimeout := if secs < minTimeout then secs else minTimeout;
      due := now >= SatAdd(entered, secs);
    }

    /** `state_transition`. The assertion is the one in the source. */
    method StateTransition(s: State, now: u32)
      requires IsBound(s) && !IsBound(state) ==> binding.Some?
      modifies `state, `entered, `retransmit, `delay, `binding, `changed, `queue, `held
      ensures state == s && entered == now && retransmit == 0 && delay == 0
      ensures binding == if IsBound(old(state)) && !IsBound(s) then None else old(binding)
      ensures changed == (old(changed) || IsBound(old(state)) != IsBound(s))
      ensures held == old(held) + [binding]
      ensures queue == if s.Selecting? || s.Requesting? || s.Rebooting? then [] else old(queue)
    {
      var wasBound := IsBound(state);
      state := s;
      entered := now;
      retransmit, delay := 0, 0;
      var amBound := IsBound(state);
      if wasBound != amBound {
        changed := true;
        if amBound {
          assert binding.Some?;
        } else {
          binding := None;
        }
      }
      held := held + [binding];
      if state.Selecting? || state.Requesting? || state.Rebooting? {
        queue := [];
      }
    }

    /** A transition that needs no new binding. */
    method Move(s: State, now: u32)
      requires Valid() && (IsBound(s) ==> IsBound(state))
      modifies `state, `entered, `retransmit, `delay, `binding, `changed, `queue, `held
      ensures Valid() && Now() == Moved(old(Now()), s, now)
      ensures queue == if s.Selecting? || s.Requesting? || s.Rebooting? then [] else old(queue)
      ensures held == old(held) + [binding]
    {
      NewsSnoc(held, polled, if IsBound(s) then binding else None);
      StateTransition(s, now);
    }

    /** The transition that a new binding makes possible. */
    method Enter(m: Msg, now: u32)
      requires binding == Some(m) && Acceptable(m, hook) && Uses(m, ip, netmask, router)
      requires Unnoted(held, polled, IsBound(state), changed, m)
      modifies `state, `entered, `retransmit, `delay, `binding, `changed, `queue, `held
      ensures Valid() && state == Bound && entered == now && binding == Some(m) && queue == old(queue)
      ensures changed == (old(changed) || !IsBound(old(state)))
      ensures held == old(held) + [binding]
    {
      NewsSnoc(held, polled, binding);
      StateTransition(Bound, now);
    }

    /** The next transmission is due after twice the delay, give or take a second. */
    method BackOff()
      requires Valid()
      modifies `delay, `retransmit, `drawn
      ensures Valid() && Now() == old(Now())
      ensures delay == BackedOff(old(delay), maxTimeout)
      ensures exists d :: IsDraw(d, 1) && retransmit == Wrap(old(retransmit) + Fuzz(delay, 1, d))
    {
      delay := BackedOff(delay, maxTimeout);
      var d := Draw(1);
      retransmit := Wrap(retransmit + Fuzz(delay, 1, d));
    }

    /** `send_reliably`: what is sent is left out, when is not. */
    method SendReliably(now: u32)
      requires Valid()
      modifies `minTimeout, `delay, `retransmit, `drawn, `transmissions
      ensures Valid() && Now() == old(Now())
      ensures Due(entered, old(retransmit), now) <==> transmissions == old(transmissions) + 1
      ensures !Due(entered, old(retransmit), now) ==>
                transmissions == old(transmissions) && retransmit == old(retransmit)
    {
      var due := Timeout(retransmit, now);
      if due {
        transmissions := transmissions + 1;
        BackOff();
        var _ := Timeout(retransmit, now);
      }
    }

    /** `do_receive_msg` */
    method ReceiveMsg() returns (m: Option<Msg>)
      modifies `queue, `received
      ensures Receive(old(queue), old(received)) == Received(m, queue, received)
    {
      while received < MAX_JUNK
        invariant Receive(old(queue), old(received)) == Receive(queue, received)
        decreases |queue|
      {
        if queue == [] {
          return None;
        }
        var f := queue[0];
        queue := queue[1..];
        if f.Datagram? {
          return Some(f.msg);
        }
        received := received + 1;
      }
      queue := [];
      m := None;
    }

    /** `dhcp_receive` */
    method ReceiveKind(kinds: set<byte>) returns (m: Option<Msg>)
      modifies `queue, `received
      ensures ReceiveWanted(old(queue), old(received), kinds, xid) == Received(m, queue, received)
    {
      m := ReceiveMsg();
      while m.Some? && !Wanted(m.value, kinds, xid)
        invariant ReceiveWanted(old(queue), old(received), kinds, xid) ==
                  if m.None? || Wanted(m.value, kinds, xid) then Received(m, queue, received)
                  else ReceiveWanted(queue, received, kinds, xid)
        decreases |queue|, m.Some?
      {
        m := ReceiveMsg();
      }
    }

    method PickT2(lease: u32, given: u32) returns (t2: u32, ghost draw: nat)
      requires lease > 0
      modifies `drawn
      ensures IsDraw(draw, 10) && t2 == T2Of(lease, given, draw)
      ensures Now() == old(Now()) && (old(Valid()) ==> Valid())
    {
      var d := 0;
      t2 := given;
      if t2 == 0 || t2 >= lease {
        if lease >= 60 {
          d := Draw(10);
        }
        t2 := CalcT2(lease, d);
      }
      draw := d;
    }

    method PickT1(lease: u32, t2: u32, given: u32) returns (t1: u32, ghost draw: nat)
      modifies `drawn
      ensures IsDraw(draw, 10) && t1 == T1Of(lease, t2, given, draw)
      ensures Now() == old(Now()) && (old(Valid()) ==> Valid())
    {
      var d := 0;
      t1 := given;
      if t1 == 0 || t1 >= t2 {
        if lease >= 60 {
          d := Draw(10);
        }
        t1 := CalcT1(lease, t2, d);
      }
      draw := d;
    }

    /** T1 and T2 of an ACK, as timeouts. The assertion is the one in the source. */
    method ChooseTimers(m: Msg)
      requires Acceptable(m, hook)
      modifies `drawn, `boundTimeout, `renewingTimeout, `rebindingTimeout
      ensures TimersFor(m, TimersNow())
    {
      var lease := SecsIn(m, LEASE_TIME);
      assert lease >= MIN_ACCEPTABLE_LEASE;
      var t2, d2 := PickT2(lease, SecsIn(m, T2));
      var t1, d1 := PickT1(lease, t2, SecsIn(m, T1));
      boundTimeout, renewingTimeout := t1, Wrap(t2 as int - t1 as int);
      rebindingTimeout := Wrap(lease as int - t2 as int);
      assert IsDraw(d1, 10) && IsDraw(d2, 10) && TimersNow() == ChosenTimers(m, d1, d2);
    }

    /** The new binding and the address, netmask and router that go with it. */
    method Install(m: Msg, now: u32)
      requires Acceptable(m, hook)
      modifies `binding, `ip, `netmask, `router, `leaseExpiration
      ensures binding == Some(m) && Uses(m, ip, netmask, router)
      ensures leaseExpiration == SatAdd(now, SecsIn(m, LEASE_TIME))
    {
      binding := Some(m);
      leaseExpiration := SatAdd(now, SecsIn(m, LEASE_TIME));
      ip := Granted(m);
      netmask := IpIn(m, SUBNET_MASK, netmask);
      router := IpIn(m, ROUTER, ANY_ADDR);
    }

    /** Report a binding that differs from the one held. */
    method Compare(m: Msg)
      requires Valid()
      modifies `changed
      ensures changed == (old(changed) || (IsBound(state) && !SameBinding(binding.value, m)))
      ensures Unnoted(held, polled, IsBound(state), changed, m)
    {
      if binding.Some? && !SameBinding(binding.value, m) {
        changed := true;
      }
    }

    /** The lease of an ACK, before the transition. */
    method TakeLease(m: Msg, now: u32)
      requires Valid() && Acceptable(m, hook)
      modifies `changed, `drawn, `boundTimeout, `renewingTimeout, `rebindingTimeout
      modifies `binding, `ip, `netmask, `router, `leaseExpiration
      ensures binding == Some(m) && Uses(m, ip, netmask, router)
      ensures leaseExpiration == SatAdd(now, SecsIn(m, LEASE_TIME)) && TimersFor(m, TimersNow())
      ensures changed == (old(changed) || (IsBound(state) && !SameBinding(old(binding).value, m)))
      ensures Unnoted(held, polled, IsBound(state), changed, m)
    {
      Compare(m);
      ChooseTimers(m);
      Install(m, now);
    }

    /** The end of `receive_ack`: adopt the lease. */
    method Adopt(m: Msg, now: u32)
      requires Valid() && Acceptable(m, hook)
      modifies this
      ensures polled == old(polled) && held == old(held) + [binding]
      ensures Valid() && state == Bound && entered == now && binding == Some(m)
      ensures leaseExpiration == SatAdd(now, SecsIn(m, LEASE_TIME)) && TimersFor(m, TimersNow())
      ensures queue == old(queue) && server == old(server)
      ensures changed == (old(changed) || !IsBound(old(state)) || !SameBinding(old(binding).value, m))
    {
      TakeLease(m, now);
      Enter(m, now);
    }

    /** `receive_ack` */
    method ReceiveAck(now: u32) returns (got: bool)
      requires Valid()
      modifies this
      ensures polled == old(polled) && held == if got then old(held) + [binding] else old(held)
      ensures Valid()
      ensures var r := ReceiveWanted(old(queue), old(received), REPLIES, xid);
              && queue == r.rest && got == !ReplyIn(r, hook).NoReply?
              && AfterReply(old(Now()), ReplyIn(r, hook), now, Now())
    {
      var m := ReceiveKind(REPLIES);
      if m.None? {
        return false;
      } else if m.value.kind == NAK {
        Move(Init, now);
        return true;
      } else if !Acceptable(m.value, hook) {
        return false;
      } else {
        Adopt(m.value, now);
        return true;
      }
    }

    // ----- the state handlers

    /** `dhclient_run_INIT` and `dhclient_run_INIT_REBOOT`: wait for one to three seconds. */
    method RunInit(next: State, now: u32)
      requires Valid() && !IsBound(state) && !IsBound(next) && next != state
      modifies `state, `entered, `retransmit, `delay, `binding, `changed, `queue, `held, `minTimeout, `initDelay, `drawn
      ensures Valid() && Extends(old(held), held, binding)
      ensures if state == old(state) then Now() == old(Now()) && queue == old(queue)
              else Now() == Moved(old(Now()), next, now) && (next.Selecting? || next.Rebooting? ==> queue == [])
      ensures initDelay == old(initDelay) || (old(initDelay) == 0 && 1 <= initDelay <= 3)
      ensures initDelay > 0 && state == if Due(old(entered), initDelay, now) then next else old(state)
    {
      if initDelay == 0 {
        var d := Draw(1);
        initDelay := Fuzz(2, 1, d);
      }
      var due := Timeout(initDelay, now);
      if due {
        Move(next, now);
      }
    }

    /** Leave the state if its time is up. */
    method LeaveAfter(secs: u32, next: State, now: u32)
      requires Valid() && (next == Init || (IsBound(next) && IsBound(state)))
      modifies `state, `entered, `retransmit, `delay, `binding, `changed, `queue, `held, `minTimeout
      ensures Valid() && queue == old(queue) && AfterWait(old(Now()), NoReply, secs, next, now, Now())
      ensures Extends(old(held), held, binding)
    {
      var due := Timeout(secs, now);
      if due {
        Move(next, now);
      }
    }

    /** REBOOTING, REQUESTING, RENEWING and REBINDING: ask, and wait for a reply until `secs` are over. */
    method AwaitAck(secs: u32, next: State, now: u32)
      requires Valid() && (next == Init || (IsBound(next) && IsBound(state)))
      modifies this
      ensures polled == old(polled) && Extends(old(held), held, binding)
      ensures Valid()
      ensures var r := ReceiveWanted(old(queue), old(received), REPLIES, xid);
              queue == r.rest && AfterWait(old(Now()), ReplyIn(r, hook), secs, next, now, Now())
    {
      SendReliably(now);
      var got := ReceiveAck(now);
      if !got {
        LeaveAfter(secs, next, now);
      }
    }

    /** The offers received so far, up to one that can be taken. */
    method FindOffer() returns (m: Option<Msg>)
      modifies `queue, `received
      ensures ReceiveOffer(old(queue), old(received), xid, hook) == Received(m, queue, received)
    {
      m := ReceiveKind({OFFER});
      while m.Some? && !(Acceptable(m.value, hook) && Has(m.value, SERVER_IDENTIFIER))
        invariant ReceiveOffer(old(queue), old(received), xid, hook) ==
                  if m.None? || (Acceptable(m.value, hook) && Has(m.value, SERVER_IDENTIFIER)) then
                    Received(m, queue, received)
                  else ReceiveOffer(queue, received, xid, hook)
        decreases |queue|, m.Some?
      {
        m := ReceiveKind({OFFER});
      }
    }

    /** Ask the offering server for the address it offers. */
    method TakeOffer(m: Msg, now: u32)
      requires Valid() && !IsBound(state)
      modifies `server, `ip, `state, `entered, `retransmit, `delay, `binding, `changed, `queue, `held
      ensures Valid() && queue == [] && AfterOffer(old(Now()), m, now, Now()) && Extends(old(held), held, None)
    {
      server := IpIn(m, SERVER_IDENTIFIER, ANY_ADDR);
      ip := Granted(m);
      Move(Requesting, now);
    }

    method ForgetServer(now: u32)
      requires Valid() && state == Selecting
      modifies `server, `state, `entered, `retransmit, `delay, `binding, `changed, `queue, `held, `minTimeout
      ensures Valid() && queue == old(queue) && AfterSelecting(old(Now()), now, Now()) && Extends(old(held), held, None)
    {
      if server != ANY_ADDR {
        var due := Timeout(60, now);
        if due {
          server := ANY_ADDR;
          Move(Init, now);
        }
      }
    }

    /**
     `dhclient_run_SELECTING`: offers are looked at even after the server was forgotten. `r` is the
     offer that will be found.
     */
    method RunSelecting(now: u32, ghost r: Received)
      requires Valid() && state == Selecting && r == ReceiveOffer(queue, received, xid, hook)
      modifies this
      ensures Valid() && polled == old(polled) && Extends(old(held), held, binding)
      ensures if r.msg.Some? then queue == [] && AfterOffer(old(Now()), r.msg.value, now, Now())
              else queue == r.rest && AfterSelecting(old(Now()), now, Now())
    {
      Solicit(now);
      ghost var between := held;
      LookAtOffers(now, r);
      ExtendsMore(old(held), between, held, None);
    }

    method Solicit(now: u32)
      requires Valid() && state == Selecting
      modifies `minTimeout, `drawn, `transmissions, `server, `state, `entered, `retransmit, `delay
      modifies `binding, `changed, `queue, `held
      ensures Valid() && queue == old(queue) && AfterSelecting(old(Now()), now, Now()) && Extends(old(held), held, None)
    {
      SendReliably(now);
      ForgetServer(now);
    }

    method LookAtOffers(now: u32, ghost r: Received)
      requires Valid() && !IsBound(state) && r == ReceiveOffer(queue, received, xid, hook)
      modifies `server, `ip, `state, `entered, `retransmit, `delay, `binding, `changed, `queue, `held, `received
      ensures Valid() && Extends(old(held), held, None)
      ensures if r.msg.Some? then queue == [] && AfterOffer(old(Now()), r.msg.value, now, Now())
              else queue == r.rest && Now() == old(Now())
    {
      var m := FindOffer();
      if m.Some? {
        TakeOffer(m.value, now);
      }
    }

    /** One turn of the loop in `dhclient_run`. */
    method RunState(now: u32)
      requires Valid()
      modifies this
      ensures polled == old(polled) && Extends(old(held), held, binding)
      ensures Valid() && Turn(old(Now()), old(queue), Now(), queue, now, xid, hook)
    {
      BeginRound();
      match state {
        case Init => RunInit(Selecting, now);
        case InitReboot => RunInit(Rebooting, now);
        case Rebooting => AwaitAck(60, Init, now);
        case Selecting => RunSelecting(now, ReceiveOffer(queue, received, xid, hook));
        case Requesting => AwaitAck(60, Init, now);
        case Bound => LeaveAfter(boundTimeout, Renewing, now);
        case Renewing => AwaitAck(renewingTimeout, Rebinding, now);
        case Rebinding => AwaitAck(rebindingTimeout, Init, now);
        case Released =>
      }
    }

    method BeginRound()
      requires Valid()
      modifies `minTimeout, `received
      ensures Valid() && Now() == old(Now()) && received == 0
    {
      minTimeout, received := UINT_MAX, 0;
    }

    /**
     `dhclient_run`: rounds until the state stays what it is, every binding on the way being noted. It
     always comes to an end, and if nothing in the queue renews the lease, the clock settles or, after a
     refusal, stops.
     */
    method Run(now: u32) returns (ghost trail: seq<Beat>)
      requires Valid()
      modifies this
      ensures Valid() && polled == old(polled) && old(held) <= held
      ensures Rounds(trail, now, xid, hook, false) && Tracks(trail, held)
      ensures trail[0] == Beat(old(Now()), old(queue), |old(held)|) && Latest(trail) == Beat(Now(), queue, |held|)
      ensures NoGrant(old(queue), xid, hook) ==>
                NoGrant(queue, xid, hook) && (ClockNow() == STOPPED || ClockNow() == Settle(old(ClockNow()), now))
      ensures NoGrant(old(queue), xid, hook) && NoRefusal(old(queue), xid) ==>
                NoRefusal(queue, xid) && ClockNow() == Settle(old(ClockNow()), now)
    {
      trail := [Beat(Now(), queue, |held|)];
      var more := true;
      while more
        invariant Valid() && polled == old(polled) && old(held) <= held
        invariant Rounds(trail, now, xid, hook, more) && Tracks(trail, held)
        invariant trail[0] == Beat(old(Now()), old(queue), |old(held)|) && Latest(trail) == Beat(Now(), queue, |held|)
        invariant RunSoFar(old(Now()), old(queue), Now(), queue, more, now, xid, hook)
        decreases more, |queue|, StateRank(state, server)
      {
        var oldState := state;
        ghost var v, q, noted := Now(), queue, held;
        RunState(now);
        more := state != oldState;
        TurnIsRound(v, q, Now(), queue, now, xid, hook);
        RunsOn(old(Now()), old(queue), v, q, Now(), queue, more, now, xid, hook);
        TracksOn(trail, noted, held, Beat(Now(), queue, |held|));
        trail := trail + [Beat(Now(), queue, |held|)];
      }
    }

    // ----- the interface

    /** `dhclient_init`: give up any address and start over, asking for `requested` unless it is zero. */
    method Restart(requested: Ip, now: u32)
      requires Valid()
      modifies this
      ensures polled == old(polled) && Extends(old(held), held, binding)
      ensures Valid() && queue == old(queue) && initDelay == 0
      ensures Now() == Moved(old(Now()), if requested != ANY_ADDR then InitReboot else Init, now).(ip := requested)
    {
      Move(if requested != ANY_ADDR then InitReboot else Init, now);
      ip := requested;
      minTimeout, initDelay := 0, 0;
    }

    /** `dhclient_release` */
    method Release(now: u32)
      requires Valid()
      modifies this
      ensures polled == old(polled) && Extends(old(held), held, binding)
      ensures Valid() && Now() == Moved(old(Now()), Released, now) && queue == old(queue)
      ensures transmissions == old(transmissions) + if IsBound(old(state)) then 1 else 0
    {
      if IsBound(state) {
        transmissions := transmissions + 1;
      }
      Move(Released, now);
      minTimeout := UINT_MAX;
    }

    /** Enter the state anew, with these timers. */
    method RenewIn(s: State, renewing: u32, rebinding: u32, now: u32)
      requires Valid() && IsBound(state) && IsBound(s)
      modifies `state, `entered, `retransmit, `delay, `binding, `changed, `queue, `held
      modifies `renewingTimeout, `rebindingTimeout, `minTimeout
      ensures Valid() && queue == old(queue) && Extends(old(held), held, binding) && binding == old(binding)
      ensures ClockNow() == Clock(PhaseOf(s), now, Timers(boundTimeout, renewing, rebinding))
    {
      Move(s, now);
      renewingTimeout, rebindingTimeout, minTimeout := renewing, rebinding, 0;
    }

    /** The end of `do_force_renew` */
    method RenewBy(limit: Int32, now: u32)
      requires Valid() && IsBound(state)
      modifies `state, `entered, `retransmit, `delay, `binding, `changed, `queue, `held
      modifies `renewingTimeout, `rebindingTimeout, `minTimeout
      ensures Valid() && queue == old(queue) && Extends(old(held), held, binding) && binding == old(binding)
      ensures ClockNow() == ForcedBy(old(ClockNow()), limit, now)
    {
      if state.Bound? || state.Renewing? {
        RenewIn(Renewing, Part(limit, 3), Part(limit, 1), now);
      } else {
        RenewIn(Rebinding, renewingTimeout, Wrap(limit), now);
      }
    }

    /** `do_force_renew` */
    method RenewWithin(deadline: Int32, now: u32)
      requires Valid() && IsBound(state)
      modifies `state, `entered, `retransmit, `delay, `binding, `changed, `queue, `held
      modifies `renewingTimeout, `rebindingTimeout, `minTimeout
      ensures Valid() && queue == old(queue) && Extends(old(held), held, binding) && binding == old(binding)
      ensures ClockNow() == Forced(old(ClockNow()), SatSub(leaseExpiration, now), deadline, now)
    {
      var left, limit := SatSub(leaseExpiration, now), deadline;
      if left <= Wrap(deadline) {
        if state.Renewing? || state.Rebinding? {
          return;
        }
        limit := Signed(left);
      }
      SignedWrap(deadline);
      RenewBy(limit, now);
    }

    /** `dhclient_force_renew`: what was received before does not count. */
    method ForceRenew(deadline: Int32, now: u32)
      requires Valid()
      modifies this
      ensures polled == old(polled) && Extends(old(held), held, binding)
      ensures Valid() && queue == []
      ensures IsBound(old(state)) ==>
                IsBound(state) && leaseExpiration == old(leaseExpiration) && binding == old(binding)
      ensures IsBound(old(state)) ==> ClockNow() == Forced(old(ClockNow()), SatSub(leaseExpiration, now), deadline, now)
      ensures old(state) == Released ==> Now() == Moved(old(Now()), Init, now).(ip := ANY_ADDR)
      ensures !IsBound(old(state)) && old(state) != Released ==> Now() == old(Now())
    {
      queue := [];
      if IsBound(state) {
        RenewWithin(deadline, now);
      } else if state.Released? {
        Restart(ANY_ADDR, now);
      }
    }

    /** `dhclient_changed`: true exactly if there is news since the last call. */
    method Changed() returns (r: bool)
      requires Valid()
      modifies `changed, `polled
      ensures Valid() && r == News(held, old(polled)) && polled == |held|
    {
      r := changed;
      changed := false;
      polled := |held|;
    }

    /** `dhclient_get_ip` and `dhclient_get_config` */
    method Lookup() returns (address: Ip, config: Option<Msg>)
      requires Valid()
      ensures if IsBound(state) then config.Some? && address == Granted(config.value)
              else config.None? && address == ANY_ADDR
    {
      address := if IsBound(state) then ip else ANY_ADDR;
      config := if IsBound(state) then binding else None;
    }
  }

  /** Where a run stands: what has settled will not change any more. */
  ghost predicate RunSoFar(was: View, q: seq<Frame>, v: View, q': seq<Frame>, more: bool, now: u32, xid: u32,
                           hook: Msg -> bool)
  {
    && (NoGrant(q, xid, hook) ==>
          && NoGrant(q', xid, hook)
          && (ClockOf(v) == STOPPED || Reaches(ClockOf(was), ClockOf(v), more, now)))
    && (NoGrant(q, xid, hook) && NoRefusal(q, xid) ==>
          NoRefusal(q', xid) && Reaches(ClockOf(was), ClockOf(v), more, now))
  }

  ghost predicate Reaches(from: Clock, c: Clock, more: bool, now: u32) {
    Settle(c, now) == Settle(from, now) && (!more ==> c == Settle(from, now))
  }

  lemma ExpireSettles(c: Clock, now: u32)
    requires c.phase == Unbound ==> c == STOPPED
    ensures Settle(ExpireOnce(c, now), now) == Settle(c, now)
    ensures ExpireOnce(c, now).phase == c.phase ==> Settle(c, now) == c
  {
  }

  lemma RunsOn(was: View, q: seq<Frame>, v: View, q': seq<Frame>, w: View, q'': seq<Frame>, more: bool,
               now: u32, xid: u32, hook: Msg -> bool)
    requires RunSoFar(was, q, v, q', true, now, xid, hook) && Round(v, q', w, q'', now, xid, hook)
    requires more == (w.state != v.state)
    ensures RunSoFar(was, q, w, q'', more, now, xid, hook)
  {
    ExpireSettles(ClockOf(v), now);
  }

  // ----- where bindings come from

  /** A DHCPACK of this transaction, for at least 15 seconds and with a netmask, which the caller accepts. */
  predicate Genuine(m: Msg, xid: u32, hook: Msg -> bool) {
    && m.kind == 5 && m.header.xid == xid
    && Proposed(m, 51) >= 15 && 1 in m.options && |m.options[1]| >= 4
    && hook(m)
  }

  /** A binding is such a message, and it has been heard. */
  predicate Sourced(b: Option<Msg>, heard: set<Frame>, xid: u32, hook: Msg -> bool) {
    b.Some? ==> Genuine(b.value, xid, hook) && Datagram(b.value) in heard
  }

  ghost predicate AllSourced(held: seq<Option<Msg>>, heard: set<Frame>, xid: u32, hook: Msg -> bool) {
    forall i :: 0 <= i < |held| ==> Sourced(held[i], heard, xid, hook)
  }

  ghost predicate Within(q: seq<Frame>, heard: set<Frame>) { forall f :: f in q ==> f in heard }

  lemma GrantIsGenuine(q: seq<Frame>, junk: nat, xid: u32, hook: Msg -> bool, m: Msg)
    requires ReplyIn(ReceiveWanted(q, junk, REPLIES, xid), hook) == Grant(m)
    ensures Genuine(m, xid, hook) && Datagram(m) in q
  {
    SecsWeighed(m, LEASE_TIME);
  }

  lemma TurnIsSourced(was: View, q: seq<Frame>, v: View, q': seq<Frame>, now: u32, xid: u32, hook: Msg -> bool,
                      heard: set<Frame>)
    requires Turn(was, q, v, q', now, xid, hook) && Within(q, heard) && Sourced(was.binding, heard, xid, hook)
    ensures Within(q', heard) && Sourced(v.binding, heard, xid, hook)
  {
    if was.state in {Rebooting, Requesting, Renewing, Rebinding} {
      var reply := ReplyIn(ReceiveWanted(q, 0, REPLIES, xid), hook);
      if reply.Grant? {
        GrantIsGenuine(q, 0, xid, hook, reply.msg);
      }
    }
  }

  lemma ExtendsSourced(was: seq<Option<Msg>>, now: seq<Option<Msg>>, b: Option<Msg>, heard: set<Frame>, xid: u32,
                       hook: Msg -> bool)
    requires Extends(was, now, b) && AllSourced(was, heard, xid, hook) && Sourced(b, heard, xid, hook)
    ensures AllSourced(now, heard, xid, hook)
  {
    forall i | 0 <= i < |now| ensures Sourced(now[i], heard, xid, hook) {
      assert i < |was| ==> was[i] == now[i];
    }
  }

  /** Every binding noted in a run, even for a moment only, is genuine and has been heard. */
  lemma {:induction false} RunIsSourced(trail: seq<Beat>, held: seq<Option<Msg>>, now: u32, xid: u32,
                                        hook: Msg -> bool, more: bool, heard: set<Frame>)
    requires Rounds(trail, now, xid, hook, more) && Tracks(trail, held) && Latest(trail).noted == |held|
    requires Within(trail[0].queue, heard) && Sourced(trail[0].view.binding, heard, xid, hook)
    requires trail[0].noted <= |held| && AllSourced(held[..trail[0].noted], heard, xid, hook)
    ensures Within(Latest(trail).queue, heard) && Sourced(Latest(trail).view.binding, heard, xid, hook)
    ensures AllSourced(held, heard, xid, hook)
    decreases |trail|
  {
    if |trail| == 1 {
      assert held[..trail[0].noted] == held;
    } else {
      var front, b := trail[..|trail| - 1], Latest(trail);
      var was := held[..Latest(front).noted];
      NotedFirst(front, was);
      assert was[..trail[0].noted] == held[..trail[0].noted] && held[..b.noted] == held;
      RunIsSourced(front, was, now, xid, hook, true, heard);
      TurnIsSourced(Latest(front).view, Latest(front).queue, b.view, b.queue, now, xid, hook, heard);
      ExtendsSourced(was, held, b.view.binding, heard, xid, hook);
    }
  }

  lemma {:induction false} NotedFirst(trail: seq<Beat>, held: seq<Option<Msg>>)
    requires Tracks(trail, held)
    ensures trail[0].noted <= Latest(trail).noted
    decreases |trail|
  {
    if |trail| > 1 {
      NotedFirst(trail[..|trail| - 1], held[..Latest(trail[..|trail| - 1]).noted]);
    }
  }

  // ----- whole runs

  datatype Event =
    | Arrive(frames: seq<Frame>)
    | RunAt(now: u32)
    | RestartAt(requested: Ip, now: u32)
    | ReleaseAt(now: u32)
    | RenewAt(deadline: Int32, now: u32)
    | Poll

  lemma AlikeEquivalence(a: Option<Msg>, b: Option<Msg>, c: Option<Msg>)
    ensures Alike(a, a) && (Alike(a, b) ==> Alike(b, a)) && (Alike(a, b) && Alike(b, c) ==> Alike(a, c))
  {
    if Alike(a, b) && Alike(b, c) && a.Some? {
      forall code | code in COMPARED ensures SameOption(a.value, c.value, code) {
        assert SameOption(a.value, b.value, code) && SameOption(b.value, c.value, code);
      }
    }
  }

  /** Without news nothing a caller could tell has happened to the binding, at any time in between. */
  lemma {:induction false} NoNewsNoChange(held: seq<Option<Msg>>, polled: nat, i: nat)
    requires 0 < polled <= |held| && !News(held, polled) && polled - 1 <= i < |held|
    ensures Alike(held[polled - 1], held[i])
    decreases i
  {
    AlikeEquivalence(held[polled - 1], held[polled - 1], held[polled - 1]);
    if i >= polled {
      NoNewsNoChange(held, polled, i - 1);
      AlikeEquivalence(held[polled - 1], held[i - 1], held[i]);
    }
  }

  function LastMark(before: nat, marks: seq<nat>): nat {
    if marks == [] then before else marks[|marks| - 1]
  }

  /**
   Every answer of `dhclient_changed` says truly whether there was news since the one before; `marks` are
   the numbers of bindings that had been noted at each.
   */
  ghost predicate Truthful(before: nat, answers: seq<bool>, marks: seq<nat>, held: seq<Option<Msg>>)
    requires |answers| == |marks|
  {
    answers == [] ||
    var n := |answers| - 1;
    && marks[n] <= |held| && Truthful(before, answers[..n], marks[..n], held[..marks[n]])
    && answers[n] == News(held[..marks[n]], LastMark(before, marks[..n]))
  }

  lemma {:induction false} TruthfulOn(before: nat, answers: seq<bool>, marks: seq<nat>, was: seq<Option<Msg>>,
                                      now: seq<Option<Msg>>)
    requires |answers| == |marks| && Truthful(before, answers, marks, was) && was <= now
    ensures Truthful(before, answers, marks, now)
  {
    if answers != [] {
      var n := marks[|marks| - 1];
      assert now[..n] == was[..n];
    }
  }

  lemma TruthfulMore(before: nat, answers: seq<bool>, marks: seq<nat>, held: seq<Option<Msg>>, answer: bool)
    requires |answers| == |marks| && Truthful(before, answers, marks, held)
    requires answer == News(held, LastMark(before, marks))
    ensures Truthful(before, answers + [answer], marks + [|held|], held)
  {
    assert (answers + [answer])[..|answers|] == answers && (marks + [|held|])[..|marks|] == marks;
    assert held[..|held|] == held;
  }

  /** The frames that arrive in a series of events. */
  ghost function Heard(events: seq<Event>): set<Frame> {
    if events == [] then {}
    else
      var e := events[|events| - 1];
      Heard(events[..|events| - 1]) + if e.Arrive? then (set f | f in e.frames) else {}
  }

  /** Whatever is queued has been heard, and every binding held so far came from there. */
  ghost predicate AllHeard(q: seq<Frame>, held: seq<Option<Msg>>, heard: set<Frame>, xid: u32, hook: Msg -> bool) {
    Within(q, heard) && AllSourced(held, heard, xid, hook)
  }

  lemma SourcedMore(held: seq<Option<Msg>>, heard: set<Frame>, more: set<Frame>, xid: u32, hook: Msg -> bool)
    requires AllSourced(held, heard, xid, hook) && heard <= more
    ensures AllSourced(held, more, xid, hook)
  {
    forall i | 0 <= i < |held| ensures Sourced(held[i], more, xid, hook) {
      assert Sourced(held[i], heard, xid, hook);
    }
  }

  lemma HeardMore(events: seq<Event>, i: nat, q: seq<Frame>, held: seq<Option<Msg>>, heard: set<Frame>, xid: u32,
                  hook: Msg -> bool)
    requires i < |events| && AllHeard(q, held, heard + Heard(events[..i]), xid, hook)
    ensures AllHeard(q, held, heard + Heard(events[..i + 1]), xid, hook)
    ensures events[i].Arrive? ==> Within(events[i].frames, heard + Heard(events[..i + 1]))
  {
    assert events[..i + 1][..i] == events[..i];
    SourcedMore(held, heard + Heard(events[..i]), heard + Heard(events[..i + 1]), xid, hook);
  }

  /** The binding held last is noted, and it has been heard. */
  lemma LastIsSourced(c: Client, heard: set<Frame>)
    requires c.Valid() && AllSourced(c.held, heard, c.xid, c.hook)
    ensures Sourced(c.binding, heard, c.xid, c.hook)
  {
    assert Sourced(c.held[|c.held| - 1], heard, c.xid, c.hook);
  }

  /**
   Every state a client can get into, whatever arrives, whenever it is run and whatever is asked of it, is
   coherent; every binding it ever holds, be it only for a moment, is a genuine ACK that it has heard; both
   assertions of the source hold; and every answer about a change is true: an address was gained or lost or the
   binding changed since the last one, or the client is new.
   */
  method Operate(c: Client, events: seq<Event>, ghost heard: set<Frame>)
    returns (answers: seq<bool>, ghost marks: seq<nat>)
    requires c.Valid() && AllHeard(c.queue, c.held, heard, c.xid, c.hook)
    modifies c
    ensures AllHeard(c.queue, c.held, heard + Heard(events), c.xid, c.hook)
    ensures c.Valid() && old(c.held) <= c.held && |answers| == |marks|
    ensures Truthful(old(c.polled), answers, marks, c.held) && c.polled == LastMark(old(c.polled), marks)
  {
    answers, marks := [], [];
    assert events[..0] == [] && heard + {} == heard;
    for i := 0 to |events|
      invariant c.Valid() && old(c.held) <= c.held && Told(old(c.polled), answers, marks, c.held, c.polled)
      invariant AllHeard(c.queue, c.held, heard + Heard(events[..i]), c.xid, c.hook)
    {
      ghost var was, polled := c.held, c.polled;
      HeardMore(events, i, c.queue, c.held, heard, c.xid, c.hook);
      var answer := Perform(c, events[i], heard + Heard(events[..i + 1]));
      ToldMore(old(c.polled), answers, marks, was, polled, c.held, answer);
      if answer.Some? {
        answers, marks := answers + [answer.value], marks + [|c.held|];
      }
    }
    assert events[..|events|] == events;
  }

  /** The answers given so far are true, and the last of them is remembered. */
  ghost predicate Told(before: nat, answers: seq<bool>, marks: seq<nat>, held: seq<Option<Msg>>, polled: nat) {
    |answers| == |marks| && Truthful(before, answers, marks, held) && polled == LastMark(before, marks)
  }

  lemma ToldMore(before: nat, answers: seq<bool>, marks: seq<nat>, was: seq<Option<Msg>>, polled: nat,
                 held: seq<Option<Msg>>, answer: Option<bool>)
    requires Told(before, answers, marks, was, polled) && was <= held
    requires answer.Some? ==> answer.value == News(held, polled)
    ensures answer.None? ==> Told(before, answers, marks, held, polled)
    ensures answer.Some? ==> Told(before, answers + [answer.value], marks + [|held|], held, |held|)
  {
    TruthfulOn(before, answers, marks, was, held);
    if answer.Some? {
      TruthfulMore(before, answers, marks, held, answer.value);
    }
  }

  method Perform(c: Client, e: Event, ghost heard: set<Frame>) returns (answer: Option<bool>)
    requires c.Valid() && AllHeard(c.queue, c.held, heard, c.xid, c.hook)
    requires e.Arrive? ==> Within(e.frames, heard)
    modifies c
    ensures c.Valid() && old(c.held) <= c.held
    ensures AllHeard(c.queue, c.held, heard, c.xid, c.hook)
    ensures c.polled == if answer.Some? then |c.held| else old(c.polled)
    ensures answer.Some? ==> answer.value == News(c.held, old(c.polled))
  {
    answer := None;
    LastIsSourced(c, heard);
    ghost var was := c.held;
    match e
    case Arrive(frames) => c.queue := c.queue + frames;
    case RunAt(now) =>
      ghost var trail := c.Run(now);
      assert c.held[..|was|] == was;
      RunIsSourced(trail, c.held, now, c.xid, c.hook, false, heard);
    case RestartAt(requested, now) =>
      c.Restart(requested, now);
      ExtendsSourced(was, c.held, c.binding, heard, c.xid, c.hook);
    case ReleaseAt(now) =>
      c.Release(now);
      ExtendsSourced(was, c.held, c.binding, heard, c.xid, c.hook);
    case RenewAt(deadline, now) =>
      c.ForceRenew(deadline, now);
      ExtendsSourced(was, c.held, c.binding, heard, c.xid, c.hook);
    case Poll =>
      var changed := c.Changed();
      answer := Some(changed);
  }

  ghost predicate AllWithoutGrant(arrivals: seq<seq<Frame>>, xid: u32, hook: Msg -> bool) {
    forall i :: 0 <= i < |arrivals| ==> NoGrant(arrivals[i], xid, hook)
  }

  ghost predicate AllWithoutRefusal(arrivals: seq<seq<Frame>>, xid: u32) {
    forall i :: 0 <= i < |arrivals| ==> NoRefusal(arrivals[i], xid)
  }

  lemma MoreFrames(q: seq<Frame>, more: seq<Frame>, xid: u32, hook: Msg -> bool)
    ensures NoGrant(q, xid, hook) && NoGrant(more, xid, hook) ==> NoGrant(q + more, xid, hook)
    ensures NoRefusal(q, xid) && NoRefusal(more, xid) ==> NoRefusal(q + more, xid)
  {
  }

  /** Frames arrive and the client is run. */
  method ArriveAndRun(c: Client, frames: seq<Frame>, now: u32)
    requires c.Valid() && NoGrant(c.queue, c.xid, c.hook) && NoGrant(frames, c.xid, c.hook)
    modifies c
    ensures c.Valid() && NoGrant(c.queue, c.xid, c.hook)
    ensures c.ClockNow() == STOPPED || c.ClockNow() == Settle(old(c.ClockNow()), now)
    ensures NoRefusal(old(c.queue), c.xid) && NoRefusal(frames, c.xid) ==>
              NoRefusal(c.queue, c.xid) && c.ClockNow() == Settle(old(c.ClockNow()), now)
  {
    MoreFrames(c.queue, frames, c.xid, c.hook);
    c.queue := c.queue + frames;
    ghost var _ := c.Run(now);
  }

  /** A series of runs in which no ACK is accepted: the clock runs down as Lease.SettleAll says. */
  method RunUnanswered(c: Client, times: seq<u32>, arrivals: seq<seq<Frame>>)
    requires c.Valid() && |arrivals| == |times|
    requires NoGrant(c.queue, c.xid, c.hook) && AllWithoutGrant(arrivals, c.xid, c.hook)
    modifies c
    ensures c.Valid()
    ensures c.ClockNow() == STOPPED || c.ClockNow() == SettleAll(old(c.ClockNow()), times)
    ensures NoRefusal(old(c.queue), c.xid) && AllWithoutRefusal(arrivals, c.xid) ==>
              c.ClockNow() == SettleAll(old(c.ClockNow()), times)
  {
    ghost var c0 := c.ClockNow();
    for i := 0 to |times|
      invariant c.Valid() && NoGrant(c.queue, c.xid, c.hook)
      invariant c.ClockNow() == STOPPED || c.ClockNow() == SettleAll(c0, times[..i])
      invariant NoRefusal(old(c.queue), c.xid) && AllWithoutRefusal(arrivals, c.xid) ==>
                  NoRefusal(c.queue, c.xid) && c.ClockNow() == SettleAll(c0, times[..i])
    {
      assert times[..i + 1][..i] == times[..i];
      ArriveAndRun(c, arrivals[i], times[i]);
    }
    assert times[..|times|] == times;
  }

  /**
   A bound client run at least every `d` seconds that accepts no ACK: unless it is refused the address is
   kept until the timers are over, and it has been given up at any run from some turns of `d` later on.
   */
  method ClientRunsOut(c: Client, start: u32, times: seq<u32>, arrivals: seq<seq<Frame>>, ghost d: nat)
    requires c.Valid() && IsBound(c.state) && |arrivals| == |times| > 0 && Paced(start, times, d)
    requires NoGrant(c.queue, c.xid, c.hook) && AllWithoutGrant(arrivals, c.xid, c.hook)
    modifies c
    ensures c.Valid() && (IsBound(c.state) ==> StillHeld(old(c.ClockNow()), start, times, d))
    ensures NoRefusal(old(c.queue), c.xid) && AllWithoutRefusal(arrivals, c.xid) ==>
              Last(start, times) < Deadline(old(c.ClockNow())) && Last(start, times) < UINT_MAX ==> IsBound(c.state)
  {
    ClockRunsOut(c.ClockNow(), start, times, d);
    RunUnanswered(c, times, arrivals);
  }

  /** Every state may have run over by the time between two calls. */
  predicate StillHeld(k: Clock, start: u32, times: seq<u32>, d: nat) {
    Last(start, times) < Deadline(k) + Late(k, start) + d * (Rank(k.phase) - 1)
  }

  /**
   A lease granted by message `m` that proposes sound times, in a client run at least every `d`
   seconds that accepts no further ACK and is not told to renew: unless it is refused, the address is
   kept at every run before the lease is over, and in any case it has been given up at any run from 2d
   seconds after its end on, of which there is one within 3d.
   */
  method LeaseIsKeptThenGivenUp(c: Client, m: Msg, times: seq<u32>, arrivals: seq<seq<Frame>>, ghost d: nat)
    requires c.Valid() && c.state == Bound && c.binding == Some(m) && TimersFor(m, c.TimersNow())
    requires ProposesSoundTimes(SecsIn(m, LEASE_TIME), SecsIn(m, T1), SecsIn(m, T2))
    requires |arrivals| == |times| > 0 && Paced(c.entered, times, d)
    requires NoGrant(c.queue, c.xid, c.hook) && AllWithoutGrant(arrivals, c.xid, c.hook)
    modifies c
    ensures c.Valid()
    ensures Last(0, times) >= old(c.entered) + SecsIn(m, LEASE_TIME) + 2 * d ==> !IsBound(c.state)
    ensures NoRefusal(old(c.queue), c.xid) && AllWithoutRefusal(arrivals, c.xid) ==>
              Last(0, times) < SatAdd(old(c.entered), SecsIn(m, LEASE_TIME)) ==> IsBound(c.state)
  {
    AckTimersSumIff(m, c.TimersNow());
    LeaseRunsOut(c.TimersNow(), SecsIn(m, LEASE_TIME), c.entered, times, d);
    RunUnanswered(c, times, arrivals);
  }

  /**
   A forced renewal that is not answered: unless it is refused the address is kept until the timers it sets
   are over, and it has been given up at any run from `d` later on. Those timers are over when the limit
   is, as Lease.ForcedOnTimeIff says. (`k` is the clock once the renewal has been forced.)
   */
  method ForcedIsKeptThenGivenUp(c: Client, deadline: Int32, now: u32, times: seq<u32>, arrivals: seq<seq<Frame>>,
                                 ghost d: nat, ghost k: Clock)
    requires c.Valid() && IsBound(c.state) && |arrivals| == |times| > 0 && Paced(now, times, d)
    requires AllWithoutGrant(arrivals, c.xid, c.hook)
    requires k == Forced(c.ClockNow(), SatSub(c.leaseExpiration, now), deadline, now)
    modifies c
    ensures c.Valid() && (IsBound(c.state) ==> StillHeld(k, now, times, d))
    ensures AllWithoutRefusal(arrivals, c.xid) ==>
              Last(now, times) < Deadline(k) && Last(now, times) < UINT_MAX ==> IsBound(c.state)
  {
    c.ForceRenew(deadline, now);
    ClientRunsOut(c, now, times, arrivals, d);
  }

  /** With a limit in range that is: kept until a second before the limit, given up from `d` after it on. */
  lemma ForcedInTime(k: Clock, left: u32, deadline: Int32, now: u32, times: seq<u32>, d: nat)
    requires k.phase != Unbound && !TooLate(k, left, deadline)
    requires k.phase == InRebinding || Limit(left, deadline) <= MAX_LIMIT
    ensures var k', limit := Forced(k, left, deadline, now), Limit(left, deadline);
            && now + limit - 1 <= Deadline(k')
            && (deadline >= 0 ==> limit == if left <= deadline then left else deadline)
            && (StillHeld(k', now, times, d) ==> Last(now, times) < now + limit + d)
  {
    ForcedOnTimeIff(k, left, deadline, now);
    var k' := Forced(k, left, deadline, now);
    assert Rank(k'.phase) == 1 || Rank(k'.phase) == 2;
    assert d * 0 == 0 && d * 1 == d;
  }
}
