/**
 Lease timing of `dhcp-client.c` (section 4.4.5 of RFC 2131): how the renewal times T1 and T2 are
 chosen, and how long a client that is run from time to time keeps an address nobody renews.
 */
module Lease {
  import opened Bytes

  const UINT_MAX: u32 := 0xffff_ffff
  const WRAP := 0x1_0000_0000
  const MIN_ACCEPTABLE_LEASE := 15

  // ----- unsigned arithmetic

  function Wrap(x: int): u32 { x % WRAP }

  /** `sat_add` */
  function SatAdd(x: u32, y: u32): (r: u32)
    ensures r == if x + y <= UINT_MAX then x + y else UINT_MAX
  {
    if Wrap(x + y) >= x then Wrap(x + y) else UINT_MAX
  }

  /** `sat_sub` */
  function SatSub(x: u32, y: u32): u32 { if x >= y then x - y else 0 }

  function Clamp(x: u32, min: u32, max: u32): u32 { if x < min then min else if x > max then max else x }

  /** A random draw for `fuzz`, before it is centred on zero. */
  predicate IsDraw(draw: nat, max: nat) { draw <= 2 * max }

  /** `fuzz`: up to `max` more or less, without leaving the range of the type. */
  function Fuzz(x: u32, max: nat, draw: nat): (r: u32)
    requires max < 0x8000_0000 && IsDraw(draw, max)
    ensures r == if x + draw - max < 0 then 0 else if x + draw - max > UINT_MAX then UINT_MAX else x + draw - max
  {
    var fuzz := draw - max;
    var y := Wrap(x + fuzz);
    if fuzz >= 0 then (if y >= x then y else UINT_MAX) else (if y <= x then y else 0)
  }

  // ----- choosing T1 and T2

  /** `calc_t2`; the product with 0.875 is exact in a double. */
  function CalcT2(lease: u32, draw: nat): u32
    requires lease > 0 && IsDraw(draw, 10)
  {
    var base := lease * 7 / 8;
    if lease >= 60 then Clamp(Fuzz(base, 10, draw), 0, lease - 1) else base
  }

  /** `calc_t1`: the bound by `t2` is applied to long leases only. */
  function CalcT1(lease: u32, t2: u32, draw: nat): u32
    requires IsDraw(draw, 10)
  {
    var base := lease / 2;
    if lease >= 60 then Clamp(Fuzz(base, 10, draw), 0, Wrap(t2 - 1)) else base
  }

  /** T2 as the server gave it (zero if it did not), or one of the client's own. */
  function T2Of(lease: u32, given: u32, draw: nat): u32
    requires lease > 0 && IsDraw(draw, 10)
  {
    if given == 0 || given >= lease then CalcT2(lease, draw) else given
  }

  function T1Of(lease: u32, t2: u32, given: u32, draw: nat): u32
    requires IsDraw(draw, 10)
  {
    if given == 0 || given >= t2 then CalcT1(lease, t2, draw) else given
  }

  /** How long to stay in BOUND, RENEWING and REBINDING. */
  datatype Timers = Timers(bound: u32, renewing: u32, rebinding: u32)

  function TimersOf(lease: u32, t1: u32, t2: u32): Timers { Timers(t1, Wrap(t2 - t1), Wrap(lease - t2)) }

  function Total(t: Timers): nat { t.bound + t.renewing + t.rebinding }

  /** T2 always lies within the lease. */
  lemma T2Within(lease: u32, given: u32, draw: nat)
    requires lease >= MIN_ACCEPTABLE_LEASE && IsDraw(draw, 10)
    ensures 0 < T2Of(lease, given, draw) < lease
  {
  }

  /** What a caller can check to know that T1 will come before T2. */
  predicate T1Sound(lease: u32, t2: u32, given: u32) { lease >= 60 || t2 > lease / 2 || 0 < given < t2 }

  /** T1 comes before T2 for every draw exactly when the lease is long, T2 late enough or T1 given properly. */
  lemma T1BeforeT2Iff(lease: u32, t2: u32, given: u32, draw: nat)
    requires lease >= MIN_ACCEPTABLE_LEASE && 0 < t2 < lease && IsDraw(draw, 10)
    ensures T1Of(lease, t2, given, draw) < t2 <==> T1Sound(lease, t2, given)
  {
  }

  /** The three state timeouts make up the lease exactly when T1 does not come after T2. */
  lemma TimeoutsSumIff(lease: u32, t2: u32, given: u32, draw: nat)
    requires lease >= MIN_ACCEPTABLE_LEASE && 0 < t2 < lease && IsDraw(draw, 10)
    ensures Total(TimersOf(lease, T1Of(lease, t2, given, draw), t2)) == lease
       <==> T1Sound(lease, t2, given) || t2 == lease / 2
  {
    var t1 := T1Of(lease, t2, given, draw);
    if t1 <= t2 {
      assert Wrap(t2 - t1) == t2 - t1;
    } else {
      assert Wrap(t2 - t1) == t2 - t1 + WRAP;
    }
    assert Wrap(lease - t2) == lease - t2;
  }

  /** A lease of half a minute with T2 after five seconds: RENEWING would last for 136 years. */
  lemma ShortLeaseGoesWrong(draw: nat)
    requires IsDraw(draw, 10)
    ensures var t2 := T2Of(30, 5, draw);
            TimersOf(30, T1Of(30, t2, 0, draw), t2).renewing == 4_294_967_286
  {
  }

  /** Left to itself the client always chooses T1 and T2 so that T1 < T2 < lease. */
  lemma OwnChoiceIsSound(lease: u32, draw2: nat)
    requires lease >= MIN_ACCEPTABLE_LEASE && IsDraw(draw2, 10)
    ensures T1Sound(lease, CalcT2(lease, draw2), 0)
  {
  }

  /**
   Where the client's own T1 and T2 lie (section 4.4.5 of RFC 2131): at half and seven eighths of a lease
   of a minute or more, give or take ten seconds, and exactly there for a shorter one.
   */
  lemma OwnTimesLie(lease: u32, t2: u32, draw1: nat, draw2: nat)
    requires lease >= MIN_ACCEPTABLE_LEASE && IsDraw(draw1, 10) && IsDraw(draw2, 10)
    ensures lease >= 60 ==> -87 <= 8 * CalcT2(lease, draw2) - 7 * lease <= 80
    ensures lease < 60 ==> CalcT2(lease, draw2) == 7 * lease / 8 && CalcT1(lease, t2, draw1) == lease / 2
    ensures lease >= 60 && 2 * t2 >= lease + 22 ==> -21 <= 2 * CalcT1(lease, t2, draw1) - lease <= 20
  {
  }

  /**
   What becomes of a lease and of the T1 and T2 proposed with it (zero if they are not). T2 is the proposed
   one if that lies within the lease, else the client's own; T1 is the proposed one if that comes before T2,
   else the client's own, which for a lease of a minute or more comes before T2.
   */
  predicate Follow(lease: int, given1: int, given2: int, t1: int, t2: int) {
    && 0 < t2 < lease
    && (if 0 < given2 < lease then t2 == given2
        else if lease < 60 then t2 == 7 * lease / 8
        else -87 <= 8 * t2 - 7 * lease <= 80)
    && (if 0 < given1 < t2 then t1 == given1
        else if lease < 60 then t1 == lease / 2
        else t1 < t2 && 2 * t1 - lease <= 20 && (t1 == t2 - 1 || -21 <= 2 * t1 - lease))
  }

  lemma ChosenFollow(lease: u32, given1: u32, given2: u32, draw1: nat, draw2: nat)
    requires lease >= MIN_ACCEPTABLE_LEASE && IsDraw(draw1, 10) && IsDraw(draw2, 10)
    ensures var t2 := T2Of(lease, given2, draw2);
            Follow(lease, given1, given2, T1Of(lease, t2, given1, draw1), t2)
  {
    var t2 := T2Of(lease, given2, draw2);
    T2Within(lease, given2, draw2);
    OwnTimesLie(lease, t2, draw1, draw2);
    if lease >= 60 {
      T1BeforeT2Iff(lease, t2, given1, draw1);
    }
  }

  /** The timeouts of a lease whose T1 comes before its T2 are the times between them. */
  lemma TimersInOrder(lease: u32, t1: u32, t2: u32)
    requires t1 <= t2 <= lease
    ensures TimersOf(lease, t1, t2) == Timers(t1, t2 - t1, lease - t2)
  {
  }

  predicate AboutHalfAndSevenEighths(lease: int, t: Timers) {
    && (lease >= 60 ==> -87 <= 8 * (t.bound + t.renewing) - 7 * lease <= 80 && -21 <= 2 * t.bound - lease <= 20)
    && (lease < 60 ==> t.bound == lease / 2 && t.bound + t.renewing == 7 * lease / 8)
    && t.bound + t.renewing + t.rebinding == lease
  }

  lemma OwnTimers(lease: u32, t1: u32, t2: u32)
    requires lease >= MIN_ACCEPTABLE_LEASE && Follow(lease, 0, 0, t1, t2)
    ensures AboutHalfAndSevenEighths(lease, TimersOf(lease, t1, t2))
  {
    TimersInOrder(lease, t1, t2);
  }

  lemma GivenTimers(lease: u32, given1: u32, given2: u32, t1: u32, t2: u32)
    requires 0 < given1 < given2 < lease && Follow(lease, given1, given2, t1, t2)
    ensures TimersOf(lease, t1, t2) == Timers(given1, given2 - given1, lease - given2)
  {
    TimersInOrder(lease, t1, t2);
  }

  /** The timeouts as times from the beginning of the lease, in unsigned arithmetic. */
  predicate Followed(lease: int, given1: int, given2: int, t: Timers) {
    && Follow(lease, given1, given2, t.bound, (t.bound + t.renewing) % 0x1_0000_0000)
    && (t.bound + t.renewing + t.rebinding) % 0x1_0000_0000 == lease
  }

  lemma Turned(x: u32)
    ensures (x + WRAP) % WRAP == x == x % WRAP
  {
  }

  lemma TimersFollow(lease: u32, given1: u32, given2: u32, t1: u32, t2: u32)
    requires Follow(lease, given1, given2, t1, t2)
    ensures Followed(lease, given1, given2, TimersOf(lease, t1, t2))
  {
    var t := TimersOf(lease, t1, t2);
    var turn := if t1 <= t2 then 0 else WRAP;
    assert t.bound + t.renewing == t2 + turn && t.rebinding == lease - t2;
    Turned(t2);
    Turned(lease);
    assert (t.bound + t.renewing) % 0x1_0000_0000 == t2;
  }

  /** Every time in the range is drawn. */
  lemma OwnTimesSpread(lease: u32, shift: int)
    requires lease >= 120 && -10 <= shift <= 10
    ensures IsDraw(shift + 10, 10) && CalcT2(lease, shift + 10) == 7 * lease / 8 + shift
    ensures forall t2: u32 :: 2 * t2 >= lease + 22 ==> CalcT1(lease, t2, shift + 10) == lease / 2 + shift
  {
  }

  // ----- the clock of a client nobody answers

  datatype Phase = Unbound | InBound | InRenewing | InRebinding

  datatype Clock = Clock(phase: Phase, entered: u32, t: Timers)

  const STOPPED := Clock(Unbound, 0, Timers(0, 0, 0))

  function Secs(c: Clock): u32 {
    match c.phase
    case InBound => c.t.bound
    case InRenewing => c.t.renewing
    case InRebinding => c.t.rebinding
    case Unbound => 0
  }

  /** `timeout` */
  predicate Due(entered: u32, secs: u32, now: u32) { now >= SatAdd(entered, secs) }

  /** The next state, entered now. */
  function Expired(c: Clock, now: u32): Clock {
    match c.phase
    case InBound => c.(phase := InRenewing, entered := now)
    case InRenewing => c.(phase := InRebinding, entered := now)
    case _ => STOPPED
  }

  function Rank(p: Phase): nat {
    match p
    case InBound => 3
    case InRenewing => 2
    case InRebinding => 1
    case Unbound => 0
  }

  /** What a call of `dhclient_run` does when no reply has arrived: expire states until one holds. */
  function Settle(c: Clock, now: u32): Clock
    decreases Rank(c.phase)
  {
    if c.phase == Unbound then STOPPED
    else if !Due(c.entered, Secs(c), now) then c
    else Settle(Expired(c, now), now)
  }

  /** ... and what a series of calls does. */
  function SettleAll(c: Clock, times: seq<u32>): Clock {
    if times == [] then c else Settle(SettleAll(c, times[..|times| - 1]), times[|times| - 1])
  }

  function Remaining(c: Clock): nat {
    match c.phase
    case InBound => c.t.bound + c.t.renewing + c.t.rebinding
    case InRenewing => c.t.renewing + c.t.rebinding
    case InRebinding => c.t.rebinding
    case Unbound => 0
  }

  /** When the address will be given up at the latest, if the client were run every moment. */
  function Deadline(c: Clock): nat { c.entered + Remaining(c) }

  /** The time of the last call, or when it all began. */
  function Last(start: u32, times: seq<u32>): u32 { if times == [] then start else times[|times| - 1] }

  /** Called at least every `d` seconds, beginning with the time `start`. */
  predicate Paced(start: u32, times: seq<u32>, d: nat) {
    times == [] ||
    var front := times[..|times| - 1];
    Paced(start, front, d) && Last(start, front) <= Last(start, times) <= Last(start, front) + d
  }

  /** How long the end of the current state has been overlooked at time `t`. */
  function Late(c: Clock, t: u32): nat { if t > c.entered + Secs(c) then t - (c.entered + Secs(c)) else 0 }

  /** Each state can run over by at most the time between two calls. */
  lemma {:induction false} SettleSlips(c: Clock, prev: u32, now: u32, d: nat)
    requires c.phase != Unbound && prev <= now <= prev + d
    ensures var c' := Settle(c, now);
            c'.phase != Unbound ==>
              && now < c'.entered + Secs(c')
              && Deadline(c') + d * Rank(c'.phase) <= Deadline(c) + Late(c, prev) + d * Rank(c.phase)
    decreases Rank(c.phase)
  {
    if Due(c.entered, Secs(c), now) {
      var c1 := Expired(c, now);
      if c1.phase != Unbound {
        assert Deadline(c1) <= Deadline(c) + Late(c, prev) + d;
        RankStep(c.phase, c1.phase, d);
        SettleSlips(c1, now, now, d);
      }
    }
  }

  lemma RankStep(p: Phase, q: Phase, d: nat)
    requires Rank(p) == Rank(q) + 1
    ensures d * Rank(p) == d * Rank(q) + d
  {
  }

  /** No state ends early, so the address is not given up before the timers are over. */
  lemma {:induction false} SettleHolds(c: Clock, now: u32)
    requires c.phase != Unbound && now < Deadline(c) && now < UINT_MAX
    ensures Settle(c, now).phase != Unbound && Deadline(Settle(c, now)) >= Deadline(c)
    decreases Rank(c.phase)
  {
    if Due(c.entered, Secs(c), now) {
      SettleHolds(Expired(c, now), now);
    }
  }

  lemma {:induction false} SlipAll(c: Clock, start: u32, times: seq<u32>, d: nat)
    requires c.phase != Unbound && Paced(start, times, d)
    ensures var c' := SettleAll(c, times);
            c'.phase != Unbound ==>
              && (times != [] ==> Last(start, times) < c'.entered + Secs(c'))
              && Deadline(c') + Late(c', Last(start, times)) + d * Rank(c'.phase)
                 <= Deadline(c) + Late(c, start) + d * Rank(c.phase)
  {
    if times != [] {
      var n := |times| - 1;
      SlipAll(c, start, times[..n], d);
      var mid := SettleAll(c, times[..n]);
      if mid.phase != Unbound {
        SettleSlips(mid, Last(start, times[..n]), times[n], d);
      }
    }
  }

  lemma {:induction false} HoldAll(c: Clock, start: u32, times: seq<u32>, d: nat)
    requires c.phase != Unbound && Paced(start, times, d)
    requires times != [] ==> Last(start, times) < UINT_MAX && Last(start, times) < Deadline(c)
    ensures SettleAll(c, times).phase != Unbound && Deadline(SettleAll(c, times)) >= Deadline(c)
  {
    if times != [] {
      var n := |times| - 1;
      HoldAll(c, start, times[..n], d);
      SettleHolds(SettleAll(c, times[..n]), times[n]);
    }
  }

  lemma RankAtLeastOne(p: Phase, d: nat)
    ensures p != Unbound ==> d * Rank(p) >= d
  {
  }

  /**
   A clock that nothing renews, in a client run at least every `d` seconds from the time `start` on: until
   its timers are over the address is kept at every run, and it has been given up at every run from some
   turns of `d` later on, one for each state that is still to come.
   */
  lemma ClockRunsOut(c: Clock, start: u32, times: seq<u32>, d: nat)
    requires c.phase != Unbound && times != [] && Paced(start, times, d)
    ensures var now, c' := Last(start, times), SettleAll(c, times);
            && (now < Deadline(c) && now < UINT_MAX ==> c'.phase != Unbound)
            && (now >= Deadline(c) + Late(c, start) + d * (Rank(c.phase) - 1) ==> c'.phase == Unbound)
  {
    var now := Last(start, times);
    if now < Deadline(c) && now < UINT_MAX {
      HoldAll(c, start, times, d);
    }
    SlipAll(c, start, times, d);
    RankAtLeastOne(SettleAll(c, times).phase, d);
    assert d * (Rank(c.phase) - 1) == d * Rank(c.phase) - d;
  }

  /**
   A lease obtained at `start` and not renewed, in a client run at least every `d` seconds: while the
   lease lasts the address is kept at every run, and at the first run 2d seconds after its end, hence
   within 3d, it has been given up.
   */
  lemma LeaseRunsOut(t: Timers, lease: u32, start: u32, times: seq<u32>, d: nat)
    requires Total(t) == lease && times != [] && Paced(start, times, d)
    ensures var now, c' := Last(start, times), SettleAll(Clock(InBound, start, t), times);
            && (now < SatAdd(start, lease) ==> c'.phase != Unbound)
            && (now >= start + lease + 2 * d ==> c'.phase == Unbound)
  {
    ClockRunsOut(Clock(InBound, start, t), start, times, d);
  }

  // ----- forced renewals

  type Int32 = n: int | -0x8000_0000 <= n < 0x8000_0000

  /** Conversion of an unsigned number to a signed one. */
  function Signed(x: u32): Int32 { if x < 0x8000_0000 then x else x - WRAP }

  /** Division in C: towards zero. */
  function Quarter(x: int): int { if x >= 0 then x / 4 else -(-x / 4) }

  /** `deadline * k / 4`, stored in an unsigned field; where the product does not fit an `int` it wraps around. */
  function Part(limit: Int32, k: nat): u32 { Wrap(Quarter(Signed(Wrap(limit * k)))) }

  /** What the deadline comes to: no later than the end of the lease. A negative one counts as a large one. */
  function Limit(left: u32, deadline: Int32): u32 { if left <= Wrap(deadline) then left else Wrap(deadline) }

  /** The deadline comes too late for a client that is already renewing. */
  predicate TooLate(c: Clock, left: u32, deadline: Int32) {
    left <= Wrap(deadline) && (c.phase == InRenewing || c.phase == InRebinding)
  }

  /** What a forced renewal makes of a running clock, with `left` seconds left of the lease. */
  function Forced(c: Clock, left: u32, deadline: Int32, now: u32): Clock {
    if TooLate(c, left, deadline) then c else ForcedBy(c, Signed(Limit(left, deadline)), now)
  }

  function ForcedBy(c: Clock, limit: Int32, now: u32): Clock {
    if c.phase == InRebinding then Clock(InRebinding, now, c.t.(rebinding := Wrap(limit)))
    else Clock(InRenewing, now, c.t.(renewing := Part(limit, 3), rebinding := Part(limit, 1)))
  }

  lemma SignedWrap(deadline: Int32)
    ensures Signed(Wrap(deadline)) == deadline
  {
  }

  /** The largest limit whose triple fits an `int`. */
  const MAX_LIMIT: u32 := 0x2aaa_aaaa

  lemma SmallParts(limit: u32)
    requires limit <= MAX_LIMIT
    ensures Part(Signed(limit), 3) == limit * 3 / 4 && Part(Signed(limit), 1) == limit / 4
  {
    assert Wrap(limit * 3) == limit * 3 && Wrap(limit * 1) == limit;
    assert Wrap(limit * 3 / 4) == limit * 3 / 4 && Wrap(limit / 4) == limit / 4;
  }

  lemma PartsOfSmall(limit: u32)
    requires limit <= MAX_LIMIT
    ensures limit - 1 <= Part(Signed(limit), 3) + Part(Signed(limit), 1) <= limit
  {
    SmallParts(limit);
  }

  lemma PartsOfLarge(limit: u32)
    requires MAX_LIMIT < limit < 0x8000_0000
    ensures !(limit - 1 <= Part(Signed(limit), 3) + Part(Signed(limit), 1) <= limit)
  {
    if limit <= 0x5555_5555 {
      assert Signed(Wrap(limit * 3)) == limit * 3 - WRAP;
    } else {
      assert Wrap(limit * 3) == limit * 3 - WRAP;
    }
  }

  lemma QuarterOfHuge(limit: u32)
    requires 0x8000_0000 <= limit <= WRAP - 4
    ensures Part(Signed(limit), 1) > limit
  {
    var x := limit - WRAP;
    assert Wrap(x * 1) == limit && Quarter(x) == -((-x) / 4);
    assert Wrap(Quarter(x)) == WRAP - (-x) / 4;
  }

  lemma PartsOfHuge(limit: u32)
    requires limit >= 0x8000_0000
    ensures !(limit - 1 <= Part(Signed(limit), 3) + Part(Signed(limit), 1) <= limit)
  {
    if limit <= WRAP - 4 {
      QuarterOfHuge(limit);
    } else {
      assert limit == WRAP - 1 || limit == WRAP - 2 || limit == WRAP - 3;
    }
  }

  lemma PartsAddUpIff(limit: u32)
    ensures limit - 1 <= Part(Signed(limit), 3) + Part(Signed(limit), 1) <= limit <==> limit <= MAX_LIMIT
  {
    if limit <= MAX_LIMIT {
      PartsOfSmall(limit);
    } else if limit < 0x8000_0000 {
      PartsOfLarge(limit);
    } else {
      PartsOfHuge(limit);
    }
  }

  lemma ForcedDeadline(c: Clock, left: u32, deadline: Int32, now: u32)
    requires c.phase != Unbound && !TooLate(c, left, deadline)
    ensures var limit := Limit(left, deadline);
            Deadline(Forced(c, left, deadline, now)) ==
              now + (if c.phase == InRebinding then limit else Part(Signed(limit), 3) + Part(Signed(limit), 1))
  {
  }

  /**
   The timers of a forced renewal are over when its limit is, a second for rounding aside, exactly if the
   client is rebinding, so that no third of anything is computed, or the limit is not too large.
   */
  lemma ForcedOnTimeIff(c: Clock, left: u32, deadline: Int32, now: u32)
    requires c.phase != Unbound && !TooLate(c, left, deadline)
    ensures var c', limit := Forced(c, left, deadline, now), Limit(left, deadline);
            now + limit - 1 <= Deadline(c') <= now + limit <==> c.phase == InRebinding || limit <= MAX_LIMIT
  {
    ForcedDeadline(c, left, deadline, now);
    PartsAddUpIff(Limit(left, deadline));
  }
}
