/**
 The packet buffers of `forward.c`: a ring of 256 slots whose packets are fetched by ids that carry a
 per-slot cookie. Every copy ever made is given a serial number, so that "the packet saved under
 this id" and "exactly once" can be said.
 */
module PacketBuffers {
  import opened Bytes
  import opened Options

  const N_BUFFERS := 256
  /** `(1u << PKT_COOKIE_BITS) - 1`: cookies run from 0 to one less than this. */
  const COOKIES := 0xff_ffff
  const ALL_ONES: u32 := 0xffff_ffff
  /** Jiffies wrap around. */
  const TURN := 0x1_0000_0000

  /** OVERWRITE_JIFFIES, one second's worth, is whatever HZ is configured to, up to half a turn. */
  type Jiffies = n: nat | n <= TURN / 2

  const OVERWRITE: Jiffies

  type Packet = seq<byte>

  /** A copy made by `skb_copy`. */
  datatype Skb = Skb(serial: nat, packet: Packet)

  /** `struct packet_buffer` */
  datatype Slot = Slot(skb: Option<Skb>, cookie: nat, exp: nat)

  /** Where a copy is: in its slot, with whoever retrieved it, or gone. */
  datatype Fate = Held | HandedOut | Freed

  /** `time_before` on wrapping counters. */
  predicate Before(a: nat, b: nat) { (a - b) % TURN >= TURN / 2 }

  /** The id of the `c`th packet saved in slot `i`. */
  function IdOf(i: nat, c: nat): u32
    requires i < N_BUFFERS
  {
    i + 256 * (c % COOKIES)
  }

  lemma IdParts(i: nat, c: nat)
    requires i < N_BUFFERS
    ensures IdOf(i, c) % 256 == i && IdOf(i, c) / 256 == c % COOKIES
    ensures IdOf(i, c) != ALL_ONES
  {
  }

  /** Ids of one slot repeat after 2^24 - 1 saves and not before. */
  lemma IdRepeatsIff(i: nat, c: nat, later: nat)
    requires i < N_BUFFERS
    ensures IdOf(i, c) == IdOf(i, c + later) <==> later % COOKIES == 0
  {
    var q, r := (c + later) / COOKIES - c / COOKIES, later / COOKIES;
    if c % COOKIES == (c + later) % COOKIES {
      assert later == COOKIES * q;
      MultipleMod(q);
    } else if later % COOKIES == 0 {
      assert c + later == c + COOKIES * r;
      ShiftMod(c, r);
    }
  }

  lemma MultipleMod(k: int)
    ensures (COOKIES * k) % COOKIES == 0
  {
  }

  lemma ShiftMod(c: nat, k: int)
    ensures (c + COOKIES * k) % COOKIES == c % COOKIES
  {
  }

  /** Through any number of turns of the counter, a packet saved less than a second ago is seen as fresh. */
  lemma FreshIsBefore(now: nat, at: nat)
    requires at <= now
    ensures now < at + OVERWRITE ==> Before(now % TURN, (at + OVERWRITE) % TURN)
    ensures at + OVERWRITE <= now < at + OVERWRITE + TURN / 2 ==> !Before(now % TURN, (at + OVERWRITE) % TURN)
  {
    TurnsCancel(now, at + OVERWRITE);
    var e := now - (at + OVERWRITE);
    if now < at + OVERWRITE {
      assert e % TURN == e + TURN;
    } else if e < TURN / 2 {
      assert e % TURN == e;
    }
  }

  lemma TurnsCancel(a: nat, b: nat)
    ensures (a % TURN - b % TURN) % TURN == (a - b) % TURN
  {
    var k := a / TURN - b / TURN;
    assert a % TURN - b % TURN == (a - b) - TURN * k;
    TurnMod(a - b, k);
  }

  lemma TurnMod(x: int, k: int)
    ensures (x - TURN * k) % TURN == x % TURN
  {
  }

  // ----- what is remembered of every copy

  datatype Copy = Copy(fate: Fate, home: nat, at: nat, packet: Packet)

  /** All copies by serial, and per slot the serials saved there, oldest first. */
  datatype History = History(copies: seq<Copy>, saves: seq<seq<nat>>)

  /** Serials in the order they were given out. */
  ghost predicate Rising(saves: seq<nat>, n: nat) {
    && (forall a :: 0 <= a < |saves| ==> saves[a] < n)
    && (forall a, b :: 0 <= a < b < |saves| ==> saves[a] < saves[b])
  }

  ghost predicate SlotOk(b: Slot, i: nat, saves: seq<nat>, copies: seq<Copy>) {
    && b.cookie == |saves| % COOKIES && Rising(saves, |copies|)
    && (forall a :: 0 <= a < |saves| ==> copies[saves[a]].home == i)
    && (b.skb.Some? ==>
          var s := b.skb.value.serial;
          && saves != [] && s == saves[|saves| - 1] && s < |copies|
          && copies[s] == Copy(Held, i, copies[s].at, b.skb.value.packet)
          && b.exp == (copies[s].at + OVERWRITE) % TURN)
  }

  /** The copy is in the slot it was meant for. */
  ghost predicate InSlot(slots: seq<Slot>, c: Copy, s: nat) {
    c.home < |slots| && slots[c.home].skb.Some? && slots[c.home].skb.value.serial == s
  }

  /** A copy is in a slot exactly if it is held; every cookie counts the saves of its slot. */
  ghost predicate Consistent(slots: seq<Slot>, h: History) {
    && |slots| == N_BUFFERS == |h.saves|
    && (forall i :: 0 <= i < N_BUFFERS ==> SlotOk(slots[i], i, h.saves[i], h.copies))
    && (forall s :: 0 <= s < |h.copies| && h.copies[s].fate == Held ==> InSlot(slots, h.copies[s], s))
  }

  function Vacated(slots: seq<Slot>, i: nat): seq<Slot>
    requires i < |slots|
  {
    slots[i := slots[i].(skb := None)]
  }

  function WithFate(h: History, s: nat, f: Fate): History
    requires s < |h.copies|
  {
    h.(copies := h.copies[s := h.copies[s].(fate := f)])
  }

  /** The packet in slot `i`: the latest that was saved there, if it is still held. */
  function OnSlot(h: History, i: nat): (skb: Option<Skb>)
    requires i < |h.saves|
    ensures skb.Some? ==> skb.value.serial < |h.copies|
  {
    if h.saves[i] == [] then None
    else
      var s := h.saves[i][|h.saves[i]| - 1];
      if s < |h.copies| && h.copies[s].fate == Held then Some(Skb(s, h.copies[s].packet)) else None
  }

  lemma SlotHolds(slots: seq<Slot>, h: History, i: nat)
    requires Consistent(slots, h) && i < N_BUFFERS
    ensures slots[i].skb == OnSlot(h, i)
  {
    assert SlotOk(slots[i], i, h.saves[i], h.copies);
    if h.saves[i] != [] {
      var s := h.saves[i][|h.saves[i]| - 1];
      assert h.copies[s].fate == Held ==> InSlot(slots, h.copies[s], s);
    }
  }

  /** The history once a copy, if any, has been taken out of its slot. */
  function Settled(h: History, skb: Option<Skb>, f: Fate): History {
    if skb.Some? && skb.value.serial < |h.copies| then WithFate(h, skb.value.serial, f) else h
  }

  /** Taking the packet out of a slot settles the fate of that copy and of no other. */
  lemma Release(slots: seq<Slot>, h: History, i: nat, f: Fate)
    requires Consistent(slots, h) && i < N_BUFFERS && slots[i].skb.Some? && f != Held
    ensures slots[i].skb.value.serial < |h.copies|
    ensures Consistent(Vacated(slots, i), WithFate(h, slots[i].skb.value.serial, f))
  {
    assert SlotOk(slots[i], i, h.saves[i], h.copies);
    var s := slots[i].skb.value.serial;
    var slots', h' := Vacated(slots, i), WithFate(h, s, f);
    forall j | 0 <= j < N_BUFFERS ensures SlotOk(slots'[j], j, h'.saves[j], h'.copies) {
      assert SlotOk(slots[j], j, h.saves[j], h.copies);
    }
    forall t | 0 <= t < |h'.copies| && h'.copies[t].fate == Held ensures InSlot(slots', h'.copies[t], t) {
      assert InSlot(slots, h.copies[t], t);
    }
  }

  lemma NothingHeld(slots: seq<Slot>, h: History)
    requires Consistent(slots, h) && forall i :: 0 <= i < N_BUFFERS ==> slots[i].skb.None?
    ensures forall s :: 0 <= s < |h.copies| ==> h.copies[s].fate != Held
  {
  }

  function Added(h: History, c: Copy): History { h.(copies := h.copies + [c]) }

  lemma AddLoose(slots: seq<Slot>, h: History, c: Copy)
    requires Consistent(slots, h) && c.fate != Held
    ensures Consistent(slots, Added(h, c))
  {
    forall i | 0 <= i < N_BUFFERS ensures SlotOk(slots[i], i, h.saves[i], Added(h, c).copies) {
      assert SlotOk(slots[i], i, h.saves[i], h.copies);
    }
  }

  function Saved(h: History, i: nat, c: Copy): History
    requires i < |h.saves|
  {
    History(h.copies + [c], h.saves[i := h.saves[i] + [|h.copies|]])
  }

  /** `++cookie`, which skips the value that would make an id all ones. */
  function NextCookie(cookie: nat): nat { if cookie + 1 >= COOKIES then 0 else cookie + 1 }

  lemma Install(slots: seq<Slot>, h: History, i: nat, now: nat, packet: Packet)
    requires Consistent(slots, h) && i < N_BUFFERS && slots[i].skb.None?
    ensures var b := Slot(Some(Skb(|h.copies|, packet)), NextCookie(slots[i].cookie), (now + OVERWRITE) % TURN);
            Consistent(slots[i := b], Saved(h, i, Copy(Held, i, now, packet)))
  {
    var c := Copy(Held, i, now, packet);
    var b := Slot(Some(Skb(|h.copies|, packet)), NextCookie(slots[i].cookie), (now + OVERWRITE) % TURN);
    var slots', h' := slots[i := b], Saved(h, i, c);
    CookieCounts(|h.saves[i]|);
    forall j | 0 <= j < N_BUFFERS ensures SlotOk(slots'[j], j, h'.saves[j], h'.copies) {
      assert SlotOk(slots[j], j, h.saves[j], h.copies);
    }
    forall t | 0 <= t < |h'.copies| && h'.copies[t].fate == Held ensures InSlot(slots', h'.copies[t], t) {
      if t < |h.copies| {
        assert InSlot(slots, h.copies[t], t);
      }
    }
  }

  lemma CookieCounts(n: nat)
    ensures NextCookie(n % COOKIES) == (n + 1) % COOKIES
  {
  }

  /** A copy that is not held any more stays what it became; new copies may appear. */
  ghost predicate Evolves(was: seq<Copy>, now: seq<Copy>) {
    && |was| <= |now|
    && forall s :: 0 <= s < |was| ==>
                     now[s] == was[s] || (was[s].fate == Held && now[s] == was[s].(fate := now[s].fate))
  }

  // ----- what operations do to the history, and what they answer

  datatype Op = SaveOp(packet: Packet, delay: nat) | RetrieveOp(id: u32) | DiscardOp(id: u32) | DiscardAllOp

  /** What an operation returns; a save also makes a copy, here known by its serial number. */
  datatype Answer = Id(id: u32, serial: nat) | Got(skb: Option<Skb>) | Done

  predicate Issued(a: Answer) { a.Id? && a.id != ALL_ONES }

  predicate Sized(h: History) { |h.saves| == N_BUFFERS }

  /** The slot for the next copy. */
  function NextSlot(h: History): nat { (|h.copies| + 1) % N_BUFFERS }

  lemma SlotsTurn(n: nat)
    ensures (n % N_BUFFERS + 1) % N_BUFFERS == (n + 1) % N_BUFFERS
  {
  }

  /** There is a packet in it that is not old enough to go. */
  predicate Refuses(h: History, now: nat)
    requires Sized(h)
  {
    var x := OnSlot(h, NextSlot(h));
    x.Some? && Before(now % TURN, (h.copies[x.value.serial].at + OVERWRITE) % TURN)
  }

  function AfterSave(h: History, packet: Packet, now: nat): (h': History)
    requires Sized(h)
    ensures Sized(h') && |h'.copies| == |h.copies| + 1
  {
    var i := NextSlot(h);
    if Refuses(h, now) then Added(h, Copy(Freed, i, now, packet))
    else Saved(Settled(h, OnSlot(h, i), Freed), i, Copy(Held, i, now, packet))
  }

  function SaveId(h: History, now: nat): u32
    requires Sized(h)
  {
    if Refuses(h, now) then ALL_ONES else IdOf(NextSlot(h), |h.saves[NextSlot(h)]| + 1)
  }

  /** What is under an id: the packet in its slot, if the cookie is current. */
  function Fetched(h: History, id: u32): (skb: Option<Skb>)
    requires Sized(h)
    ensures skb.Some? ==> skb.value.serial < |h.copies|
  {
    if id / 256 == |h.saves[id % 256]| % COOKIES then OnSlot(h, id % 256) else None
  }

  function AllFreed(h: History): History {
    h.(copies := seq(|h.copies|, s requires 0 <= s < |h.copies| =>
                       if h.copies[s].fate == Held then h.copies[s].(fate := Freed) else h.copies[s]))
  }

  function After(h: History, op: Op, now: nat): (h': History)
    requires Sized(h)
    ensures Sized(h')
  {
    match op
    case SaveOp(packet, _) => AfterSave(h, packet, now)
    case RetrieveOp(id) => Settled(h, Fetched(h, id), HandedOut)
    case DiscardOp(id) => Settled(h, Fetched(h, id), Freed)
    case DiscardAllOp => AllFreed(h)
  }

  function AnswerTo(h: History, op: Op, now: nat): Answer
    requires Sized(h)
  {
    match op
    case SaveOp(_, _) => Id(SaveId(h, now), |h.copies|)
    case RetrieveOp(id) => Got(Fetched(h, id))
    case _ => Done
  }

  /** The test of the code, on the slot. */
  lemma RefusesIs(slots: seq<Slot>, h: History, now: nat)
    requires Consistent(slots, h)
    ensures var p := slots[NextSlot(h)]; Refuses(h, now) <==> p.skb.Some? && Before(now % TURN, p.exp)
  {
    SlotHolds(slots, h, NextSlot(h));
    assert SlotOk(slots[NextSlot(h)], NextSlot(h), h.saves[NextSlot(h)], h.copies);
  }

  /** What is freed has been in the next slot for a second. */
  ghost predicate FreesOld(h: History, h': History, now: nat) {
    && |h.copies| <= |h'.copies|
    && forall s :: 0 <= s < |h.copies| && h'.copies[s] != h.copies[s] ==>
                     && h'.copies[s].fate == Freed && h'.copies[s].home == NextSlot(h)
                     && h'.copies[s].at + OVERWRITE <= now
  }

  /** A save frees no packet that was saved less than a second ago. */
  lemma SaveFreesOld(slots: seq<Slot>, h: History, packet: Packet, now: nat)
    requires Consistent(slots, h) && forall s :: 0 <= s < |h.copies| ==> h.copies[s].at <= now
    ensures FreesOld(h, AfterSave(h, packet, now), now)
  {
    var x := OnSlot(h, NextSlot(h));
    SlotHolds(slots, h, NextSlot(h));
    assert SlotOk(slots[NextSlot(h)], NextSlot(h), h.saves[NextSlot(h)], h.copies);
    if x.Some? {
      FreshIsBefore(now, h.copies[x.value.serial].at);
    }
  }

  // ----- the code

  class Ring {
    const buffers: array<Slot>
    var idx: nat
    /** Copies made so far; a copy's address stands for its serial number. */
    var copies: nat
    ghost var h: History

    ghost predicate Valid()
      reads this, buffers
    {
      Consistent(buffers[..], h) && copies == |h.copies| && idx == copies % N_BUFFERS
    }

    constructor ()
      ensures Valid() && fresh(buffers) && h == History([], seq(N_BUFFERS, _ => []))
    {
      buffers := new Slot[N_BUFFERS](_ => Slot(None, 0, 0));
      idx, copies := 0, 0;
      h := History([], seq(N_BUFFERS, _ => []));
    }

    /**
     `fwd_save_skb` at time `now`. The copy is refused, and the id all ones, exactly when there is a packet
     in the next slot that was saved less than a second ago; otherwise it is held under the next id of the
     slot, and a packet it replaces is freed, not before its second is over.
     */
    method Save(packet: Packet, now: nat) returns (id: u32)
      requires Valid() && forall s :: 0 <= s < |h.copies| ==> h.copies[s].at <= now
      modifies this, buffers
      ensures Valid() && h == AfterSave(old(h), packet, now) && id == SaveId(old(h), now)
      ensures FreesOld(old(h), h, now)
    {
      SaveFreesOld(buffers[..], h, packet, now);
      SlotsTurn(copies);
      idx := (idx + 1) % N_BUFFERS;
      copies := copies + 1;
      id := Admit(packet, now, copies - 1);
    }

    /** The rest of it, for the copy with serial number `s`. */
    method Admit(packet: Packet, now: nat, s: nat) returns (id: u32)
      requires Consistent(buffers[..], h) && idx == NextSlot(h) && s == |h.copies|
      modifies this`h, buffers
      ensures Consistent(buffers[..], h) && h == AfterSave(old(h), packet, now) && id == SaveId(old(h), now)
    {
      RefusesIs(buffers[..], h, now);
      if buffers[idx].skb.Some? && Before(now % TURN, buffers[idx].exp) {
        Refuse(packet, now);
        id := ALL_ONES;
      } else {
        id := Replace(packet, now, s);
      }
    }

    /** The copy is freed again. */
    ghost method Refuse(packet: Packet, now: nat)
      requires Consistent(buffers[..], h)
      modifies this`h
      ensures Consistent(buffers[..], h) && h == Added(old(h), Copy(Freed, idx, now, packet))
    {
      AddLoose(buffers[..], h, Copy(Freed, idx, now, packet));
      h := Added(h, Copy(Freed, idx, now, packet));
    }

    /** Put a copy in the current slot, whatever was there before. */
    method Replace(packet: Packet, now: nat, s: nat) returns (id: u32)
      requires Consistent(buffers[..], h) && idx < N_BUFFERS && s == |h.copies|
      modifies this`h, buffers
      ensures Consistent(buffers[..], h) && id == IdOf(idx, |old(h).saves[idx]| + 1)
      ensures h == Saved(Settled(old(h), OnSlot(old(h), idx), Freed), idx, Copy(Held, idx, now, packet))
    {
      var p := buffers[idx];
      ghost var slots := buffers[..];
      SlotHolds(slots, h, idx);
      assert SlotOk(slots[idx], idx, h.saves[idx], h.copies);
      if p.skb.Some? {
        Release(slots, h, idx, Freed);
        slots := Vacated(slots, idx);
      }
      h := Settled(h, p.skb, Freed);
      Install(slots, h, idx, now, packet);
      CookieCounts(|h.saves[idx]|);
      h := Saved(h, idx, Copy(Held, idx, now, packet));
      var cookie := p.cookie + 1;
      if cookie >= COOKIES {
        cookie := 0;
      }
      buffers[idx] := Slot(Some(Skb(s, packet)), cookie, (now + OVERWRITE) % TURN);
      assert buffers[..] == slots[idx := buffers[idx]];
      id := idx + 256 * cookie;
    }

    /** Take the packet out of the slot that `id` names, if the cookie is the current one. */
    method Take(id: u32, ghost f: Fate) returns (skb: Option<Skb>)
      requires Valid() && f != Held
      modifies this`h, buffers
      ensures Valid() && skb == Fetched(old(h), id) && h == Settled(old(h), skb, f)
    {
      skb := None;
      var p := buffers[id % 256];
      SlotHolds(buffers[..], h, id % 256);
      assert SlotOk(buffers[..][id % 256], id % 256, h.saves[id % 256], h.copies);
      if p.cookie == id / 256 {
        skb := p.skb;
        if skb.Some? {
          Release(buffers[..], h, id % 256, f);
          h := WithFate(h, skb.value.serial, f);
        }
        ghost var slots := buffers[..];
        buffers[id % 256] := p.(skb := None);
        assert buffers[..] == Vacated(slots, id % 256);
      }
    }

    /** `retrieve_skb` */
    method Retrieve(id: u32) returns (skb: Option<Skb>)
      requires Valid()
      modifies this`h, buffers
      ensures Valid() && skb == Fetched(old(h), id) && h == Settled(old(h), skb, HandedOut)
    {
      skb := Take(id, HandedOut);
    }

    /** `discard_skb` */
    method Discard(id: u32)
      requires Valid()
      modifies this`h, buffers
      ensures Valid() && h == Settled(old(h), Fetched(old(h), id), Freed)
    {
      var _ := Take(id, Freed);
    }

    /** `fwd_discard_all`: no copy is held afterwards. */
    method DiscardAll()
      requires Valid()
      modifies this`h, buffers
      ensures Valid() && h == AllFreed(old(h))
    {
      ghost var was := h;
      for i := 0 to N_BUFFERS
        invariant Valid() && h.saves == was.saves && |h.copies| == |was.copies| && Evolves(was.copies, h.copies)
        invariant forall j :: 0 <= j < i ==> buffers[j].skb.None?
        invariant forall s :: 0 <= s < |h.copies| && h.copies[s] != was.copies[s] ==> h.copies[s].fate == Freed
      {
        var p := buffers[i];
        if p.skb.Some? {
          Release(buffers[..], h, i, Freed);
          h := WithFate(h, p.skb.value.serial, Freed);
        }
        ghost var slots := buffers[..];
        buffers[i] := p.(skb := None);
        assert buffers[..] == Vacated(slots, i);
      }
      NothingHeld(buffers[..], h);
      assert h.copies == AllFreed(was).copies;
    }
  }

  // ----- whole runs

  datatype Outcome = Outcome(h: History, now: nat, answers: seq<Answer>)

  function Later(now: nat, op: Op): nat { if op.SaveOp? then now + op.delay else now }

  /** A run is determined by its operations. */
  function Replay(h: History, start: nat, ops: seq<Op>): (o: Outcome)
    requires Sized(h)
    ensures Sized(o.h) && |o.answers| == |ops|
  {
    if ops == [] then Outcome(h, start, [])
    else
      var n := |ops| - 1;
      var o := Replay(h, start, ops[..n]);
      var now := Later(o.now, ops[n]);
      Outcome(After(o.h, ops[n], now), now, o.answers + [AnswerTo(o.h, ops[n], now)])
  }

  lemma ReplayNext(h: History, start: nat, ops: seq<Op>, k: nat)
    requires Sized(h) && k < |ops|
    ensures var o := Replay(h, start, ops[..k]);
            var now := Later(o.now, ops[k]);
            Replay(h, start, ops[..k + 1]) ==
            Outcome(After(o.h, ops[k], now), now, o.answers + [AnswerTo(o.h, ops[k], now)])
  {
    assert ops[..k + 1][..k] == ops[..k];
  }

  /** What is under an id. */
  lemma FetchedIs(slots: seq<Slot>, h: History, id: u32)
    requires Consistent(slots, h)
    ensures var x := Fetched(h, id);
            x.Some? ==> h.copies[x.value.serial] == Copy(Held, id % 256, h.copies[x.value.serial].at, x.value.packet)
                        && id == IdOf(id % 256, |h.saves[id % 256]|)
  {
    SlotHolds(slots, h, id % 256);
    assert SlotOk(slots[id % 256], id % 256, h.saves[id % 256], h.copies);
  }

  /**
   The holder of an id gets the packet saved under it: if `id` was given out for the `c`th packet of
   its slot, then what a retrieval returns is that packet if and only if fewer than 2^24 - 1 packets
   have been saved in the slot since.
   */
  lemma TicketHonouredIff(slots: seq<Slot>, h: History, i: nat, c: nat)
    requires Consistent(slots, h) && i < N_BUFFERS && 0 < c <= |h.saves[i]| && Fetched(h, IdOf(i, c)).Some?
    ensures Fetched(h, IdOf(i, c)).value.serial == h.saves[i][c - 1] <==> |h.saves[i]| - c < COOKIES
  {
    var n := |h.saves[i]|;
    assert SlotOk(slots[i], i, h.saves[i], h.copies);
    FetchedIs(slots, h, IdOf(i, c));
    IdParts(i, c);
    IdRepeatsIff(i, c, n - c);
    if n - c < COOKIES {
      assert n == c;
    }
  }

  /** `out` lists, without repetition, the copies handed out since the history was `was`. */
  ghost predicate Accounts(was: seq<Copy>, now: seq<Copy>, out: seq<Skb>) {
    && Evolves(was, now)
    && (forall a, b :: 0 <= a < b < |out| ==> out[a].serial != out[b].serial)
    && (forall a :: 0 <= a < |out| ==> HandedTo(was, now, out[a]))
    && (forall s :: 0 <= s < |now| && now[s].fate == HandedOut && (s < |was| ==> was[s].fate != HandedOut)
                    ==> Listed(out, s))
  }

  ghost predicate HandedTo(was: seq<Copy>, now: seq<Copy>, x: Skb) {
    && x.serial < |now| && now[x.serial].fate == HandedOut && now[x.serial].packet == x.packet
    && (x.serial < |was| ==> was[x.serial].fate == Held)
  }

  ghost predicate Listed(out: seq<Skb>, s: nat) { exists a :: 0 <= a < |out| && out[a].serial == s }

  lemma EvolvesOn(a: seq<Copy>, b: seq<Copy>, c: seq<Copy>)
    requires Evolves(a, b) && Evolves(b, c)
    ensures Evolves(a, c)
  {
  }

  /** Steps that hand nothing out. */
  lemma AccountsKept(was: seq<Copy>, now: seq<Copy>, later: seq<Copy>, out: seq<Skb>)
    requires Accounts(was, now, out) && Evolves(now, later)
    requires forall s :: 0 <= s < |later| && later[s].fate == HandedOut ==> s < |now| && now[s].fate == HandedOut
    ensures Accounts(was, later, out)
  {
    EvolvesOn(was, now, later);
    forall a | 0 <= a < |out| ensures HandedTo(was, later, out[a]) {
      assert HandedTo(was, now, out[a]);
    }
  }

  lemma ListedSnoc(out: seq<Skb>, x: Skb, s: nat)
    ensures Listed(out + [x], s) <==> Listed(out, s) || x.serial == s
  {
    if Listed(out, s) {
      var a :| 0 <= a < |out| && out[a].serial == s;
      assert (out + [x])[a].serial == s;
    }
    if x.serial == s {
      assert (out + [x])[|out|].serial == s;
    }
  }

  /** A held copy is handed out: it cannot have been before. */
  lemma AccountsMore(was: seq<Copy>, now: seq<Copy>, later: seq<Copy>, out: seq<Skb>, x: Skb)
    requires Accounts(was, now, out)
    requires x.serial < |now| && now[x.serial].fate == Held && now[x.serial].packet == x.packet
    requires later == now[x.serial := now[x.serial].(fate := HandedOut)]
    ensures Accounts(was, later, out + [x])
  {
    EvolvesOn(was, now, later);
    forall a | 0 <= a < |out| ensures HandedTo(was, later, out[a]) && out[a].serial != x.serial {
      assert HandedTo(was, now, out[a]);
    }
    forall s | 0 <= s < |later| && later[s].fate == HandedOut && (s < |was| ==> was[s].fate != HandedOut)
      ensures Listed(out + [x], s)
    {
      ListedSnoc(out, x, s);
    }
  }

  // ----- tickets over a run

  /** How many packets these operations saved in slot `i`. */
  function SavesIn(answers: seq<Answer>, i: nat): nat {
    if answers == [] then 0
    else
      var n := |answers| - 1;
      SavesIn(answers[..n], i) + if Issued(answers[n]) && answers[n].id % 256 == i then 1 else 0
  }

  /** How many packets were saved in its slot since ticket `j` was issued. */
  function Since(answers: seq<Answer>, j: nat): nat
    requires j < |answers| && answers[j].Id?
  {
    SavesIn(answers[j + 1..], answers[j].id % 256)
  }

  /** The ticket is the id of the packet it was issued for, counted back from the latest in its slot. */
  ghost predicate TicketOk(h: History, a: Answer, packet: Packet, since: nat)
    requires a.Id?
  {
    && |h.saves| == N_BUFFERS
    && var i := a.id % 256;
    && since < |h.saves[i]|
    && var c := |h.saves[i]| - since;
    && a.id == IdOf(i, c) && h.saves[i][c - 1] == a.serial < |h.copies| && h.copies[a.serial].packet == packet
  }

  ghost predicate TicketsOk(h: History, ops: seq<Op>, answers: seq<Answer>) {
    |answers| <= |ops| && forall j :: 0 <= j < |answers| && Issued(answers[j]) ==>
                                        ops[j].SaveOp? && TicketOk(h, answers[j], ops[j].packet, Since(answers, j))
  }

  /** What tickets and accounts need to know of an operation. */
  ghost predicate Performs(h: History, op: Op, a: Answer, h': History) {
    && Evolves(h.copies, h'.copies) && Sized(h) && Sized(h')
    && (if Issued(a) then
          var i := a.id % 256;
          && op.SaveOp? && h'.saves == h.saves[i := h.saves[i] + [a.serial]] && a.id == IdOf(i, |h'.saves[i]|)
          && a.serial < |h'.copies| && h'.copies[a.serial].packet == op.packet
        else h'.saves == h.saves)
    && (if a.Got? && a.skb.Some? then
          var x := a.skb.value;
          && x.serial < |h.copies| && h.copies[x.serial].fate == Held && h.copies[x.serial].packet == x.packet
          && h'.copies == h.copies[x.serial := h.copies[x.serial].(fate := HandedOut)]
        else forall s :: 0 <= s < |h'.copies| && h'.copies[s].fate == HandedOut ==>
                           s < |h.copies| && h.copies[s].fate == HandedOut)
  }

  lemma SavePerforms(h: History, packet: Packet, delay: nat, now: nat)
    requires Sized(h)
    ensures var op := SaveOp(packet, delay); Performs(h, op, AnswerTo(h, op, now), After(h, op, now))
  {
    IdParts(NextSlot(h), |h.saves[NextSlot(h)]| + 1);
  }

  lemma AfterPerforms(slots: seq<Slot>, h: History, op: Op, now: nat)
    requires Consistent(slots, h)
    ensures Performs(h, op, AnswerTo(h, op, now), After(h, op, now))
  {
    match op
    case SaveOp(packet, delay) => SavePerforms(h, packet, delay, now);
    case RetrieveOp(id) => FetchedIs(slots, h, id);
    case DiscardOp(id) => FetchedIs(slots, h, id);
    case DiscardAllOp =>
  }

  lemma SinceSnoc(answers: seq<Answer>, a: Answer, j: nat)
    requires j < |answers| && answers[j].Id?
    ensures Since(answers + [a], j)
         == Since(answers, j) + if Issued(a) && a.id % 256 == answers[j].id % 256 then 1 else 0
  {
    assert (answers + [a])[j + 1..] == answers[j + 1..] + [a];
    assert (answers[j + 1..] + [a])[..|answers| - j - 1] == answers[j + 1..];
  }

  lemma SinceNow(answers: seq<Answer>, a: Answer)
    requires a.Id?
    ensures Since(answers + [a], |answers|) == 0
  {
    assert (answers + [a])[|answers| + 1..] == [];
  }

  lemma TicketKept(h: History, op: Op, a: Answer, h': History, b: Answer, packet: Packet, since: nat)
    requires Performs(h, op, a, h') && b.Id? && TicketOk(h, b, packet, since)
    ensures TicketOk(h', b, packet, since + if Issued(a) && a.id % 256 == b.id % 256 then 1 else 0)
  {
  }

  lemma TicketsKept(h: History, h': History, ops: seq<Op>, answers: seq<Answer>, a: Answer)
    requires TicketsOk(h, ops, answers) && |answers| < |ops| && Performs(h, ops[|answers|], a, h')
    ensures TicketsOk(h', ops, answers + [a])
  {
    var n, more := |answers|, answers + [a];
    forall j | 0 <= j < |more| && Issued(more[j])
      ensures ops[j].SaveOp? && TicketOk(h', more[j], ops[j].packet, Since(more, j))
    {
      if j < n {
        SinceSnoc(answers, a, j);
        TicketKept(h, ops[n], a, h', answers[j], ops[j].packet, Since(answers, j));
      } else {
        SinceNow(answers, a);
      }
    }
  }

  /** The operation takes the packet away that is held under the id. */
  predicate Disturbs(op: Op, a: Answer, id: u32) {
    match op
    case SaveOp(_, _) => Issued(a) && a.id % 256 == id % 256
    case RetrieveOp(x) => x == id
    case DiscardOp(x) => x == id
    case DiscardAllOp => true
  }

  /** Since ticket `j` was issued, nothing took its packet away. */
  ghost predicate Undisturbed(ops: seq<Op>, answers: seq<Answer>, j: nat)
    requires j < |answers| <= |ops| && answers[j].Id?
  {
    forall m :: j < m < |answers| ==> !Disturbs(ops[m], answers[m], answers[j].id)
  }

  /** Exactly then the copy is still held. */
  ghost predicate HeldIfUndisturbed(h: History, ops: seq<Op>, answers: seq<Answer>)
    requires TicketsOk(h, ops, answers)
  {
    forall j :: 0 <= j < |answers| && Issued(answers[j]) ==>
                  (TicketHeld(h, answers[j]) <==> Undisturbed(ops, answers, j))
  }

  ghost predicate TicketHeld(h: History, b: Answer) {
    b.Id? && b.serial < |h.copies| && h.copies[b.serial].fate == Held
  }

  /** A copy that is held is the latest of its slot, and its ticket fetches it. */
  lemma HeldIsFetched(slots: seq<Slot>, h: History, b: Answer, packet: Packet, since: nat)
    requires Consistent(slots, h) && b.Id? && TicketOk(h, b, packet, since)
    ensures TicketHeld(h, b) <==> Fetched(h, b.id) == Some(Skb(b.serial, packet))
    ensures TicketHeld(h, b) ==> since == 0 && h.copies[b.serial].home == b.id % 256
  {
    var i := b.id % 256;
    var n := |h.saves[i]|;
    IdParts(i, n - since);
    FetchedIs(slots, h, b.id);
    assert SlotOk(slots[i], i, h.saves[i], h.copies);
    if TicketHeld(h, b) {
      assert h.copies[h.saves[i][n - since - 1]].home == i;
      assert InSlot(slots, h.copies[b.serial], b.serial);
    }
  }

  /** An operation leaves a held copy in its slot unless it disturbs it. */
  lemma HeldOn(slots: seq<Slot>, h: History, op: Op, now: nat, b: Answer, packet: Packet, since: nat)
    requires Consistent(slots, h) && b.Id? && TicketOk(h, b, packet, since)
    ensures TicketHeld(After(h, op, now), b) <==> TicketHeld(h, b) && !Disturbs(op, AnswerTo(h, op, now), b.id)
  {
    AfterPerforms(slots, h, op, now);
    HeldIsFetched(slots, h, b, packet, since);
    match op
    case SaveOp(_, _) =>
      var i := NextSlot(h);
      IdParts(i, |h.saves[i]| + 1);
      SlotHolds(slots, h, i);
      assert SlotOk(slots[i], i, h.saves[i], h.copies);
    case RetrieveOp(id) =>
      FetchedIs(slots, h, id);
      FetchedIs(slots, h, b.id);
    case DiscardOp(id) =>
      FetchedIs(slots, h, id);
      FetchedIs(slots, h, b.id);
    case DiscardAllOp =>
  }

  lemma HeldAtFirst(h: History, op: Op, now: nat)
    requires Sized(h) && Issued(AnswerTo(h, op, now))
    ensures TicketHeld(After(h, op, now), AnswerTo(h, op, now))
  {
  }

  lemma UndisturbedSnoc(ops: seq<Op>, answers: seq<Answer>, a: Answer, j: nat)
    requires j < |answers| < |ops| && answers[j].Id?
    ensures Undisturbed(ops, answers + [a], j)
       <==> Undisturbed(ops, answers, j) && !Disturbs(ops[|answers|], a, answers[j].id)
  {
    var more := answers + [a];
    assert forall m :: j < m < |answers| ==> more[m] == answers[m];
    assert more[|answers|] == a;
  }

  lemma HeldKept(slots: seq<Slot>, h: History, now: nat, ops: seq<Op>, answers: seq<Answer>)
    requires Consistent(slots, h) && TicketsOk(h, ops, answers) && |answers| < |ops|
    requires HeldIfUndisturbed(h, ops, answers)
    requires TicketsOk(After(h, ops[|answers|], now), ops, answers + [AnswerTo(h, ops[|answers|], now)])
    ensures HeldIfUndisturbed(After(h, ops[|answers|], now), ops, answers + [AnswerTo(h, ops[|answers|], now)])
  {
    var n, op := |answers|, ops[|answers|];
    var h', a := After(h, op, now), AnswerTo(h, op, now);
    var more := answers + [a];
    forall j | 0 <= j < |more| && Issued(more[j]) ensures TicketHeld(h', more[j]) <==> Undisturbed(ops, more, j) {
      if j < n {
        UndisturbedSnoc(ops, answers, a, j);
        HeldOn(slots, h, op, now, answers[j], ops[j].packet, Since(answers, j));
      } else {
        HeldAtFirst(h, op, now);
      }
    }
  }

  /**
   A retrieval with ticket `j` gets the packet that the ticket was issued for exactly if nothing took it
   away before: no later packet in the slot, no retrieval or discard under the same id, no discard of all.
   If it gets a packet at all, that is the one exactly if fewer than 2^24 - 1 packets were saved in the slot
   since.
   */
  ghost predicate Honoured(ops: seq<Op>, answers: seq<Answer>, j: nat, k: nat)
    requires j < k < |answers| <= |ops| && answers[j].Id? && ops[j].SaveOp?
  {
    ops[k] == RetrieveOp(answers[j].id) ==>
      && answers[k].Got?
      && (answers[k].skb == Some(Skb(answers[j].serial, ops[j].packet)) <==> Undisturbed(ops, answers[..k], j))
      && (answers[k].skb.Some? ==>
            (answers[k].skb.value == Skb(answers[j].serial, ops[j].packet) <==> Since(answers[..k], j) < COOKIES))
  }

  ghost predicate AllHonoured(ops: seq<Op>, answers: seq<Answer>) {
    |answers| <= |ops| && forall j, k :: 0 <= j < k < |answers| && Issued(answers[j]) ==>
                                           ops[j].SaveOp? && Honoured(ops, answers, j, k)
  }

  lemma HonouredNow(slots: seq<Slot>, h: History, now: nat, ops: seq<Op>, answers: seq<Answer>, j: nat)
    requires Consistent(slots, h) && TicketsOk(h, ops, answers) && HeldIfUndisturbed(h, ops, answers)
    requires j < |answers| < |ops| && Issued(answers[j])
    ensures Honoured(ops, answers + [AnswerTo(h, ops[|answers|], now)], j, |answers|)
  {
    var n, b := |answers|, answers[j];
    var a := AnswerTo(h, ops[n], now);
    var more := answers + [a];
    assert more[..n] == answers && more[n] == a && more[j] == b;
    var since := Since(answers, j);
    assert TicketOk(h, b, ops[j].packet, since);
    if ops[n] == RetrieveOp(b.id) {
      HeldIsFetched(slots, h, b, ops[j].packet, since);
      if a.skb.Some? {
        var i := b.id % 256;
        TicketHonouredIff(slots, h, i, |h.saves[i]| - since);
        FetchedIs(slots, h, b.id);
      }
    }
  }

  lemma HonouredKept(slots: seq<Slot>, h: History, now: nat, ops: seq<Op>, answers: seq<Answer>)
    requires Consistent(slots, h) && TicketsOk(h, ops, answers) && HeldIfUndisturbed(h, ops, answers)
    requires |answers| < |ops| && AllHonoured(ops, answers)
    ensures AllHonoured(ops, answers + [AnswerTo(h, ops[|answers|], now)])
  {
    var n, more := |answers|, answers + [AnswerTo(h, ops[|answers|], now)];
    forall j, k | 0 <= j < k < |more| && Issued(more[j]) ensures ops[j].SaveOp? && Honoured(ops, more, j, k) {
      if k < n {
        assert Honoured(ops, answers, j, k) && more[..k] == answers[..k];
      } else {
        HonouredNow(slots, h, now, ops, answers, j);
      }
    }
  }

  /** One operation at time `now`. */
  method Perform(r: Ring, op: Op, now: nat) returns (a: Answer)
    requires r.Valid() && forall s :: 0 <= s < |r.h.copies| ==> r.h.copies[s].at <= now
    modifies r, r.buffers
    ensures r.Valid() && r.h == After(old(r.h), op, now) && a == AnswerTo(old(r.h), op, now)
    ensures forall s :: 0 <= s < |r.h.copies| ==> r.h.copies[s].at <= now
  {
    match op
    case SaveOp(packet, _) =>
      var serial := r.copies;
      var id := r.Save(packet, now);
      a := Id(id, serial);
    case RetrieveOp(id) =>
      var skb := r.Retrieve(id);
      a := Got(skb);
    case DiscardOp(id) =>
      r.Discard(id);
      a := Done;
    case DiscardAllOp =>
      r.DiscardAll();
      a := Done;
  }

  function HandedOver(answers: seq<Answer>): seq<Skb> {
    if answers == [] then []
    else
      var n := |answers| - 1;
      HandedOver(answers[..n]) + if answers[n].Got? && answers[n].skb.Some? then [answers[n].skb.value] else []
  }

  lemma AccountsOn(was: seq<Copy>, h: History, h': History, op: Op, answers: seq<Answer>, a: Answer)
    requires Accounts(was, h.copies, HandedOver(answers)) && Performs(h, op, a, h')
    ensures Accounts(was, h'.copies, HandedOver(answers + [a]))
  {
    var out := HandedOver(answers);
    assert (answers + [a])[..|answers|] == answers;
    if a.Got? && a.skb.Some? {
      AccountsMore(was, h.copies, h'.copies, out, a.skb.value);
    } else {
      AccountsKept(was, h.copies, h'.copies, out);
      assert out + [] == out;
    }
  }

  ghost predicate InOrder(was: History, h: History, ops: seq<Op>, answers: seq<Answer>) {
    && Accounts(was.copies, h.copies, HandedOver(answers)) && AllHonoured(ops, answers)
    && TicketsOk(h, ops, answers) && HeldIfUndisturbed(h, ops, answers)
  }

  ghost predicate Orderly(was: History, h: History, ops: seq<Op>, answers: seq<Answer>) {
    forall o {:trigger InOrder(was, h, o, answers)} :: o == ops ==> InOrder(was, h, o, answers)
  }

  lemma OrderlyIs(was: History, h: History, ops: seq<Op>, answers: seq<Answer>)
    ensures Orderly(was, h, ops, answers) <==> InOrder(was, h, ops, answers)
  {
  }

  lemma OrderlyOn(was: History, slots: seq<Slot>, h: History, now: nat, ops: seq<Op>, answers: seq<Answer>)
    requires Consistent(slots, h) && Orderly(was, h, ops, answers) && |answers| < |ops|
    ensures Orderly(was, After(h, ops[|answers|], now), ops, answers + [AnswerTo(h, ops[|answers|], now)])
  {
    OrderlyIs(was, h, ops, answers);
    InOrderOn(was, slots, h, now, ops, answers);
  }

  lemma InOrderOn(was: History, slots: seq<Slot>, h: History, now: nat, ops: seq<Op>, answers: seq<Answer>)
    requires Consistent(slots, h) && InOrder(was, h, ops, answers) && |answers| < |ops|
    ensures InOrder(was, After(h, ops[|answers|], now), ops, answers + [AnswerTo(h, ops[|answers|], now)])
  {
    var op := ops[|answers|];
    AfterPerforms(slots, h, op, now);
    AccountsOn(was.copies, h, After(h, op, now), op, answers, AnswerTo(h, op, now));
    HonouredKept(slots, h, now, ops, answers);
    TicketsKept(h, After(h, op, now), ops, answers, AnswerTo(h, op, now));
    HeldKept(slots, h, now, ops, answers);
  }

  /**
   Over any run of saves, retrievals and discards, which the operations and the time determine: every copy
   is handed out at most once and is then neither held nor freed, a copy once freed or handed out never
   comes back, and whoever holds an id gets the packet it was issued for exactly if nothing took it away
   before, and another one only after 2^24 - 1 packets were saved in its slot.
   */
  method Run(r: Ring, ops: seq<Op>, start: nat) returns (answers: seq<Answer>)
    requires r.Valid() && forall s :: 0 <= s < |r.h.copies| ==> r.h.copies[s].at <= start
    modifies r, r.buffers
    ensures r.Valid() && |answers| == |ops|
    ensures var o := Replay(old(r.h), start, ops); r.h == o.h && answers == o.answers
    ensures InOrder(old(r.h), r.h, ops, answers)
  {
    answers := [];
    var now: nat := start;
    ghost var was := r.h;
    for k := 0 to |ops|
      invariant r.Valid() && |answers| == k && Replay(was, start, ops[..k]) == Outcome(r.h, now, answers)
      invariant Orderly(was, r.h, ops, answers)
      invariant forall s :: 0 <= s < |r.h.copies| ==> r.h.copies[s].at <= now
    {
      ReplayNext(was, start, ops, k);
      if ops[k].SaveOp? {
        now := now + ops[k].delay;
      }
      OrderlyOn(was, r.buffers[..], r.h, now, ops, answers);
      var a := Perform(r, ops[k], now);
      answers := answers + [a];
    }
    assert ops[..|ops|] == ops;
    OrderlyIs(was, r.h, ops, answers);
  }
}
