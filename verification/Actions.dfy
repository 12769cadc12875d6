/**
 `dp_act.c`: action lists on the wire, their validation, and their execution with the last output
 deferred so that it needs no copy of the packet.
 */
module Actions {
  import opened Bytes
  import opened Seqs
  import opened FlowKey

  const OUTPUT := 0
  const VENDOR := 0xffff
  /** Built-in actions: OUTPUT up to SET_TP_DST. */
  const N_ACTIONS := 11
  const SET_DL_SRC := 4
  const SET_DL_DST := 5
  const HEADER_LEN := 8
  const PORT_NONE := 0xffff

  // ----- reference

  /** An action without its length: the type and what follows the length field. */
  datatype Action = Action(kind: u16, body: seq<byte>)

  /** `sizeof` the structure of a built-in action. */
  function Size(kind: nat): nat { if kind == SET_DL_SRC || kind == SET_DL_DST then 16 else 8 }

  predicate WellFormed(a: Action) { a.kind < N_ACTIONS && |a.body| == Size(a.kind) - 4 }

  function PortOf(body: seq<byte>): u16
    requires |body| >= 4
  {
    FromBe16(body[..2])
  }

  function MaxLenOf(body: seq<byte>): u16
    requires |body| >= 4
  {
    FromBe16(body[2..4])
  }

  /** `validate_output`: neither nowhere nor back where the flow's packets come from. */
  predicate GoodPort(key: Key, port: u16) { port != PORT_NONE && (key.w.inPort || port != key.f.inPort) }

  predicate Allowed(key: Key, a: Action) { WellFormed(a) && (a.kind == OUTPUT ==> GoodPort(key, PortOf(a.body))) }

  predicate AllAllowed(key: Key, l: seq<Action>) { forall i :: 0 <= i < |l| ==> Allowed(key, l[i]) }

  function Encode(a: Action): seq<byte>
    requires WellFormed(a)
  {
    Be16(a.kind) + Be16(4 + |a.body|) + a.body
  }

  predicate AllWellFormed(l: seq<Action>) { forall i :: 0 <= i < |l| ==> WellFormed(l[i]) }

  function EncodeAll(l: seq<Action>): seq<byte>
    requires AllWellFormed(l)
  {
    if l == [] then [] else Encode(l[0]) + EncodeAll(l[1..])
  }

  // ----- validation

  datatype Verdict = Ok | BadType | BadLen | BadVendor | BadOutPort

  function KindAt(b: seq<byte>): u16
    requires |b| >= HEADER_LEN
  {
    FromBe16(b[..2])
  }

  function LenAt(b: seq<byte>): u16
    requires |b| >= HEADER_LEN
  {
    FromBe16(b[2..4])
  }

  /** `validate_ofpat` and `validate_vendor` on the action at the head of `b`. */
  function CheckOne(key: Key, b: seq<byte>): (v: Verdict)
    requires |b| >= HEADER_LEN
  {
    var kind, len := KindAt(b), LenAt(b);
    if kind < N_ACTIONS then
      if len != Size(kind) then BadLen
      else if kind == OUTPUT && !GoodPort(key, PortOf(b[4..8])) then BadOutPort
      else Ok
    else if kind == VENDOR then (if len < HEADER_LEN then BadLen else BadVendor)
    else BadType
  }

  /** `validate_actions`: the first thing wrong decides. */
  function Validate(key: Key, b: seq<byte>): Verdict
    decreases |b|
  {
    if |b| < HEADER_LEN then (if b == [] then Ok else BadLen)
    else if |b| < LenAt(b) || LenAt(b) % 8 != 0 then BadLen
    else if CheckOne(key, b) != Ok then CheckOne(key, b)
    else Validate(key, b[LenAt(b)..])
  }

  /** An encoded action under the cursor is read as it was written. */
  lemma HeadOf(a: Action, rest: seq<byte>)
    requires WellFormed(a)
    ensures var b := Encode(a) + rest;
            && |b| >= HEADER_LEN && KindAt(b) == a.kind && LenAt(b) == Size(a.kind) == |Encode(a)|
            && b[4..LenAt(b)] == a.body && b[LenAt(b)..] == rest
            && b[4..8] == a.body[..4] && PortOf(b[4..8]) == PortOf(a.body) && MaxLenOf(b[4..8]) == MaxLenOf(a.body)
  {
    var b := Encode(a) + rest;
    BeRoundTrip(0, a.kind);
    BeRoundTrip(0, 4 + |a.body|);
    assert b[..2] == Be16(a.kind) && b[2..4] == Be16(4 + |a.body|);
    assert b[4..8] == a.body[..4];
    assert a.body[..4][..2] == a.body[..2] && a.body[..4][2..4] == a.body[2..4];
  }

  lemma Be16Of(s: seq<byte>)
    requires |s| == 2
    ensures Be16(FromBe16(s)) == s
  {
  }

  /** What passes is an encoded action. */
  lemma HeadDecodes(key: Key, b: seq<byte>, a: Action)
    requires |b| >= HEADER_LEN && LenAt(b) <= |b| && CheckOne(key, b).Ok?
    requires a == Action(KindAt(b), b[4..LenAt(b)])
    ensures Allowed(key, a) && Encode(a) == b[..LenAt(b)]
  {
    var len := LenAt(b);
    Be16Of(b[..2]);
    Be16Of(b[2..4]);
    assert Encode(a) == b[..2] + b[2..4] + b[4..len];
    assert a.body[..2] == b[4..8][..2];
  }

  /** The list of actions that a validated byte string encodes. */
  function Decode(key: Key, b: seq<byte>): (l: seq<Action>)
    requires Validate(key, b).Ok?
    ensures AllAllowed(key, l) && EncodeAll(l) == b
    decreases |b|
  {
    if b == [] then []
    else
      var len := LenAt(b);
      var a, rest := Action(KindAt(b), b[4..len]), Decode(key, b[len..]);
      DecodeStep(key, b, a, rest);
      [a] + rest
  }

  lemma DecodeStep(key: Key, b: seq<byte>, a: Action, rest: seq<Action>)
    requires |b| >= HEADER_LEN && LenAt(b) <= |b| && CheckOne(key, b).Ok?
    requires a == Action(KindAt(b), b[4..LenAt(b)]) && AllAllowed(key, rest) && EncodeAll(rest) == b[LenAt(b)..]
    ensures AllAllowed(key, [a] + rest) && EncodeAll([a] + rest) == b
  {
    HeadDecodes(key, b, a);
    assert ([a] + rest)[1..] == rest && b == b[..LenAt(b)] + b[LenAt(b)..];
  }

  lemma {:induction false} EncodedValidates(key: Key, l: seq<Action>)
    requires AllAllowed(key, l)
    ensures Validate(key, EncodeAll(l)).Ok?
  {
    if l != [] {
      HeadOf(l[0], EncodeAll(l[1..]));
      EncodedValidates(key, l[1..]);
    }
  }

  /** Exactly the encodings of lists of allowed actions validate. */
  lemma ValidIff(key: Key, b: seq<byte>)
    ensures Validate(key, b).Ok? <==> exists l :: AllAllowed(key, l) && EncodeAll(l) == b
  {
    if Validate(key, b).Ok? {
      var l := Decode(key, b);
      assert AllAllowed(key, l);
    }
    if exists l :: AllAllowed(key, l) && EncodeAll(l) == b {
      var l :| AllAllowed(key, l) && EncodeAll(l) == b;
      EncodedValidates(key, l);
    }
  }

  /** `validate_actions`. Every round of the loop passes over a whole action, so it ends. */
  method ValidateActions(key: Key, b: seq<byte>) returns (v: Verdict)
    ensures v == Validate(key, b)
  {
    var p, n := 0, |b|;
    assert b[0..] == b;
    while n >= HEADER_LEN
      invariant 0 <= p && 0 <= n && p + n == |b| && Validate(key, b[p..]) == Validate(key, b)
    {
      var len := LenAt(b[p..]);
      if n < len || len % 8 != 0 {
        return BadLen;
      }
      var one := CheckOne(key, b[p..]);
      if one != Ok {
        return one;
      }
      assert b[p..][len..] == b[p + len..];
      p, n := p + len, n - len;
    }
    return if n != 0 then BadLen else Ok;
  }

  // ----- execution

  type Packet = seq<byte>

  /** A packet as it left: towards a port, or the controller with at most `maxLen` bytes. */
  datatype Sent = Sent(packet: Packet, port: u16, maxLen: u16)

  datatype Rewritten = Lost | Rewritten(packet: Packet, key: Key)

  /** The `set_*` and `strip_vlan` actions: any function of packet, key and action will do. */
  type Rewrite = (Packet, Key, Action) -> Rewritten

  /** What an eager interpreter sends, and whether it loses the packet on the way. */
  datatype Outcome = Outcome(sent: seq<Sent>, lost: bool)

  function OutputOf(packet: Packet, a: Action): Sent
    requires WellFormed(a)
  {
    Sent(packet, PortOf(a.body), MaxLenOf(a.body))
  }

  /** Every output action sends the packet as it is at that point. */
  function Eager(rw: Rewrite, l: seq<Action>, packet: Packet, key: Key): Outcome
    requires AllWellFormed(l)
    decreases |l|
  {
    if l == [] then Outcome([], false)
    else if l[0].kind == OUTPUT then
      var rest := Eager(rw, l[1..], packet, key);
      Outcome([OutputOf(packet, l[0])] + rest.sent, rest.lost)
    else
      match rw(packet, key, l[0])
      case Lost => Outcome([], true)
      case Rewritten(p, k) => Eager(rw, l[1..], p, k)
  }

  /** `struct sk_buff`: a buffer and what it holds. */
  datatype Skb = Skb(id: nat, packet: Packet)

  /** Buffers in use, and what has been sent. */
  class Datapath {
    const rewrite: Rewrite
    var next: nat
    var sent: seq<Sent>
    /** Buffers neither freed nor handed over. */
    ghost var live: set<nat>

    ghost predicate Valid()
      reads this
    {
      forall id :: id in live ==> id < next
    }

    ghost predicate Owns(skb: Skb)
      reads this
    {
      Valid() && skb.id in live
    }

    /** `skb_clone`, `skb_copy` */
    method Copy(skb: Skb) returns (copy: Skb)
      requires Owns(skb)
      modifies `next, `live
      ensures Valid() && copy.packet == skb.packet
      ensures copy.id !in old(live) && live == old(live) + {copy.id}
    {
      copy := Skb(next, skb.packet);
      next := next + 1;
      live := live + {copy.id};
    }

    /** `kfree_skb` */
    method Free(skb: Skb)
      requires Owns(skb)
      modifies `live
      ensures Valid() && live == old(live) - {skb.id}
    {
      live := live - {skb.id};
    }

    /** `do_output`: the port or the controller takes the buffer over. */
    method Output(skb: Skb, maxLen: u16, port: u16)
      requires Owns(skb)
      modifies `live, `sent
      ensures Valid() && live == old(live) - {skb.id}
      ensures sent == old(sent) + [Sent(skb.packet, port, maxLen)]
    {
      sent := sent + [Sent(skb.packet, port, maxLen)];
      live := live - {skb.id};
    }

    /** `execute_ofpat`: a buffer still shared with a clone is copied first; a lost one is gone. */
    method Rewrite(skb: Skb, key: Key, a: Action, shared: bool) returns (lost: bool, skb': Skb, key': Key)
      requires Owns(skb)
      modifies `next, `live
      ensures Valid()
      ensures lost <==> rewrite(skb.packet, key, a).Lost?
      ensures lost ==> live == old(live) - {skb.id}
      ensures !lost ==> rewrite(skb.packet, key, a) == Rewritten(skb'.packet, key')
      ensures !lost ==> skb'.id !in old(live) - {skb.id} && live == old(live) - {skb.id} + {skb'.id}
    {
      skb', key' := skb, key;
      if shared {
        skb' := Copy(skb);
        Free(skb);
      }
      match rewrite(skb.packet, key, a)
      case Lost =>
        lost := true;
        Free(skb');
      case Rewritten(p, k) =>
        lost, key' := false, k;
        skb' := skb'.(packet := p);
    }

    /** Carry out a deferred output with a clone. */
    method FlushDeferred(skb: Skb, maxLen: u16, prevPort: int)
      requires Owns(skb) && -1 <= prevPort < 0x1_0000
      modifies this
      ensures Owns(skb) && live == old(live)
      ensures sent == old(sent) + Deferred(skb.packet, prevPort, maxLen)
    {
      if prevPort != -1 {
        var clone := Copy(skb);
        Output(clone, maxLen, prevPort);
      }
    }

    /** One round of the loop: the action at the head of `b`, which is `a`. */
    method ExecuteOne(skb: Skb, key: Key, prevPort: int, maxLen: u16, b: seq<byte>, shared: bool, ghost a: Action)
      returns (lost: bool, skb': Skb, key': Key, prevPort': int, maxLen': u16, len: nat)
      requires Owns(skb) && -1 <= prevPort < 0x1_0000
      requires WellFormed(a) && Encode(a) <= b
      modifies this
      ensures Valid() && len == |Encode(a)|
      ensures sent == old(sent) + Deferred(skb.packet, prevPort, maxLen)
      ensures a.kind == OUTPUT ==> !lost && skb' == skb && key' == key && live == old(live)
                                   && prevPort' == PortOf(a.body) && maxLen' == MaxLenOf(a.body)
      ensures a.kind != OUTPUT ==> prevPort' == -1 && (lost <==> rewrite(skb.packet, key, a).Lost?)
      ensures lost ==> live == old(live) - {skb.id}
      ensures !lost ==> skb'.id !in old(live) - {skb.id} && live == old(live) - {skb.id} + {skb'.id}
      ensures a.kind != OUTPUT && !lost ==> rewrite(skb.packet, key, a) == Rewritten(skb'.packet, key')
    {
      assert b == Encode(a) + b[|Encode(a)|..];
      HeadOf(a, b[|Encode(a)|..]);
      var kind := KindAt(b);
      len := LenAt(b);
      FlushDeferred(skb, maxLen, prevPort);
      lost, skb', key', prevPort', maxLen' := false, skb, key, -1, maxLen;
      if kind == OUTPUT {
        prevPort', maxLen' := PortOf(b[4..8]), MaxLenOf(b[4..8]);
      } else if kind < N_ACTIONS {
        lost, skb', key' := Rewrite(skb, key, Action(kind, b[4..len]), shared);
      }
    }

    /** A round, as a step of the eager interpreter on the list `l` that `b` encodes. */
    method Round(skb: Skb, key: Key, prevPort: int, maxLen: u16, b: seq<byte>, shared: bool,
                 ghost l: seq<Action>, ghost goal: Outcome)
      returns (lost: bool, skb': Skb, key': Key, prevPort': int, maxLen': u16, len: nat)
      requires Owns(skb) && b != []
      requires OnTrack(rewrite, sent, goal, skb.packet, key, prevPort, maxLen, b, l)
      modifies this
      ensures Valid() && l != [] && 0 < len <= |b|
      ensures lost ==> goal == Outcome(sent, true) && live == old(live) - {skb.id}
      ensures !lost ==> OnTrack(rewrite, sent, goal, skb'.packet, key', prevPort', maxLen', b[len..], l[1..])
      ensures !lost ==> skb'.id !in old(live) - {skb.id} && live == old(live) - {skb.id} + {skb'.id}
    {
      EncodedHead(rewrite, sent, goal, skb.packet, key, prevPort, maxLen, b, l);
      lost, skb', key', prevPort', maxLen', len := ExecuteOne(skb, key, prevPort, maxLen, b, shared, l[0]);
      StayOnTrack(rewrite, old(sent), goal, skb.packet, key, prevPort, maxLen, b, l, maxLen');
    }

    /**
     `execute_actions` on a list `b` that was validated with `vkey`; `shared` says for each action
     whether the buffer is still shared when it is reached. `prevPort` is -1 or the port of an
     output action not carried out yet. What is sent is what an eager interpreter sends, the cursor
     ends exactly at the end of the list, and of all buffers, the packet's own and every copy made
     on the way, none is left and none is disposed of twice.
     */
    method ExecuteActions(skb0: Skb, key0: Key, b: seq<byte>, shared: nat -> bool, ghost vkey: Key)
      returns (consumed: nat, lost: bool)
      requires Owns(skb0) && Validate(vkey, b).Ok?
      modifies this
      ensures Valid() && live == old(live) - {skb0.id}
      ensures sent == old(sent) + Eager(rewrite, Decode(vkey, b), skb0.packet, key0).sent
      ensures lost == Eager(rewrite, Decode(vkey, b), skb0.packet, key0).lost
      ensures !lost ==> consumed == |b|
    {
      ghost var l := Decode(vkey, b);
      ghost var goal := StartOnTrack(rewrite, sent, skb0.packet, key0, b, l);
      consumed, lost := Loop(skb0, key0, b, shared, l, goal);
    }

    method Loop(skb0: Skb, key0: Key, b: seq<byte>, shared: nat -> bool, ghost l: seq<Action>, ghost goal: Outcome)
      returns (consumed: nat, lost: bool)
      requires Owns(skb0) && OnTrack(rewrite, sent, goal, skb0.packet, key0, -1, 0xffff, b, l)
      modifies this
      ensures Valid() && live == old(live) - {skb0.id}
      ensures goal == Outcome(sent, lost)
      ensures !lost ==> consumed == |b|
    {
      var skb, key := skb0, key0;
      var prevPort: int, maxLen: u16 := -1, 0xffff;
      var p, n, k := 0, |b|, 0;
      ghost var rest, live0 := l, live - {skb0.id};
      assert b[0..] == b;
      while n > 0
        invariant 0 <= p && 0 <= n && p + n == |b|
        invariant Owns(skb) && skb.id !in live0 && live == live0 + {skb.id}
        invariant OnTrack(rewrite, sent, goal, skb.packet, key, prevPort, maxLen, b[p..], rest)
        decreases n
      {
        var len;
        lost, skb, key, prevPort, maxLen, len := Round(skb, key, prevPort, maxLen, b[p..], shared(k), rest, goal);
        if lost {
          return p, true;
        }
        assert b[p..][len..] == b[p + len..];
        p, n, k, rest := p + len, n - len, k + 1, rest[1..];
      }
      EndOfTrack(rewrite, sent, goal, skb.packet, key, prevPort, maxLen, b[p..], rest);
      if prevPort != -1 {
        Output(skb, maxLen, prevPort);
      } else {
        Free(skb);
      }
      return p, false;
    }
  }

  function Deferred(packet: Packet, prevPort: int, maxLen: u16): seq<Sent>
    requires -1 <= prevPort < 0x1_0000
  {
    if prevPort == -1 then [] else [Sent(packet, prevPort, maxLen)]
  }

  predicate Unfold(l: seq<Action>) { true }

  /**
   `b` encodes `l`; what has been sent, what is deferred and what an eager interpreter of `l` would
   still send make up the goal. (Stated so that it unfolds only where `Unfold` is mentioned.)
   */
  ghost predicate OnTrack(rw: Rewrite, sent: seq<Sent>, goal: Outcome, packet: Packet, key: Key,
                          prevPort: int, maxLen: u16, b: seq<byte>, l: seq<Action>)
  {
    && -1 <= prevPort < 0x1_0000
    && forall m {:trigger Unfold(m)} :: m == l && Unfold(m) ==>
         && AllWellFormed(m) && EncodeAll(m) == b
         && goal.lost == Eager(rw, m, packet, key).lost
         && sent + Deferred(packet, prevPort, maxLen) + Eager(rw, m, packet, key).sent == goal.sent
  }

  lemma StartOnTrack(rw: Rewrite, sent: seq<Sent>, packet: Packet, key: Key, b: seq<byte>, l: seq<Action>)
    returns (goal: Outcome)
    requires AllWellFormed(l) && EncodeAll(l) == b
    ensures goal == Outcome(sent + Eager(rw, l, packet, key).sent, Eager(rw, l, packet, key).lost)
    ensures OnTrack(rw, sent, goal, packet, key, -1, 0xffff, b, l)
  {
    goal := Outcome(sent + Eager(rw, l, packet, key).sent, Eager(rw, l, packet, key).lost);
    Unit(sent);
  }

  lemma EncodedHead(rw: Rewrite, sent: seq<Sent>, goal: Outcome, packet: Packet, key: Key,
                    prevPort: int, maxLen: u16, b: seq<byte>, l: seq<Action>)
    requires OnTrack(rw, sent, goal, packet, key, prevPort, maxLen, b, l) && b != []
    ensures l != [] && WellFormed(l[0]) && Encode(l[0]) <= b
  {
    assert Unfold(l);
  }

  /** Carrying out the deferred output and deferring the next one is what the eager interpreter does. */
  lemma StayOnTrack(rw: Rewrite, sent: seq<Sent>, goal: Outcome, packet: Packet, key: Key,
                    prevPort: int, maxLen: u16, b: seq<byte>, l: seq<Action>, maxLen': u16)
    requires OnTrack(rw, sent, goal, packet, key, prevPort, maxLen, b, l) && l != [] && WellFormed(l[0])
    requires |Encode(l[0])| <= |b|
    ensures var sent' := sent + Deferred(packet, prevPort, maxLen);
            var b' := b[|Encode(l[0])|..];
            if l[0].kind == OUTPUT then
              OnTrack(rw, sent', goal, packet, key, PortOf(l[0].body), MaxLenOf(l[0].body), b', l[1..])
            else
              match rw(packet, key, l[0])
              case Lost => goal == Outcome(sent', true)
              case Rewritten(p, k) => OnTrack(rw, sent', goal, p, k, -1, maxLen', b', l[1..])
  {
    assert Unfold(l);
    var sent' := sent + Deferred(packet, prevPort, maxLen);
    Unit(sent');
    if l[0].kind == OUTPUT {
      Assoc(sent', [OutputOf(packet, l[0])], Eager(rw, l[1..], packet, key).sent);
    }
  }

  lemma EndOfTrack(rw: Rewrite, sent: seq<Sent>, goal: Outcome, packet: Packet, key: Key,
                   prevPort: int, maxLen: u16, b: seq<byte>, l: seq<Action>)
    requires OnTrack(rw, sent, goal, packet, key, prevPort, maxLen, b, l) && b == []
    ensures goal == Outcome(sent + Deferred(packet, prevPort, maxLen), false)
  {
    assert Unfold(l);
    Unit(sent + Deferred(packet, prevPort, maxLen));
  }
}
