/**
 Action lists as the bytes a controller sends, and what becomes of the packet: which bytes of an action
 are its type, its length, its port and how much of the packet the controller wants.
 */
module OutputLists {
  import opened Bytes
  import opened Actions
  import opened FlowKey

  /** A port, and how many bytes at most are to be sent to it. */
  datatype Target = Target(port: u16, maxLen: u16)

  /** `struct ofp_action_output` in network byte order. */
  function Spelled(t: Target): seq<byte> {
    [0, 0, 0, 8, t.port / 256, t.port % 256, t.maxLen / 256, t.maxLen % 256]
  }

  function SpelledAll(l: seq<Target>): seq<byte> {
    if l == [] then [] else Spelled(l[0]) + SpelledAll(l[1..])
  }

  /** Not "no port at all", and not the port where packets of the flow come from. */
  predicate Usable(key: Key, t: Target) { t.port != 0xffff && (key.w.inPort || t.port != key.f.inPort) }

  function Sends(packet: Packet, l: seq<Target>): seq<Sent> {
    seq(|l|, i requires 0 <= i < |l| => Sent(packet, l[i].port, l[i].maxLen))
  }

  function AsAction(t: Target): Action { Action(0, Spelled(t)[4..]) }

  function AsActions(l: seq<Target>): seq<Action> {
    seq(|l|, i requires 0 <= i < |l| => AsAction(l[i]))
  }

  lemma SpelledHead(t: Target, rest: seq<byte>)
    ensures var b := Spelled(t) + rest;
            && KindAt(b) == 0 && LenAt(b) == 8 && b[8..] == rest
            && PortOf(b[4..8]) == t.port && MaxLenOf(b[4..8]) == t.maxLen
  {
    var b := Spelled(t) + rest;
    assert b[..2] == [0, 0] && b[2..4] == [0, 8];
    assert b[4..8][..2] == [t.port / 256, t.port % 256] && b[4..8][2..4] == [t.maxLen / 256, t.maxLen % 256];
  }

  /** A list of outputs passes if every port is usable; otherwise it is the port that is complained about. */
  lemma {:induction false} OutputsPassIff(key: Key, l: seq<Target>)
    ensures Validate(key, SpelledAll(l)) ==
            if forall i :: 0 <= i < |l| ==> Usable(key, l[i]) then Ok else BadOutPort
  {
    if l != [] {
      SpelledHead(l[0], SpelledAll(l[1..]));
      OutputsPassIff(key, l[1..]);
      if Usable(key, l[0]) {
        assert forall i :: 0 < i < |l| ==> l[i] == l[1..][i - 1];
      }
    }
  }

  lemma {:induction false} OutputsDecode(key: Key, l: seq<Target>)
    requires Validate(key, SpelledAll(l)).Ok?
    ensures Decode(key, SpelledAll(l)) == AsActions(l)
  {
    if l != [] {
      var b := SpelledAll(l);
      SpelledHead(l[0], SpelledAll(l[1..]));
      assert b[4..8] == Spelled(l[0])[4..];
      OutputsDecode(key, l[1..]);
      assert AsActions(l) == [AsAction(l[0])] + AsActions(l[1..]);
    }
  }

  lemma {:induction false} OutputsSend(rw: Rewrite, key: Key, packet: Packet, l: seq<Target>)
    ensures AllWellFormed(AsActions(l))
    ensures Eager(rw, AsActions(l), packet, key) == Outcome(Sends(packet, l), false)
  {
    if l != [] {
      SpelledHead(l[0], []);
      assert Spelled(l[0]) + [] == Spelled(l[0]);
      assert Spelled(l[0])[4..8] == Spelled(l[0])[4..];
      OutputsSend(rw, key, packet, l[1..]);
      assert AsActions(l)[1..] == AsActions(l[1..]);
      assert Sends(packet, l) == [Sent(packet, l[0].port, l[0].maxLen)] + Sends(packet, l[1..]);
    }
  }

  /**
   The bytes of a list of outputs, validated and carried out: if every port is usable the packet goes as it
   is to exactly those ports, in order and each with its length; if not, nothing is sent.
   */
  method SendTo(dp: Datapath, skb: Skb, key: Key, l: seq<Target>, shared: nat -> bool) returns (v: Verdict)
    requires dp.Owns(skb)
    modifies dp
    ensures v == if forall i :: 0 <= i < |l| ==> Usable(key, l[i]) then Ok else BadOutPort
    ensures dp.sent == old(dp.sent) + if v == Ok then Sends(skb.packet, l) else []
    ensures dp.Valid() && dp.live == if v == Ok then old(dp.live) - {skb.id} else old(dp.live)
  {
    var b := SpelledAll(l);
    OutputsPassIff(key, l);
    v := ValidateActions(key, b);
    if v == Ok {
      OutputsDecode(key, l);
      OutputsSend(dp.rewrite, key, skb.packet, l);
      var _, _ := dp.ExecuteActions(skb, key, b, shared, key);
    }
  }

  // ----- single actions, by their first four bytes

  /** The number two bytes stand for in network byte order. */
  function Pair(hi: byte, lo: byte): nat { 256 * hi as int + lo as int }

  /** The verdict on a single action whose length field is right about the bytes that are there. */
  lemma SingleVerdict(key: Key, b: seq<byte>)
    requires |b| >= 8 && Pair(b[2], b[3]) == |b|
    ensures var kind := Pair(b[0], b[1]);
            Validate(key, b) ==
            if |b| % 8 != 0 then BadLen
            else if kind == 0 then
              if |b| != 8 then BadLen
              else if Usable(key, Target(Pair(b[4], b[5]), Pair(b[6], b[7]))) then Ok else BadOutPort
            else if kind == 4 || kind == 5 then (if |b| == 16 then Ok else BadLen)
            else if kind <= 10 then (if |b| == 8 then Ok else BadLen)
            else if kind == 0xffff then BadVendor
            else BadType
  {
    assert b[..2] == [b[0], b[1]] && b[2..4] == [b[2], b[3]] && b[|b|..] == [];
    assert b[4..8][..2] == [b[4], b[5]];
  }

  /** An action that names no length at all is refused too, for its type if that is unknown. */
  lemma NoLength(key: Key, b: seq<byte>)
    requires |b| >= 8 && Pair(b[2], b[3]) == 0
    ensures var kind := Pair(b[0], b[1]); Validate(key, b) == if kind <= 10 || kind == 0xffff then BadLen else BadType
  {
    assert b[..2] == [b[0], b[1]] && b[2..4] == [b[2], b[3]];
  }

  /** A byte string too short for the length it names, or for any action at all, is refused. */
  lemma TooShort(key: Key, b: seq<byte>)
    requires 0 < |b| < 8 || (|b| >= 8 && Pair(b[2], b[3]) > |b|)
    ensures Validate(key, b) == BadLen
  {
    if |b| >= 8 {
      assert b[2..4] == [b[2], b[3]];
    }
  }
}
