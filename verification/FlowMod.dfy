/**
 Flow-mod messages (`forward.c`) as steps of the switch: whole runs of them against the rule lists of
 the working and the emergency table, and what the overlap check is worth.
 */
module FlowMod {
  import opened FlowKey
  import opened FlowList
  import opened Options
  import opened TableLinear
  import opened TableHash
  import opened Chain

  type Priority = n: nat | n <= EXACT_PRIORITY

  /** `struct ofp_flow_mod`, its actions valid. */
  datatype Message =
    | Add(m: Match, priority: Priority, checkOverlap: bool, emerg: bool, acts: Acts, idle: nat, hard: nat)
    | Modify(m: Match, priority: Priority, strict: bool, emerg: bool, acts: Acts, idle: nat, hard: nat)
    | Delete(m: Match, priority: Priority, strict: bool, emerg: bool, out: Option<nat>)

  const PERMANENT := 0

  /** What becomes of a message: the error it is answered with, or that it is done. */
  datatype Verdict = Done | BadEmergTimeout | Overlapping | AllTablesFull | NoSuchFlow

  /** The rules of the working tables and those of the emergency table. */
  datatype State = State(rules: seq<Flow>, emerg: seq<Flow>) {
    function Of(emergency: bool): seq<Flow> { if emergency then emerg else rules }
    function With(emergency: bool, l: seq<Flow>): State { if emergency then this.(emerg := l) else this.(rules := l) }
  }

  /** Exact flows are given the highest priority. */
  function PriorityOf(msg: Message): Priority {
    if Extract(msg.m).w != EXACT then msg.priority else EXACT_PRIORITY
  }

  function FlowOf(msg: Message): (r: Flow)
    requires !msg.Delete?
    ensures WellFormed(r)
  {
    ExtractNormal(msg.m);
    Flow(Extract(msg.m), PriorityOf(msg), msg.acts, msg.idle, msg.hard)
  }

  function Selection(msg: Message): Flow -> bool
    requires !msg.Add?
  {
    if msg.Modify? then Selects(Extract(msg.m), PriorityOf(msg), msg.strict)
    else Deletes(Extract(msg.m), msg.out, PriorityOf(msg), msg.strict)
  }

  ghost predicate Conflicting(rules: seq<Flow>, r: Flow) {
    exists x :: x in rules && Conflicts(x, r.key, r.priority, false)
  }

  /** The rule lists after a message that is not turned down. */
  ghost function Effect(s: State, msg: Message): State {
    var l := s.Of(msg.emerg);
    match msg
    case Add(_, _, _, _, _, _, _) => s.With(msg.emerg, Inserted(l, FlowOf(msg)))
    case Modify(_, _, _, _, acts, _, _) =>
      s.With(msg.emerg, if AnyIn(l, Selection(msg)) then Map(l, Updating(Selection(msg), acts))
                        else Inserted(l, FlowOf(msg)))
    case Delete(_, _, _, _, _) => s.With(msg.emerg, Filter(l, Not(Selection(msg))))
  }

  ghost function Apply(s: State, msg: Message, v: Verdict): State { if v == Done then Effect(s, msg) else s }

  /**
   The verdict on inserting a flow. The emergency table turns down a new flow when it is full; the working
   tables may turn one down only when there are as many rules as their list has room for.
   */
  ghost predicate MayInsert(s: State, msg: Message, v: Verdict, max: nat)
    requires !msg.Delete?
  {
    var r := FlowOf(msg);
    if msg.emerg then v == if |Inserted(s.emerg, r)| <= max then Done else AllTablesFull
    else v == Done || (v == AllTablesFull && New(s.rules, r) && |s.rules| >= max)
  }

  /** Does the message come to inserting its flow? */
  ghost predicate Inserts(s: State, msg: Message) {
    match msg
    case Add(_, _, check, emerg, _, idle, hard) =>
      !(check && Conflicting(s.rules, FlowOf(msg))) && !(emerg && (idle != PERMANENT || hard != PERMANENT))
    case Modify(_, _, _, _, _, _, _) => !AnyIn(s.Of(msg.emerg), Selection(msg))
    case Delete(_, _, _, _, _) => false
  }

  /** All messages but deletes from the working tables by output port, which older copies may get in the way of. */
  predicate Plain(msg: Message) { !msg.Delete? || msg.emerg || msg.out.None? }

  /**
   The verdicts a message may meet with. The overlap check asks the working tables, for an emergency flow
   too; the timeouts of an emergency flow are looked at when it is added, not when a modify inserts it.
   */
  ghost predicate May(s: State, msg: Message, v: Verdict, max: nat) {
    match msg
    case Add(_, _, check, emerg, _, idle, hard) =>
      if check && Conflicting(s.rules, FlowOf(msg)) then v == Overlapping
      else if emerg && (idle != PERMANENT || hard != PERMANENT) then v == BadEmergTimeout
      else MayInsert(s, msg, v, max)
    case Modify(_, _, _, _, _, _, _) =>
      if AnyIn(s.Of(msg.emerg), Selection(msg)) then v == Done else MayInsert(s, msg, v, max)
    case Delete(_, _, _, _, _) =>
      if AnyIn(s.Of(msg.emerg), Selection(msg)) then v == Done else v == NoSuchFlow || (v == Done && !Plain(msg))
  }

  ghost function Replay(s: State, msgs: seq<Message>, verdicts: seq<Verdict>): State
    requires |verdicts| == |msgs|
  {
    if msgs == [] then s
    else
      var n := |msgs| - 1;
      Apply(Replay(s, msgs[..n], verdicts[..n]), msgs[n], verdicts[n])
  }

  /** Every verdict is one its message may meet with. */
  ghost predicate Lawful(s: State, msgs: seq<Message>, verdicts: seq<Verdict>, max: nat)
    requires |verdicts| == |msgs|
  {
    msgs == [] ||
    var n := |msgs| - 1;
    Lawful(s, msgs[..n], verdicts[..n], max) && May(Replay(s, msgs[..n], verdicts[..n]), msgs[n], verdicts[n], max)
  }

  // ----- the switch

  ghost function StateOf(c: Chain): State
    reads c, c.linear, c.emerg
  {
    State(c.rules, c.emerg.rules)
  }

  /** `chain_insert` */
  method InsertFlow(c: Chain, msg: Message) returns (v: Verdict)
    requires c.Valid() && !msg.Delete?
    modifies c, c.Working(), c.emerg
    ensures c.Valid() && MayInsert(old(StateOf(c)), msg, v, c.linear.maxFlows)
    ensures !msg.emerg ==> (v == AllTablesFull) == old(c.Full(FlowOf(msg)))
    ensures var s := old(StateOf(c));
            StateOf(c) == if v == Done then s.With(msg.emerg, Inserted(s.Of(msg.emerg), FlowOf(msg))) else s
  {
    var r, ok := FlowOf(msg), false;
    if msg.emerg {
      ok := c.InsertEmergency(r);
    } else {
      if c.Full(r) {
        FullMeansCrowded(c, r);
      }
      ok := c.Insert(r);
    }
    v := if ok then Done else AllTablesFull;
  }

  /** `add_flow` */
  method AddFlow(c: Chain, msg: Message) returns (v: Verdict)
    requires c.Valid() && msg.Add?
    modifies c, c.Working(), c.emerg
    ensures c.Valid() && May(old(StateOf(c)), msg, v, c.linear.maxFlows)
    ensures !msg.emerg && Inserts(old(StateOf(c)), msg) ==> (v == AllTablesFull) == old(c.Full(FlowOf(msg)))
    ensures StateOf(c) == Apply(old(StateOf(c)), msg, v)
  {
    var r := FlowOf(msg);
    if msg.checkOverlap {
      var overlap := c.HasConflict(r.key, r.priority, false);
      if overlap {
        return Overlapping;
      }
    }
    if msg.emerg && (msg.idle != PERMANENT || msg.hard != PERMANENT) {
      return BadEmergTimeout;
    }
    v := InsertFlow(c, msg);
  }

  /** The flows that a modify selects get its actions. */
  method ModifyFlows(c: Chain, msg: Message) returns (count: nat)
    requires c.Valid() && msg.Modify?
    modifies c, c.Working(), c.emerg
    ensures c.Valid() && (count > 0) == AnyIn(old(StateOf(c)).Of(msg.emerg), Selection(msg))
    ensures var s := old(StateOf(c));
            StateOf(c) ==
            if count > 0 then s.With(msg.emerg, Map(s.Of(msg.emerg), Updating(Selection(msg), msg.acts))) else s
    ensures c.Full(FlowOf(msg)) == old(c.Full(FlowOf(msg)))
  {
    var d := FlowOf(msg).key;
    if msg.emerg {
      count := c.ModifyEmergency(d, PriorityOf(msg), msg.strict, msg.acts);
    } else {
      InsertedUpdated(c.linear.rules, FlowOf(msg), Selection(msg), msg.acts);
      count := c.Modify(d, PriorityOf(msg), msg.strict, msg.acts);
    }
    if count == 0 {
      NoneUpdated(old(StateOf(c).Of(msg.emerg)), Selection(msg), msg.acts);
    }
  }

  /** `mod_flow` */
  method ModFlow(c: Chain, msg: Message) returns (v: Verdict)
    requires c.Valid() && msg.Modify?
    modifies c, c.Working(), c.emerg
    ensures c.Valid() && May(old(StateOf(c)), msg, v, c.linear.maxFlows)
    ensures !msg.emerg && Inserts(old(StateOf(c)), msg) ==> (v == AllTablesFull) == old(c.Full(FlowOf(msg)))
    ensures StateOf(c) == Apply(old(StateOf(c)), msg, v)
  {
    v := Done;
    var count := ModifyFlows(c, msg);
    if count == 0 {
      v := InsertFlow(c, msg);
    }
  }

  lemma NoneUpdated(l: seq<Flow>, sel: Flow -> bool, acts: Acts)
    requires !AnyIn(l, sel)
    ensures Map(l, Updating(sel, acts)) == l
  {
  }

  /** The tables and the rules before a message; `first` and `second` are the two hash tables. */
  datatype Snapshot = Snapshot(first: Finder, second: Finder, linear: seq<Flow>, s: State)

  ghost function Snap(c: Chain): Snapshot
    reads c, c.hash2, c.hash2.Repr(), c.linear, c.emerg
  {
    Snapshot(c.hash2.sub0.find, c.hash2.sub1.find, c.linear.rules, StateOf(c))
  }

  /** The message brings no older copy of a flow to light; only a delete by output port may do that. */
  ghost predicate UncoversNone(t: Snapshot, msg: Message) {
    msg.Delete? && !msg.emerg ==> Clean(t.first, t.second, t.linear, Not(Selection(msg)))
  }

  /** One message: a lawful verdict, and the rules it should leave exactly if no older copy comes to light. */
  ghost predicate Step(t: Snapshot, msg: Message, v: Verdict, s: State, max: nat) {
    && May(t.s, msg, v, max)
    && (UncoversNone(t, msg) ==> s == Apply(t.s, msg, v))
    && (msg.Delete? ==> (s == Effect(t.s, msg) <==> UncoversNone(t, msg)))
    && (Plain(msg) ==> UncoversNone(t, msg))
  }

  /** A delete from the working tables: for any port, what is left is what was not selected. */
  method DeleteWorking(c: Chain, msg: Message) returns (count: nat)
    requires c.Valid() && msg.Delete? && !msg.emerg
    modifies c, c.Working()
    ensures c.Valid() && (c.rules == Filter(old(c.rules), Not(Selection(msg)))) == UncoversNone(old(Snap(c)), msg)
    ensures AnyIn(old(c.rules), Selection(msg)) ==> count > 0
    ensures count > 0 && msg.out.None? ==> AnyIn(old(c.rules), Selection(msg))
  {
    ExtractNormal(msg.m);
    if AnyIn(c.rules, Selection(msg)) {
      RuleContained(c, Selection(msg));
    }
    if msg.out.None? {
      AnyPort(c, Extract(msg.m), PriorityOf(msg), msg.strict);
    }
    count := c.Delete(Extract(msg.m), msg.out, PriorityOf(msg), msg.strict);
  }

  lemma AnyPortLeavesNone(c: Chain, msg: Message)
    requires c.Valid() && msg.Delete? && Plain(msg)
    ensures UncoversNone(Snap(c), msg)
  {
    AnyPort(c, Extract(msg.m), PriorityOf(msg), msg.strict);
  }

  /** The deletes of `recv_flow`; without `strict` the priority does not matter. */
  method DeleteFlow(c: Chain, msg: Message) returns (v: Verdict)
    requires c.Valid() && msg.Delete?
    modifies c, c.Working(), c.emerg
    ensures c.Valid() && May(old(StateOf(c)), msg, v, c.linear.maxFlows)
    ensures (StateOf(c) == Effect(old(StateOf(c)), msg)) == UncoversNone(old(Snap(c)), msg)
  {
    var count;
    if msg.emerg {
      ExtractNormal(msg.m);
      count := c.DeleteEmergency(Extract(msg.m), msg.out, PriorityOf(msg), msg.strict);
    } else {
      count := DeleteWorking(c, msg);
    }
    v := if count > 0 then Done else NoSuchFlow;
  }

  lemma {:induction false} NoneGone(l: seq<Flow>, sel: Flow -> bool)
    requires !AnyIn(l, sel)
    ensures Filter(l, Not(sel)) == l
  {
    if l != [] {
      SnocParts(l);
      NoneGone(l[..|l| - 1], sel);
    }
  }

  /** `recv_flow` */
  method ReceiveFlow(c: Chain, msg: Message) returns (v: Verdict)
    requires c.Valid()
    modifies c, c.Working(), c.emerg
    ensures c.Valid() && Step(old(Snap(c)), msg, v, StateOf(c), c.linear.maxFlows)
    ensures !msg.emerg && Inserts(old(StateOf(c)), msg) ==> (v == AllTablesFull) == old(c.Full(FlowOf(msg)))
  {
    match msg
    case Add(_, _, _, _, _, _, _) => v := AddFlow(c, msg);
    case Modify(_, _, _, _, _, _, _) => v := ModFlow(c, msg);
    case Delete(_, _, _, _, _) =>
      if Plain(msg) {
        AnyPortLeavesNone(c, msg);
      }
      if !AnyIn(StateOf(c).Of(msg.emerg), Selection(msg)) {
        NoneGone(StateOf(c).Of(msg.emerg), Selection(msg));
      }
      v := DeleteFlow(c, msg);
  }

  predicate AllPlain(msgs: seq<Message>) { forall i :: 0 <= i < |msgs| ==> Plain(msgs[i]) }

  /** What the messages alone determine, in tables without bounds. */
  ghost function Unbounded(s: State, msgs: seq<Message>): State {
    if msgs == [] then s
    else
      var n := |msgs| - 1;
      var t := Unbounded(s, msgs[..n]);
      if msgs[n].Add? && !Inserts(t, msgs[n]) then t else Effect(t, msgs[n])
  }

  /** All along there is room for all rules in either list. */
  ghost predicate Roomy(s: State, msgs: seq<Message>, max: nat) {
    && |Unbounded(s, msgs).rules| <= max && |Unbounded(s, msgs).emerg| <= max
    && (msgs == [] || Roomy(s, msgs[..|msgs| - 1], max))
  }

  /** Where there is room for the flow of a message, its verdict is the one tables without bounds would give. */
  lemma UnboundedStep(s: State, msg: Message, v: Verdict, max: nat)
    requires May(s, msg, v, max)
    requires var t := if msg.Add? && !Inserts(s, msg) then s else Effect(s, msg);
             |t.rules| <= max && |t.emerg| <= max
    ensures Apply(s, msg, v) == if msg.Add? && !Inserts(s, msg) then s else Effect(s, msg)
  {
    if msg.Delete? {
      if v == NoSuchFlow {
        NoneGone(s.Of(msg.emerg), Selection(msg));
      }
    } else if Inserts(s, msg) {
      assert MayInsert(s, msg, v, max);
    }
  }

  /** As long as there is room for all rules, the rules depend on the messages only. */
  lemma {:induction false} RoomyIsUnbounded(s: State, msgs: seq<Message>, verdicts: seq<Verdict>, max: nat)
    requires |verdicts| == |msgs| && Lawful(s, msgs, verdicts, max) && Roomy(s, msgs, max)
    ensures Replay(s, msgs, verdicts) == Unbounded(s, msgs)
  {
    if msgs != [] {
      var n := |msgs| - 1;
      RoomyIsUnbounded(s, msgs[..n], verdicts[..n], max);
      UnboundedStep(Unbounded(s, msgs[..n]), msgs[n], verdicts[n], max);
    }
  }

  ghost predicate NoneUncovered(trail: seq<Snapshot>, msgs: seq<Message>)
    requires |trail| >= |msgs|
  {
    forall i :: 0 <= i < |msgs| ==> UncoversNone(trail[i], msgs[i])
  }

  /** Messages and verdicts determine the rules, and while there is room for all rules the messages alone do. */
  ghost predicate Determined(s: State, msgs: seq<Message>, verdicts: seq<Verdict>, s': State, max: nat)
    requires |verdicts| == |msgs|
  {
    && s' == Replay(s, msgs, verdicts) && Lawful(s, msgs, verdicts, max)
    && (Roomy(s, msgs, max) ==> s' == Unbounded(s, msgs))
  }

  ghost predicate Stepwise(trail: seq<Snapshot>, msgs: seq<Message>, verdicts: seq<Verdict>, max: nat)
    requires |trail| == |msgs| + 1 && |verdicts| == |msgs|
  {
    forall i :: 0 <= i < |msgs| ==> Step(trail[i], msgs[i], verdicts[i], trail[i + 1].s, max)
  }

  /** If no older copy ever comes to light, the rules are those that messages and verdicts determine. */
  lemma {:induction false} StepsReplay(trail: seq<Snapshot>, msgs: seq<Message>, verdicts: seq<Verdict>, max: nat)
    requires |trail| == |msgs| + 1 && |verdicts| == |msgs|
    requires Stepwise(trail, msgs, verdicts, max) && NoneUncovered(trail, msgs)
    ensures trail[|msgs|].s == Replay(trail[0].s, msgs, verdicts) && Lawful(trail[0].s, msgs, verdicts, max)
  {
    if msgs != [] {
      var n := |msgs| - 1;
      StepsReplay(trail[..|msgs|], msgs[..n], verdicts[..n], max);
      assert Step(trail[n], msgs[n], verdicts[n], trail[n + 1].s, max) && UncoversNone(trail[n], msgs[n]);
    }
  }

  lemma StepwiseSnoc(trail: seq<Snapshot>, msgs: seq<Message>, verdicts: seq<Verdict>, msg: Message, v: Verdict,
                     t: Snapshot, max: nat)
    requires |trail| == |msgs| + 1 && |verdicts| == |msgs|
    requires Stepwise(trail, msgs, verdicts, max) && Step(trail[|msgs|], msg, v, t.s, max)
    ensures Stepwise(trail + [t], msgs + [msg], verdicts + [v], max)
  {
  }

  /** What the steps of a run tell about the whole of it. */
  lemma StepsTell(trail: seq<Snapshot>, msgs: seq<Message>, verdicts: seq<Verdict>, max: nat)
    requires |trail| == |msgs| + 1 && |verdicts| == |msgs| && Stepwise(trail, msgs, verdicts, max)
    ensures AllPlain(msgs) ==> NoneUncovered(trail, msgs)
    ensures NoneUncovered(trail, msgs) ==> Determined(trail[0].s, msgs, verdicts, trail[|msgs|].s, max)
  {
    forall i | 0 <= i < |msgs| && Plain(msgs[i]) ensures UncoversNone(trail[i], msgs[i]) {
      assert Step(trail[i], msgs[i], verdicts[i], trail[i + 1].s, max);
    }
    if NoneUncovered(trail, msgs) {
      StepsReplay(trail, msgs, verdicts, max);
      if Roomy(trail[0].s, msgs, max) {
        RoomyIsUnbounded(trail[0].s, msgs, verdicts, max);
      }
    }
  }

  /**
   Any run of messages, from any state, leaves the tables in order, every verdict is one its message may
   meet with, and every delete leaves the rules it should leave exactly if no older copy comes to light.
   If none ever does (no delete for any port brings one to light) the rules are those that messages and
   verdicts determine, and while there is room for all rules the messages alone determine them.
   */
  method Run(c: Chain, msgs: seq<Message>) returns (verdicts: seq<Verdict>, ghost trail: seq<Snapshot>)
    requires c.Valid()
    modifies c, c.Working(), c.emerg
    ensures c.Valid() && |verdicts| == |msgs|
    ensures |trail| == |msgs| + 1 && trail[0] == old(Snap(c)) && trail[|msgs|] == Snap(c)
    ensures Stepwise(trail, msgs, verdicts, c.linear.maxFlows)
    ensures AllPlain(msgs) ==> NoneUncovered(trail, msgs)
    ensures NoneUncovered(trail, msgs) ==>
              Determined(old(StateOf(c)), msgs, verdicts, StateOf(c), c.linear.maxFlows)
  {
    verdicts, trail := [], [Snap(c)];
    for i := 0 to |msgs|
      invariant c.Valid() && |verdicts| == i && |trail| == i + 1
      invariant trail[0] == old(Snap(c)) && trail[i] == Snap(c)
      invariant Stepwise(trail, msgs[..i], verdicts, c.linear.maxFlows)
    {
      var v := ReceiveFlow(c, msgs[i]);
      StepwiseSnoc(trail, msgs[..i], verdicts, msgs[i], v, Snap(c), c.linear.maxFlows);
      assert msgs[..i + 1] == msgs[..i] + [msgs[i]];
      verdicts, trail := verdicts + [v], trail + [Snap(c)];
    }
    assert msgs[..|msgs|] == msgs;
    StepsTell(trail, msgs, verdicts, c.linear.maxFlows);
  }

  // ----- the overlap check

  /** No two rules of one priority overlap. */
  ghost predicate Apart(rules: seq<Flow>) {
    forall i, j :: 0 <= i < j < |rules| && rules[i].priority == rules[j].priority
                   ==> !Overlap(rules[i].key, rules[j].key)
  }

  ghost predicate OnePerPriority(rules: seq<Flow>, p: Fields) {
    forall i, j ::
      0 <= i < j < |rules| && Hit(p)(rules[i]) && Hit(p)(rules[j]) ==> rules[i].priority != rules[j].priority
  }

  /** Two flows of one priority that overlap ask for something impossible together. */
  ghost predicate ApartOnPackets(rules: seq<Flow>) {
    forall i, j :: 0 <= i < j < |rules| && rules[i].priority == rules[j].priority
                   ==> !(Overlap(rules[i].key, rules[j].key) && Possible(rules[i].key, rules[j].key))
  }

  /** That is so exactly when no packet matches two flows of one priority; it is if none overlap. */
  lemma OnePerPriorityIff(rules: seq<Flow>)
    requires AllWellFormed(rules)
    ensures (forall p :: IsPacket(p) ==> OnePerPriority(rules, p)) <==> ApartOnPackets(rules)
    ensures Apart(rules) ==> ApartOnPackets(rules)
  {
    forall i, j | 0 <= i < j < |rules|
      ensures Overlap(rules[i].key, rules[j].key) && Possible(rules[i].key, rules[j].key)
         <==> exists p :: IsPacket(p) && Hit(p)(rules[i]) && Hit(p)(rules[j])
    {
      assert rules[i] in rules && rules[j] in rules;
      SharedIff(rules[i].key, rules[j].key);
    }
  }

  /** Some packet matches the flow and a rule of its priority. */
  ghost predicate Ambiguous(rules: seq<Flow>, r: Flow) {
    exists x :: x in rules && x.priority == r.priority && SharesPacket(x.key, r.key)
  }

  /** The overlap check objects, but only to rules with which the flow asks for something impossible. */
  ghost predicate Overcautious(rules: seq<Flow>, r: Flow) {
    && Conflicting(rules, r)
    && (forall x :: x in rules && Conflicts(x, r.key, r.priority, false) ==> !Possible(x.key, r.key))
  }

  /**
   The verdict of the overlap check on a new flow: it misses no rule of its priority that shares a packet
   with it, and it refuses the flow without such a rule exactly if it is overcautious.
   */
  lemma CheckIsRightIff(rules: seq<Flow>, r: Flow)
    requires AllWellFormed(rules) && WellFormed(r)
    ensures Ambiguous(rules, r) ==> Conflicting(rules, r)
    ensures (Ambiguous(rules, r) <==> Conflicting(rules, r)) <==> !Overcautious(rules, r)
  {
    forall x | x in rules
      ensures SharesPacket(x.key, r.key) <==> Overlap(x.key, r.key) && Possible(x.key, r.key)
    {
      SharedIff(x.key, r.key);
    }
    if Ambiguous(rules, r) {
      var x :| x in rules && x.priority == r.priority && SharesPacket(x.key, r.key);
      assert Conflicts(x, r.key, r.priority, false);
    }
  }

  /** An added flow leaves the rules apart exactly if the check would let it pass. */
  lemma InsertApartIff(rules: seq<Flow>, r: Flow)
    requires RuleList(rules) && WellFormed(r) && Apart(rules) && New(rules, r)
    ensures Apart(Inserted(rules, r)) <==> !Conflicting(rules, r)
  {
    var l := Inserted(rules, r);
    if x :| x in rules && Conflicts(x, r.key, r.priority, false) {
      var i :| 0 <= i < |rules| && rules[i] == x;
      assert l[i] == x && l[|rules|] == r;
    } else {
      forall i | 0 <= i < |rules| ensures !Conflicts(l[i], r.key, r.priority, false) {
        assert l[i] in rules;
      }
    }
  }

  lemma {:induction false} FilterApart(l: seq<Flow>, p: Flow -> bool)
    requires Apart(l)
    ensures Apart(Filter(l, p))
  {
    if l != [] {
      var n := |l| - 1;
      FilterApart(l[..n], p);
      FilterIn(l[..n], p);
      forall i | 0 <= i < |Filter(l[..n], p)| && Filter(l[..n], p)[i].priority == l[n].priority
        ensures !Overlap(Filter(l[..n], p)[i].key, l[n].key)
      {
        assert Filter(l[..n], p)[i] in l[..n];
      }
    }
  }

  /** A message that adds no flow to the working tables without the check, or none the check would have refused. */
  ghost predicate Careful(s: State, msg: Message) {
    msg.emerg ||
    match msg
    case Add(_, _, check, _, _, _, _) => check || !Conflicting(s.rules, FlowOf(msg))
    case Modify(_, _, _, _, _, _, _) => AnyIn(s.rules, Selection(msg)) || !Conflicting(s.rules, FlowOf(msg))
    case Delete(_, _, _, _, _) => true
  }

  lemma EffectKeeps(s: State, msg: Message)
    requires RuleList(s.Of(msg.emerg))
    ensures RuleList(Effect(s, msg).Of(msg.emerg))
  {
    var l := s.Of(msg.emerg);
    if msg.Delete? {
      FilterKeeps(l, Not(Selection(msg)));
    } else {
      InsertedKeeps(l, FlowOf(msg));
      if msg.Modify? {
        UpdateKeeps(l, Selection(msg), msg.acts);
      }
    }
  }

  lemma ApplyApart(s: State, msg: Message, v: Verdict, max: nat)
    requires RuleList(s.rules) && Apart(s.rules) && May(s, msg, v, max) && Careful(s, msg)
    ensures RuleList(Apply(s, msg, v).rules) && Apart(Apply(s, msg, v).rules)
  {
    if v == Done && !msg.emerg {
      EffectKeeps(s, msg);
      if msg.Delete? {
        FilterApart(s.rules, Not(Selection(msg)));
      } else if !Conflicting(s.rules, FlowOf(msg)) {
        NewIfNoConflict(s.rules, FlowOf(msg));
        InsertApartIff(s.rules, FlowOf(msg));
      }
    }
  }

  lemma NewIfNoConflict(rules: seq<Flow>, r: Flow)
    requires !Conflicting(rules, r)
    ensures New(rules, r)
  {
    forall x | x in rules ensures !Same(x, r) {
      assert !Conflicts(x, r.key, r.priority, false);
    }
  }

  ghost predicate CarefulRun(s: State, msgs: seq<Message>, verdicts: seq<Verdict>)
    requires |verdicts| == |msgs|
  {
    msgs == [] ||
    var n := |msgs| - 1;
    CarefulRun(s, msgs[..n], verdicts[..n]) && Careful(Replay(s, msgs[..n], verdicts[..n]), msgs[n])
  }

  lemma {:induction false} ReplayApart(s: State, msgs: seq<Message>, verdicts: seq<Verdict>, max: nat)
    requires RuleList(s.rules) && Apart(s.rules)
    requires |verdicts| == |msgs| && Lawful(s, msgs, verdicts, max) && CarefulRun(s, msgs, verdicts)
    ensures RuleList(Replay(s, msgs, verdicts).rules) && Apart(Replay(s, msgs, verdicts).rules)
  {
    if msgs != [] {
      var n := |msgs| - 1;
      ReplayApart(s, msgs[..n], verdicts[..n], max);
      ApplyApart(Replay(s, msgs[..n], verdicts[..n]), msgs[n], verdicts[n], max);
    }
  }

  /** After any run of checked messages no packet matches two flows of one priority in the working tables. */
  lemma CheckedRunsAreUnambiguous(msgs: seq<Message>, verdicts: seq<Verdict>, max: nat, p: Fields)
    requires |verdicts| == |msgs| && IsPacket(p)
    requires Lawful(State([], []), msgs, verdicts, max) && CarefulRun(State([], []), msgs, verdicts)
    ensures OnePerPriority(Replay(State([], []), msgs, verdicts).rules, p)
  {
    ReplayApart(State([], []), msgs, verdicts, max);
    OnePerPriorityIff(Replay(State([], []), msgs, verdicts).rules);
  }

  // ----- emergency flows are checked against the wrong table

  /**
   A new emergency flow that the overlap check lets pass keeps the emergency table free of overlaps exactly
   if it overlaps none of the flows there, which the check did not look at.
   */
  lemma EmergencyApartIff(s: State, msg: Message, v: Verdict, max: nat)
    requires RuleList(s.emerg) && Apart(s.emerg) && msg.Add? && msg.emerg && msg.checkOverlap
    requires May(s, msg, v, max) && v == Done && New(s.emerg, FlowOf(msg))
    ensures !Conflicting(s.rules, FlowOf(msg))
    ensures Apart(Apply(s, msg, v).emerg) <==> !Conflicting(s.emerg, FlowOf(msg))
  {
    InsertApartIff(s.emerg, FlowOf(msg));
  }

  function AddEmergency(w: Wild, acts: Acts): Message {
    Add(Match(NULL_KEY.f, w), 0, true, true, acts, PERMANENT, PERMANENT)
  }

  const ONE := AddEmergency(ANY, [Output(1)])
  const TWO := AddEmergency(ANY.(inPort := false), [Output(2)])

  lemma OneAndTwo()
    ensures FlowOf(ONE) != FlowOf(TWO) && !Same(FlowOf(ONE), FlowOf(TWO))
    ensures FlowOf(ONE).priority == FlowOf(TWO).priority && IsPacket(NULL_KEY.f)
    ensures Overlap(FlowOf(ONE).key, FlowOf(TWO).key)
    ensures Hit(NULL_KEY.f)(FlowOf(ONE)) && Hit(NULL_KEY.f)(FlowOf(TWO))
  {
    MaskEnds();
  }

  // ----- and it can be overcautious

  function AddToWorking(m: Match, acts: Acts): Message {
    Add(m, 0, true, false, acts, PERMANENT, PERMANENT)
  }

  const UNTAGGED_OUT := AddToWorking(Fill(UNTAGGED), [Output(1)])
  const PRIORITY3_OUT := AddToWorking(Fill(PRIORITY3), [Output(2)])

  /**
   On a chain without rules: untagged frames, and then frames of VLAN priority 3. No packet matches both,
   and the check refuses the second flow.
   */
  method CheckIsOvercautious(c: Chain) returns (v: Verdict)
    requires c.Valid() && c.rules == [] && c.linear.maxFlows > 0
    modifies c, c.Working(), c.emerg
    ensures c.Valid() && c.rules == [FlowOf(UNTAGGED_OUT)]
    ensures v == Overlapping && !Ambiguous(c.rules, FlowOf(PRIORITY3_OUT))
  {
    OverlapWithoutPacket();
    ExtractFill(UNTAGGED);
    ExtractFill(PRIORITY3);
    var _ := ReceiveFlow(c, UNTAGGED_OUT);
    assert Conflicts(c.rules[0], FlowOf(PRIORITY3_OUT).key, 0, false);
    v := ReceiveFlow(c, PRIORITY3_OUT);
  }

  /** With nothing in the working tables the check lets any emergency flow pass. */
  method AddChecked(c: Chain, msg: Message)
    requires c.Valid() && c.rules == []
    requires msg.Add? && msg.emerg && msg.checkOverlap && msg.idle == msg.hard == PERMANENT
    requires New(c.emerg.rules, FlowOf(msg)) && |c.emerg.rules| < c.linear.maxFlows
    modifies c, c.Working(), c.emerg
    ensures c.Valid() && c.rules == [] && c.emerg.rules == old(c.emerg.rules) + [FlowOf(msg)]
  {
    var _ := ReceiveFlow(c, msg);
  }

  /** Two overlapping emergency flows of one priority, both with the check: nothing objects. */
  method CheckIsBlind(c: Chain)
    requires c.Valid() && StateOf(c) == State([], []) && c.linear.maxFlows >= 2
    modifies c, c.Working(), c.emerg
    ensures c.Valid() && c.rules == [] && c.emerg.rules == [FlowOf(ONE), FlowOf(TWO)] && !Apart(c.emerg.rules)
  {
    OneAndTwo();
    AddChecked(c, ONE);
    AddChecked(c, TWO);
    assert c.emerg.rules[0] == FlowOf(ONE) && c.emerg.rules[1] == FlowOf(TWO);
  }
}
