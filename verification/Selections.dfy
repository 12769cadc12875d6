/**
 Which flows a flow-mod message concerns, said in terms of the packets that they match: flows are the same if
 they match the same packets, a strict message concerns the same flow only, a loose one every flow within.
 */
module Selections {
  import opened Chain
  import opened FlowKey
  import opened FlowList
  import opened Options
  import opened TableLinear
  import opened Words
  import FlowMod

  /** They match the same packets. */
  ghost predicate Equivalent(a: Key, b: Key) { forall p: Fields :: Matches(p, a) <==> Matches(p, b) }

  /** Every packet that `a` matches is matched by `b`. */
  ghost predicate InsideOf(a: Key, b: Key) { forall p: Fields :: Matches(p, a) ==> Matches(p, b) }

  lemma MatchesOwn(k: Key)
    ensures Matches(k.f, k)
  {
  }

  lemma AgreeChain(a: Word, b: Word, c: Word, m: Word)
    requires Agree(b, c, m)
    ensures Agree(a, b, m) <==> Agree(a, c, m)
  {
  }

  lemma SameMatchesAlike(a: Key, b: Key, p: Fields)
    requires Normal(a) && Normal(b) && a.w == b.w && Matches(a.f, b)
    ensures Matches(p, a) <==> Matches(p, b)
  {
    AgreeChain(p.nwSrc, a.f.nwSrc, b.f.nwSrc, a.srcMask);
    AgreeChain(p.nwDst, a.f.nwDst, b.f.nwDst, a.dstMask);
  }

  lemma SameIsMatching(a: Key, b: Key)
    requires Normal(a) && Normal(b) && a.w == b.w
    ensures SameKey(a, b) <==> Matches(a.f, b)
  {
    assert And(a.srcMask, b.srcMask) == b.srcMask && And(a.dstMask, b.dstMask) == b.dstMask;
  }

  /** The test by which an insert replaces a flow: the same wildcards and the same packets. */
  lemma SameIff(a: Key, b: Key)
    requires Normal(a) && Normal(b)
    ensures SameKey(a, b) <==> a.w == b.w && Equivalent(a, b)
  {
    MatchesOwn(a);
    if a.w == b.w {
      SameIsMatching(a, b);
      if Matches(a.f, b) {
        forall p ensures Matches(p, a) <==> Matches(p, b) {
          SameMatchesAlike(a, b, p);
        }
      }
    }
  }

  /** A strict modify or delete concerns the flow that an add with the same match and priority would replace. */
  lemma StrictIff(x: Flow, d: Key, priority: nat)
    requires Normal(x.key) && Normal(d)
    ensures Selects(d, priority, true)(x) <==> x.priority == priority && x.key.w == d.w && Equivalent(x.key, d)
  {
    SameIff(x.key, d);
    if x.key.w == d.w {
      SameIsMatching(x.key, d);
    }
  }

  /** Whatever `a` leaves out, `b` leaves out. */
  predicate Wider(a: Wild, b: Wild) {
    && (a.inPort ==> b.inPort) && (a.dlVlan ==> b.dlVlan) && (a.dlVlanPcp ==> b.dlVlanPcp)
    && (a.dlSrc ==> b.dlSrc) && (a.dlDst ==> b.dlDst) && (a.dlType ==> b.dlType)
    && (a.nwTos ==> b.nwTos) && (a.nwProto ==> b.nwProto) && (a.tpSrc ==> b.tpSrc) && (a.tpDst ==> b.tpDst)
    && a.srcBits <= b.srcBits && a.dstBits <= b.dstBits
  }

  lemma WiderMask(a: Word, b: Word, c: Word, n: Bits, m: Bits)
    requires n <= m && Agree(a, b, Mask(n)) && Agree(b, c, Mask(m))
    ensures Agree(a, c, Mask(m))
  {
    assert forall i :: 0 <= i < 32 && Mask(m)[i] ==> Mask(n)[i];
  }

  lemma MatchedWithin(x: Key, d: Key, p: Fields)
    requires Normal(x) && Normal(d) && Wider(x.w, d.w) && Matches(x.f, d) && Matches(p, x)
    ensures Matches(p, d)
  {
    WiderMask(p.nwSrc, x.f.nwSrc, d.f.nwSrc, x.w.srcBits, d.w.srcBits);
    WiderMask(p.nwDst, x.f.nwDst, d.f.nwDst, x.w.dstBits, d.w.dstBits);
  }

  /** A loose one, whatever its priority, concerns every flow whose packets are all its own. */
  lemma LooseIff(x: Flow, d: Key, priority: nat)
    requires Normal(x.key) && Normal(d) && Wider(x.key.w, d.w)
    ensures Selects(d, priority, false)(x) <==> InsideOf(x.key, d)
  {
    MatchesOwn(x.key);
    if Matches(x.key.f, d) {
      forall p | Matches(p, x.key) ensures Matches(p, d) {
        MatchedWithin(x.key, d, p);
      }
    }
  }

  /** The strict form of the overlap test looks for the same flow. */
  lemma StrictConflictIff(x: Flow, d: Key, priority: nat)
    requires Normal(x.key) && Normal(d)
    ensures Conflicts(x, d, priority, true) <==> x.priority == priority && x.key.w == d.w && Equivalent(x.key, d)
  {
    SameIff(x.key, d);
  }

  /** A delete may be restricted to flows with an action that outputs to a port. */
  lemma PortIff(x: Flow, d: Key, out: Option<nat>, priority: nat, strict: bool)
    ensures Deletes(d, out, priority, strict)(x)
       <==> Selects(d, priority, strict)(x)
            && (out == None || exists i :: 0 <= i < |x.acts| && x.acts[i] == Output(out.value))
  {
  }

  // ----- one flow in the tables

  /** The message is about this very flow: the same match and, unless it is exact, the same priority. */
  ghost predicate AboutSame(add: FlowMod.Message, msg: FlowMod.Message) {
    var a, b := Extract(add.m), Extract(msg.m);
    a.w == b.w && Equivalent(a, b) && (a.w == EXACT || add.priority == msg.priority)
  }

  /** The flow is one that the message concerns. */
  ghost predicate Concerns(add: FlowMod.Message, msg: FlowMod.Message)
    requires add.Add? && !msg.Add?
  {
    && (if msg.strict then AboutSame(add, msg) else InsideOf(Extract(add.m), Extract(msg.m)))
    && (msg.Delete? && msg.out.Some? ==> Output(msg.out.value) in add.acts)
  }

  lemma SelectionIs(add: FlowMod.Message, msg: FlowMod.Message)
    requires add.Add? && !msg.Add? && (!msg.strict ==> Wider(Extract(add.m).w, Extract(msg.m).w))
    ensures FlowMod.Selection(msg)(FlowMod.FlowOf(add)) <==> Concerns(add, msg)
  {
    var x, d := FlowMod.FlowOf(add), Extract(msg.m);
    ExtractNormal(add.m);
    ExtractNormal(msg.m);
    StrictIff(x, d, FlowMod.PriorityOf(msg));
    if !msg.strict {
      LooseIff(x, d, FlowMod.PriorityOf(msg));
    }
  }

  lemma OneFlow(x: Flow, sel: Flow -> bool, acts: Acts)
    ensures AnyIn([x], sel) <==> sel(x)
    ensures Filter([x], Not(sel)) == if sel(x) then [] else [x]
    ensures Map([x], Updating(sel, acts)) == if sel(x) then [x.(acts := acts)] else [x]
  {
    assert [x][..0] == [];
    if sel(x) {
      assert x in [x] && sel(x);
    }
  }

  /** Adding a flow to tables without rules and then deleting, or changing, flows. */
  method AddThen(c: Chain, add: FlowMod.Message, msg: FlowMod.Message) returns (v: FlowMod.Verdict)
    requires c.Valid() && c.rules == [] && c.linear.maxFlows > 1 && add.Add? && !add.emerg
    requires !msg.Add? && !msg.emerg && (!msg.strict ==> Wider(Extract(add.m).w, Extract(msg.m).w))
    requires msg.Delete? ==> msg.out.None?
    modifies c, c.Working(), c.emerg
    ensures c.Valid()
    ensures msg.Delete? ==> c.rules == if Concerns(add, msg) then [] else [FlowMod.FlowOf(add)]
    ensures msg.Delete? ==> v == if Concerns(add, msg) then FlowMod.Done else FlowMod.NoSuchFlow
    ensures msg.Modify? && Concerns(add, msg) ==> c.rules == [FlowMod.FlowOf(add).(acts := msg.acts)]
    ensures msg.Modify? && !Concerns(add, msg) ==> c.rules == Inserted([FlowMod.FlowOf(add)], FlowMod.FlowOf(msg))
  {
    var _ := FlowMod.ReceiveFlow(c, add);
    SelectionIs(add, msg);
    OneFlow(FlowMod.FlowOf(add), FlowMod.Selection(msg), if msg.Modify? then msg.acts else []);
    v := FlowMod.ReceiveFlow(c, msg);
  }

  /** An emergency flow that would time out is never added. */
  lemma TimedEmergencyRefused(s: FlowMod.State, msg: FlowMod.Message, v: FlowMod.Verdict, max: nat)
    requires msg.Add? && msg.emerg && (msg.idle > 0 || msg.hard > 0) && FlowMod.May(s, msg, v, max)
    ensures v == FlowMod.Overlapping || v == FlowMod.BadEmergTimeout
    ensures v == FlowMod.Overlapping ==> msg.checkOverlap && FlowMod.Apply(s, msg, v) == s
  {
  }
}
