/**
 Two libtelnet endpoints as the code has them, each with its growable option table: they are the endpoints
 with maps of module `Negotiation` exactly as long as neither table is made to store a 64th option.
 */
module Endpoints {
  import opened Bytes
  import opened QMethod
  import N = Negotiation

  type End = N.End
  type Msg = N.Msg
  type Step = N.Step
  type Support = N.Support

  /** `ab` holds what A sent and B has not yet processed, oldest first; `ba` the converse. */
  datatype Wire = Wire(a: Table, b: Table, ab: seq<Msg>, ba: seq<Msg>) {
    function Of(e: End): Table { if e.A? then a else b }
    function SentBy(e: End): seq<Msg> { if e.A? then ab else ba }
    function With(e: End, t: Table): Wire { if e.A? then this.(a := t) else this.(b := t) }
    function WithSent(e: End, ch: seq<Msg>): Wire { if e.A? then this.(ab := ch) else this.(ba := ch) }

    /** The options as either end reads them. */
    function AsNet(): N.Net { N.Net(AsMap(a), AsMap(b), ab, ba) }
  }

  const START := Wire([], [], [], [])

  function Next(w: Wire, step: Step, sup: Support): Wire {
    match step
    case Request(e, cmd, opt) =>
      var p := Get(w.Of(e), opt);
      w.With(e, AskOnTable(w.Of(e), opt, cmd)).WithSent(e, w.SentBy(e) + N.Messages(Ask(p, cmd).reply, opt))
    case Deliver(e) =>
      var ch := w.SentBy(e.Peer());
      if ch == [] then w else
        var m, p := ch[0], Get(w.Of(e), ch[0].opt);
        var s := sup(e, m.opt, !FromPerformer(m.cmd));
        var w' := w.WithSent(e.Peer(), ch[1..]).With(e, ReceiveOnTable(w.Of(e), m.opt, m.cmd, s));
        w'.WithSent(e, w.SentBy(e) + N.Messages(React(p, m.cmd, s).reply, m.opt))
  }

  function Run(w: Wire, steps: seq<Step>, sup: Support): Wire
    decreases |steps|
  {
    if steps == [] then w else Run(Next(w, steps[0], sup), steps[1..], sup)
  }

  /** Does this step take one of the "answered by" protocol-error branches? */
  predicate Violates(w: Wire, step: Step, sup: Support) {
    step.Deliver? &&
    var ch := w.SentBy(step.at.Peer());
    ch != [] &&
    var m := ch[0];
    React(Get(w.Of(step.at), m.opt), m.cmd, sup(step.at, m.opt, !FromPerformer(m.cmd))).violation
  }

  /** The request that leads into the branch which forgets to send DO. */
  predicate Risky(w: Wire, step: Step) {
    step.Request? && step.cmd.Do? && Get(w.Of(step.from), step.opt).him == WantNo
  }

  predicate NeverRisky(w: Wire, steps: seq<Step>, sup: Support)
    decreases |steps|
  {
    steps == [] || (!Risky(w, steps[0]) && NeverRisky(Next(w, steps[0], sup), steps[1..], sup))
  }

  predicate NeverViolates(w: Wire, steps: seq<Step>, sup: Support)
    decreases |steps|
  {
    steps == [] || (!Violates(w, steps[0], sup) && NeverViolates(Next(w, steps[0], sup), steps[1..], sup))
  }

  function Deliveries(w: Wire, steps: seq<Step>, sup: Support): nat
    decreases |steps|
  {
    if steps == [] then 0
    else (if steps[0].Deliver? && w.SentBy(steps[0].at.Peer()) != [] then 1 else 0)
         + Deliveries(Next(w, steps[0], sup), steps[1..], sup)
  }

  predicate Quiet(w: Wire) { w.ab == [] && w.ba == [] }

  /** One end's view of itself and the peer's view of that end are both settled and equal. */
  predicate Agree(w: Wire, e: End, opt: byte) {
    var u, h := Get(w.Of(e), opt).us, Get(w.Of(e.Peer()), opt).him;
    (u == No && h == No) || (u == Yes && h == Yes)
  }

  /** Does this step make an end store a 64th option? */
  predicate Overflows(w: Wire, step: Step, sup: Support) {
    match step
    case Request(e, cmd, opt) => Ask(Get(w.Of(e), opt), cmd).stored && Full(w.Of(e), opt)
    case Deliver(e) =>
      var ch := w.SentBy(e.Peer());
      ch != [] &&
      var m := ch[0];
      React(Get(w.Of(e), m.opt), m.cmd, sup(e, m.opt, !FromPerformer(m.cmd))).stored && Full(w.Of(e), m.opt)
  }

  predicate NeverOverflows(w: Wire, steps: seq<Step>, sup: Support)
    decreases |steps|
  {
    steps == [] || (!Overflows(w, steps[0], sup) && NeverOverflows(Next(w, steps[0], sup), steps[1..], sup))
  }

  // ----- until a 64th option is stored the tables are maps

  ghost predicate Sized(w: Wire) { WellSized(w.a) && WellSized(w.b) }

  lemma StepRefinesIff(w: Wire, step: Step, sup: Support)
    requires Sized(w)
    ensures Sized(Next(w, step, sup))
    ensures Next(w, step, sup).AsNet() == N.Next(w.AsNet(), step, sup) <==> !Overflows(w, step, sup)
  {
    match step
    case Request(e, cmd, opt) => AskRefinesIff(w.Of(e), opt, cmd);
    case Deliver(e) =>
      if w.SentBy(e.Peer()) != [] {
        var m := w.SentBy(e.Peer())[0];
        ReceiveRefinesIff(w.Of(e), m.opt, m.cmd, sup(e, m.opt, !FromPerformer(m.cmd)));
      }
  }

  lemma StepAlike(w: Wire, step: Step, sup: Support)
    ensures Risky(w, step) == N.Risky(w.AsNet(), step) && Violates(w, step, sup) == N.Violates(w.AsNet(), step, sup)
    ensures step.Deliver? ==> w.SentBy(step.at.Peer()) == w.AsNet().SentBy(step.at.Peer())
  {
  }

  /** After each of the steps the tables stand for the maps. */
  ghost predicate AlwaysMaps(w: Wire, n: N.Net, steps: seq<Step>, sup: Support)
    decreases |steps|
  {
    w.AsNet() == n &&
    (steps == [] || AlwaysMaps(Next(w, steps[0], sup), N.Next(n, steps[0], sup), steps[1..], sup))
  }

  /** The endpoints with tables take, step by step, the run of those with maps exactly if no step overflows. */
  lemma {:induction false} RunRefinesIff(w: Wire, steps: seq<Step>, sup: Support)
    requires Sized(w)
    ensures AlwaysMaps(w, w.AsNet(), steps, sup) <==> NeverOverflows(w, steps, sup)
    decreases |steps|
  {
    if steps != [] {
      StepRefinesIff(w, steps[0], sup);
      RunRefinesIff(Next(w, steps[0], sup), steps[1..], sup);
      if Overflows(w, steps[0], sup) {
        NotMaps(Next(w, steps[0], sup), N.Next(w.AsNet(), steps[0], sup), steps[1..], sup);
      }
    }
  }

  lemma NotMaps(w: Wire, n: N.Net, steps: seq<Step>, sup: Support)
    requires w.AsNet() != n
    ensures !AlwaysMaps(w, n, steps, sup)
  {
  }

  /** What such a run has from the maps. */
  lemma {:induction false} RunAlike(w: Wire, steps: seq<Step>, sup: Support)
    requires Sized(w) && NeverOverflows(w, steps, sup)
    ensures Sized(Run(w, steps, sup)) && Run(w, steps, sup).AsNet() == N.Run(w.AsNet(), steps, sup)
    ensures NeverRisky(w, steps, sup) == N.NeverRisky(w.AsNet(), steps, sup)
    ensures NeverViolates(w, steps, sup) == N.NeverViolates(w.AsNet(), steps, sup)
    ensures Deliveries(w, steps, sup) == N.Deliveries(w.AsNet(), steps, sup)
    decreases |steps|
  {
    if steps != [] {
      StepAlike(w, steps[0], sup);
      StepRefinesIff(w, steps[0], sup);
      RunAlike(Next(w, steps[0], sup), steps[1..], sup);
    }
  }

  lemma StartsEmpty()
    ensures Sized(START) && START.AsNet() == N.START
  {
  }

  /**
   Safety over whole runs: from the start, however deliveries and requests interleave, as long as neither
   table is made to store a 64th option and no end asks for DO while its view of the peer is WANTNO, no
   protocol-error branch is reached and a quiet line means that both ends agree about every option in both
   directions.
   */
  lemma NegotiationIsSafe(steps: seq<Step>, sup: Support)
    requires NeverOverflows(START, steps, sup) && NeverRisky(START, steps, sup)
    ensures NeverViolates(START, steps, sup)
    ensures Quiet(Run(START, steps, sup)) ==> forall e: End, opt: byte :: Agree(Run(START, steps, sup), e, opt)
  {
    StartsEmpty();
    RunAlike(START, steps, sup);
    N.SafeOnMaps(steps, sup);
    var w := Run(START, steps, sup);
    if Quiet(w) {
      forall e: End, opt: byte ensures Agree(w, e, opt) {
        assert N.Agree(w.AsNet(), e, opt);
      }
    }
  }

  /**
   Negotiation cannot loop: in such a run at most two messages are ever processed per application request,
   over all options and both directions together.
   */
  lemma NegotiationCannotLoop(steps: seq<Step>, sup: Support)
    requires NeverOverflows(START, steps, sup) && NeverRisky(START, steps, sup)
    ensures Deliveries(START, steps, sup) <= 2 * N.Requests(steps)
  {
    StartsEmpty();
    RunAlike(START, steps, sup);
    N.TrafficOnMaps(steps, sup);
  }

  // ----- with at most 63 options asked for, none is the 64th

  /** The options that applications ask for. */
  function OptionsOf(steps: seq<Step>): set<byte> {
    set i | 0 <= i < |steps| && steps[i].Request? :: steps[i].opt
  }

  ghost predicate AllWithin(ch: seq<Msg>, used: set<byte>) { forall i :: 0 <= i < |ch| ==> ch[i].opt in used }

  ghost predicate Within(w: Wire, used: set<byte>) {
    && Sized(w) && HeadsWithin(w.a, used) && HeadsWithin(w.b, used)
    && AllWithin(w.ab, used) && AllWithin(w.ba, used)
  }

  lemma StepWithin(w: Wire, step: Step, sup: Support, used: set<byte>)
    requires Within(w, used) && |used| <= 63 && (step.Request? ==> step.opt in used)
    ensures Within(Next(w, step, sup), used) && !Overflows(w, step, sup)
  {
    match step
    case Request(e, cmd, opt) => RoomForSixtyThree(w.Of(e), used, opt, Asked(Get(w.Of(e), opt), cmd));
    case Deliver(e) =>
      if w.SentBy(e.Peer()) != [] {
        var m, p := w.SentBy(e.Peer())[0], Get(w.Of(e), w.SentBy(e.Peer())[0].opt);
        RoomForSixtyThree(w.Of(e), used, m.opt, Received(p, m.cmd, sup(e, m.opt, !FromPerformer(m.cmd))));
      }
  }

  lemma OptionsTail(steps: seq<Step>)
    requires steps != []
    ensures OptionsOf(steps) == OptionsOf(steps[1..]) + if steps[0].Request? then {steps[0].opt} else {}
  {
    forall o | o in OptionsOf(steps) && !(steps[0].Request? && o == steps[0].opt) ensures o in OptionsOf(steps[1..]) {
      var i :| 0 <= i < |steps| && steps[i].Request? && steps[i].opt == o;
      assert steps[1..][i - 1] == steps[i];
    }
    forall o | o in OptionsOf(steps[1..]) ensures o in OptionsOf(steps) {
      var i :| 0 <= i < |steps[1..]| && steps[1..][i].Request? && steps[1..][i].opt == o;
      assert steps[i + 1] == steps[1..][i];
    }
    assert steps[0].Request? ==> steps[0].opt in OptionsOf(steps);
  }

  lemma {:induction false} RunWithin(w: Wire, steps: seq<Step>, sup: Support, used: set<byte>)
    requires Within(w, used) && |used| <= 63 && OptionsOf(steps) <= used
    ensures Within(Run(w, steps, sup), used) && NeverOverflows(w, steps, sup)
    decreases |steps|
  {
    if steps != [] {
      OptionsTail(steps);
      StepWithin(w, steps[0], sup, used);
      RunWithin(Next(w, steps[0], sup), steps[1..], sup, used);
    }
  }

  /** Whoever asks for them, and in whatever order. */
  lemma SixtyThreeFit(steps: seq<Step>, sup: Support)
    requires |OptionsOf(steps)| <= 63
    ensures NeverOverflows(START, steps, sup)
  {
    RunWithin(START, steps, sup, OptionsOf(steps));
  }

  // ----- the restriction to unrisky requests is exact

  lemma {:induction false} RunAppend(w: Wire, s: seq<Step>, t: seq<Step>, sup: Support)
    ensures Run(w, s + t, sup) == Run(Run(w, s, sup), t, sup)
    ensures NeverRisky(w, s + t, sup) == (NeverRisky(w, s, sup) && NeverRisky(Run(w, s, sup), t, sup))
    decreases |s|
  {
    if s == [] {
      assert s + t == t;
    } else {
      assert (s + t)[1..] == s[1..] + t;
      RunAppend(Next(w, s[0], sup), s[1..], t, sup);
    }
  }

  /** After an unrisky run every link is in order. */
  lemma InOrder(before: seq<Step>, sup: Support)
    requires NeverOverflows(START, before, sup) && NeverRisky(START, before, sup)
    ensures Sized(Run(START, before, sup)) && N.AllLinked(Run(START, before, sup).AsNet())
  {
    StartsEmpty();
    RunAlike(START, before, sup);
    N.SafeRun(N.START, before, sup);
  }

  /** The line after the request for DO and what follows it. */
  function After(w: Wire, e: End, opt: byte, steps: seq<Step>, sup: Support): Wire {
    Run(Next(w, N.Request(e, Do, opt), sup), steps, sup)
  }

  /** Steps after the request, none of them a request about the same thing, and no overflow. */
  ghost predicate Later(w: Wire, steps: seq<Step>, e: End, opt: byte, sup: Support) {
    N.Unasked(steps, e.Peer(), opt) && NeverOverflows(w, [N.Request(e, Do, opt)] + steps, sup)
  }

  lemma LaterParts(w: Wire, steps: seq<Step>, e: End, opt: byte, sup: Support)
    ensures NeverOverflows(w, [N.Request(e, Do, opt)] + steps, sup) <==>
              && !Overflows(w, N.Request(e, Do, opt), sup)
              && NeverOverflows(Next(w, N.Request(e, Do, opt), sup), steps, sup)
  {
    assert ([N.Request(e, Do, opt)] + steps)[1..] == steps;
  }

  lemma AfterRequest(w: Wire, e: End, opt: byte, steps: seq<Step>, sup: Support)
    requires Sized(w) && N.AllLinked(w.AsNet()) && Later(w, steps, e, opt, sup)
    requires Quiet(After(w, e, opt, steps, sup))
    ensures Agree(After(w, e, opt, steps, sup), e.Peer(), opt) <==> Get(w.Of(e), opt).him != WantNo
  {
    var step := N.Request(e, Do, opt);
    LaterParts(w, steps, e, opt, sup);
    StepRefinesIff(w, step, sup);
    RunAlike(Next(w, step, sup), steps, sup);
    var n := w.AsNet();
    assert n.Of(e)[opt] == Get(w.Of(e), opt);
    N.DoRequest(n, e, opt, sup);
    N.LeftAloneRun(N.Next(n, step, sup), steps, sup, e.Peer(), opt);
    N.QuietLink(N.Run(N.Next(n, step, sup), steps, sup), e.Peer(), opt);
    SameAgreement(After(w, e, opt, steps, sup), e.Peer(), opt);
  }

  lemma SameAgreement(w: Wire, e: End, opt: byte)
    ensures N.Agree(w.AsNet(), e, opt) == Agree(w, e, opt) && N.Quiet(w.AsNet()) == Quiet(w)
  {
  }

  /** Delivering what is under way makes the line quiet. */
  lemma QuietComes(w: Wire, e: End, opt: byte, sup: Support, used: set<byte>) returns (steps: seq<Step>)
    requires Within(w, used) && |used| <= 63 && opt in used && N.AllLinked(w.AsNet())
    ensures Later(w, steps, e, opt, sup) && Quiet(After(w, e, opt, steps, sup))
  {
    var step := N.Request(e, Do, opt);
    StepWithin(w, step, sup, used);
    StepRefinesIff(w, step, sup);
    N.DoRequest(w.AsNet(), e, opt, sup);
    steps := N.Drain(N.Next(w.AsNet(), step, sup), sup);
    assert OptionsOf(steps) == {};
    RunWithin(Next(w, step, sup), steps, sup, used);
    RunAlike(Next(w, step, sup), steps, sup);
    LaterParts(w, steps, e, opt, sup);
    SameAgreement(After(w, e, opt, steps, sup), e, opt);
  }

  /**
   After any unrisky run, and whatever follows except further requests about the same option in the same
   direction, the ends agree about an option that was asked for in a quiet state if and only if the
   requester's half was not WANTNO.
   */
  lemma DoRequestDecides(before: seq<Step>, e: End, opt: byte, steps: seq<Step>, sup: Support)
    requires NeverOverflows(START, before, sup) && NeverRisky(START, before, sup)
    requires var w := Run(START, before, sup);
             Later(w, steps, e, opt, sup) && Quiet(After(w, e, opt, steps, sup))
    ensures var w := Run(START, before, sup);
            Agree(After(w, e, opt, steps, sup), e.Peer(), opt) <==> Get(w.Of(e), opt).him != WantNo
  {
    InOrder(before, sup);
    AfterRequest(Run(START, before, sup), e, opt, steps, sup);
  }

  /**
   When a DO request is harmless: if and only if the requester's half is not WANTNO do the ends agree in
   every quiet state that follows. In the excluded case every such state disagrees, and there is one.
   */
  lemma DoRequestSafeIff(before: seq<Step>, e: End, opt: byte, sup: Support)
    requires |OptionsOf(before) + {opt}| <= 63 && NeverRisky(START, before, sup)
    ensures var w := Run(START, before, sup);
            Get(w.Of(e), opt).him != WantNo <==>
            forall steps :: Later(w, steps, e, opt, sup) && Quiet(After(w, e, opt, steps, sup)) ==>
                              Agree(After(w, e, opt, steps, sup), e.Peer(), opt)
    ensures var w := Run(START, before, sup);
            Get(w.Of(e), opt).him == WantNo ==>
            forall steps :: Later(w, steps, e, opt, sup) && Quiet(After(w, e, opt, steps, sup)) ==>
                              !Agree(After(w, e, opt, steps, sup), e.Peer(), opt)
  {
    var w, used := Run(START, before, sup), OptionsOf(before) + {opt};
    RunWithin(START, before, sup, used);
    InOrder(before, sup);
    forall steps | Later(w, steps, e, opt, sup) && Quiet(After(w, e, opt, steps, sup))
      ensures Agree(After(w, e, opt, steps, sup), e.Peer(), opt) <==> Get(w.Of(e), opt).him != WantNo
    {
      AfterRequest(w, e, opt, steps, sup);
    }
    var steps := QuietComes(w, e, opt, sup, used);
    AfterRequest(w, e, opt, steps, sup);
  }

  // ----- two runs that end in disagreement

  /** Only the other end's performing of option 1 is supported. */
  const FIRST_ONLY: Support := (e, opt, us) => opt == 1

  predicate Disagrees(w: Wire) { Quiet(w) && !Agree(w, N.B, 1) }

  /** Ask for the option and wait for the answer. */
  function Try(k: byte): seq<Step> { [N.Request(N.A, Do, k), N.Deliver(N.B), N.Deliver(N.A)] }

  function Slots(k: byte, p: Pair): Table { [Entry(k, p), BLANK, BLANK, BLANK] }

  const AGREED := Wire(Slots(1, Pair(No, Yes)), Slots(1, Pair(Yes, No)), [], [])

  /** The steps lead from one state to the other, none of them risky. */
  predicate Leads(w: Wire, steps: seq<Step>, w': Wire) {
    Run(w, steps, FIRST_ONLY) == w' && NeverRisky(w, steps, FIRST_ONLY)
  }

  lemma LeadsOne(w: Wire, step: Step)
    requires !Risky(w, step)
    ensures Leads(w, [step], Next(w, step, FIRST_ONLY))
  {
    assert [step][1..] == [];
  }

  lemma LeadsOn(w: Wire, s: seq<Step>, w': Wire, t: seq<Step>, w'': Wire)
    requires Leads(w, s, w') && Leads(w', t, w'')
    ensures Leads(w, s + t, w'')
  {
    RunAppend(w, s, t, FIRST_ONLY);
  }

  lemma LeadsThree(w: Wire, s: seq<Step>, w1: Wire, w2: Wire, w3: Wire)
    requires |s| == 3 && !Risky(w, s[0]) && !Risky(w1, s[1]) && !Risky(w2, s[2])
    requires w1 == Next(w, s[0], FIRST_ONLY) && w2 == Next(w1, s[1], FIRST_ONLY) && w3 == Next(w2, s[2], FIRST_ONLY)
    ensures Leads(w, s, w3)
  {
    LeadsOne(w, s[0]);
    LeadsOne(w1, s[1]);
    LeadsOne(w2, s[2]);
    LeadsOn(w, [s[0]], w1, [s[1]], w2);
    LeadsOn(w, [s[0]] + [s[1]], w2, [s[2]], w3);
    assert s == [s[0]] + [s[1]] + [s[2]];
  }

  /** A request for an option the end has nothing stored about. */
  lemma Asks(t: Table, b: Table, k: byte)
    requires Get(t, k) == NO_NO
    ensures var w, step := Wire(t, b, [], []), N.Request(N.A, Do, k);
            Next(w, step, FIRST_ONLY) == Wire(Set(t, k, Pair(No, WantYes)), b, [N.Msg(Do, k)], []) && !Risky(w, step)
  {
    assert N.Messages([Do], k) == [N.Msg(Do, k)];
  }

  /** The other end refuses what it does not support. */
  lemma Refuses(t: Table, b: Table, k: byte)
    requires Get(b, k) == NO_NO && k != 1
    ensures Next(Wire(t, b, [N.Msg(Do, k)], []), N.Deliver(N.B), FIRST_ONLY) == Wire(t, b, [], [N.Msg(Wont, k)])
  {
    assert N.Messages([Wont], k) == [N.Msg(Wont, k)];
  }

  /** The refusal is taken note of, if the request is still remembered. */
  lemma IsRefused(t: Table, b: Table, k: byte)
    requires Get(t, k).him == WantYes || Get(t, k).him == No
    ensures Next(Wire(t, b, [], [N.Msg(Wont, k)]), N.Deliver(N.A), FIRST_ONLY)
         == Wire(if Get(t, k).him == WantYes then Set(t, k, Get(t, k).(him := No)) else t, b, [], [])
  {
    assert N.Messages([], k) == [];
  }

  const ASKED := Wire(Slots(1, Pair(No, WantYes)), [], [N.Msg(Do, 1)], [])
  const GRANTED := Wire(ASKED.a, AGREED.b, [], [N.Msg(Will, 1)])

  lemma Granting()
    ensures Next(ASKED, N.Deliver(N.B), FIRST_ONLY) == GRANTED
  {
    assert N.Messages([Will], 1) == [N.Msg(Will, 1)];
  }

  lemma Granted()
    ensures Next(GRANTED, N.Deliver(N.A), FIRST_ONLY) == AGREED
  {
    assert N.Messages([], 1) == [];
  }

  lemma FirstAgreed()
    ensures Leads(START, Try(1), AGREED)
  {
    Asks([], [], 1);
    assert Set([], 1, Pair(No, WantYes)) == Slots(1, Pair(No, WantYes));
    Granting();
    Granted();
    LeadsThree(START, Try(1), ASKED, GRANTED, AGREED);
  }

  /** Once option 1 is agreed on: stop, but no, go on; and what is under way is delivered. */
  const STOP := N.Request(N.A, Dont, 1)
  const GO_ON := N.Request(N.A, Do, 1)
  const STOPPING := Wire(Slots(1, Pair(No, WantNo)), AGREED.b, [N.Msg(Dont, 1)], [])
  const REGRETTING := STOPPING.(a := Slots(1, Pair(No, WantNoOp)))
  const STOPPED := Wire(REGRETTING.a, Slots(1, NO_NO), [], [N.Msg(Wont, 1)])
  const STUCK := Wire(Slots(1, Pair(No, WantYes)), STOPPED.b, [], [])

  lemma Stopping()
    ensures Next(AGREED, STOP, FIRST_ONLY) == STOPPING && !Risky(AGREED, STOP)
    ensures Next(STOPPING, GO_ON, FIRST_ONLY) == REGRETTING && Risky(STOPPING, GO_ON)
  {
    assert N.Messages([Dont], 1) == [N.Msg(Dont, 1)] && N.Messages([], 1) == [];
  }

  lemma Delivering()
    ensures Next(REGRETTING, N.Deliver(N.B), FIRST_ONLY) == STOPPED
  {
    assert N.Messages([Wont], 1) == [N.Msg(Wont, 1)];
  }

  lemma Delivered()
    ensures Next(STOPPED, N.Deliver(N.A), FIRST_ONLY) == STUCK
    ensures Disagrees(STUCK) && Get(STUCK.a, 1).him == WantYes && Get(STUCK.b, 1).us == No
  {
    assert N.Messages([], 1) == [];
  }

  lemma RunTwo(w: Wire, s: seq<Step>, sup: Support)
    requires |s| == 2
    ensures Run(w, s, sup) == Next(Next(w, s[0], sup), s[1], sup)
  {
    var w1 := Next(w, s[0], sup);
    assert s[1..][0] == s[1] && s[1..][1..] == [];
    assert Run(w, s, sup) == Run(w1, s[1..], sup) == Run(Next(w1, s[1], sup), [], sup);
  }

  /**
   One request that comes too early is enough: from the start, the end that changed its mind comes to wait
   for an answer that nobody owes it.
   */
  lemma RegretDisagrees()
    ensures Leads(START, Try(1) + [STOP], STOPPING) && Risky(STOPPING, GO_ON)
    ensures After(STOPPING, N.A, 1, [N.Deliver(N.B), N.Deliver(N.A)], FIRST_ONLY) == STUCK
    ensures Disagrees(STUCK) && Get(STUCK.a, 1).him == WantYes && Get(STUCK.b, 1).us == No
  {
    FirstAgreed();
    Stopping();
    Delivering();
    Delivered();
    LeadsOne(AGREED, STOP);
    LeadsOn(START, Try(1), AGREED, [STOP], STOPPING);
    RunTwo(REGRETTING, [N.Deliver(N.B), N.Deliver(N.A)], FIRST_ONLY);
  }

  /** The requester's table when options 1 to `n` have been tried. */
  function Tried(n: nat): Table
    requires n < 256
  {
    if n == 0 then [] else Tried(n - 1) + Slots(n, if n == 1 then Pair(No, Yes) else NO_NO)
  }

  lemma {:induction false} TriedShape(n: nat)
    requires n < 256
    ensures |Tried(n)| == 4 * n && forall i :: 0 <= i < |Tried(n)| ==> Tried(n)[i].telopt <= n
  {
    if n > 0 {
      TriedShape(n - 1);
    }
  }

  /** A new option is not in the table. */
  lemma TriedNew(n: nat)
    requires 1 <= n <= 64
    ensures Find(Tried(n - 1), n) == |Tried(n - 1)| == 4 * (n - 1) && Get(Tried(n - 1), n) == NO_NO
  {
    TriedShape(n - 1);
    FindUnique(Tried(n - 1), n, |Tried(n - 1)|);
  }

  /** Once written it is in the first of four new slots. */
  lemma Written(t: Table, n: byte, p: Pair)
    requires Find(t, n) == |t| < 252
    ensures Set(t, n, p) == t + Slots(n, p)
  {
    assert (t + [Entry(n, p), BLANK, BLANK, BLANK])[..(|t| + 4) % 256] == t + Slots(n, p);
  }

  lemma WrittenAgain(t: Table, n: byte, p: Pair, q: Pair)
    requires Find(t, n) == |t|
    ensures Get(t + Slots(n, p), n) == p && Set(t + Slots(n, p), n, q) == t + Slots(n, q)
  {
    assert forall j :: 0 <= j < |t| ==> (t + Slots(n, p))[j] == t[j];
    FindUnique(t + Slots(n, p), n, |t|);
    assert (t + Slots(n, p))[|t| := Entry(n, q)] == t + Slots(n, q);
  }

  /** A refused option leaves an entry behind at the end that asked. */
  lemma Refused(k: byte)
    requires 2 <= k <= 63
    ensures Leads(Wire(Tried(k - 1), AGREED.b, [], []), Try(k), Wire(Tried(k), AGREED.b, [], []))
  {
    var t, b := Tried(k - 1), AGREED.b;
    var t' := t + Slots(k, Pair(No, WantYes));
    TriedNew(k);
    NotThere(k);
    Written(t, k, Pair(No, WantYes));
    WrittenAgain(t, k, Pair(No, WantYes), NO_NO);
    Asks(t, b, k);
    Refuses(t', b, k);
    IsRefused(t', b, k);
    LeadsThree(Wire(t, b, [], []), Try(k), Wire(t', b, [N.Msg(Do, k)], []), Wire(t', b, [], [N.Msg(Wont, k)]),
               Wire(Tried(k), b, [], []));
  }

  lemma NotThere(k: byte)
    requires k >= 2
    ensures Get(AGREED.b, k) == NO_NO
  {
    FindUnique(AGREED.b, k, 4);
  }

  /** The 64th option takes the size of the table to zero. */
  lemma Forgotten(k: byte)
    requires k == 64
    ensures Leads(Wire(Tried(k - 1), AGREED.b, [], []), Try(k), Wire([], AGREED.b, [], []))
  {
    var t, b := Tried(k - 1), AGREED.b;
    TriedNew(k);
    NotThere(k);
    assert Set(t, k, Pair(No, WantYes)) == [];
    Asks(t, b, k);
    Refuses([], b, k);
    IsRefused([], b, k);
    LeadsThree(Wire(t, b, [], []), Try(k), Wire([], b, [N.Msg(Do, k)], []), Wire([], b, [], [N.Msg(Wont, k)]),
               Wire([], b, [], []));
  }

  function TryAll(n: nat): seq<Step>
    requires n < 256
  {
    if n == 0 then [] else TryAll(n - 1) + Try(n)
  }

  lemma {:induction false} AllTried(n: nat)
    requires 1 <= n <= 63
    ensures Leads(START, TryAll(n), Wire(Tried(n), AGREED.b, [], []))
  {
    if n == 1 {
      FirstAgreed();
      TriedOnce();
    } else {
      AllTried(n - 1);
      Refused(n);
      LeadsOn(START, TryAll(n - 1), Wire(Tried(n - 1), AGREED.b, [], []), Try(n), Wire(Tried(n), AGREED.b, [], []));
    }
  }

  lemma TriedOnce()
    ensures TryAll(1) == Try(1) && Tried(1) == AGREED.a
  {
    assert TryAll(0) == [] && Tried(0) == [];
    assert [] + Try(1) == Try(1) && [] + AGREED.a == AGREED.a;
  }

  lemma SixtyThree(k: byte)
    requires k == 64
    ensures Leads(START, TryAll(k - 1), Wire(Tried(k - 1), AGREED.b, [], []))
    ensures Leads(START, TryAll(k - 1) + Try(k), Wire([], AGREED.b, [], []))
    ensures Leads(Wire(Tried(k - 1), AGREED.b, [], []), Try(k), Wire([], AGREED.b, [], []))
  {
    AllTried(k - 1);
    Forgotten(k);
    LeadsOn(START, TryAll(k - 1), Wire(Tried(k - 1), AGREED.b, [], []), Try(k), Wire([], AGREED.b, [], []));
  }

  lemma AgreedBefore(k: byte)
    requires 2 <= k <= 64
    ensures Get(Tried(k - 1), 1).him == Get(AGREED.b, 1).us == Yes && Get([], 1).him == No
  {
    FirstKept(k - 1);
  }

  /**
   The bound of 63 is needed: asking for 64 options, one after the other and never riskily, the end that
   asks forgets at the last of them that the first was agreed on, and on a quiet line the other end
   remembers.
   */
  lemma SixtyFourthForgets(k: byte)
    requires k == 64
    ensures var b, asked := AGREED.b, Tried(k - 1);
            Leads(START, TryAll(k - 1), Wire(asked, b, [], [])) && Get(asked, 1).him == Get(b, 1).us == Yes
    ensures Leads(START, TryAll(k - 1) + Try(k), Wire([], AGREED.b, [], [])) && Get([], 1).him == No
  {
    SixtyThree(k);
    AgreedBefore(k);
  }

  lemma {:induction false} FirstKept(n: nat)
    requires 1 <= n < 256
    ensures Get(Tried(n), 1) == Pair(No, Yes) && Find(Tried(n), 1) < |Tried(n)|
  {
    if n == 1 {
      TriedOnce();
    } else {
      FirstKept(n - 1);
      FindUnique(Tried(n), 1, Find(Tried(n - 1), 1));
    }
  }

  lemma OptionsAppend(s: seq<Step>, t: seq<Step>)
    ensures OptionsOf(s + t) == OptionsOf(s) + OptionsOf(t)
  {
    forall o | o in OptionsOf(s) + OptionsOf(t) ensures o in OptionsOf(s + t) {
      if o in OptionsOf(s) {
        var i :| 0 <= i < |s| && s[i].Request? && s[i].opt == o;
        assert (s + t)[i] == s[i];
      } else {
        var i :| 0 <= i < |t| && t[i].Request? && t[i].opt == o;
        assert (s + t)[|s| + i] == t[i];
      }
    }
  }

  lemma OptionOfTry(k: byte)
    ensures OptionsOf(Try(k)) == {k}
  {
    assert Try(k)[0] == N.Request(N.A, Do, k);
    forall o | o in OptionsOf(Try(k)) ensures o == k {
      var i :| 0 <= i < 3 && Try(k)[i].Request? && Try(k)[i].opt == o;
    }
  }

  /** Trying `n` options is asking for `n` options. */
  lemma {:induction false} TriedOptions(n: nat)
    requires n < 256
    ensures |OptionsOf(TryAll(n))| == n && forall o :: o in OptionsOf(TryAll(n)) ==> o <= n
  {
    if n == 0 {
      assert OptionsOf([]) == {};
    } else {
      TriedOptions(n - 1);
      OptionsAppend(TryAll(n - 1), Try(n));
      OptionOfTry(n);
    }
  }
}
