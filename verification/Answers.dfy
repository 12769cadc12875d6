/**
 What an endpoint answers and what it tells the application, whoever the peer is: what is not supported stays
 off, what is supported follows the peer, an application's wish is carried out after two answers at the
 latest, and which NEGOTIATE events can be taken at their word.
 */
module Answers {
  import opened Bytes
  import opened QMethod
  import opened Endpoints
  import N = Negotiation

  // ----- one option of one end

  /** Who acts in a step. */
  function Actor(step: Step): End {
    match step
    case Request(e, _, _) => e
    case Deliver(e) => e
  }

  /** What is delivered to an end in a step, if anything is. */
  predicate Gets(w: Wire, step: Step, e: End, m: Msg) {
    step == N.Deliver(e) && w.SentBy(e.Peer()) != [] && w.SentBy(e.Peer())[0] == m
  }

  /** The pair that an end keeps for an option, after a step. */
  function PairAfter(w: Wire, step: Step, sup: Support, e: End, opt: byte): Pair {
    var p := Get(w.Of(e), opt);
    match step
    case Request(x, cmd, o) => if x == e && o == opt then Asked(p, cmd) else p
    case Deliver(x) =>
      var ch := w.SentBy(x.Peer());
      if x == e && ch != [] && ch[0].opt == opt then
        Received(p, ch[0].cmd, sup(e, opt, !FromPerformer(ch[0].cmd)))
      else p
  }

  lemma ReadAfterWrite(t: Table, opt: byte, p: Pair, o: byte)
    requires WellSized(t)
    ensures Get(Set(t, opt, p), o) == if Full(t, opt) then NO_NO else if o == opt then p else Get(t, o)
  {
    if Full(t, opt) {
      assert Set(t, opt, p) == [];
    } else {
      SetThenGet(t, opt, p, o);
    }
  }

  /** A step that stores a 64th option makes its end forget everything; otherwise one pair moves. */
  lemma PairMoves(w: Wire, step: Step, sup: Support, e: End, opt: byte)
    requires Sized(w)
    ensures Sized(Next(w, step, sup))
    ensures Get(Next(w, step, sup).Of(e), opt) ==
            if Overflows(w, step, sup) && Actor(step) == e then NO_NO else PairAfter(w, step, sup, e, opt)
  {
    StepRefinesIff(w, step, sup);
    match step
    case Request(x, cmd, o) =>
      var p := Get(w.Of(x), o);
      ReadAfterWrite(w.Of(x), o, Asked(p, cmd), opt);
      StoredIsNews(p, cmd, false);
    case Deliver(x) =>
      var ch := w.SentBy(x.Peer());
      if ch != [] {
        var p, s := Get(w.Of(x), ch[0].opt), sup(x, ch[0].opt, !FromPerformer(ch[0].cmd));
        ReadAfterWrite(w.Of(x), ch[0].opt, Received(p, ch[0].cmd, s), opt);
        StoredIsNews(p, ch[0].cmd, s);
      }
  }

  /** What an end says in reply to a message. */
  lemma Replies(w: Wire, sup: Support, e: End, m: Msg)
    requires Gets(w, N.Deliver(e), e, m)
    ensures var o := React(Get(w.Of(e), m.opt), m.cmd, sup(e, m.opt, !FromPerformer(m.cmd)));
            Next(w, N.Deliver(e), sup).SentBy(e) == w.SentBy(e) + N.Messages(o.reply, m.opt)
  {
  }

  lemma OneMessage(cmd: Cmd, opt: byte)
    ensures N.Messages([cmd], opt) == [N.Msg(cmd, opt)] && N.Messages([], opt) == []
  {
  }

  /** What one end does about an option: the words that turn it on and off, and the words that agree to that. */
  datatype Topic = Topic(on: Cmd, off: Cmd, yes: Cmd, no: Cmd)

  const HIS := Topic(Will, Wont, Do, Dont)
  const OURS := Topic(Do, Dont, Will, Wont)

  predicate IsTopic(t: Topic) { t == HIS || t == OURS }

  function Half(p: Pair, t: Topic): Q { if t == HIS then p.him else p.us }

  predicate NeverAsks(steps: seq<Step>, e: End, cmd: Cmd, opt: byte) {
    forall i :: 0 <= i < |steps| ==> steps[i] != N.Request(e, cmd, opt)
  }

  lemma NeverAsksTail(steps: seq<Step>, e: End, cmd: Cmd, opt: byte)
    requires steps != [] && NeverAsks(steps, e, cmd, opt)
    ensures steps[0] != N.Request(e, cmd, opt) && NeverAsks(steps[1..], e, cmd, opt)
  {
  }

  // ----- what is not supported stays off

  lemma OffAfter(w: Wire, step: Step, sup: Support, e: End, opt: byte, t: Topic)
    requires IsTopic(t) && !sup(e, opt, t == OURS) && step != N.Request(e, t.yes, opt)
    requires Half(Get(w.Of(e), opt), t) == No
    ensures Half(PairAfter(w, step, sup, e, opt), t) == No
  {
  }

  lemma {:induction false} StaysOff(w: Wire, steps: seq<Step>, e: End, opt: byte, sup: Support, t: Topic)
    requires IsTopic(t) && Sized(w) && !sup(e, opt, t == OURS) && NeverAsks(steps, e, t.yes, opt)
    requires Half(Get(w.Of(e), opt), t) == No
    ensures Sized(Run(w, steps, sup)) && Half(Get(Run(w, steps, sup).Of(e), opt), t) == No
    decreases |steps|
  {
    if steps != [] {
      PairMoves(w, steps[0], sup, e, opt);
      NeverAsksTail(steps, e, t.yes, opt);
      OffAfter(w, steps[0], sup, e, opt, t);
      StaysOff(Next(w, steps[0], sup), steps[1..], e, opt, sup, t);
    }
  }

  /**
   In every run from the start, however full the tables get: what an end neither supports nor asks for stays
   off. An offer of it by the other end is answered with DONT, a request for it with WONT.
   */
  lemma UnsupportedRefused(steps: seq<Step>, e: End, opt: byte, sup: Support, t: Topic)
    requires IsTopic(t) && !sup(e, opt, t == OURS) && NeverAsks(steps, e, t.yes, opt)
    ensures var w := Run(START, steps, sup);
            && Half(Get(w.Of(e), opt), t) == No
            && (Gets(w, N.Deliver(e), e, N.Msg(t.on, opt)) ==>
                  && Next(w, N.Deliver(e), sup).SentBy(e) == w.SentBy(e) + [N.Msg(t.no, opt)]
                  && Half(Get(Next(w, N.Deliver(e), sup).Of(e), opt), t) == No)
  {
    var w := Run(START, steps, sup);
    StartsEmpty();
    StaysOff(START, steps, e, opt, sup, t);
    OneMessage(t.no, opt);
    if Gets(w, N.Deliver(e), e, N.Msg(t.on, opt)) {
      Replies(w, sup, e, N.Msg(t.on, opt));
      PairMoves(w, N.Deliver(e), sup, e, opt);
    }
  }

  // ----- what is supported follows the peer

  /** Whether the last word that an end got about an option was `on`, its opposite being `off`. */
  predicate LastWord(w: Wire, steps: seq<Step>, sup: Support, e: End, on: Msg, off: Msg, so: bool)
    decreases |steps|
  {
    if steps == [] then so
    else
      LastWord(Next(w, steps[0], sup), steps[1..], sup, e, on, off,
               if Gets(w, steps[0], e, on) then true else if Gets(w, steps[0], e, off) then false else so)
  }

  function Settled(on: bool): Q { if on then Yes else No }

  function Heard(w: Wire, step: Step, e: End, opt: byte, t: Topic, so: bool): bool {
    if Gets(w, step, e, N.Msg(t.on, opt)) then true else if Gets(w, step, e, N.Msg(t.off, opt)) then false else so
  }

  lemma SettledAfter(w: Wire, step: Step, sup: Support, e: End, opt: byte, t: Topic, so: bool)
    requires IsTopic(t) && sup(e, opt, t == OURS)
    requires step != N.Request(e, t.yes, opt) && step != N.Request(e, t.no, opt)
    requires Half(Get(w.Of(e), opt), t) == Settled(so)
    ensures Half(PairAfter(w, step, sup, e, opt), t) == Settled(Heard(w, step, e, opt, t, so))
  {
  }

  lemma {:induction false} Follows(w: Wire, steps: seq<Step>, e: End, opt: byte, sup: Support, t: Topic, so: bool)
    requires IsTopic(t) && Sized(w) && NeverOverflows(w, steps, sup) && sup(e, opt, t == OURS)
    requires NeverAsks(steps, e, t.yes, opt) && NeverAsks(steps, e, t.no, opt)
    requires Half(Get(w.Of(e), opt), t) == Settled(so)
    ensures Half(Get(Run(w, steps, sup).Of(e), opt), t)
         == Settled(LastWord(w, steps, sup, e, N.Msg(t.on, opt), N.Msg(t.off, opt), so))
    decreases |steps|
  {
    if steps != [] {
      PairMoves(w, steps[0], sup, e, opt);
      NeverAsksTail(steps, e, t.yes, opt);
      NeverAsksTail(steps, e, t.no, opt);
      SettledAfter(w, steps[0], sup, e, opt, t, so);
      Follows(Next(w, steps[0], sup), steps[1..], e, opt, sup, t, Heard(w, steps[0], e, opt, t, so));
    }
  }

  /**
   An option that an end supports and never asks for itself is, in every run from the start that overflows no
   table, exactly as the peer last said; a change is answered in kind, and a repetition not at all.
   */
  lemma SupportedFollows(steps: seq<Step>, e: End, opt: byte, sup: Support, t: Topic)
    requires IsTopic(t)
    requires NeverOverflows(START, steps, sup) && sup(e, opt, t == OURS)
    requires NeverAsks(steps, e, t.yes, opt) && NeverAsks(steps, e, t.no, opt)
    ensures var w := Run(START, steps, sup);
            var last := LastWord(START, steps, sup, e, N.Msg(t.on, opt), N.Msg(t.off, opt), false);
            && Half(Get(w.Of(e), opt), t) == Settled(last)
            && (Gets(w, N.Deliver(e), e, N.Msg(t.on, opt)) ==>
                  Next(w, N.Deliver(e), sup).SentBy(e) == w.SentBy(e) + if last then [] else [N.Msg(t.yes, opt)])
            && (Gets(w, N.Deliver(e), e, N.Msg(t.off, opt)) ==>
                  Next(w, N.Deliver(e), sup).SentBy(e) == w.SentBy(e) + if last then [N.Msg(t.no, opt)] else [])
  {
    var w := Run(START, steps, sup);
    StartsEmpty();
    Follows(START, steps, e, opt, sup, t, false);
    OneMessage(t.yes, opt);
    OneMessage(t.no, opt);
    if Gets(w, N.Deliver(e), e, N.Msg(t.on, opt)) {
      Replies(w, sup, e, N.Msg(t.on, opt));
    }
    if Gets(w, N.Deliver(e), e, N.Msg(t.off, opt)) {
      Replies(w, sup, e, N.Msg(t.off, opt));
    }
  }

  // ----- an application's wish, against any peer

  /** The half that tracks him, or us, after an answer. */
  function Hears(q: Q, cmd: Cmd, s: bool): Outcome {
    if FromPerformer(cmd) then HimReact(q, cmd, s) else UsReact(q, cmd, s)
  }

  /**
   Whatever state an option is in and whatever the peer answers: once the application wants it off it is off
   after two answers at the latest, and if it wants it on, an affirmative answer turns it on. Two refusals in
   a row turn anything off.
   */
  lemma WishesCount(q: Q, t: Topic, a: Cmd, b: Cmd, s: bool, s': bool)
    requires IsTopic(t)
    requires (a == t.on || a == t.off) && (b == t.on || b == t.off)
    ensures var off := AskHalf(q, if t == HIS then Dont else Wont).q;
            off == No || Hears(off, a, s).q == No || Hears(Hears(off, a, s).q, b, s').q == No
    ensures var on := AskHalf(q, if t == HIS then Do else Will).q;
            on == Yes || Hears(on, t.on, s).q == Yes
    ensures Hears(Hears(q, t.off, s).q, t.off, s').q == No
  {
  }

  /**
   A wish is sent to the peer at once, or once the answer to the opposite one has come, and never twice. The
   exception is a wish for his end to be on while the end of it is being confirmed: nothing is sent then, yet
   an answer is waited for.
   */
  lemma WishIsSent(q: Q, t: Topic, s: bool)
    requires IsTopic(t)
    ensures var on := AskHalf(q, t.yes);
            && (q == Yes ==> on.q == Yes && on.reply == [])
            && (q == No ==> on.q == WantYes && on.reply == [t.yes])
            && (q == WantYes || q == WantYesOp ==> on.q == WantYes && on.reply == [])
            && (q == WantNo || q == WantNoOp ==>
                  && on.reply == [] && Hears(on.q, t.off, s).q == WantYes
                  && Hears(on.q, t.off, s).reply == if t == OURS then [t.yes] else [])
    ensures var off := AskHalf(q, t.no);
            && (q == No ==> off.q == No && off.reply == [])
            && (q == Yes ==> off.q == WantNo && off.reply == [t.no])
            && (q == WantNo || q == WantNoOp ==> off.q == WantNo && off.reply == [])
            && (q == WantYes || q == WantYesOp ==>
                  && off.reply == [] && Hears(off.q, t.on, s).q == WantNo
                  && Hears(off.q, t.on, s).reply == [t.no])
  {
  }

  /** An answer to what an end asked for is not answered, nor is anything that breaks the protocol. */
  lemma AnswersEndIt(q: Q, t: Topic, a: Cmd, s: bool)
    requires IsTopic(t) && (a == t.on || a == t.off)
    ensures q == WantNo || q == WantYes ==> Hears(q, a, s).reply == []
    ensures Hears(q, a, s).violation <==> a == t.on && (q == WantNo || q == WantNoOp)
    ensures Hears(q, a, s).violation ==> Hears(q, a, s).reply == []
  {
  }

  /** An unasked offer, or request, is agreed to if it is supported and refused if it is not. */
  lemma FreshOffer(w: Wire, e: End, opt: byte, sup: Support, t: Topic)
    requires IsTopic(t) && Half(Get(w.Of(e), opt), t) == No && Gets(w, N.Deliver(e), e, N.Msg(t.on, opt))
    ensures var yes := sup(e, opt, t == OURS);
            && Next(w, N.Deliver(e), sup).SentBy(e) == w.SentBy(e) + [N.Msg(if yes then t.yes else t.no, opt)]
            && Half(PairAfter(w, N.Deliver(e), sup, e, opt), t) == (if yes then Yes else No)
            && Notices(w, N.Deliver(e), sup, e, opt) == (if yes then [t.on] else [])
  {
    OneMessage(t.yes, opt);
    OneMessage(t.no, opt);
    Replies(w, sup, e, N.Msg(t.on, opt));
  }

  // ----- what the application is told

  /** The NEGOTIATE events that a step raises at an end, about an option. */
  function Notices(w: Wire, step: Step, sup: Support, e: End, opt: byte): seq<Cmd> {
    if step != N.Deliver(e) then []
    else
      var ch := w.SentBy(e.Peer());
      if ch == [] || ch[0].opt != opt then []
      else React(Get(w.Of(e), opt), ch[0].cmd, sup(e, opt, !FromPerformer(ch[0].cmd))).notify
  }

  /** What an application believes that takes WILL and WONT to be about the other end, DO and DONT about its own. */
  datatype Belief = Belief(us: bool, him: bool)

  function Hear(b: Belief, events: seq<Cmd>): Belief {
    if events == [] then b
    else
      match events[|events| - 1]
      case Will => b.(him := true)
      case Wont => b.(him := false)
      case Do => b.(us := true)
      case Dont => b.(us := false)
  }

  /** On until the end of it has been confirmed. */
  predicate On(q: Q) { q == Yes || q == WantNo || q == WantNoOp }

  predicate Right(p: Pair, b: Belief) { b == Belief(On(p.us), On(p.him)) }

  /** A message whose event says something else than what has happened. */
  predicate Misleads(w: Wire, step: Step, e: End, opt: byte) {
    var p := Get(w.Of(e), opt);
    || (Gets(w, step, e, N.Msg(Dont, opt)) && (p.us == WantNo || p.us == WantNoOp))
    || (Gets(w, step, e, N.Msg(Wont, opt)) && p.him == WantNoOp)
  }

  /** A received command whose event misleads, by the state of the option. */
  predicate Misleading(p: Pair, cmd: Cmd) {
    (cmd == Dont && (p.us == WantNo || p.us == WantNoOp)) || (cmd == Wont && p.him == WantNoOp)
  }

  /** The peer goes on, or wants to go on, with what the application wanted off and then on again. */
  predicate Resumes(p: Pair, cmd: Cmd) { (cmd == Will && p.him == WantNoOp) || (cmd == Do && p.us == WantNoOp) }

  predicate ResumedBy(w: Wire, step: Step, e: End, opt: byte) {
    var p := Get(w.Of(e), opt);
    || (Gets(w, step, e, N.Msg(Will, opt)) && p.him == WantNoOp)
    || (Gets(w, step, e, N.Msg(Do, opt)) && p.us == WantNoOp)
  }

  lemma HisToldIff(p: Pair, cmd: Cmd, s: bool, b: Belief)
    requires Right(p, b) && FromPerformer(cmd)
    ensures Right(Received(p, cmd, s), Hear(b, React(p, cmd, s).notify)) <==> !Misleading(p, cmd)
    ensures Misleading(p, cmd) ==> React(p, cmd, s).notify == [Do]
    ensures !Misleading(p, cmd) ==>
              (React(p, cmd, s).notify == [] <==> Right(Received(p, cmd, s), b) && !Resumes(p, cmd))
  {
  }

  lemma OursToldIff(p: Pair, cmd: Cmd, s: bool, b: Belief)
    requires Right(p, b) && !FromPerformer(cmd)
    ensures Right(Received(p, cmd, s), Hear(b, React(p, cmd, s).notify)) <==> !Misleading(p, cmd)
    ensures Misleading(p, cmd) ==> React(p, cmd, s).notify == [if p.us == WantNo then Wont else Will]
    ensures !Misleading(p, cmd) ==>
              (React(p, cmd, s).notify == [] <==> Right(Received(p, cmd, s), b) && !Resumes(p, cmd))
  {
  }

  lemma NothingNothingTold(p: Pair, cmd: Cmd, s: bool)
    ensures |React(p, cmd, s).notify| <= 1
    ensures Received(p, cmd, s) == p ==> React(p, cmd, s).notify == []
  {
  }

  /**
   An application that believes right about an option goes on to do so if and only if it is not told of an
   end that it asked for itself: DONT in state WANTNO is reported as WONT, and after a change of mind the new
   request is reported. Any other event is raised exactly where there is something to tell: what is on has
   changed, or goes on after all; so none says that a request was refused.
   */
  lemma NoticesTellIff(w: Wire, step: Step, sup: Support, e: End, opt: byte, b: Belief)
    requires Right(Get(w.Of(e), opt), b)
    ensures var p' := PairAfter(w, step, sup, e, opt);
            var told := Notices(w, step, sup, e, opt);
            && (Right(p', Hear(b, told)) <==> !Misleads(w, step, e, opt))
            && |told| <= 1 && (p' == Get(w.Of(e), opt) ==> told == [])
            && (!Misleads(w, step, e, opt) ==> (told == [] <==> Right(p', b) && !ResumedBy(w, step, e, opt)))
  {
    var p, ch := Get(w.Of(e), opt), w.SentBy(e.Peer());
    match step
    case Request(x, cmd, o) => AskedRight(p, cmd, b);
    case Deliver(x) =>
      if x == e && ch != [] && ch[0].opt == opt {
        var s := sup(e, opt, !FromPerformer(ch[0].cmd));
        NothingNothingTold(p, ch[0].cmd, s);
        if FromPerformer(ch[0].cmd) {
          HisToldIff(p, ch[0].cmd, s, b);
        } else {
          OursToldIff(p, ch[0].cmd, s, b);
        }
        assert Misleads(w, step, e, opt) <==> Misleading(p, ch[0].cmd);
        assert ResumedBy(w, step, e, opt) <==> Resumes(p, ch[0].cmd);
      }
  }

  lemma AskedRight(p: Pair, cmd: Cmd, b: Belief)
    requires Right(p, b)
    ensures Right(Asked(p, cmd), b)
  {
  }

  /** The belief is right at the beginning and after each of the steps. */
  ghost predicate AlwaysRight(w: Wire, b: Belief, steps: seq<Step>, sup: Support, e: End, opt: byte)
    decreases |steps|
  {
    && Right(Get(w.Of(e), opt), b)
    && (steps == [] ||
        AlwaysRight(Next(w, steps[0], sup), Hear(b, Notices(w, steps[0], sup, e, opt)), steps[1..], sup, e, opt))
  }

  ghost predicate NeverMisled(w: Wire, steps: seq<Step>, sup: Support, e: End, opt: byte)
    decreases |steps|
  {
    steps == [] || (!Misleads(w, steps[0], e, opt) && NeverMisled(Next(w, steps[0], sup), steps[1..], sup, e, opt))
  }

  lemma {:induction false} BeliefRun(w: Wire, b: Belief, steps: seq<Step>, sup: Support, e: End, opt: byte)
    requires Sized(w) && NeverOverflows(w, steps, sup) && Right(Get(w.Of(e), opt), b)
    ensures AlwaysRight(w, b, steps, sup, e, opt) <==> NeverMisled(w, steps, sup, e, opt)
    decreases |steps|
  {
    if steps != [] {
      PairMoves(w, steps[0], sup, e, opt);
      NoticesTellIff(w, steps[0], sup, e, opt, b);
      if !Misleads(w, steps[0], e, opt) {
        BeliefRun(Next(w, steps[0], sup), Hear(b, Notices(w, steps[0], sup, e, opt)), steps[1..], sup, e, opt);
      } else {
        WrongIsNotRight(Next(w, steps[0], sup), Hear(b, Notices(w, steps[0], sup, e, opt)), steps[1..], sup, e, opt);
      }
    }
  }

  lemma WrongIsNotRight(w: Wire, b: Belief, steps: seq<Step>, sup: Support, e: End, opt: byte)
    requires !Right(Get(w.Of(e), opt), b)
    ensures !AlwaysRight(w, b, steps, sup, e, opt)
  {
  }

  /**
   In every run from the start that overflows no table, an application that goes by the events knows all along
   what is on and what is off about an option, if and only if no misleading event was raised.
   */
  lemma EventsTellIff(steps: seq<Step>, e: End, opt: byte, sup: Support)
    requires NeverOverflows(START, steps, sup)
    ensures AlwaysRight(START, Belief(false, false), steps, sup, e, opt) <==> NeverMisled(START, steps, sup, e, opt)
  {
    StartsEmpty();
    BeliefRun(START, Belief(false, false), steps, sup, e, opt);
  }

  /** States from which only requests for WONT, or risky ones, lead to a misleading event. */
  predicate Plain(p: Pair) { p.us != WantNo && p.us != WantNoOp && p.us != WantYesOp && p.him != WantNoOp }

  lemma PlainAfter(w: Wire, step: Step, sup: Support, e: End, opt: byte)
    requires Plain(Get(w.Of(e), opt)) && step != N.Request(e, Wont, opt) && !Risky(w, step)
    ensures Plain(PairAfter(w, step, sup, e, opt)) && !Misleads(w, step, e, opt)
  {
  }

  lemma {:induction false} PlainRun(w: Wire, steps: seq<Step>, sup: Support, e: End, opt: byte)
    requires Sized(w) && Plain(Get(w.Of(e), opt)) && NeverAsks(steps, e, Wont, opt) && NeverRisky(w, steps, sup)
    ensures NeverMisled(w, steps, sup, e, opt)
    decreases |steps|
  {
    if steps != [] {
      PairMoves(w, steps[0], sup, e, opt);
      NeverAsksTail(steps, e, Wont, opt);
      PlainAfter(w, steps[0], sup, e, opt);
      PlainRun(Next(w, steps[0], sup), steps[1..], sup, e, opt);
    }
  }

  /** None is raised unless the application turns its own option off, or makes a risky request. */
  lemma EventsTell(steps: seq<Step>, e: End, opt: byte, sup: Support)
    requires NeverOverflows(START, steps, sup) && NeverAsks(steps, e, Wont, opt) && NeverRisky(START, steps, sup)
    ensures AlwaysRight(START, Belief(false, false), steps, sup, e, opt)
  {
    StartsEmpty();
    PlainRun(START, steps, sup, e, opt);
    EventsTellIff(steps, e, opt, sup);
  }

  // ----- an application that turns its own option off

  /** Offer an option and have it accepted, then take it back; the confirmation is still under way. */
  const OFFERING := [N.Request(N.A, Will, 1), N.Deliver(N.B), N.Deliver(N.A)]
  const RETRACTING := [N.Request(N.A, Wont, 1), N.Deliver(N.B)]

  const OFFERED := Wire(Slots(1, Pair(WantYes, No)), [], [N.Msg(Will, 1)], [])
  const ACCEPTED := Wire(OFFERED.a, Slots(1, Pair(No, Yes)), [], [N.Msg(Do, 1)])
  const OPEN := Wire(Slots(1, Pair(Yes, No)), ACCEPTED.b, [], [])
  const RETRACTED := Wire(Slots(1, Pair(WantNo, No)), OPEN.b, [N.Msg(Wont, 1)], [])
  const CONFIRMING := Wire(RETRACTED.a, Slots(1, NO_NO), [], [N.Msg(Dont, 1)])

  lemma OfferSteps()
    ensures Next(START, OFFERING[0], FIRST_ONLY) == OFFERED
    ensures Next(OFFERED, OFFERING[1], FIRST_ONLY) == ACCEPTED
  {
    OneMessage(Will, 1);
    OneMessage(Do, 1);
    assert Set([], 1, Pair(WantYes, No)) == Slots(1, Pair(WantYes, No));
    assert Set([], 1, Pair(No, Yes)) == Slots(1, Pair(No, Yes));
  }

  lemma OfferEnds()
    ensures Next(ACCEPTED, OFFERING[2], FIRST_ONLY) == OPEN
  {
  }

  lemma Offering()
    ensures Leads(START, OFFERING, OPEN)
  {
    OfferSteps();
    OfferEnds();
    LeadsThree(START, OFFERING, OFFERED, ACCEPTED, OPEN);
  }

  lemma Retracting()
    ensures Leads(OPEN, RETRACTING, CONFIRMING)
  {
    OneMessage(Wont, 1);
    OneMessage(Dont, 1);
    assert Next(OPEN, RETRACTING[0], FIRST_ONLY) == RETRACTED;
    assert Next(RETRACTED, RETRACTING[1], FIRST_ONLY) == CONFIRMING;
    LeadsOne(OPEN, RETRACTING[0]);
    LeadsOne(RETRACTED, RETRACTING[1]);
    LeadsOn(OPEN, [RETRACTING[0]], RETRACTED, [RETRACTING[1]], CONFIRMING);
    assert RETRACTING == [RETRACTING[0]] + [RETRACTING[1]];
  }

  lemma Confirmation()
    ensures Get(CONFIRMING.a, 1) == Pair(WantNo, No) && Gets(CONFIRMING, N.Deliver(N.A), N.A, N.Msg(Dont, 1))
    ensures Notices(CONFIRMING, N.Deliver(N.A), FIRST_ONLY, N.A, 1) == [Wont]
  {
  }

  lemma ConfirmedOff()
    ensures Get(Next(CONFIRMING, N.Deliver(N.A), FIRST_ONLY).a, 1).us == No
  {
    Confirmation();
  }

  /**
   A run from the start, without a risky request, to a misleading event: the application's own option is off
   when this is confirmed, and the application is told that the other end's is.
   */
  lemma OwnEndIsMisreported()
    ensures Leads(START, OFFERING + RETRACTING, CONFIRMING)
    ensures Notices(CONFIRMING, N.Deliver(N.A), FIRST_ONLY, N.A, 1) == [Wont]
    ensures Misleads(CONFIRMING, N.Deliver(N.A), N.A, 1)
    ensures Get(Next(CONFIRMING, N.Deliver(N.A), FIRST_ONLY).a, 1).us == No
  {
    Offering();
    Retracting();
    LeadsOn(START, OFFERING, OPEN, RETRACTING, CONFIRMING);
    Confirmation();
    ConfirmedOff();
  }
}
