/**
 Two libtelnet endpoints joined by two FIFO channels, under every interleaving of deliveries and
 application requests: agreement when the line is quiet, absence of protocol errors, and a bound
 on the traffic that requests can cause.
 */
module Negotiation {
  import opened Bytes
  import Seqs
  import opened QMethod

  datatype End = A | B {
    function Peer(): End { if A? then B else A }
  }

  datatype Msg = Msg(cmd: Cmd, opt: byte)

  /** `ab` holds what A sent and B has not yet processed, oldest first; `ba` the converse. */
  datatype Net = Net(a: OptMap, b: OptMap, ab: seq<Msg>, ba: seq<Msg>) {
    function Of(e: End): OptMap { if e.A? then a else b }
    function SentBy(e: End): seq<Msg> { if e.A? then ab else ba }
    function With(e: End, m: OptMap): Net { if e.A? then this.(a := m) else this.(b := m) }
    function WithSent(e: End, ch: seq<Msg>): Net { if e.A? then this.(ab := ch) else this.(ba := ch) }
  }

  /** `_check_telopt`: does end `e` support the option locally (`us`) or remotely? */
  type Support = (End, byte, bool) -> bool

  datatype Step = Request(from: End, cmd: Cmd, opt: byte) | Deliver(at: End)

  function Messages(cmds: seq<Cmd>, opt: byte): seq<Msg> {
    seq(|cmds|, i requires 0 <= i < |cmds| => Msg(cmds[i], opt))
  }

  function Update(n: Net, e: End, opt: byte, p: Pair, reply: seq<Cmd>): Net {
    n.With(e, n.Of(e)[opt := p]).WithSent(e, n.SentBy(e) + Messages(reply, opt))
  }

  /** One step; delivering from an empty channel changes nothing. */
  function Next(n: Net, step: Step, sup: Support): Net {
    match step
    case Request(e, cmd, opt) =>
      var p := n.Of(e)[opt];
      Update(n, e, opt, Asked(p, cmd), Ask(p, cmd).reply)
    case Deliver(e) =>
      var ch := n.SentBy(e.Peer());
      if ch == [] then n else
        var m, p := ch[0], n.Of(e)[ch[0].opt];
        var s := sup(e, m.opt, !FromPerformer(m.cmd));
        Update(n.WithSent(e.Peer(), ch[1..]), e, m.opt, Received(p, m.cmd, s), React(p, m.cmd, s).reply)
  }

  /** Does this step take one of the "answered by" protocol-error branches? */
  predicate Violates(n: Net, step: Step, sup: Support) {
    step.Deliver? &&
    var ch := n.SentBy(step.at.Peer());
    ch != [] &&
    var m := ch[0];
    React(n.Of(step.at)[m.opt], m.cmd, sup(step.at, m.opt, !FromPerformer(m.cmd))).violation
  }

  /** The request that leads into the branch which forgets to send DO. */
  predicate Risky(n: Net, step: Step) {
    step.Request? && step.cmd.Do? && n.Of(step.from)[step.opt].him == WantNo
  }

  const START := Net(EMPTY_MAP, EMPTY_MAP, [], [])

  function Run(n: Net, steps: seq<Step>, sup: Support): Net
    decreases |steps|
  {
    if steps == [] then n else Run(Next(n, steps[0], sup), steps[1..], sup)
  }

  predicate NeverRisky(n: Net, steps: seq<Step>, sup: Support)
    decreases |steps|
  {
    steps == [] || (!Risky(n, steps[0]) && NeverRisky(Next(n, steps[0], sup), steps[1..], sup))
  }

  predicate NeverViolates(n: Net, steps: seq<Step>, sup: Support)
    decreases |steps|
  {
    steps == [] || (!Violates(n, steps[0], sup) && NeverViolates(Next(n, steps[0], sup), steps[1..], sup))
  }

  predicate Quiet(n: Net) { n.ab == [] && n.ba == [] }

  /** One end's view of itself and the peer's view of that end are both settled and equal. */
  predicate Agree(n: Net, e: End, opt: byte) {
    var u, h := n.Of(e)[opt].us, n.Of(e.Peer())[opt].him;
    (u == No && h == No) || (u == Yes && h == Yes)
  }

  // ----- one option in one direction

  /**
   The performer's half `u`, the requester's half `h`, WILL/WONT under way to the requester and
   DO/DONT under way to the performer.
   */
  datatype Link = Link(u: Q, h: Q, fwd: seq<Cmd>, back: seq<Cmd>)

  predicate Concerns(m: Msg, opt: byte, performer: bool) {
    m.opt == opt && FromPerformer(m.cmd) == performer
  }

  function Select(ch: seq<Msg>, opt: byte, performer: bool): seq<Cmd> {
    if ch == [] then []
    else (if Concerns(ch[0], opt, performer) then [ch[0].cmd] else []) + Select(ch[1..], opt, performer)
  }

  function LinkOf(n: Net, e: End, opt: byte): Link {
    Link(n.Of(e)[opt].us, n.Of(e.Peer())[opt].him,
         Select(n.SentBy(e), opt, true), Select(n.SentBy(e.Peer()), opt, false))
  }

  predicate Waiting(q: Q) { q != No && q != Yes }

  /** The states a link can be in when no risky request was ever made. */
  predicate Linked(l: Link) {
    var f, b := l.fwd, l.back;
    && l.h != WantNoOp
    && match l.u
       case No =>
         (match l.h
          case No => f == [] && b == []
          case Yes => false
          case WantNo => f == [Wont] && b == []
          case _ => (f == [] && b == [Do]) || (f == [Wont] && b == []))
       case Yes =>
         (match l.h
          case No => false
          case Yes => f == [] && b == []
          case WantNo => f == [] && b == [Dont]
          case _ => f == [Will] && b == [])
       case WantNo => WantNoLinked(l)
       case WantNoOp => WantNoLinked(l)
       case _ =>
         (match l.h
          case No => (f == [] && b == [Dont]) || (f == [Will] && b == [])
          case Yes => f == [] && b == [Do]
          case WantNo => (f == [] && b == [Do, Dont]) || (f == [Wont, Will] && b == [])
          case _ => (f == [] && b == [Dont, Do]) || (f == [Will] && b == [Do]) || (f == [Wont, Will] && b == []))
  }

  predicate WantNoLinked(l: Link) {
    var f, b := l.fwd, l.back;
    match l.h
    case No => f == [] && b == [Dont]
    case Yes => f == [Wont] && b == []
    case WantNo => f == [Wont] && b == [Dont]
    case _ => (f == [] && b == [Dont, Do]) || (f == [Will, Wont] && b == [])
  }

  /** The states a link can be in after a risky request, while messages are being delivered. */
  predicate Doomed(l: Link) {
    var f, b := l.fwd, l.back;
    match l.h
    case Yes => (l.u == WantYes || l.u == WantYesOp) && f == [] && b == []
    case WantYes =>
      || (l.u == No && f == [] && b == [])
      || ((l.u == WantNo || l.u == WantNoOp) && f == [] && b == [Dont])
      || ((l.u == WantYes || l.u == WantYesOp) && f == [Will] && b == [])
    case WantNoOp =>
      (match l.u
       case No => f == [Wont] && b == []
       case Yes => f == [] && b == [Dont]
       case WantNo => f == [Wont] && b == [Dont]
       case WantNoOp => f == [Wont] && b == [Dont]
       case _ => (f == [] && b == [Do, Dont]) || (f == [Wont, Will] && b == []))
    case _ => false
  }

  function ToRequester(l: Link, s: bool): Link
    requires l.fwd != [] && FromPerformer(l.fwd[0])
  {
    var o := HimReact(l.h, l.fwd[0], s);
    l.(h := o.q, fwd := l.fwd[1..], back := l.back + o.reply)
  }

  function ToPerformer(l: Link, s: bool): Link
    requires l.back != [] && !FromPerformer(l.back[0])
  {
    var o := UsReact(l.u, l.back[0], s);
    l.(u := o.q, back := l.back[1..], fwd := l.fwd + o.reply)
  }

  function AskPerformer(l: Link, cmd: Cmd): Link {
    var o := AskHalf(l.u, cmd);
    l.(u := o.q, fwd := l.fwd + o.reply)
  }

  function AskRequester(l: Link, cmd: Cmd): Link {
    var o := AskHalf(l.h, cmd);
    l.(h := o.q, back := l.back + o.reply)
  }

  /** 2 for a request under way, 1 for an acknowledgement, 2 for a queued opposite. */
  function Weight(l: Link): int {
    2 * (|l.fwd| + |l.back|)
    - (if l.fwd != [] && l.back == [] && Waiting(l.h) then 1 else 0)
    - (if l.back != [] && l.fwd == [] && Waiting(l.u) then 1 else 0)
    + (if l.u == WantNoOp || l.u == WantYesOp then 2 else 0)
    + (if l.h == WantNoOp || l.h == WantYesOp then 2 else 0)
  }

  lemma LinkedKeptByDelivery(l: Link, s: bool)
    requires Linked(l)
    ensures l.fwd != [] ==>
              && FromPerformer(l.fwd[0]) && !HimReact(l.h, l.fwd[0], s).violation
              && Linked(ToRequester(l, s)) && Weight(ToRequester(l, s)) < Weight(l)
    ensures l.back != [] ==>
              && !FromPerformer(l.back[0]) && !UsReact(l.u, l.back[0], s).violation
              && Linked(ToPerformer(l, s)) && Weight(ToPerformer(l, s)) < Weight(l)
    ensures Weight(l) >= 0
  {
    LinkedKeptForward(l, s);
    LinkedKeptBackward(l, s);
  }

  lemma LinkedKeptForward(l: Link, s: bool)
    requires Linked(l)
    ensures l.fwd != [] ==>
              && FromPerformer(l.fwd[0]) && !HimReact(l.h, l.fwd[0], s).violation
              && Linked(ToRequester(l, s)) && Weight(ToRequester(l, s)) < Weight(l)
  {
  }

  lemma LinkedKeptBackward(l: Link, s: bool)
    requires Linked(l)
    ensures l.back != [] ==>
              && !FromPerformer(l.back[0]) && !UsReact(l.u, l.back[0], s).violation
              && Linked(ToPerformer(l, s)) && Weight(ToPerformer(l, s)) < Weight(l)
  {
  }

  lemma LinkedKeptByPerformer(l: Link, cmd: Cmd)
    requires Linked(l) && FromPerformer(cmd)
    ensures Linked(AskPerformer(l, cmd)) && Weight(AskPerformer(l, cmd)) <= Weight(l) + 2
  {
  }

  lemma LinkedKeptByRequester(l: Link, cmd: Cmd)
    requires Linked(l) && !FromPerformer(cmd) && !(cmd.Do? && l.h == WantNo)
    ensures Linked(AskRequester(l, cmd)) && Weight(AskRequester(l, cmd)) <= Weight(l) + 2
  {
  }

  lemma LinkedKeptByRequest(l: Link, cmd: Cmd)
    requires Linked(l)
    ensures FromPerformer(cmd) ==>
              Linked(AskPerformer(l, cmd)) && Weight(AskPerformer(l, cmd)) <= Weight(l) + 2
    ensures !FromPerformer(cmd) && !(cmd.Do? && l.h == WantNo) ==>
              Linked(AskRequester(l, cmd)) && Weight(AskRequester(l, cmd)) <= Weight(l) + 2
    ensures cmd.Do? && l.h == WantNo ==> Doomed(AskRequester(l, cmd))
  {
    if FromPerformer(cmd) {
      LinkedKeptByPerformer(l, cmd);
    } else if !(cmd.Do? && l.h == WantNo) {
      LinkedKeptByRequester(l, cmd);
    }
  }

  lemma DoomedKept(l: Link, s: bool)
    requires Doomed(l)
    ensures l.fwd != [] ==>
              FromPerformer(l.fwd[0]) && Doomed(ToRequester(l, s)) && Weight(ToRequester(l, s)) < Weight(l)
    ensures l.back != [] ==>
              !FromPerformer(l.back[0]) && Doomed(ToPerformer(l, s)) && Weight(ToPerformer(l, s)) < Weight(l)
    ensures Weight(l) >= 0
    ensures l.fwd == [] && l.back == [] ==> !(l.u == l.h == No) && !(l.u == l.h == Yes)
  {
  }

  // ----- from the network to its links

  lemma {:induction false} SelectAppend(ch: seq<Msg>, more: seq<Msg>, opt: byte, performer: bool)
    ensures Select(ch + more, opt, performer) == Select(ch, opt, performer) + Select(more, opt, performer)
  {
    if ch == [] {
      assert ch + more == more;
    } else {
      assert (ch + more)[1..] == ch[1..] + more;
      SelectAppend(ch[1..], more, opt, performer);
      Seqs.Assoc(if Concerns(ch[0], opt, performer) then [ch[0].cmd] else [],
                 Select(ch[1..], opt, performer), Select(more, opt, performer));
    }
  }

  lemma SelectReply(ch: seq<Msg>, reply: seq<Cmd>, o: byte, opt: byte, performer: bool)
    requires |reply| <= 1
    ensures Select(ch + Messages(reply, o), opt, performer)
         == Select(ch, opt, performer)
          + if reply != [] && o == opt && FromPerformer(reply[0]) == performer then reply else []
  {
    SelectAppend(ch, Messages(reply, o), opt, performer);
    if reply != [] {
      assert Messages(reply, o)[1..] == [];
    }
  }

  /** The performing end and the option of the one link a step touches. */
  function Touched(n: Net, step: Step): (End, byte)
    requires step.Deliver? ==> n.SentBy(step.at.Peer()) != []
  {
    match step
    case Request(e, cmd, opt) => (if FromPerformer(cmd) then e else e.Peer(), opt)
    case Deliver(e) =>
      var m := n.SentBy(e.Peer())[0];
      (if FromPerformer(m.cmd) then e.Peer() else e, m.opt)
  }

  ghost predicate Moves(n: Net, step: Step, sup: Support, l: Link, l': Link) {
    match step
    case Request(e, cmd, opt) => l' == if FromPerformer(cmd) then AskPerformer(l, cmd) else AskRequester(l, cmd)
    case Deliver(e) =>
      var ch := n.SentBy(e.Peer());
      && ch != []
      && var m := ch[0];
      var s := sup(e, m.opt, !FromPerformer(m.cmd));
      if FromPerformer(m.cmd) then
        l.fwd != [] && l.fwd[0] == m.cmd && l' == ToRequester(l, s)
      else
        l.back != [] && l.back[0] == m.cmd && l' == ToPerformer(l, s)
  }

  /** A request field by field. */
  lemma RequestEffect(n: Net, x: End, cmd: Cmd, o: byte, sup: Support)
    ensures var n', p := Next(n, Request(x, cmd, o), sup), n.Of(x)[o];
            && n'.Of(x) == n.Of(x)[o := Asked(p, cmd)]
            && n'.Of(x.Peer()) == n.Of(x.Peer())
            && n'.SentBy(x) == n.SentBy(x) + Messages(Ask(p, cmd).reply, o)
            && n'.SentBy(x.Peer()) == n.SentBy(x.Peer())
  {
  }

  lemma RequestOnLink(n: Net, x: End, cmd: Cmd, o: byte, sup: Support, e: End, opt: byte)
    ensures var l, l' := LinkOf(n, e, opt), LinkOf(Next(n, Request(x, cmd, o), sup), e, opt);
            l' == if o != opt || FromPerformer(cmd) != (x == e) then l
                  else if FromPerformer(cmd) then AskPerformer(l, cmd) else AskRequester(l, cmd)
  {
    RequestEffect(n, x, cmd, o, sup);
    SelectReply(n.SentBy(x), Ask(n.Of(x)[o], cmd).reply, o, opt, x == e);
    assert x == e || x == e.Peer();
  }

  /** A delivery field by field: the head is consumed, one option of the receiver moves, the reply is queued. */
  lemma DeliverEffect(n: Net, x: End, sup: Support)
    requires n.SentBy(x.Peer()) != []
    ensures var ch, n' := n.SentBy(x.Peer()), Next(n, Deliver(x), sup);
            var m := ch[0];
            var s, p := sup(x, m.opt, !FromPerformer(m.cmd)), n.Of(x)[m.opt];
            && n'.Of(x) == n.Of(x)[m.opt := Received(p, m.cmd, s)]
            && n'.Of(x.Peer()) == n.Of(x.Peer())
            && n'.SentBy(x) == n.SentBy(x) + Messages(React(p, m.cmd, s).reply, m.opt)
            && n'.SentBy(x.Peer()) == ch[1..]
  {
  }

  lemma ReplyIsForTheOther(p: Pair, cmd: Cmd, s: bool)
    ensures |React(p, cmd, s).reply| <= 1
    ensures React(p, cmd, s).reply != [] ==> FromPerformer(React(p, cmd, s).reply[0]) != FromPerformer(cmd)
  {
  }

  /** What both channels hold of a link after a delivery to `x`. */
  lemma DeliverChannels(n: Net, x: End, sup: Support, opt: byte, performer: bool)
    requires n.SentBy(x.Peer()) != []
    ensures var ch, n' := n.SentBy(x.Peer()), Next(n, Deliver(x), sup);
            var m := ch[0];
            var here := m.opt == opt && FromPerformer(m.cmd) != performer;
            var reply := React(n.Of(x)[m.opt], m.cmd, sup(x, m.opt, !FromPerformer(m.cmd))).reply;
            var out, out' := Select(n.SentBy(x), opt, performer), Select(n'.SentBy(x), opt, performer);
            var due, due' := Select(ch, opt, !performer), Select(n'.SentBy(x.Peer()), opt, !performer);
            if here then out' == out + reply && due != [] && due[0] == m.cmd && due[1..] == due'
            else out' == out && due' == due
  {
    var ch := n.SentBy(x.Peer());
    var m := ch[0];
    var s, p := sup(x, m.opt, !FromPerformer(m.cmd)), n.Of(x)[m.opt];
    DeliverEffect(n, x, sup);
    ReplyIsForTheOther(p, m.cmd, s);
    SelectReply(n.SentBy(x), React(p, m.cmd, s).reply, m.opt, opt, performer);
    SelectHead(ch, opt, !performer);
  }

  lemma DeliverOnLink(n: Net, x: End, sup: Support, e: End, opt: byte)
    requires n.SentBy(x.Peer()) != []
    ensures var m := n.SentBy(x.Peer())[0];
            var s := sup(x, m.opt, !FromPerformer(m.cmd));
            var l, l' := LinkOf(n, e, opt), LinkOf(Next(n, Deliver(x), sup), e, opt);
            if m.opt != opt || FromPerformer(m.cmd) == (x == e) then l' == l
            else if x == e then l.back != [] && l.back[0] == m.cmd && l' == ToPerformer(l, s)
            else l.fwd != [] && l.fwd[0] == m.cmd && l' == ToRequester(l, s)
  {
    DeliverEffect(n, x, sup);
    DeliverChannels(n, x, sup, opt, x == e);
    var l, l' := LinkOf(n, e, opt), LinkOf(Next(n, Deliver(x), sup), e, opt);
    if x == e {
      assert l.fwd == Select(n.SentBy(x), opt, true) && l.back == Select(n.SentBy(x.Peer()), opt, false);
    } else {
      assert x.Peer() == e && e.Peer() == x;
      assert l.back == Select(n.SentBy(x), opt, false) && l.fwd == Select(n.SentBy(x.Peer()), opt, true);
    }
  }

  lemma SelectHead(ch: seq<Msg>, opt: byte, performer: bool)
    requires ch != []
    ensures Select(ch, opt, performer) ==
            if Concerns(ch[0], opt, performer) then [ch[0].cmd] + Select(ch[1..], opt, performer)
            else Select(ch[1..], opt, performer)
  {
  }

  /** A step moves exactly one link, as the link semantics says, and leaves every other as it was. */
  lemma StepOnLink(n: Net, step: Step, sup: Support, e: End, opt: byte)
    requires step.Deliver? ==> n.SentBy(step.at.Peer()) != []
    ensures var l, l' := LinkOf(n, e, opt), LinkOf(Next(n, step, sup), e, opt);
            if (e, opt) == Touched(n, step) then Moves(n, step, sup, l, l') else l' == l
  {
    match step
    case Request(x, cmd, o) => RequestOnLink(n, x, cmd, o, sup, e, opt);
    case Deliver(x) => DeliverOnLink(n, x, sup, e, opt);
  }

  // ----- whole runs

  ghost predicate AllLinked(n: Net) {
    forall e: End, opt: byte :: Linked(LinkOf(n, e, opt))
  }

  lemma SafeStep(n: Net, step: Step, sup: Support)
    requires AllLinked(n) && !Risky(n, step)
    ensures AllLinked(Next(n, step, sup)) && !Violates(n, step, sup)
  {
    if step.Deliver? && n.SentBy(step.at.Peer()) == [] {
      return;
    }
    var t := Touched(n, step);
    LinkedStep(n, step, sup);
    forall e: End, opt: byte ensures Linked(LinkOf(Next(n, step, sup), e, opt)) {
      StepOnLink(n, step, sup, e, opt);
    }
  }

  /** What one safe step does to the link it touches. */
  lemma LinkedStep(n: Net, step: Step, sup: Support)
    requires AllLinked(n) && !Risky(n, step)
    requires step.Deliver? ==> n.SentBy(step.at.Peer()) != []
    ensures var t := Touched(n, step);
            var l, l' := LinkOf(n, t.0, t.1), LinkOf(Next(n, step, sup), t.0, t.1);
            && Linked(l') && Weight(l') <= Weight(l) + (if step.Request? then 2 else -1)
            && !Violates(n, step, sup)
  {
    var t := Touched(n, step);
    var l := LinkOf(n, t.0, t.1);
    assert Linked(l);
    StepOnLink(n, step, sup, t.0, t.1);
    match step
    case Request(e, cmd, opt) =>
      LinkedKeptByRequest(l, cmd);
    case Deliver(e) =>
      var m := n.SentBy(e.Peer())[0];
      LinkedKeptByDelivery(l, sup(e, m.opt, !FromPerformer(m.cmd)));
  }

  lemma QuietMeansAgreement(n: Net, e: End, opt: byte)
    requires AllLinked(n) && Quiet(n)
    ensures Agree(n, e, opt)
  {
    assert Linked(LinkOf(n, e, opt));
  }

  /**
   Safety over whole runs: from the start, however deliveries and requests interleave, as long as
   no end asks for DO while its view of the peer is WANTNO, no protocol-error branch is reached
   and a quiet line means that both ends agree about every option in both directions.
   */
  lemma SafeOnMaps(steps: seq<Step>, sup: Support)
    requires NeverRisky(START, steps, sup)
    ensures NeverViolates(START, steps, sup)
    ensures var n := Run(START, steps, sup);
            Quiet(n) ==> forall e: End, opt: byte :: Agree(n, e, opt)
  {
    SafeRun(START, steps, sup);
    var n := Run(START, steps, sup);
    if Quiet(n) {
      forall e: End, opt: byte ensures Agree(n, e, opt) {
        QuietMeansAgreement(n, e, opt);
      }
    }
  }

  lemma {:induction false} SafeRun(n: Net, steps: seq<Step>, sup: Support)
    requires AllLinked(n) && NeverRisky(n, steps, sup)
    ensures AllLinked(Run(n, steps, sup)) && NeverViolates(n, steps, sup)
    decreases |steps|
  {
    if steps != [] {
      SafeStep(n, steps[0], sup);
      SafeRun(Next(n, steps[0], sup), steps[1..], sup);
    }
  }

  // ----- the traffic is bounded

  function Deliveries(n: Net, steps: seq<Step>, sup: Support): nat
    decreases |steps|
  {
    if steps == [] then 0
    else (if steps[0].Deliver? && n.SentBy(steps[0].at.Peer()) != [] then 1 else 0)
         + Deliveries(Next(n, steps[0], sup), steps[1..], sup)
  }

  function Requests(steps: seq<Step>): nat {
    if steps == [] then 0 else (if steps[0].Request? then 1 else 0) + Requests(steps[1..])
  }

  /** Links are numbered 0..511: A's 256 options, then B's. */
  function Index(e: End, opt: byte): nat { if e.A? then opt else 256 + opt }

  function LinkAt(n: Net, k: nat): Link
    requires k < 512
  {
    if k < 256 then LinkOf(n, A, k) else LinkOf(n, B, k - 256)
  }

  function Weights(n: Net): seq<int> {
    seq(512, k requires 0 <= k < 512 => Weight(LinkAt(n, k)))
  }

  function Sum(ws: seq<int>): int {
    if ws == [] then 0 else ws[0] + Sum(ws[1..])
  }

  lemma {:induction false} SumUpdate(ws: seq<int>, k: nat, w: int)
    requires k < |ws|
    ensures Sum(ws[k := w]) == Sum(ws) - ws[k] + w
  {
    if k == 0 {
      assert ws[k := w][1..] == ws[1..];
    } else {
      assert ws[k := w][1..] == ws[1..][k - 1 := w];
      SumUpdate(ws[1..], k - 1, w);
    }
  }

  lemma {:induction false} SumNonNegative(ws: seq<int>)
    requires forall k :: 0 <= k < |ws| ==> ws[k] >= 0
    ensures Sum(ws) >= 0
  {
    if ws != [] {
      SumNonNegative(ws[1..]);
    }
  }

  lemma LinkAtIndex(n: Net, e: End, opt: byte)
    ensures LinkAt(n, Index(e, opt)) == LinkOf(n, e, opt)
  {
  }

  lemma OtherLink(n: Net, step: Step, sup: Support, j: nat)
    requires step.Deliver? ==> n.SentBy(step.at.Peer()) != []
    requires j < 512 && j != Index(Touched(n, step).0, Touched(n, step).1)
    ensures LinkAt(Next(n, step, sup), j) == LinkAt(n, j)
  {
    var e: End, opt: byte := if j < 256 then A else B, if j < 256 then j else j - 256;
    assert j == Index(e, opt);
    LinkAtIndex(n, e, opt);
    LinkAtIndex(Next(n, step, sup), e, opt);
    StepOnLink(n, step, sup, e, opt);
  }

  /** The total changes by what the touched link changes. */
  lemma WeightStep(n: Net, step: Step, sup: Support)
    requires step.Deliver? ==> n.SentBy(step.at.Peer()) != []
    ensures var t, n' := Touched(n, step), Next(n, step, sup);
            Sum(Weights(n')) - Sum(Weights(n)) == Weight(LinkOf(n', t.0, t.1)) - Weight(LinkOf(n, t.0, t.1))
  {
    WeightMoves(n, Next(n, step, sup), step, sup, Touched(n, step).0, Touched(n, step).1);
  }

  lemma WeightMoves(n: Net, n': Net, step: Step, sup: Support, e: End, opt: byte)
    requires step.Deliver? ==> n.SentBy(step.at.Peer()) != []
    requires n' == Next(n, step, sup) && (e, opt) == Touched(n, step)
    ensures Sum(Weights(n')) - Sum(Weights(n)) == Weight(LinkOf(n', e, opt)) - Weight(LinkOf(n, e, opt))
  {
    forall j | 0 <= j < 512 && j != Index(e, opt) ensures LinkAt(n', j) == LinkAt(n, j) {
      OtherLink(n, step, sup, j);
    }
    WeightsUpdate(n, n', Index(e, opt));
    LinkAtIndex(n, e, opt);
    LinkAtIndex(n', e, opt);
  }

  lemma WeightsUpdate(n: Net, n': Net, k: nat)
    requires k < 512 && forall j :: 0 <= j < 512 && j != k ==> LinkAt(n', j) == LinkAt(n, j)
    ensures Sum(Weights(n')) - Sum(Weights(n)) == Weight(LinkAt(n', k)) - Weight(LinkAt(n, k))
  {
    var w' := Weight(LinkAt(n', k));
    SumUpdate(Weights(n), k, w');
    assert Weights(n') == Weights(n)[k := w'];
  }

  lemma {:induction false} TrafficFrom(n: Net, steps: seq<Step>, sup: Support)
    requires AllLinked(n) && NeverRisky(n, steps, sup)
    ensures Deliveries(n, steps, sup) <= Sum(Weights(n)) + 2 * Requests(steps)
    decreases |steps|
  {
    if steps == [] {
      forall k | 0 <= k < 512 ensures Weights(n)[k] >= 0 {
        LinkedKeptByDelivery(LinkAt(n, k), true);
      }
      SumNonNegative(Weights(n));
    } else {
      SafeStep(n, steps[0], sup);
      TrafficFrom(Next(n, steps[0], sup), steps[1..], sup);
      if steps[0].Request? || n.SentBy(steps[0].at.Peer()) != [] {
        LinkedStep(n, steps[0], sup);
        WeightStep(n, steps[0], sup);
      }
    }
  }

  lemma {:induction false} SumZero(ws: seq<int>)
    requires forall k :: 0 <= k < |ws| ==> ws[k] == 0
    ensures Sum(ws) == 0
  {
    if ws != [] {
      SumZero(ws[1..]);
    }
  }

  /**
   Negotiation cannot loop: over any run without a risky request, at most two messages are ever
   processed per application request, over all options and both directions together.
   */
  lemma TrafficOnMaps(steps: seq<Step>, sup: Support)
    requires NeverRisky(START, steps, sup)
    ensures Deliveries(START, steps, sup) <= 2 * Requests(steps)
  {
    TrafficFrom(START, steps, sup);
    SumZero(Weights(START));
  }

  // ----- the restriction is exact

  /** No request concerns what end `e` does about the option, on either side. */
  predicate Unasked(steps: seq<Step>, e: End, opt: byte) {
    forall i :: 0 <= i < |steps| && steps[i].Request? && steps[i].opt == opt ==>
                  FromPerformer(steps[i].cmd) != (steps[i].from == e)
  }

  /** A link nobody makes requests on is moved by its own deliveries only. */
  lemma LeftAlone(n: Net, step: Step, sup: Support, e: End, opt: byte)
    requires Unasked([step], e, opt)
    ensures var l, l' := LinkOf(n, e, opt), LinkOf(Next(n, step, sup), e, opt);
            (Linked(l) ==> Linked(l')) && (Doomed(l) ==> Doomed(l'))
  {
    assert [step][0] == step;
    match step
    case Request(x, cmd, o) =>
      RequestOnLink(n, x, cmd, o, sup, e, opt);
    case Deliver(x) =>
      var ch := n.SentBy(x.Peer());
      if ch != [] {
        DeliverOnLink(n, x, sup, e, opt);
        LinkMoves(LinkOf(n, e, opt), sup(x, ch[0].opt, !FromPerformer(ch[0].cmd)));
      }
  }

  lemma LinkMoves(l: Link, s: bool)
    ensures l.fwd != [] && Linked(l) ==> FromPerformer(l.fwd[0]) && Linked(ToRequester(l, s))
    ensures l.fwd != [] && Doomed(l) ==> FromPerformer(l.fwd[0]) && Doomed(ToRequester(l, s))
    ensures l.back != [] && Linked(l) ==> !FromPerformer(l.back[0]) && Linked(ToPerformer(l, s))
    ensures l.back != [] && Doomed(l) ==> !FromPerformer(l.back[0]) && Doomed(ToPerformer(l, s))
  {
    if Linked(l) {
      LinkedKeptByDelivery(l, s);
    }
    if Doomed(l) {
      DoomedKept(l, s);
    }
  }

  lemma {:induction false} LeftAloneRun(n: Net, steps: seq<Step>, sup: Support, e: End, opt: byte)
    requires Unasked(steps, e, opt)
    ensures var l, l' := LinkOf(n, e, opt), LinkOf(Run(n, steps, sup), e, opt);
            (Linked(l) ==> Linked(l')) && (Doomed(l) ==> Doomed(l'))
    decreases |steps|
  {
    if steps != [] {
      LeftAlone(n, steps[0], sup, e, opt);
      LeftAloneRun(Next(n, steps[0], sup), steps[1..], sup, e, opt);
    }
  }

  predicate DeliveriesOnly(steps: seq<Step>) {
    forall i :: 0 <= i < |steps| ==> steps[i].Deliver?
  }

  predicate Settling(l: Link) { Linked(l) || Doomed(l) }

  ghost predicate AllSettling(n: Net) { forall e: End, opt: byte :: Settling(LinkOf(n, e, opt)) }

  lemma SettlingMoves(l: Link, s: bool)
    requires Settling(l)
    ensures Weight(l) >= 0
    ensures l.fwd != [] ==>
              FromPerformer(l.fwd[0]) && Settling(ToRequester(l, s)) && Weight(ToRequester(l, s)) < Weight(l)
    ensures l.back != [] ==>
              !FromPerformer(l.back[0]) && Settling(ToPerformer(l, s)) && Weight(ToPerformer(l, s)) < Weight(l)
  {
    if Linked(l) {
      LinkedKeptByDelivery(l, s);
    } else {
      DoomedKept(l, s);
    }
  }

  /** What a delivery does to the link it touches, when every link is settling. */
  lemma SettlingTouched(n: Net, x: End, sup: Support)
    requires AllSettling(n) && n.SentBy(x.Peer()) != []
    ensures var t, n' := Touched(n, Deliver(x)), Next(n, Deliver(x), sup);
            Settling(LinkOf(n', t.0, t.1)) && Weight(LinkOf(n', t.0, t.1)) < Weight(LinkOf(n, t.0, t.1))
  {
    var m, t := n.SentBy(x.Peer())[0], Touched(n, Deliver(x));
    StepOnLink(n, Deliver(x), sup, t.0, t.1);
    SettlingMoves(LinkOf(n, t.0, t.1), sup(x, m.opt, !FromPerformer(m.cmd)));
  }

  lemma SettlingStep(n: Net, x: End, sup: Support)
    requires AllSettling(n) && n.SentBy(x.Peer()) != []
    ensures AllSettling(Next(n, Deliver(x), sup))
    ensures Sum(Weights(Next(n, Deliver(x), sup))) < Sum(Weights(n))
  {
    SettlingTouched(n, x, sup);
    WeightStep(n, Deliver(x), sup);
    forall e: End, opt: byte ensures Settling(LinkOf(Next(n, Deliver(x), sup), e, opt)) {
      StepOnLink(n, Deliver(x), sup, e, opt);
    }
  }

  lemma SettlingWeighs(n: Net)
    requires AllSettling(n)
    ensures Sum(Weights(n)) >= 0
  {
    forall k | 0 <= k < 512 ensures Weights(n)[k] >= 0 {
      SettlingMoves(LinkAt(n, k), true);
    }
    SumNonNegative(Weights(n));
  }

  lemma RunCons(n: Net, x: End, rest: seq<Step>, sup: Support)
    ensures Run(n, [Deliver(x)] + rest, sup) == Run(Next(n, Deliver(x), sup), rest, sup)
    ensures DeliveriesOnly(rest) ==> DeliveriesOnly([Deliver(x)] + rest)
  {
    assert ([Deliver(x)] + rest)[1..] == rest;
  }

  /** Delivering whatever is under way ends, in a quiet line. */
  lemma {:induction false} Drain(n: Net, sup: Support) returns (steps: seq<Step>)
    requires AllSettling(n)
    ensures DeliveriesOnly(steps) && Quiet(Run(n, steps, sup))
    decreases Sum(Weights(n))
  {
    if Quiet(n) {
      steps := [];
    } else {
      var x := if n.ab != [] then B else A;
      SettlingStep(n, x, sup);
      SettlingWeighs(Next(n, Deliver(x), sup));
      var rest := Drain(Next(n, Deliver(x), sup), sup);
      steps := [Deliver(x)] + rest;
      RunCons(n, x, rest, sup);
    }
  }

  /** A quiet link is in agreement or in disagreement, as its past says. */
  lemma QuietLink(n: Net, e: End, opt: byte)
    requires Quiet(n)
    ensures Linked(LinkOf(n, e, opt)) ==> Agree(n, e, opt)
    ensures Doomed(LinkOf(n, e, opt)) ==> !Agree(n, e, opt)
  {
    if Doomed(LinkOf(n, e, opt)) {
      DoomedKept(LinkOf(n, e, opt), true);
    }
  }

  /** What a DO request makes of a link that was in order. */
  lemma DoRequest(n: Net, e: End, opt: byte, sup: Support)
    requires AllLinked(n)
    ensures var n', safe := Next(n, Request(e, Do, opt), sup), n.Of(e)[opt].him != WantNo;
            && AllSettling(n') && (safe ==> Linked(LinkOf(n', e.Peer(), opt)))
            && (!safe ==> Doomed(LinkOf(n', e.Peer(), opt)))
  {
    var step, n' := Request(e, Do, opt), Next(n, Request(e, Do, opt), sup);
    assert Linked(LinkOf(n, e.Peer(), opt));
    LinkedKeptByRequest(LinkOf(n, e.Peer(), opt), Do);
    StepOnLink(n, step, sup, e.Peer(), opt);
    forall x: End, o: byte ensures Settling(LinkOf(n', x, o)) {
      assert Linked(LinkOf(n, x, o));
      StepOnLink(n, step, sup, x, o);
    }
  }
}
