/**
 Option negotiation as bytes on the wire (RFC 854, RFC 855): what one tracker sends is what the other is
 given, which byte is which command, and what the table of supported options says.
 */
module CommandBytes {
  import opened Bytes
  import opened QMethod
  import opened Telnet
  import opened TelnetWire
  import A = Answers
  import E = Endpoints
  import N = Negotiation
  import Seqs

  /** The byte for a command. */
  function Code(cmd: Cmd): byte {
    match cmd
    case Will => 251
    case Wont => 252
    case Do => 253
    case Dont => 254
  }

  /** Messages as bytes. */
  function Spelled(ms: seq<N.Msg>): seq<byte> {
    if ms == [] then [] else [255, Code(ms[0].cmd), ms[0].opt] + Spelled(ms[1..])
  }

  lemma FoldThree(f: (St, byte) -> (St, seq<Event>), st: St, a: byte, b: byte, c: byte)
    ensures var x := f(st, a);
            var y := f(x.0, b);
            var z := f(y.0, c);
            FoldWith(f, st, [a, b, c]) == (z.0, x.1 + y.1 + z.1)
  {
    FoldWithOne(f, st, a);
    assert [a, b][..1] == [a] && [a, b, c][..2] == [a, b];
    assert FoldWith(f, st, [a, b]) == (f(f(st, a).0, b).0, f(st, a).1 + f(f(st, a).0, b).1);
  }

  /** Three bytes in state DATA are a command, and nothing else. */
  lemma CommandRead(cfg: Config, st: St, cmd: Cmd, opt: byte)
    requires st.state.InData?
    ensures Fold(cfg, st, [255, Code(cmd), opt]) ==
              (st.(q := NegotiationTable(cfg, st.q, cmd, opt)), NegotiationEvents(cfg, st.q, cmd, opt))
  {
    FoldThree((x: St, b: byte) => Step(cfg, x, b), st, 255, Code(cmd), opt);
    assert [] + [] + NegotiationEvents(cfg, st.q, cmd, opt) == NegotiationEvents(cfg, st.q, cmd, opt);
  }

  /** A proxy is told of every command, and keeps and answers nothing. */
  lemma ProxyRead(cfg: Config, st: St, cmd: Cmd, opt: byte)
    requires st.state.InData? && cfg.proxy
    ensures Fold(cfg, st, [255, Code(cmd), opt]) == (st, [Negotiate(cmd, opt)])
  {
    CommandRead(cfg, st, cmd, opt);
  }

  lemma {:induction false} WireAppend(a: seq<Event>, b: seq<Event>)
    ensures Wire(a + b) == Wire(a) + Wire(b)
    decreases |b|
  {
    if b == [] {
      assert a + b == a && Wire(a) + [] == Wire(a);
    } else {
      var n := |b| - 1;
      WireAppend(a, b[..n]);
      assert (a + b)[..|a + b| - 1] == a + b[..n];
      Seqs.Assoc(Wire(a), Wire(b[..n]), if b[n].Send? then b[n].bytes else []);
    }
  }

  lemma WireOne(evs: seq<Event>)
    requires |evs| <= 1
    ensures Wire(evs) == if evs != [] && evs[0].Send? then evs[0].bytes else []
  {
    if evs != [] {
      assert evs[..0] == [];
    }
  }

  lemma OnlyFirst(a: seq<Event>, b: seq<Event>, c: seq<Event>)
    requires |b| <= 1 && |c| <= 1 && (b != [] ==> !b[0].Send?) && (c != [] ==> !c[0].Send?)
    ensures Wire(a + b + c) == Wire(a)
  {
    WireAppend(a + b, c);
    WireAppend(a, b);
    WireOne(b);
    WireOne(c);
  }

  lemma OnlyRepliesAreSent(o: Outcome, opt: byte)
    ensures Wire(OutcomeEvents(o, opt)) == if o.reply == [] then [] else [255, CmdByte(o.reply[0]), opt]
  {
    var reply := if o.reply == [] then [] else [Send([IAC, CmdByte(o.reply[0]), opt])];
    OnlyFirst(reply, if o.notify == [] then [] else [Negotiate(o.notify[0], opt)],
              if o.violation then [Warning(UnexpectedAnswer)] else []);
    WireOne(reply);
  }

  lemma SpelledOne(cmds: seq<Cmd>, opt: byte)
    requires |cmds| <= 1
    ensures Spelled(N.Messages(cmds, opt)) == if cmds == [] then [] else [255, Code(cmds[0]), opt]
  {
    var ms := N.Messages(cmds, opt);
    if cmds != [] {
      assert ms == [N.Msg(cmds[0], opt)] && ms[1..] == [] && Spelled([]) == [];
    }
  }

  lemma SameCodes(cmd: Cmd)
    ensures CmdByte(cmd) == Code(cmd)
  {
  }

  lemma SentIs(o: Outcome, opt: byte)
    requires |o.reply| <= 1
    ensures Wire(OutcomeEvents(o, opt)) == Spelled(N.Messages(o.reply, opt))
  {
    OnlyRepliesAreSent(o, opt);
    SpelledOne(o.reply, opt);
    if o.reply != [] {
      SameCodes(o.reply[0]);
    }
  }

  lemma RepliesOnce(p: Pair, cmd: Cmd, s: bool)
    ensures |React(p, cmd, s).reply| <= 1 && |Ask(p, cmd).reply| <= 1
  {
  }

  /** What goes on the wire, by atoms. */
  function WireOf(log: seq<Atom>): seq<byte> {
    if log == [] then []
    else
      var x := log[|log| - 1];
      WireOf(log[..|log| - 1]) + if x.Whole? && x.e.Send? then x.e.bytes else []
  }

  lemma {:induction false} OctetsAreSilent(log: seq<Atom>, s: seq<byte>)
    ensures WireOf(log + Octets(s)) == WireOf(log)
    decreases |s|
  {
    if s == [] {
      assert log + Octets(s) == log;
    } else {
      var n := |s| - 1;
      assert (log + Octets(s))[..|log| + n] == log + Octets(s[..n]);
      OctetsAreSilent(log, s[..n]);
      Seqs.Unit(WireOf(log));
    }
  }

  lemma {:induction false} WireByAtoms(evs: seq<Event>)
    ensures Wire(evs) == WireOf(Expand(evs))
  {
    if evs != [] {
      var front, e := evs[..|evs| - 1], evs[|evs| - 1];
      WireByAtoms(front);
      if e.Data? {
        OctetsAreSilent(Expand(front), e.bytes);
        Seqs.Unit(Wire(front));
      } else {
        assert (Expand(front) + [Whole(e)])[..|Expand(front)|] == Expand(front);
      }
    }
  }

  /** `_check_telopt`: the first entry for the option decides, by WILL for one's own and DO for the other end. */
  lemma {:induction false} SupportsIff(telopts: seq<Telopt>, opt: byte, us: bool)
    ensures Supports(telopts, opt, us) <==>
            exists i :: 0 <= i < |telopts| && telopts[i].telopt == opt
                        && (forall j :: 0 <= j < i ==> telopts[j].telopt != opt)
                        && (if us then telopts[i].us == 251 else telopts[i].him == 253)
  {
    if telopts != [] && telopts[0].telopt != opt {
      SupportsIff(telopts[1..], opt, us);
      if Supports(telopts[1..], opt, us) {
        var i :| 0 <= i < |telopts[1..]| && telopts[1..][i].telopt == opt
                 && (forall j :: 0 <= j < i ==> telopts[1..][j].telopt != opt)
                 && (if us then telopts[1..][i].us == 251 else telopts[1..][i].him == 253);
        assert telopts[i + 1] == telopts[1..][i];
        assert forall j :: 0 < j < i + 1 ==> telopts[j] == telopts[1..][j - 1];
      }
      if i :| 0 <= i < |telopts| && telopts[i].telopt == opt
              && (forall j :: 0 <= j < i ==> telopts[j].telopt != opt)
              && (if us then telopts[i].us == 251 else telopts[i].him == 253) {
        assert telopts[1..][i - 1] == telopts[i];
        assert forall j :: 0 <= j < i - 1 ==> telopts[1..][j] == telopts[j + 1];
      }
    }
  }

  // ----- trackers

  /** What a tracker does with a command: how it reacts, and with what support. */
  function Reaction(cfg: Config, q: Table, m: N.Msg): Outcome {
    React(Get(q, m.opt), m.cmd, Supports(cfg.telopts, m.opt, !FromPerformer(m.cmd)))
  }

  lemma CommandHandled(was: seq<Event>, now: seq<Event>, cfg: Config, q: Table, m: N.Msg)
    requires !cfg.proxy && Expand(now) == Expand(was + NegotiationEvents(cfg, q, m.cmd, m.opt))
    ensures Expand(now) == Expand(was) + Expand(OutcomeEvents(Reaction(cfg, q, m), m.opt))
    ensures Wire(now) == Wire(was) + Spelled(N.Messages(Reaction(cfg, q, m).reply, m.opt))
  {
    var evs := OutcomeEvents(Reaction(cfg, q, m), m.opt);
    ExpandAppend(was, evs);
    WireByAtoms(was + evs);
    WireByAtoms(now);
    WireAppend(was, evs);
    RepliesOnce(Get(q, m.opt), m.cmd, Supports(cfg.telopts, m.opt, !FromPerformer(m.cmd)));
    SentIs(Reaction(cfg, q, m), m.opt);
  }

  lemma Behind(a: seq<byte>, b: seq<byte>)
    ensures (a + b)[|a|..] == b
  {
  }

  /** A command arrives at a tracker, its bytes cut in any way; `out` is what it sends back. */
  method Give(t: Tracker, m: N.Msg, cut: seq<byte> -> seq<seq<byte>>) returns (out: seq<byte>)
    requires t.Valid() && t.state.InData? && !t.cfg.proxy
    requires forall s :: Flatten(cut(s)) == s
    modifies t, t.buffer
    ensures t.Valid() && t.state.InData? && (t.buffer == old(t.buffer) || fresh(t.buffer))
    ensures t.Options() ==
              ReceiveOnTable(old(t.Options()), m.opt, m.cmd, Supports(t.cfg.telopts, m.opt, !FromPerformer(m.cmd)))
    ensures t.Log() == old(t.Log()) + Expand(OutcomeEvents(Reaction(t.cfg, old(t.Options()), m), m.opt))
    ensures out == Spelled(N.Messages(Reaction(t.cfg, old(t.Options()), m).reply, m.opt))
    ensures t.Sent() == old(t.Sent()) + out
  {
    ghost var was, q := t.events, t.Options();
    var sent := Wire(t.events);
    CommandRead(t.cfg, t.Abs(), m.cmd, m.opt);
    t.RecvAll(cut([255, Code(m.cmd), m.opt]));
    CommandHandled(was, t.events, t.cfg, q, m);
    Behind(sent, Spelled(N.Messages(Reaction(t.cfg, q, m).reply, m.opt)));
    out := Wire(t.events)[|sent|..];
  }

  /** An application's request makes the tracker send the bytes of its message, if there is one. */
  method Take(t: Tracker, cmd: Cmd, opt: byte) returns (out: seq<byte>)
    requires t.Valid() && !t.cfg.proxy
    modifies t`q, t`qSize, t`events
    ensures t.Valid() && t.Options() == AskOnTable(old(t.Options()), opt, cmd)
    ensures out == Spelled(N.Messages(Ask(Get(old(t.Options()), opt), cmd).reply, opt))
    ensures t.Sent() == old(t.Sent()) + out
  {
    ghost var o := Ask(Get(t.Options(), opt), cmd);
    var sent := Wire(t.events);
    RepliesOnce(Get(t.Options(), opt), cmd, false);
    WireAppend(t.events, OutcomeEvents(o, opt));
    SentIs(o, opt);
    Behind(sent, Spelled(N.Messages(o.reply, opt)));
    t.Request(cmd, opt);
    out := Wire(t.events)[|sent|..];
  }

  // ----- two trackers joined by two streams of bytes

  lemma {:induction false} SpelledAppend(ms: seq<N.Msg>, more: seq<N.Msg>)
    ensures Spelled(ms + more) == Spelled(ms) + Spelled(more)
  {
    if ms == [] {
      assert ms + more == more;
    } else {
      assert (ms + more)[1..] == ms[1..] + more;
      SpelledAppend(ms[1..], more);
      Seqs.Assoc([255, Code(ms[0].cmd), ms[0].opt], Spelled(ms[1..]), Spelled(more));
    }
  }

  /** The command that a byte stands for. */
  function Named(code: byte): Cmd
    requires 251 <= code <= 254
  {
    if code == 251 then Will else if code == 252 then Wont else if code == 253 then Do else Dont
  }

  lemma FirstSpelled(ms: seq<N.Msg>)
    ensures ms == [] <==> Spelled(ms) == []
    ensures ms != [] ==>
              && |Spelled(ms)| >= 3 && Spelled(ms)[1] >= 251 && Spelled(ms)[1] != 255
              && N.Msg(Named(Spelled(ms)[1]), Spelled(ms)[2]) == ms[0] && Spelled(ms)[3..] == Spelled(ms[1..])
  {
    if ms != [] {
      Behind([255, Code(ms[0].cmd), ms[0].opt], Spelled(ms[1..]));
    }
  }

  /** What the two ends support. */
  function SupportOf(a: Config, b: Config): N.Support {
    (e: N.End, opt: byte, us: bool) => Supports(if e.A? then a.telopts else b.telopts, opt, us)
  }

  /** The trackers and the bytes under way stand for a state of the two endpoints. */
  ghost predicate Stands(a: Tracker, b: Tracker, ab: seq<byte>, ba: seq<byte>, w: E.Wire)
    reads a, b
  {
    && a != b && a.buffer != b.buffer && !a.cfg.proxy && !b.cfg.proxy
    && a.Valid() && b.Valid() && a.state.InData? && b.state.InData?
    && a.Options() == w.a && b.Options() == w.b && ab == Spelled(w.ab) && ba == Spelled(w.ba)
  }

  /** A request by one of the trackers. */
  method PlayRequest(a: Tracker, b: Tracker, ab: seq<byte>, ba: seq<byte>, step: N.Step, ghost w: E.Wire)
    returns (ab': seq<byte>, ba': seq<byte>)
    requires Stands(a, b, ab, ba, w) && step.Request?
    modifies a`q, a`qSize, a`events, b`q, b`qSize, b`events
    ensures Stands(a, b, ab', ba', E.Next(w, step, SupportOf(a.cfg, b.cfg)))
  {
    ab', ba' := ab, ba;
    ghost var ms := N.Messages(Ask(Get(w.Of(step.from), step.opt), step.cmd).reply, step.opt);
    SpelledAppend(w.SentBy(step.from), ms);
    if step.from.A? {
      var out := Take(a, step.cmd, step.opt);
      ab' := ab + out;
    } else {
      var out := Take(b, step.cmd, step.opt);
      ba' := ba + out;
    }
  }

  /** The next command under way to one of the trackers is handed to it, cut in any way. */
  method PlayDelivery(a: Tracker, b: Tracker, ab: seq<byte>, ba: seq<byte>, step: N.Step,
                      cut: seq<byte> -> seq<seq<byte>>, ghost w: E.Wire)
    returns (ab': seq<byte>, ba': seq<byte>)
    requires Stands(a, b, ab, ba, w) && step.Deliver?
    requires forall s :: Flatten(cut(s)) == s
    modifies a, b, a.buffer, b.buffer
    ensures Stands(a, b, ab', ba', E.Next(w, step, SupportOf(a.cfg, b.cfg)))
    ensures a.buffer == old(a.buffer) || fresh(a.buffer)
    ensures b.buffer == old(b.buffer) || fresh(b.buffer)
  {
    ab', ba' := ab, ba;
    ghost var ch := w.SentBy(step.at.Peer());
    FirstSpelled(ch);
    if step.at.A? && ba != [] {
      SpelledAppend(w.ab, N.Messages(Reaction(a.cfg, w.a, ch[0]).reply, ch[0].opt));
      var out := Give(a, N.Msg(Named(ba[1]), ba[2]), cut);
      ab', ba' := ab + out, ba[3..];
    } else if step.at.B? && ab != [] {
      SpelledAppend(w.ba, N.Messages(Reaction(b.cfg, w.b, ch[0]).reply, ch[0].opt));
      var out := Give(b, N.Msg(Named(ab[1]), ab[2]), cut);
      ab', ba' := ab[3..], ba + out;
    }
  }

  /**
   Two trackers whose streams are joined, with any requests and deliveries: their option tables are those of
   the two endpoints of module Endpoints after the same steps, and the bytes under way are its messages. What
   is proved about runs there is true of the trackers.
   */
  method Play(a: Tracker, b: Tracker, steps: seq<N.Step>, cut: seq<byte> -> seq<seq<byte>>)
    returns (ab: seq<byte>, ba: seq<byte>)
    requires Stands(a, b, [], [], E.START)
    requires forall s :: Flatten(cut(s)) == s
    modifies a, b, a.buffer, b.buffer
    ensures Stands(a, b, ab, ba, E.Run(E.START, steps, SupportOf(a.cfg, b.cfg)))
  {
    ab, ba := [], [];
    ghost var w, sup := E.START, SupportOf(a.cfg, b.cfg);
    for i := 0 to |steps|
      invariant Stands(a, b, ab, ba, w)
      invariant E.Run(w, steps[i..], sup) == E.Run(E.START, steps, sup)
      invariant a.buffer == old(a.buffer) || fresh(a.buffer)
      invariant b.buffer == old(b.buffer) || fresh(b.buffer)
    {
      assert steps[i..][1..] == steps[i + 1..];
      ghost var now := w;
      w := E.Next(w, steps[i], sup);
      if steps[i].Request? {
        ab, ba := PlayRequest(a, b, ab, ba, steps[i], now);
      } else {
        ab, ba := PlayDelivery(a, b, ab, ba, steps[i], cut, now);
      }
    }
  }

  // ----- one tracker, whatever it reads

  lemma ThreeBytes(cfg: Config, st: St, cmd: Cmd, opt: byte)
    requires !cfg.proxy && st.state.InData?
    ensures Fold(cfg, st, [255, Code(cmd), opt]).1
         == OutcomeEvents(Reaction(cfg, st.q, N.Msg(cmd, opt)), opt)
  {
    CommandRead(cfg, st, cmd, opt);
  }

  /** What was to end is offered, or asked for, instead. */
  predicate Contrary(p: Pair, cmd: Cmd) {
    (cmd == Will && (p.him == WantNo || p.him == WantNoOp)) || (cmd == Do && (p.us == WantNo || p.us == WantNoOp))
  }

  /** A warning is raised for that and for nothing else. */
  lemma WarnedIff(cfg: Config, st: St, cmd: Cmd, opt: byte)
    requires !cfg.proxy && st.state.InData?
    ensures Warning(UnexpectedAnswer) in Fold(cfg, st, [255, Code(cmd), opt]).1 <==> Contrary(Get(st.q, opt), cmd)
  {
    ThreeBytes(cfg, st, cmd, opt);
    var o := Reaction(cfg, st.q, N.Msg(cmd, opt));
    var told := (if o.reply == [] then [] else [Send([IAC, CmdByte(o.reply[0]), opt])])
                + (if o.notify == [] then [] else [Negotiate(o.notify[0], opt)]);
    assert Warning(UnexpectedAnswer) !in told;
    assert OutcomeEvents(o, opt) == told + if o.violation then [Warning(UnexpectedAnswer)] else [];
    ViolationIs(Get(st.q, opt), cmd, Supports(cfg.telopts, opt, !FromPerformer(cmd)));
  }

  lemma ViolationIs(p: Pair, cmd: Cmd, s: bool)
    ensures React(p, cmd, s).violation <==> Contrary(p, cmd)
  {
  }

  lemma {:induction false} RefusedSoFar(cfg: Config, s: seq<byte>, opt: byte, us: bool)
    requires !cfg.proxy && !Supports(cfg.telopts, opt, us)
    ensures var st := Fold(cfg, St(InData, 0, [], []), s).0;
            WellSized(st.q) && (if us then Get(st.q, opt).us else Get(st.q, opt).him) == No
    decreases |s|
  {
    if s != [] {
      RefusedSoFar(cfg, s[..|s| - 1], opt, us);
      RefusedStep(cfg, Fold(cfg, St(InData, 0, [], []), s[..|s| - 1]).0, s[|s| - 1], opt, us);
    }
  }

  lemma RefusedStep(cfg: Config, st: St, b: byte, opt: byte, us: bool)
    requires !cfg.proxy && !Supports(cfg.telopts, opt, us) && WellSized(st.q)
    requires (if us then Get(st.q, opt).us else Get(st.q, opt).him) == No
    ensures var q := Step(cfg, st, b).0.q;
            WellSized(q) && (if us then Get(q, opt).us else Get(q, opt).him) == No
  {
    if st.state.InNegotiation? {
      var cmd, p := st.state.cmd, Get(st.q, b);
      var s := Supports(cfg.telopts, b, !FromPerformer(cmd));
      ReceiveRefinesIff(st.q, b, cmd, s);
      A.ReadAfterWrite(st.q, b, Received(p, cmd, s), opt);
    }
  }

  lemma OffRefused(p: Pair, opt: byte, us: bool)
    requires (if us then p.us else p.him) == No
    ensures !React(p, if us then Do else Will, false).stored
    ensures OutcomeEvents(React(p, if us then Do else Will, false), opt) == [Send([255, if us then 252 else 254, opt])]
  {
  }

  /**
   A tracker whose application requests nothing, after any stream whatever: IAC WILL of an option that it does
   not support is answered by IAC DONT, IAC DO by IAC WONT, and nothing else happens.
   */
  lemma StreamRefused(cfg: Config, s: seq<byte>, opt: byte, us: bool)
    requires !cfg.proxy && !Supports(cfg.telopts, opt, us)
    requires Fold(cfg, St(InData, 0, [], []), s).0.state.InData?
    ensures var st := Fold(cfg, St(InData, 0, [], []), s).0;
            Fold(cfg, st, [255, if us then 253 else 251, opt]) == (st, [Send([255, if us then 252 else 254, opt])])
  {
    var st := Fold(cfg, St(InData, 0, [], []), s).0;
    RefusedSoFar(cfg, s, opt, us);
    CommandRead(cfg, st, if us then Do else Will, opt);
    assert st.(q := st.q) == st;
    OffRefused(Get(st.q, opt), opt, us);
  }

  /** If the option is off and supported, it is agreed to, stored and announced. */
  lemma OfferAccepted(cfg: Config, st: St, opt: byte, us: bool)
    requires !cfg.proxy && Supports(cfg.telopts, opt, us) && st.state.InData? && WellSized(st.q)
    requires (if us then Get(st.q, opt).us else Get(st.q, opt).him) == No
    ensures var r := Fold(cfg, st, [255, if us then 253 else 251, opt]);
            && r.1 == [Send([255, if us then 251 else 253, opt]), Negotiate(if us then Do else Will, opt)]
            && (!Full(st.q, opt) ==> (if us then Get(r.0.q, opt).us else Get(r.0.q, opt).him) == Yes)
  {
    CommandRead(cfg, st, if us then Do else Will, opt);
    A.ReadAfterWrite(st.q, opt, Received(Get(st.q, opt), if us then Do else Will, true), opt);
  }
}
