/**
 What libtelnet (built without zlib) does with a byte stream, one byte at a time: the reference
 for the buffered parser of module Telnet. The event handler records what it is given.
 */
module TelnetWire {
  import opened Bytes
  import opened QMethod
  import opened Seqs
  import Environ
  import Zmp

  const IAC: byte := 255
  const DONT: byte := 254
  const DO: byte := 253
  const WONT: byte := 252
  const WILL: byte := 251
  const SB: byte := 250
  const SE: byte := 240

  const TTYPE: byte := 24
  const ENVIRON: byte := 36
  const NEW_ENVIRON: byte := 39
  const MSSP: byte := 70
  const ZMP: byte := 93

  const TTYPE_IS: byte := 0
  const TTYPE_SEND: byte := 1

  /** The largest of `_buffer_sizes`. */
  const MAX_BUFFER := 16384

  datatype Reason =
    | UnexpectedAnswer | Overflow | UnexpectedByte(b: byte)
    | BadEnviron(why: Environ.Fault) | IncompleteZmp | IncompleteTtype | BadTtype

  datatype Event =
    | Data(bytes: seq<byte>)
    | Send(bytes: seq<byte>)
    | Command(cmd: byte)
    | Negotiate(what: Cmd, opt: byte)
    | Subnegotiation(opt: byte, bytes: seq<byte>)
    | ZmpCommand(args: seq<seq<byte>>)
    | TerminalType(cmd: byte, name: seq<byte>)
    | Variables(cmd: byte, vars: seq<Environ.Variable>)
    | Status(tag: int)
    | Warning(reason: Reason)

  datatype Telopt = Telopt(telopt: int, us: byte, him: byte)

  /** `mssp` stands for `_mssp_telnet`: any function from payload to events. */
  datatype Config = Config(telopts: seq<Telopt>, proxy: bool, mssp: seq<byte> -> seq<Event>)

  datatype State = InData | InIac | InNegotiation(cmd: Cmd) | InSb | InSbData | InSbDataIac

  /**
   Everything later behaviour depends on: the state, the subnegotiation option, the bytes
   buffered while inside a subnegotiation, and the option table.
   */
  datatype St = St(state: State, sb: byte, buf: seq<byte>, q: Table)

  function CmdByte(c: Cmd): byte {
    match c
    case Will => WILL
    case Wont => WONT
    case Do => DO
    case Dont => DONT
  }

  predicate Supports(telopts: seq<Telopt>, opt: byte, us: bool) {
    telopts != [] &&
    if telopts[0].telopt == opt then (if us then telopts[0].us == WILL else telopts[0].him == DO)
    else Supports(telopts[1..], opt, us)
  }

  // ----- events of a negotiation and of a subnegotiation

  /** No branch sends or notifies more than once. */
  function OutcomeEvents(o: Outcome, opt: byte): seq<Event> {
    (if o.reply == [] then [] else [Send([IAC, CmdByte(o.reply[0]), opt])])
    + (if o.notify == [] then [] else [Negotiate(o.notify[0], opt)])
    + (if o.violation then [Warning(UnexpectedAnswer)] else [])
  }

  function NegotiationEvents(cfg: Config, q: Table, cmd: Cmd, opt: byte): seq<Event> {
    if cfg.proxy then [Negotiate(cmd, opt)]
    else OutcomeEvents(React(Get(q, opt), cmd, Supports(cfg.telopts, opt, !FromPerformer(cmd))), opt)
  }

  function NegotiationTable(cfg: Config, q: Table, cmd: Cmd, opt: byte): Table {
    if cfg.proxy then q
    else ReceiveOnTable(q, opt, cmd, Supports(cfg.telopts, opt, !FromPerformer(cmd)))
  }

  function ZmpEvents(p: seq<byte>): seq<Event> {
    if p == [] || p[|p| - 1] != 0 then [Warning(IncompleteZmp)] else [ZmpCommand(Zmp.Split(p))]
  }

  function TtypeEvents(p: seq<byte>): seq<Event> {
    if p == [] then [Warning(IncompleteTtype)]
    else if p[0] == TTYPE_IS then [TerminalType(TTYPE_IS, Environ.CString(p[1..]))]
    else if p[0] == TTYPE_SEND then [TerminalType(TTYPE_SEND, [])]
    else [Warning(BadTtype)]
  }

  function EnvironEvents(v: Environ.Verdict): seq<Event> {
    match v
    case Nothing => []
    case Rejected(why) => [Warning(BadEnviron(why))]
    case Accepted(cmd, vars) => [Variables(cmd, vars)]
  }

  /** What a payload means beyond being one. */
  function PayloadEvents(cfg: Config, opt: byte, p: seq<byte>): seq<Event> {
    if opt == ZMP then ZmpEvents(p)
    else if opt == TTYPE then TtypeEvents(p)
    else if opt == ENVIRON || opt == NEW_ENVIRON then EnvironEvents(Environ.Parse(p))
    else if opt == MSSP then cfg.mssp(p)
    else []
  }

  function SubnegotiationEvents(cfg: Config, opt: byte, p: seq<byte>): seq<Event> {
    [Subnegotiation(opt, p)] + PayloadEvents(cfg, opt, p)
  }

  /** `_subnegotiate` returns nonzero: only `_environ_telnet` does, when it raises its event. */
  predicate Aborts(opt: byte, p: seq<byte>) {
    (opt == ENVIRON || opt == NEW_ENVIRON) && Environ.Parse(p).Accepted?
  }

  // ----- one byte

  function AfterIac(st: St, b: byte): (St, seq<Event>) {
    if b == SB then (st.(state := InSb), [])
    else if b == WILL then (st.(state := InNegotiation(Will)), [])
    else if b == WONT then (st.(state := InNegotiation(Wont)), [])
    else if b == DO then (st.(state := InNegotiation(Do)), [])
    else if b == DONT then (st.(state := InNegotiation(Dont)), [])
    else if b == IAC then (st.(state := InData), [Data([IAC])])
    else (st.(state := InData), [Command(b)])
  }

  function Buffered(st: St, b: byte): (St, seq<Event>) {
    if |st.buf| == MAX_BUFFER then (st.(state := InData, buf := []), [Warning(Overflow)])
    else (st.(state := InSbData, buf := st.buf + [b]), [])
  }

  function Step(cfg: Config, st: St, b: byte): (St, seq<Event>) {
    match st.state
    case InData => if b == IAC then (st.(state := InIac), []) else (st, [Data([b])])
    case InIac => AfterIac(st, b)
    case InNegotiation(cmd) =>
      (st.(state := InData, q := NegotiationTable(cfg, st.q, cmd, b)), NegotiationEvents(cfg, st.q, cmd, b))
    case InSb => (st.(state := InSbData, sb := b, buf := []), [])
    case InSbData => if b == IAC then (st.(state := InSbDataIac), []) else Buffered(st, b)
    case InSbDataIac =>
      if b == IAC then Buffered(st, IAC)
      else
        var evs := SubnegotiationEvents(cfg, st.sb, st.buf);
        if b == SE then (st.(state := InData, buf := []), evs)
        else
          var at := st.(state := InIac, buf := []);
          var warn := [Warning(UnexpectedByte(b))];
          if Aborts(st.sb, st.buf) then (at, warn + evs)
          else (AfterIac(at, b).0, warn + evs + AfterIac(at, b).1)
  }

  // ----- events up to the cutting of DATA

  datatype Atom = Octet(b: byte) | Whole(e: Event)

  function Octets(s: seq<byte>): seq<Atom> {
    seq(|s|, i requires 0 <= i < |s| => Octet(s[i]))
  }

  function Atoms(e: Event): seq<Atom> {
    if e.Data? then Octets(e.bytes) else [Whole(e)]
  }

  /**
   DATA byte by byte, every other event whole: what is left of an event sequence when it does not
   matter how a run of DATA was cut into events.
   */
  function Expand(evs: seq<Event>): seq<Atom> {
    if evs == [] then [] else Expand(evs[..|evs| - 1]) + Atoms(evs[|evs| - 1])
  }

  lemma {:induction false} ExpandAppend(a: seq<Event>, b: seq<Event>)
    ensures Expand(a + b) == Expand(a) + Expand(b)
    decreases |b|
  {
    if b == [] {
      Unit(a);
      Unit(Expand(a));
    } else {
      var n := |b| - 1;
      assert (a + b)[..|a + b| - 1] == a + b[..n];
      ExpandAppend(a, b[..n]);
      Assoc(Expand(a), Expand(b[..n]), Atoms(b[n]));
    }
  }

  lemma ExpandOne(e: Event)
    ensures Expand([e]) == Atoms(e)
  {
    assert [e][..0] == [];
  }

  lemma ExpandSnoc(r: seq<Event>, e: Event)
    ensures Expand(r + [e]) == Expand(r) + Atoms(e)
  {
    assert (r + [e])[..|r|] == r;
  }

  // ----- the stream

  /** Feeding bytes one at a time to any step function. */
  function FoldWith(f: (St, byte) -> (St, seq<Event>), st: St, s: seq<byte>): (St, seq<Event>) {
    if s == [] then (st, [])
    else
      var r := FoldWith(f, st, s[..|s| - 1]);
      var t := f(r.0, s[|s| - 1]);
      (t.0, r.1 + t.1)
  }

  /** The stream, byte after byte. */
  function Fold(cfg: Config, st: St, s: seq<byte>): (St, seq<Event>) {
    FoldWith((x: St, b: byte) => Step(cfg, x, b), st, s)
  }

  lemma {:induction false} FoldWithAppend(f: (St, byte) -> (St, seq<Event>), st: St, s: seq<byte>, t: seq<byte>)
    ensures var r := FoldWith(f, st, s);
            FoldWith(f, st, s + t) == (FoldWith(f, r.0, t).0, r.1 + FoldWith(f, r.0, t).1)
    decreases |t|
  {
    if t == [] {
      assert s + t == s;
      assert FoldWith(f, st, s).1 + [] == FoldWith(f, st, s).1;
    } else {
      var n := |t| - 1;
      assert (s + t)[..|s + t| - 1] == s + t[..n];
      assert (s + t)[|s + t| - 1] == t[n];
      FoldWithAppend(f, st, s, t[..n]);
      var r := FoldWith(f, st, s);
      var x := FoldWith(f, r.0, t[..n]);
      var y := f(x.0, t[n]);
      assert (r.1 + x.1) + y.1 == r.1 + (x.1 + y.1);
    }
  }

  lemma FoldWithOne(f: (St, byte) -> (St, seq<Event>), st: St, b: byte)
    ensures FoldWith(f, st, [b]) == f(st, b)
  {
    assert [b][..0] == [];
    assert FoldWith(f, st, []) == (st, []);
    assert f(st, b).1 == [] + f(st, b).1;
  }

  /** Where a stream leads, and the atoms it yields. */
  ghost function End(f: (St, byte) -> (St, seq<Event>), st: St, s: seq<byte>): St { FoldWith(f, st, s).0 }

  ghost function Out(f: (St, byte) -> (St, seq<Event>), st: St, s: seq<byte>): seq<Atom> {
    Expand(FoldWith(f, st, s).1)
  }

  lemma Compose(f: (St, byte) -> (St, seq<Event>), st: St, s: seq<byte>, t: seq<byte>)
    ensures End(f, st, s + t) == End(f, End(f, st, s), t)
    ensures Out(f, st, s + t) == Out(f, st, s) + Out(f, End(f, st, s), t)
  {
    FoldWithAppend(f, st, s, t);
    ExpandAppend(FoldWith(f, st, s).1, FoldWith(f, End(f, st, s), t).1);
  }

  lemma Begin(f: (St, byte) -> (St, seq<Event>), st: St, s: seq<byte>)
    ensures s[..0] == [] && s[0..0] == [] && End(f, st, s[..0]) == st && Out(f, st, s[..0]) == []
  {
  }

  lemma ComposeOne(f: (St, byte) -> (St, seq<Event>), st: St, s: seq<byte>, i: nat)
    requires i < |s|
    ensures var r := f(End(f, st, s[..i]), s[i]);
            End(f, st, s[..i + 1]) == r.0 && Out(f, st, s[..i + 1]) == Out(f, st, s[..i]) + Expand(r.1)
  {
    assert s[..i + 1] == s[..i] + [s[i]];
    Compose(f, st, s[..i], [s[i]]);
    FoldWithOne(f, End(f, st, s[..i]), s[i]);
  }

  /** The stray byte: warn, process what was buffered, then read the byte as a command unless that aborted. */
  lemma UnexpectedStep(cfg: Config, st: St, b: byte)
    requires st.state.InSbDataIac? && b != IAC && b != SE
    ensures var at := st.(state := InIac, buf := []);
            var head := Atoms(Warning(UnexpectedByte(b))) + Expand(SubnegotiationEvents(cfg, st.sb, st.buf));
            && (Aborts(st.sb, st.buf) ==> Step(cfg, st, b).0 == at && Expand(Step(cfg, st, b).1) == head)
            && (!Aborts(st.sb, st.buf) ==>
                  && Step(cfg, st, b).0 == Step(cfg, at, b).0
                  && Expand(Step(cfg, st, b).1) == head + Expand(Step(cfg, at, b).1))
  {
    var warn, evs := [Warning(UnexpectedByte(b))], SubnegotiationEvents(cfg, st.sb, st.buf);
    ExpandOne(Warning(UnexpectedByte(b)));
    ExpandAppend(warn, evs);
    ExpandAppend(warn + evs, AfterIac(st.(state := InIac, buf := []), b).1);
  }

  /** `f` does at this state and byte what libtelnet does. */
  ghost predicate Same(f: (St, byte) -> (St, seq<Event>), cfg: Config, st: St, b: byte) {
    f(st, b) == Step(cfg, st, b)
  }

  ghost predicate IsStep(f: (St, byte) -> (St, seq<Event>), cfg: Config) {
    forall st: St, b: byte :: Same(f, cfg, st, b)
  }

  lemma DataStep(f: (St, byte) -> (St, seq<Event>), cfg: Config, st: St, b: byte)
    requires IsStep(f, cfg) && st.state.InData?
    ensures f(st, b).0 == if b == IAC then st.(state := InIac) else st
    ensures Expand(f(st, b).1) == if b == IAC then [] else Octets([b])
  {
    assert Same(f, cfg, st, b);
    ExpandOne(Data([b]));
  }

  lemma StepOut(f: (St, byte) -> (St, seq<Event>), cfg: Config, st: St, b: byte)
    requires IsStep(f, cfg)
    ensures End(f, st, [b]) == Step(cfg, st, b).0 && Out(f, st, [b]) == Expand(Step(cfg, st, b).1)
  {
    assert Same(f, cfg, st, b);
    FoldWithOne(f, st, b);
  }

  // ----- what a sender puts on the wire

  /** The bytes handed to the event handler for transmission. */
  function Wire(evs: seq<Event>): seq<byte> {
    if evs == [] then []
    else Wire(evs[..|evs| - 1]) + (if evs[|evs| - 1].Send? then evs[|evs| - 1].bytes else [])
  }

  lemma WireSnoc(evs: seq<Event>, s: seq<byte>)
    ensures Wire(evs + [Send(s)]) == Wire(evs) + s
  {
    assert (evs + [Send(s)])[..|evs|] == evs;
  }

  function EscapeOne(b: byte): seq<byte> { if b == IAC then [IAC, IAC] else [b] }

  /** IAC bytes are doubled. */
  function Escape(s: seq<byte>): seq<byte> {
    if s == [] then [] else Escape(s[..|s| - 1]) + EscapeOne(s[|s| - 1])
  }

  lemma EscapeSnoc(s: seq<byte>, b: byte)
    ensures Escape(s + [b]) == Escape(s) + EscapeOne(b)
  {
    assert (s + [b])[..|s|] == s;
  }

  lemma {:induction false} EscapeAppend(s: seq<byte>, t: seq<byte>)
    ensures Escape(s + t) == Escape(s) + Escape(t)
    decreases |t|
  {
    if t == [] {
      Unit(s);
      Unit(Escape(s));
    } else {
      var n := |t| - 1;
      assert s + t == (s + t[..n]) + [t[n]];
      EscapeSnoc(s + t[..n], t[n]);
      EscapeAppend(s, t[..n]);
      Assoc(Escape(s), Escape(t[..n]), EscapeOne(t[n]));
    }
  }

  lemma {:induction false} EscapePlain(s: seq<byte>)
    requires IAC !in s
    ensures Escape(s) == s
  {
    if s != [] {
      EscapePlain(s[..|s| - 1]);
      assert s == s[..|s| - 1] + [s[|s| - 1]];
    }
  }

  lemma EscapeRun(s: seq<byte>, l: nat, i: nat)
    requires l <= i <= |s| && IAC !in s[l..i]
    ensures Escape(s[..i]) == Escape(s[..l]) + s[l..i]
  {
    EscapePlain(s[l..i]);
    assert s[..i] == s[..l] + s[l..i];
    EscapeAppend(s[..l], s[l..i]);
  }

  /** A whole subnegotiation. */
  function Envelope(opt: byte, p: seq<byte>): seq<byte> {
    [IAC, SB, opt] + Escape(p) + [IAC, SE]
  }
}
