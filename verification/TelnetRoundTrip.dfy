/** What one libtelnet endpoint sends is what the other one receives. */
module TelnetRoundTrip {
  import opened Bytes
  import opened Seqs
  import opened TelnetWire
  import Telnet
  import Zmp

  type StepFn = (St, byte) -> (St, seq<Event>)

  // ----- single escaped bytes

  lemma TwoSteps(f: StepFn, st: St, a: byte, b: byte)
    ensures FoldWith(f, st, [a, b]).0 == f(f(st, a).0, b).0
    ensures FoldWith(f, st, [a, b]).1 == f(st, a).1 + f(f(st, a).0, b).1
  {
    assert [a, b] == [a] + [b];
    FoldWithAppend(f, st, [a], [b]);
    FoldWithOne(f, st, a);
    FoldWithOne(f, f(st, a).0, b);
  }

  /** One escaped payload byte is buffered, or overflows a full buffer. */
  lemma PayloadByte(f: StepFn, cfg: Config, st: St, x: byte)
    requires IsStep(f, cfg) && st.state.InSbData?
    ensures FoldWith(f, st, EscapeOne(x)) == Buffered(st, x)
  {
    if x == IAC {
      TwoSteps(f, st, IAC, IAC);
      assert Same(f, cfg, st, IAC);
      assert Same(f, cfg, st.(state := InSbDataIac), IAC);
      Unit(Buffered(st, x).1);
    } else {
      FoldWithOne(f, st, x);
      assert Same(f, cfg, st, x);
    }
  }

  /** One escaped byte of data is delivered. */
  lemma DataByte(f: StepFn, cfg: Config, st: St, x: byte)
    requires IsStep(f, cfg) && st.state.InData?
    ensures End(f, st, EscapeOne(x)) == st && Out(f, st, EscapeOne(x)) == Octets([x])
  {
    if x == IAC {
      TwoSteps(f, st, IAC, IAC);
      assert Same(f, cfg, st, IAC);
      assert Same(f, cfg, st.(state := InIac), IAC);
      Unit([Data([IAC])]);
      ExpandOne(Data([IAC]));
    } else {
      FoldWithOne(f, st, x);
      assert Same(f, cfg, st, x);
      ExpandOne(Data([x]));
    }
  }

  // ----- whole payloads

  lemma PayloadMore(f: StepFn, cfg: Config, st: St, wire: seq<byte>, buf: seq<byte>, x: byte)
    requires IsStep(f, cfg) && st.state.InSbData? && |buf| < MAX_BUFFER
    requires FoldWith(f, st, wire) == (st.(buf := buf), [])
    ensures FoldWith(f, st, wire + EscapeOne(x)) == (st.(buf := buf + [x]), [])
  {
    FoldWithAppend(f, st, wire, EscapeOne(x));
    PayloadByte(f, cfg, st.(buf := buf), x);
  }

  lemma {:induction false} PayloadFits(f: StepFn, cfg: Config, st: St, p: seq<byte>)
    requires IsStep(f, cfg) && st.state.InSbData? && |st.buf| + |p| <= MAX_BUFFER
    ensures FoldWith(f, st, Escape(p)) == (st.(buf := st.buf + p), [])
    decreases |p|
  {
    if p == [] {
      Unit(st.buf);
    } else {
      var front, x := p[..|p| - 1], p[|p| - 1];
      PayloadFits(f, cfg, st, front);
      PayloadMore(f, cfg, st, Escape(front), st.buf + front, x);
      Snoc(st.buf, p);
    }
  }

  lemma OctetsMore(s: seq<byte>)
    requires s != []
    ensures Octets(s) == Octets(s[..|s| - 1]) + Octets([s[|s| - 1]])
  {
  }

  lemma DataMore(f: StepFn, cfg: Config, st: St, wire: seq<byte>, out: seq<Atom>, x: byte)
    requires IsStep(f, cfg) && st.state.InData? && End(f, st, wire) == st && Out(f, st, wire) == out
    ensures End(f, st, wire + EscapeOne(x)) == st && Out(f, st, wire + EscapeOne(x)) == out + Octets([x])
  {
    Compose(f, st, wire, EscapeOne(x));
    DataByte(f, cfg, st, x);
  }

  /** Escaped data comes out as it went in, byte for byte. */
  lemma {:induction false} DataRoundTrip(f: StepFn, cfg: Config, st: St, s: seq<byte>)
    requires IsStep(f, cfg) && st.state.InData?
    ensures End(f, st, Escape(s)) == st && Out(f, st, Escape(s)) == Octets(s)
    decreases |s|
  {
    if s != [] {
      var front, x := s[..|s| - 1], s[|s| - 1];
      DataRoundTrip(f, cfg, st, front);
      DataMore(f, cfg, st, Escape(front), Octets(front), x);
      OctetsMore(s);
    }
  }

  lemma Header(f: StepFn, cfg: Config, st: St, opt: byte)
    requires IsStep(f, cfg) && st.state.InData?
    ensures FoldWith(f, st, [IAC, SB, opt]) == (st.(state := InSbData, sb := opt, buf := []), [])
  {
    assert [IAC, SB, opt] == [IAC, SB] + [opt];
    FoldWithAppend(f, st, [IAC, SB], [opt]);
    TwoSteps(f, st, IAC, SB);
    assert Same(f, cfg, st, IAC);
    assert Same(f, cfg, st.(state := InIac), SB);
    FoldWithOne(f, st.(state := InSb), opt);
    assert Same(f, cfg, st.(state := InSb), opt);
  }

  lemma Trailer(f: StepFn, cfg: Config, st: St)
    requires IsStep(f, cfg) && st.state.InSbData?
    ensures FoldWith(f, st, [IAC, SE]) == (st.(state := InData, buf := []), SubnegotiationEvents(cfg, st.sb, st.buf))
  {
    TwoSteps(f, st, IAC, SE);
    assert Same(f, cfg, st, IAC);
    assert Same(f, cfg, st.(state := InSbDataIac), SE);
    Unit(SubnegotiationEvents(cfg, st.sb, st.buf));
  }

  /** A whole envelope whose payload fits the buffer. */
  lemma EnvelopeFits(f: StepFn, cfg: Config, st: St, opt: byte, p: seq<byte>)
    requires IsStep(f, cfg) && st.state.InData? && |p| <= MAX_BUFFER
    ensures FoldWith(f, st, Envelope(opt, p))
         == (st.(state := InData, sb := opt, buf := []), SubnegotiationEvents(cfg, opt, p))
  {
    var open := st.(state := InSbData, sb := opt, buf := []);
    var full := open.(buf := p);
    Header(f, cfg, st, opt);
    PayloadFits(f, cfg, open, p);
    Unit(p);
    Trailer(f, cfg, full);
    FoldWithAppend(f, st, [IAC, SB, opt], Escape(p));
    FoldWithAppend(f, st, [IAC, SB, opt] + Escape(p), [IAC, SE]);
    Unit(SubnegotiationEvents(cfg, opt, p));
  }

  /** The byte that finds the buffer full ends the subnegotiation with a warning. */
  lemma OverflowPoint(f: StepFn, cfg: Config, st: St, a: seq<byte>, x: byte)
    requires IsStep(f, cfg) && st.state.InSbData? && st.buf == [] && |a| == MAX_BUFFER
    ensures End(f, st, Escape(a + [x])) == st.(state := InData)
    ensures Out(f, st, Escape(a + [x])) == [Whole(Warning(Overflow))]
  {
    PayloadFits(f, cfg, st, a);
    Unit(a);
    PayloadByte(f, cfg, st.(buf := a), x);
    EscapeSnoc(a, x);
    FoldWithAppend(f, st, Escape(a), EscapeOne(x));
    Unit([Warning(Overflow)]);
    ExpandOne(Warning(Overflow));
  }

  /** A payload that does not fit: its first 16384 bytes are lost, the rest is taken for data. */
  lemma PayloadOverflows(f: StepFn, cfg: Config, st: St, a: seq<byte>, x: byte, rest: seq<byte>)
    requires IsStep(f, cfg) && st.state.InSbData? && st.buf == [] && |a| == MAX_BUFFER
    ensures End(f, st, Escape(a + [x] + rest)) == st.(state := InData)
    ensures Out(f, st, Escape(a + [x] + rest)) == [Whole(Warning(Overflow))] + Octets(rest)
  {
    EscapeAppend(a + [x], rest);
    OverflowPoint(f, cfg, st, a, x);
    DataRoundTrip(f, cfg, st.(state := InData), rest);
    Compose(f, st, Escape(a + [x]), Escape(rest));
  }

  lemma StrayEnd(f: StepFn, cfg: Config, st: St)
    requires IsStep(f, cfg) && st.state.InData?
    ensures End(f, st, [IAC, SE]) == st && Out(f, st, [IAC, SE]) == [Whole(Command(SE))]
  {
    TwoSteps(f, st, IAC, SE);
    assert Same(f, cfg, st, IAC);
    assert Same(f, cfg, st.(state := InIac), SE);
    Unit([Command(SE)]);
    ExpandOne(Command(SE));
  }

  /** A whole envelope whose payload does not fit. */
  lemma EnvelopeOverflows(f: StepFn, cfg: Config, st: St, opt: byte, p: seq<byte>)
    requires IsStep(f, cfg) && st.state.InData? && st.buf == [] && |p| > MAX_BUFFER
    ensures End(f, st, Envelope(opt, p)) == st.(sb := opt)
    ensures Out(f, st, Envelope(opt, p))
         == [Whole(Warning(Overflow))] + Octets(p[MAX_BUFFER + 1..]) + [Whole(Command(SE))]
  {
    var open := st.(state := InSbData, sb := opt, buf := []);
    Header(f, cfg, st, opt);
    PayloadOverflows(f, cfg, open, p[..MAX_BUFFER], p[MAX_BUFFER], p[MAX_BUFFER + 1..]);
    Around(p, MAX_BUFFER);
    Compose(f, st, [IAC, SB, opt], Escape(p));
    Unit(Out(f, open, Escape(p)));
    StrayEnd(f, cfg, st.(sb := opt));
    Compose(f, st, [IAC, SB, opt] + Escape(p), [IAC, SE]);
  }

  /**
   A subnegotiation of any option, read from state DATA: its payload arrives unchanged when it
   has at most 16384 bytes, and otherwise turns into a warning, data and a stray SE.
   */
  lemma SubnegotiationRoundTrip(f: StepFn, cfg: Config, st: St, opt: byte, p: seq<byte>)
    requires IsStep(f, cfg) && st.state.InData? && st.buf == []
    ensures End(f, st, Envelope(opt, p)) == st.(sb := opt)
    ensures Out(f, st, Envelope(opt, p)) ==
            if |p| <= MAX_BUFFER then Expand(SubnegotiationEvents(cfg, opt, p))
            else [Whole(Warning(Overflow))] + Octets(p[MAX_BUFFER + 1..]) + [Whole(Command(SE))]
  {
    if |p| <= MAX_BUFFER {
      EnvelopeFits(f, cfg, st, opt, p);
    } else {
      EnvelopeOverflows(f, cfg, st, opt, p);
    }
  }

  /** The two events, and nothing else, that a ZMP command should raise. */
  function ZmpLog(args: seq<seq<byte>>): seq<Atom> {
    [Whole(Subnegotiation(ZMP, Zmp.Frame(args))), Whole(ZmpCommand(args))]
  }

  lemma ZmpPayload(cfg: Config, args: seq<seq<byte>>)
    requires args != [] && forall k :: 0 <= k < |args| ==> Zmp.NulFree(args[k])
    ensures PayloadEvents(cfg, ZMP, Zmp.Frame(args)) == [ZmpCommand(args)]
  {
    Zmp.SplitFrame(args);
  }

  lemma ExpandTwo(a: Event, b: Event)
    requires !a.Data? && !b.Data?
    ensures Expand([a] + [b]) == [Whole(a), Whole(b)]
  {
    ExpandSnoc([a], b);
    ExpandOne(a);
  }

  /** A ZMP command arrives intact if and only if its frame has at most 16384 bytes. */
  lemma ZmpRoundTrip(f: StepFn, cfg: Config, st: St, args: seq<seq<byte>>)
    requires IsStep(f, cfg) && st.state.InData? && st.buf == []
    requires args != [] && forall k :: 0 <= k < |args| ==> Zmp.NulFree(args[k])
    ensures End(f, st, Envelope(ZMP, Zmp.Frame(args))) == st.(sb := ZMP)
    ensures Out(f, st, Envelope(ZMP, Zmp.Frame(args))) == ZmpLog(args) <==> |Zmp.Frame(args)| <= MAX_BUFFER
  {
    var p := Zmp.Frame(args);
    SubnegotiationRoundTrip(f, cfg, st, ZMP, p);
    if |p| <= MAX_BUFFER {
      ZmpPayload(cfg, args);
      ExpandTwo(Subnegotiation(ZMP, p), ZmpCommand(args));
    } else {
      assert Out(f, st, Envelope(ZMP, p))[0] == Whole(Warning(Overflow));
    }
  }

  /**
   The full stack: whatever one tracker's `telnet_send_zmp` puts on the wire, cut into chunks in
   any way, makes a second tracker in state DATA raise exactly one SUBNEGOTIATION and one ZMP
   event with the same arguments and return to DATA.
   */
  method ZmpLoopback(sender: Telnet.Tracker, receiver: Telnet.Tracker, args: seq<seq<byte>>,
                     cut: seq<byte> -> seq<seq<byte>>)
    requires sender != receiver && receiver.Valid() && receiver.state.InData?
    requires args != [] && |Zmp.Frame(args)| <= MAX_BUFFER
    requires forall k :: 0 <= k < |args| ==> Zmp.NulFree(args[k])
    requires forall s :: Telnet.Flatten(cut(s)) == s
    modifies sender`events, receiver, receiver.buffer
    ensures receiver.Valid() && receiver.state.InData? && receiver.Options() == old(receiver.Options())
    ensures receiver.Log() == old(receiver.Log()) + ZmpLog(args)
  {
    ghost var f: StepFn := (x: St, b: byte) => Step(receiver.cfg, x, b);
    var n := |Wire(sender.events)|;
    sender.SendZmp(args);
    var wire := Wire(sender.events)[n..];
    assert wire == Envelope(ZMP, Zmp.Frame(args));
    ZmpRoundTrip(f, receiver.cfg, receiver.Abs(), args);
    receiver.RecvChunks(cut(wire), f);
  }
}
