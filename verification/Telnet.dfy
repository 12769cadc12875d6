/**
 libtelnet's state tracker as it is written: a growing option table and subnegotiation buffer
 updated in place, DATA events deferred to the next IAC or the end of the chunk, a recursive call
 to re-read a byte as a command, and re-entry after an aborted subnegotiation. Its observable
 behaviour is the byte-at-a-time reference of module TelnetWire, however the stream is cut.
 */
module Telnet {
  import opened Bytes
  import opened QMethod
  import opened Seqs
  import opened TelnetWire
  import Environ
  import Zmp

  predicate BufferSize(n: nat) { n == 0 || n == 512 || n == 2048 || n == 8192 || n == MAX_BUFFER }

  function NextSize(n: nat): nat {
    if n == 0 then 512 else if n == 512 then 2048 else if n == 2048 then 8192 else MAX_BUFFER
  }

  function Flatten(chunks: seq<seq<byte>>): seq<byte> {
    if chunks == [] then [] else Flatten(chunks[..|chunks| - 1]) + chunks[|chunks| - 1]
  }

  lemma OctetsSnoc(data: seq<byte>, start: nat, i: nat)
    requires start <= i < |data|
    ensures Octets(data[start..i + 1]) == Octets(data[start..i]) + Octets([data[i]])
  {
  }

  class Tracker {
    const cfg: Config
    var q: seq<Entry>
    var qSize: byte
    var buffer: array<byte>
    var bufferPos: nat
    var state: State
    var sbTelopt: byte
    /** What the event handler was given so far. */
    var events: seq<Event>

    ghost predicate Valid()
      reads this
    {
      qSize <= |q| && BufferSize(buffer.Length) && bufferPos <= buffer.Length
    }

    function Options(): Table
      reads this
      requires qSize <= |q|
    {
      q[..qSize]
    }

    /** The bytes buffered so far, while a subnegotiation is open. */
    ghost function Pending(): seq<byte>
      reads this, buffer
      requires Valid()
    {
      if state.InSbData? || state.InSbDataIac? then buffer[..bufferPos] else []
    }

    ghost function Abs(): St
      reads this, buffer
      requires Valid()
    {
      St(state, sbTelopt, Pending(), Options())
    }

    ghost function Log(): seq<Atom>
      reads this
    {
      Expand(events)
    }

    constructor (cfg: Config)
      ensures Valid() && fresh(buffer) && this.cfg == cfg
      ensures Abs() == St(InData, 0, [], []) && events == []
    {
      this.cfg := cfg;
      q, qSize := [], 0;
      buffer := new byte[0];
      bufferPos := 0;
      state, sbTelopt, events := InData, 0, [];
    }

    method Emit(e: Event)
      modifies `events
      ensures events == old(events) + [e]
      ensures Log() == old(Log()) + Atoms(e)
    {
      events := events + [e];
    }

    // ----- option negotiation

    /** `_get_rfc1143` */
    method Lookup(opt: byte) returns (p: Pair)
      requires Valid()
      ensures p == Get(Options(), opt)
    {
      var i := 0;
      while i != qSize
        invariant 0 <= i <= qSize && forall j :: 0 <= j < i ==> q[j].telopt != opt
        decreases qSize - i
      {
        if q[i].telopt == opt {
          FindUnique(Options(), opt, i);
          return q[i].pair;
        }
        i := i + 1;
      }
      FindUnique(Options(), opt, i);
      p := NO_NO;
    }

    /** `_set_rfc1143` */
    method Store(opt: byte, p: Pair)
      requires Valid()
      modifies `q, `qSize
      ensures qSize <= |q| && Options() == Set(old(Options()), opt, p)
    {
      var i := 0;
      while i != qSize
        invariant 0 <= i <= qSize && forall j :: 0 <= j < i ==> q[j].telopt != opt
        decreases qSize - i
      {
        if q[i].telopt == opt {
          FindUnique(Options(), opt, i);
          q := q[i := Entry(opt, p)];
          assert Options() == old(Options())[i := Entry(opt, p)];
          return;
        }
        i := i + 1;
      }
      FindUnique(Options(), opt, i);
      q := q[..qSize] + [Entry(opt, p), BLANK, BLANK, BLANK];
      qSize := (qSize + 4) % 256;
    }

    /** `_check_telopt` */
    method CheckTelopt(opt: byte, us: bool) returns (ok: bool)
      ensures ok == Supports(cfg.telopts, opt, us)
    {
      var i := 0;
      while i < |cfg.telopts|
        invariant 0 <= i <= |cfg.telopts|
        invariant Supports(cfg.telopts[i..], opt, us) == Supports(cfg.telopts, opt, us)
      {
        var t := cfg.telopts[i];
        if t.telopt == opt {
          return if us then t.us == WILL else t.him == DO;
        }
        assert cfg.telopts[i..][1..] == cfg.telopts[i + 1..];
        i := i + 1;
      }
      ok := false;
    }

    method EmitAll(evs: seq<Event>)
      requires |evs| <= 1
      modifies `events
      ensures events == old(events) + evs
    {
      if evs != [] {
        Emit(evs[0]);
      }
    }

    /** Send, notify and warn, in the order the code does. */
    method Perform(o: Outcome, opt: byte)
      modifies `events
      ensures events == old(events) + OutcomeEvents(o, opt)
    {
      var reply := if o.reply == [] then [] else [Send([IAC, CmdByte(o.reply[0]), opt])];
      var notice := if o.notify == [] then [] else [Negotiate(o.notify[0], opt)];
      var warning := if o.violation then [Warning(UnexpectedAnswer)] else [];
      EmitAll(reply);
      EmitAll(notice);
      EmitAll(warning);
      Assoc(old(events), reply, notice);
      Assoc(old(events), reply + notice, warning);
    }

    /** `_negotiate` */
    method OnCommand(cmd: Cmd, opt: byte)
      requires Valid()
      modifies `q, `qSize, `events
      ensures qSize <= |q| && Options() == NegotiationTable(cfg, old(Options()), cmd, opt)
      ensures events == old(events) + NegotiationEvents(cfg, old(Options()), cmd, opt)
    {
      if cfg.proxy {
        Emit(Negotiate(cmd, opt));
        return;
      }
      var p := Lookup(opt);
      var supported := CheckTelopt(opt, !FromPerformer(cmd));
      var o := React(p, cmd, supported);
      if o.stored {
        Store(opt, Received(p, cmd, supported));
      }
      Perform(o, opt);
    }

    /** `telnet_negotiate` */
    method Request(cmd: Cmd, opt: byte)
      requires Valid()
      modifies `q, `qSize, `events
      ensures qSize <= |q|
      ensures cfg.proxy ==> Options() == old(Options()) && events == old(events) + [Send([IAC, CmdByte(cmd), opt])]
      ensures !cfg.proxy ==> Options() == AskOnTable(old(Options()), opt, cmd)
      ensures !cfg.proxy ==> events == old(events) + OutcomeEvents(Ask(Get(old(Options()), opt), cmd), opt)
    {
      if cfg.proxy {
        Emit(Send([IAC, CmdByte(cmd), opt]));
        return;
      }
      var p := Lookup(opt);
      var o := Ask(p, cmd);
      if o.stored {
        Store(opt, Asked(p, cmd));
      }
      Perform(o, opt);
    }

    // ----- subnegotiation

    /** `_buffer_byte`: succeeds, growing the buffer as needed, until 16384 bytes are held. */
    method BufferByte(b: byte) returns (ok: bool)
      requires Valid()
      modifies this, buffer
      ensures Valid() && (buffer == old(buffer) || fresh(buffer))
      ensures ok <==> old(bufferPos) < MAX_BUFFER
      ensures ok ==> buffer[..bufferPos] == old(buffer[..bufferPos]) + [b] && events == old(events)
      ensures !ok ==> events == old(events) + [Warning(Overflow)]
      ensures state == old(state) && sbTelopt == old(sbTelopt) && q == old(q) && qSize == old(qSize)
    {
      if bufferPos == buffer.Length {
        if buffer.Length == MAX_BUFFER {
          Emit(Warning(Overflow));
          return false;
        }
        var bigger := new byte[NextSize(buffer.Length)];
        forall i | 0 <= i < bufferPos {
          bigger[i] := buffer[i];
        }
        assert bigger[..bufferPos] == old(buffer[..bufferPos]);
        buffer := bigger;
      }
      buffer[bufferPos] := b;
      bufferPos := bufferPos + 1;
      ok := true;
    }

    /** `_zmp_telnet` */
    method OnZmp()
      requires Valid()
      modifies `events
      ensures events == old(events) + ZmpEvents(buffer[..bufferPos])
    {
      var p := buffer[..bufferPos];
      var ok, args := Zmp.Parse(p);
      if ok {
        Emit(ZmpCommand(args));
      } else {
        Emit(Warning(IncompleteZmp));
      }
    }

    /** `_ttype_telnet` */
    method OnTtype()
      requires Valid()
      modifies `events
      ensures events == old(events) + TtypeEvents(buffer[..bufferPos])
    {
      if bufferPos == 0 {
        Emit(Warning(IncompleteTtype));
      } else if buffer[0] == TTYPE_IS {
        assert buffer[..bufferPos][1..] == buffer[1..bufferPos];
        Emit(TerminalType(TTYPE_IS, Environ.CString(buffer[1..bufferPos])));
      } else if buffer[0] == TTYPE_SEND {
        Emit(TerminalType(TTYPE_SEND, []));
      } else {
        Emit(Warning(BadTtype));
      }
    }

    /** `_environ_telnet`, and whether it returns nonzero */
    method OnEnviron() returns (abort: bool)
      requires Valid()
      modifies `events, buffer
      ensures abort == Environ.Parse(old(buffer[..bufferPos])).Accepted?
      ensures events == old(events) + EnvironEvents(Environ.Parse(old(buffer[..bufferPos])))
    {
      var v := Environ.ParseInPlace(buffer, bufferPos);
      abort := v.Accepted?;
      events := events + EnvironEvents(v);
    }

    /** The switch of `_subnegotiate`. */
    method Interpret() returns (abort: bool)
      requires Valid()
      modifies `events, buffer
      ensures abort == Aborts(sbTelopt, old(buffer[..bufferPos]))
      ensures events == old(events) + PayloadEvents(cfg, sbTelopt, old(buffer[..bufferPos]))
    {
      abort := false;
      if sbTelopt == ZMP {
        OnZmp();
      } else if sbTelopt == TTYPE {
        OnTtype();
      } else if sbTelopt == ENVIRON || sbTelopt == NEW_ENVIRON {
        abort := OnEnviron();
      } else if sbTelopt == MSSP {
        events := events + cfg.mssp(buffer[..bufferPos]);
      }
    }

    /** `_subnegotiate` */
    method Subnegotiate() returns (abort: bool)
      requires Valid()
      modifies `events, buffer
      ensures abort == Aborts(sbTelopt, old(buffer[..bufferPos]))
      ensures events == old(events) + SubnegotiationEvents(cfg, sbTelopt, old(buffer[..bufferPos]))
    {
      ghost var p := buffer[..bufferPos];
      Emit(Subnegotiation(sbTelopt, buffer[..bufferPos]));
      abort := Interpret();
      Assoc(old(events), [Subnegotiation(sbTelopt, p)], PayloadEvents(cfg, sbTelopt, p));
    }

    // ----- the byte stream

    method OnIac(b: byte)
      requires Valid() && state.InIac?
      modifies `state, `events
      ensures Valid() && Abs() == AfterIac(old(Abs()), b).0
      ensures Log() == old(Log()) + Expand(AfterIac(old(Abs()), b).1)
    {
      if b == SB {
        state := InSb;
      } else if b == WILL {
        state := InNegotiation(Will);
      } else if b == WONT {
        state := InNegotiation(Wont);
      } else if b == DO {
        state := InNegotiation(Do);
      } else if b == DONT {
        state := InNegotiation(Dont);
      } else {
        var e := if b == IAC then Data([IAC]) else Command(b);
        Emit(e);
        state := InData;
        ExpandOne(e);
      }
    }

    /** Buffer a payload byte, or give the subnegotiation up. */
    method Push(b: byte)
      requires Valid() && (state.InSbData? || state.InSbDataIac?)
      modifies this, buffer
      ensures Valid() && (buffer == old(buffer) || fresh(buffer))
      ensures Abs() == Buffered(old(Abs()), b).0
      ensures Log() == old(Log()) + Expand(Buffered(old(Abs()), b).1)
    {
      var ok := BufferByte(b);
      state := if ok then InSbData else InData;
      ExpandOne(Warning(Overflow));
    }

    /** Process what was buffered. */
    method Close(ghost p: seq<byte>) returns (abort: bool)
      requires Valid() && !state.InSbData? && !state.InSbDataIac? && p == buffer[..bufferPos]
      modifies `events, buffer
      ensures Abs() == old(Abs())
      ensures abort == Aborts(sbTelopt, p)
      ensures Log() == old(Log()) + Expand(SubnegotiationEvents(cfg, sbTelopt, p))
    {
      abort := Subnegotiate();
      ExpandAppend(old(events), SubnegotiationEvents(cfg, sbTelopt, p));
    }

    /** A byte other than SE or IAC after IAC inside a subnegotiation. */
    method OnUnexpected(b: byte, ghost f: (St, byte) -> (St, seq<Event>)) returns (again: bool)
      requires Valid() && state.InSbDataIac? && b != IAC && b != SE && IsStep(f, cfg)
      modifies this, buffer
      ensures Valid() && (buffer == old(buffer) || fresh(buffer))
      ensures Abs() == Step(cfg, old(Abs()), b).0
      ensures Log() == old(Log()) + Expand(Step(cfg, old(Abs()), b).1)
      decreases 1, 1, 0
    {
      ghost var st, p := Abs(), buffer[..bufferPos];
      Emit(Warning(UnexpectedByte(b)));
      state := InIac;
      again := Close(p);
      ghost var at := Abs();
      UnexpectedStep(cfg, st, b);
      ghost var warn, evs := Atoms(Warning(UnexpectedByte(b))), Expand(SubnegotiationEvents(cfg, st.sb, p));
      Assoc(old(Log()), warn, evs);
      if !again {
        StepOut(f, cfg, at, b);
        Process([b], f);
        Assoc(old(Log()), warn + evs, Out(f, at, [b]));
      }
    }

    /** The option code after WILL, WONT, DO or DONT. */
    method OnOption(b: byte)
      requires Valid() && state.InNegotiation?
      modifies `q, `qSize, `state, `events
      ensures Valid() && Abs() == Step(cfg, old(Abs()), b).0
      ensures Log() == old(Log()) + Expand(Step(cfg, old(Abs()), b).1)
    {
      OnCommand(state.cmd, b);
      ExpandAppend(old(events), NegotiationEvents(cfg, old(Options()), state.cmd, b));
      state := InData;
    }

    /** The byte after IAC inside a subnegotiation. */
    method OnSbIac(b: byte, ghost f: (St, byte) -> (St, seq<Event>)) returns (again: bool)
      requires Valid() && state.InSbDataIac? && IsStep(f, cfg)
      modifies this, buffer
      ensures Valid() && (buffer == old(buffer) || fresh(buffer))
      ensures Abs() == Step(cfg, old(Abs()), b).0
      ensures Log() == old(Log()) + Expand(Step(cfg, old(Abs()), b).1)
      decreases 1, 1, 1
    {
      again := false;
      if b == IAC {
        Push(IAC);
      } else if b == SE {
        state := InData;
        again := Close(buffer[..bufferPos]);
      } else {
        again := OnUnexpected(b, f);
      }
    }

    /** Any state but DATA: the body of the switch. `again` asks for re-entry on the rest of the chunk. */
    method Handle(b: byte, ghost f: (St, byte) -> (St, seq<Event>)) returns (again: bool)
      requires Valid() && !state.InData? && IsStep(f, cfg)
      modifies this, buffer
      ensures Valid() && (buffer == old(buffer) || fresh(buffer))
      ensures Abs() == f(old(Abs()), b).0
      ensures Log() == old(Log()) + Expand(f(old(Abs()), b).1)
      decreases 1, if state.InSbDataIac? then 1 else 0, 2
    {
      assert Same(f, cfg, Abs(), b);
      again := false;
      match state {
        case InIac =>
          OnIac(b);
        case InNegotiation(_) =>
          OnOption(b);
        case InSb =>
          sbTelopt, bufferPos, state := b, 0, InSbData;
        case InSbData =>
          if b == IAC {
            state := InSbDataIac;
          } else {
            Push(b);
          }
        case InSbDataIac =>
          again := OnSbIac(b, f);
      }
    }

    /**
     `total` is what the bytes up to `i` are worth; in state DATA, those since `start` have been
     read but not yet handed to the event handler.
     */
    ghost predicate Settled(total: seq<Atom>, data: seq<byte>, start: nat, i: nat)
      reads this
    {
      && start <= i <= |data|
      && Log() + (if state.InData? then Octets(data[start..i]) else []) == total
    }

    /** Pass the DATA bytes since `start` through, if there are any. */
    method Flush(data: seq<byte>, start: nat, i: nat, ghost total: seq<Atom>)
      requires state.InData? && Settled(total, data, start, i)
      modifies `events
      ensures Log() == total
    {
      if i != start {
        Emit(Data(data[start..i]));
      }
    }

    /** A byte in state DATA is deferred, unless it is IAC. */
    method OnData(data: seq<byte>, start: nat, i: nat, ghost total: seq<Atom>, ghost f: (St, byte) -> (St, seq<Event>))
      requires Valid() && IsStep(f, cfg) && state.InData? && i < |data| && Settled(total, data, start, i)
      modifies `state, `events
      ensures Valid() && Abs() == f(old(Abs()), data[i]).0
      ensures Settled(total + Expand(f(old(Abs()), data[i]).1), data, start, i + 1)
    {
      DataStep(f, cfg, Abs(), data[i]);
      if data[i] == IAC {
        Flush(data, start, i, total);
        state := InIac;
      } else {
        OctetsSnoc(data, start, i);
        Assoc(Log(), Octets(data[start..i]), Octets([data[i]]));
      }
    }

    /** A byte in any other state. */
    method OnOther(data: seq<byte>, start: nat, i: nat, ghost total: seq<Atom>, ghost f: (St, byte) -> (St, seq<Event>))
      returns (start': nat, again: bool)
      requires Valid() && IsStep(f, cfg) && !state.InData? && i < |data| && Settled(total, data, start, i)
      modifies this, buffer
      ensures Valid() && (buffer == old(buffer) || fresh(buffer))
      ensures Abs() == f(old(Abs()), data[i]).0
      ensures Settled(total + Expand(f(old(Abs()), data[i]).1), data, start', i + 1)
      ensures again ==> start' == i + 1
      decreases 1, if state.InSbDataIac? then 1 else 0, 3
    {
      Unit(Log());
      again := Handle(data[i], f);
      start' := if state.InData? || again then i + 1 else start;
      assert data[i + 1..i + 1] == [];
      Unit(Log());
    }

    /** The state after `i` bytes of a chunk that found the tracker in `st` with `log` behind it. */
    ghost predicate Reached(data: seq<byte>, start: nat, i: nat, log: seq<Atom>, st: St,
                            f: (St, byte) -> (St, seq<Event>))
      reads this, buffer
      requires Valid()
    {
      start <= i <= |data| && Abs() == End(f, st, data[..i]) && Settled(log + Out(f, st, data[..i]), data, start, i)
    }

    /** One turn of the loop. */
    method Advance(data: seq<byte>, start: nat, i: nat, ghost log: seq<Atom>, ghost st: St,
                   ghost f: (St, byte) -> (St, seq<Event>))
      returns (start': nat, again: bool)
      requires Valid() && IsStep(f, cfg) && i < |data| && Reached(data, start, i, log, st, f)
      modifies this, buffer
      ensures Valid() && (buffer == old(buffer) || fresh(buffer))
      ensures Reached(data, start', i + 1, log, st, f)
      ensures again ==> start' == i + 1
      decreases 1, if state.InSbDataIac? then 1 else 0, 4
    {
      ghost var at, total := Abs(), log + Out(f, st, data[..i]);
      ComposeOne(f, st, data, i);
      Assoc(log, Out(f, st, data[..i]), Expand(f(at, data[i]).1));
      start', again := start, false;
      if state.InData? {
        OnData(data, start, i, total, f);
      } else {
        start', again := OnOther(data, start, i, total, f);
      }
    }

    /** `_process` */
    method Process(data: seq<byte>, ghost f: (St, byte) -> (St, seq<Event>))
      requires Valid() && IsStep(f, cfg)
      modifies this, buffer
      ensures Valid() && (buffer == old(buffer) || fresh(buffer))
      ensures Abs() == End(f, old(Abs()), data)
      ensures Log() == old(Log()) + Out(f, old(Abs()), data)
      decreases |data|, if state.InSbDataIac? then 1 else 0, 5
    {
      ghost var st, log := Abs(), Log();
      var i, start := 0, 0;
      Begin(f, st, data);
      Unit(log);
      while i != |data|
        invariant i <= |data| && Valid() && (buffer == old(buffer) || fresh(buffer))
        invariant i == 0 ==> state == old(state)
        invariant Reached(data, start, i, log, st, f)
        decreases |data| - i
      {
        var again;
        start, again := Advance(data, start, i, log, st, f);
        i := i + 1;
        if again {
          Resume(data, i, log, st, f);
          return;
        }
      }
      Finish(data, start, log, st, f);
    }

    /** The end of a chunk. */
    method Finish(data: seq<byte>, start: nat, ghost log: seq<Atom>, ghost st: St,
                  ghost f: (St, byte) -> (St, seq<Event>))
      requires Valid() && Reached(data, start, |data|, log, st, f)
      modifies `events
      ensures Valid() && Abs() == End(f, st, data) && Log() == log + Out(f, st, data)
    {
      assert data[..|data|] == data;
      if state.InData? {
        Flush(data, start, |data|, log + Out(f, st, data));
      } else {
        Unit(Log());
      }
    }

    /** An aborted subnegotiation: hand the rest of the chunk to `telnet_recv` again. */
    method Resume(data: seq<byte>, i: nat, ghost log: seq<Atom>, ghost st: St, ghost f: (St, byte) -> (St, seq<Event>))
      requires Valid() && IsStep(f, cfg) && 0 < i <= |data|
      requires Reached(data, i, i, log, st, f)
      modifies this, buffer
      ensures Valid() && (buffer == old(buffer) || fresh(buffer))
      ensures Abs() == End(f, st, data) && Log() == log + Out(f, st, data)
      decreases |data| - i, 2, 0
    {
      assert data == data[..i] + data[i..];
      Compose(f, st, data[..i], data[i..]);
      ghost var mid := Abs();
      assert data[i..i] == [];
      Unit(Log());
      Recv(data[i..], f);
      Assoc(log, Out(f, st, data[..i]), Out(f, mid, data[i..]));
    }

    /** `telnet_recv` without zlib */
    method Recv(data: seq<byte>, ghost f: (St, byte) -> (St, seq<Event>))
      requires Valid() && IsStep(f, cfg)
      modifies this, buffer
      ensures Valid() && (buffer == old(buffer) || fresh(buffer))
      ensures Abs() == End(f, old(Abs()), data)
      ensures Log() == old(Log()) + Out(f, old(Abs()), data)
      decreases |data|, if state.InSbDataIac? then 1 else 0, 6
    {
      Process(data, f);
    }

    method RecvChunks(chunks: seq<seq<byte>>, ghost f: (St, byte) -> (St, seq<Event>))
      requires Valid() && IsStep(f, cfg)
      modifies this, buffer
      ensures Valid() && (buffer == old(buffer) || fresh(buffer))
      ensures Abs() == End(f, old(Abs()), Flatten(chunks))
      ensures Log() == old(Log()) + Out(f, old(Abs()), Flatten(chunks))
    {
      ghost var st, log := Abs(), Log();
      for k := 0 to |chunks|
        invariant Valid() && (buffer == old(buffer) || fresh(buffer))
        invariant Abs() == End(f, st, Flatten(chunks[..k]))
        invariant Log() == log + Out(f, st, Flatten(chunks[..k]))
      {
        assert chunks[..k + 1][..k] == chunks[..k];
        ghost var s, at := Flatten(chunks[..k]), Abs();
        Compose(f, st, s, chunks[k]);
        Recv(chunks[k], f);
        Assoc(log, Out(f, st, s), Out(f, at, chunks[k]));
      }
      assert chunks[..|chunks|] == chunks;
    }

    /**
     Chunk invariance: whatever way a stream is cut into `telnet_recv` calls, the final state,
     the buffered bytes, the option table and the events (adjacent DATA merged) are those of
     reading the whole stream byte by byte.
     */
    method RecvAll(chunks: seq<seq<byte>>)
      requires Valid()
      modifies this, buffer
      ensures Valid() && (buffer == old(buffer) || fresh(buffer))
      ensures Abs() == Fold(cfg, old(Abs()), Flatten(chunks)).0
      ensures Expand(events) == Expand(old(events) + Fold(cfg, old(Abs()), Flatten(chunks)).1)
    {
      ghost var f := (x: St, b: byte) => Step(cfg, x, b);
      ghost var evs := Fold(cfg, Abs(), Flatten(chunks)).1;
      ExpandAppend(events, evs);
      RecvChunks(chunks, f);
    }

    // ----- sending

    ghost function Sent(): seq<byte>
      reads this
    {
      Wire(events)
    }

    /** `_send` without zlib */
    method Transmit(s: seq<byte>)
      modifies `events
      ensures Sent() == old(Sent()) + s
    {
      WireSnoc(events, s);
      events := events + [Send(s)];
    }

    /** `telnet_send`: runs without IAC go out as they are, each IAC is doubled. */
    method SendData(s: seq<byte>)
      modifies `events
      ensures Sent() == old(Sent()) + Escape(s)
    {
      ghost var sent := Sent();
      var l := 0;
      Unit(sent);
      for i := 0 to |s|
        invariant 0 <= l <= i && IAC !in s[l..i]
        invariant Sent() == sent + Escape(s[..l])
      {
        if s[i] == IAC {
          SendRun(s, l, i, sent);
          l := i + 1;
          SendIac(s, i, sent);
        }
      }
      SendRun(s, l, |s|, sent);
      assert s[..|s|] == s;
    }

    method SendIac(s: seq<byte>, i: nat, ghost sent: seq<byte>)
      requires i < |s| && s[i] == IAC && Sent() == sent + Escape(s[..i])
      modifies `events
      ensures Sent() == sent + Escape(s[..i + 1])
    {
      Transmit([IAC, IAC]);
      assert s[..i + 1] == s[..i] + [IAC];
      EscapeSnoc(s[..i], IAC);
      Assoc(sent, Escape(s[..i]), [IAC, IAC]);
    }

    method SendRun(s: seq<byte>, l: nat, i: nat, ghost sent: seq<byte>)
      requires l <= i <= |s| && IAC !in s[l..i] && Sent() == sent + Escape(s[..l])
      modifies `events
      ensures Sent() == sent + Escape(s[..i])
    {
      if i != l {
        EscapeRun(s, l, i);
        Assoc(sent, Escape(s[..l]), s[l..i]);
        Transmit(s[l..i]);
      }
    }

    /** `telnet_subnegotiation` */
    method SendSubnegotiation(opt: byte, p: seq<byte>)
      modifies `events
      ensures Sent() == old(Sent()) + Envelope(opt, p)
    {
      ghost var sent := Sent();
      Transmit([IAC, SB, opt]);
      SendData(p);
      Transmit([IAC, SE]);
      assert sent + Envelope(opt, p) == ((sent + [IAC, SB, opt]) + Escape(p)) + [IAC, SE];
    }

    /** `telnet_send_zmp`: one argument after another, each with its terminating NUL. */
    method SendZmp(argv: seq<seq<byte>>)
      requires argv != []
      modifies `events
      ensures Sent() == old(Sent()) + Envelope(ZMP, Zmp.Frame(argv))
    {
      ghost var sent := Sent() + [IAC, SB, ZMP];
      Transmit([IAC, SB, ZMP]);
      SendArgs(argv);
      Transmit([IAC, SE]);
      assert old(Sent()) + Envelope(ZMP, Zmp.Frame(argv)) == (sent + Escape(Zmp.Frame(argv))) + [IAC, SE];
    }

    /** `telnet_zmp_arg` for every argument */
    method SendArgs(argv: seq<seq<byte>>)
      modifies `events
      ensures Sent() == old(Sent()) + Escape(Zmp.Frame(argv))
    {
      ghost var sent := Sent();
      Unit(sent);
      for i := 0 to |argv|
        invariant Sent() == sent + Escape(Zmp.Frame(argv[..i]))
      {
        FrameMore(sent, argv, i);
        SendData(argv[i] + [0]);
      }
      assert argv[..|argv|] == argv;
    }
  }

  lemma FrameMore(sent: seq<byte>, argv: seq<seq<byte>>, i: nat)
    requires i < |argv|
    ensures (sent + Escape(Zmp.Frame(argv[..i]))) + Escape(argv[i] + [0]) == sent + Escape(Zmp.Frame(argv[..i + 1]))
  {
    assert argv[..i + 1] == argv[..i] + [argv[i]];
    Zmp.FrameSnoc(argv[..i], argv[i]);
    EscapeAppend(Zmp.Frame(argv[..i]), argv[i] + [0]);
    Assoc(sent, Escape(Zmp.Frame(argv[..i])), Escape(argv[i] + [0]));
  }
}
