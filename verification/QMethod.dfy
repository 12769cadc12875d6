/**
 The Q method of RFC 1143 as `_negotiate` and `telnet_negotiate` implement it for one option,
 and the growable option table behind them.
 */
module QMethod {
  import opened Bytes

  datatype Q = No | Yes | WantNo | WantYes | WantNoOp | WantYesOp

  datatype Cmd = Will | Wont | Do | Dont

  /** The two halves tracked for one option: what we do, and what he does. */
  datatype Pair = Pair(us: Q, him: Q)

  const NO_NO := Pair(No, No)

  /**
   What a received command or an application request does to one half: whether the table is
   written and with what, the command sent, the event raised, and whether the branch reports
   "DONT answered by WILL" or "WONT answered by DO".
   */
  datatype Outcome = Outcome(stored: bool, q: Q, reply: seq<Cmd>, notify: seq<Cmd>, violation: bool)

  function Ignored(q: Q): Outcome { Outcome(false, q, [], [], false) }

  predicate FromPerformer(cmd: Cmd) { cmd.Will? || cmd.Wont? }

  /** WILL or WONT arriving at the half that tracks the remote end. */
  function HimReact(h: Q, cmd: Cmd, supported: bool): Outcome
    requires FromPerformer(cmd)
  {
    if cmd.Will? then
      match h
      case No =>
        if supported then Outcome(true, Yes, [Do], [Will], false)
        else Outcome(false, No, [Dont], [], false)
      case Yes => Ignored(h)
      case WantNo => Outcome(true, No, [], [Wont], true)
      case WantNoOp => Outcome(true, Yes, [], [Will], true)
      case WantYes => Outcome(true, Yes, [], [Will], false)
      case WantYesOp => Outcome(true, WantNo, [Dont], [Will], false)
    else
      match h
      case No => Ignored(h)
      case Yes => Outcome(true, No, [Dont], [Wont], false)
      case WantNo => Outcome(true, No, [], [Wont], false)
      // Section 7 of RFC 1143 sends DO here; the code does not.
      case WantNoOp => Outcome(true, WantYes, [], [Do], false)
      case WantYes => Outcome(true, No, [], [], false)
      case WantYesOp => Outcome(true, No, [], [], false)
  }

  /** DO or DONT arriving at the half that tracks the local end. */
  function UsReact(u: Q, cmd: Cmd, supported: bool): Outcome
    requires !FromPerformer(cmd)
  {
    if cmd.Do? then
      match u
      case No =>
        if supported then Outcome(true, Yes, [Will], [Do], false)
        else Outcome(false, No, [Wont], [], false)
      case Yes => Ignored(u)
      case WantNo => Outcome(true, No, [], [Dont], true)
      case WantNoOp => Outcome(true, Yes, [], [Do], true)
      case WantYes => Outcome(true, Yes, [], [Do], false)
      case WantYesOp => Outcome(true, WantNo, [Wont], [Do], false)
    else
      match u
      case No => Ignored(u)
      case Yes => Outcome(true, No, [Wont], [Dont], false)
      case WantNo => Outcome(true, No, [], [Wont], false)
      case WantNoOp => Outcome(true, WantYes, [Will], [Will], false)
      case WantYes => Outcome(true, No, [], [], false)
      case WantYesOp => Outcome(true, No, [], [], false)
  }

  /** `telnet_negotiate` on the half that `cmd` concerns. */
  function AskHalf(q: Q, cmd: Cmd): Outcome {
    if cmd.Will? || cmd.Do? then
      match q
      case No => Outcome(true, WantYes, [cmd], [], false)
      case WantNo => Outcome(true, WantNoOp, [], [], false)
      case WantYesOp => Outcome(true, WantYes, [], [], false)
      case _ => Ignored(q)
    else
      match q
      case Yes => Outcome(true, WantNo, [cmd], [], false)
      case WantYes => Outcome(true, WantYesOp, [], [], false)
      case WantNoOp => Outcome(true, WantNo, [], [], false)
      case _ => Ignored(q)
  }

  function React(p: Pair, cmd: Cmd, supported: bool): Outcome {
    if FromPerformer(cmd) then HimReact(p.him, cmd, supported) else UsReact(p.us, cmd, supported)
  }

  function Ask(p: Pair, cmd: Cmd): Outcome {
    AskHalf(if FromPerformer(cmd) then p.us else p.him, cmd)
  }

  /** The pair after a received command: WILL and WONT are about him, DO and DONT about us. */
  function Received(p: Pair, cmd: Cmd, supported: bool): Pair {
    var q := React(p, cmd, supported).q;
    if FromPerformer(cmd) then p.(him := q) else p.(us := q)
  }

  /** The pair after an application request: WILL and WONT are about us, DO and DONT about him. */
  function Asked(p: Pair, cmd: Cmd): Pair {
    var q := Ask(p, cmd).q;
    if FromPerformer(cmd) then p.(us := q) else p.(him := q)
  }

  // ----- the option table (`q`, `q_size`)

  datatype Entry = Entry(telopt: byte, pair: Pair)

  /** `q[0..q_size]`. The size is an unsigned char and grows four slots at a time. */
  type Table = seq<Entry>

  predicate WellSized(t: Table) { |t| < 256 && |t| % 4 == 0 }

  /** Index of the first entry for `opt`, or `|t|`. */
  function Find(t: Table, opt: byte): (i: nat)
    ensures i <= |t|
    ensures i < |t| ==> t[i].telopt == opt
    ensures forall j :: 0 <= j < i ==> t[j].telopt != opt
  {
    if t == [] then 0
    else if t[0].telopt == opt then 0
    else
      var i := Find(t[1..], opt);
      assert forall j :: 0 < j < i + 1 ==> t[j] == t[1..][j - 1];
      i + 1
  }

  function Get(t: Table, opt: byte): Pair {
    var i := Find(t, opt);
    if i < |t| then t[i].pair else NO_NO
  }

  const BLANK := Entry(0, NO_NO)

  function Set(t: Table, opt: byte, p: Pair): Table {
    var i := Find(t, opt);
    if i < |t| then t[i := Entry(opt, p)]
    else (t + [Entry(opt, p), BLANK, BLANK, BLANK])[..(|t| + 4) % 256]
  }

  type OptMap = s: seq<Pair> | |s| == 256 witness seq(256, _ => NO_NO)

  /** The total map, NO/NO by default, that the table stands for. */
  function AsMap(t: Table): OptMap { seq(256, o requires 0 <= o < 256 => Get(t, o)) }

  const EMPTY_MAP: OptMap := seq(256, _ => NO_NO)

  lemma FindUnique(t: Table, opt: byte, i: nat)
    requires i <= |t|
    requires i < |t| ==> t[i].telopt == opt
    requires forall j :: 0 <= j < i ==> t[j].telopt != opt
    ensures Find(t, opt) == i
  {
    var k := Find(t, opt);
    assert k < |t| ==> t[k].telopt == opt;
    assert i < |t| ==> t[i].telopt == opt;
  }

  /** A new option brings three blank entries, all for option 0. */
  lemma GrowThenGet(t: Table, opt: byte, p: Pair, o: byte)
    requires WellSized(t) && Find(t, opt) == |t| < 252
    ensures Get(Set(t, opt, p), o) == if o == opt then p else Get(t, o)
  {
    var t', k := Set(t, opt, p), Find(t, o);
    FindUnique(t', o, if k < |t| || o == opt then k else if o == 0 then |t| + 1 else |t| + 4);
  }

  lemma SetThenGet(t: Table, opt: byte, p: Pair, o: byte)
    requires WellSized(t)
    requires Find(t, opt) < |t| || |t| < 252
    ensures Get(Set(t, opt, p), o) == if o == opt then p else Get(t, o)
  {
    if Find(t, opt) < |t| {
      FindUnique(Set(t, opt, p), o, Find(t, o));
    } else {
      GrowThenGet(t, opt, p, o);
    }
  }

  /** While there is room, writing the table is writing the map at one option. */
  lemma SetUpdatesMap(t: Table, opt: byte, p: Pair)
    requires WellSized(t)
    requires Find(t, opt) < |t| || |t| < 252
    ensures WellSized(Set(t, opt, p))
    ensures AsMap(Set(t, opt, p)) == AsMap(t)[opt := p]
  {
    forall o | 0 <= o < 256 ensures AsMap(Set(t, opt, p))[o] == AsMap(t)[opt := p][o] {
      SetThenGet(t, opt, p, o);
    }
  }

  /**
   Exactly when `_set_rfc1143` is a map update: a 64th stored option makes `q_size` wrap to zero
   and every option read as NO/NO.
   */
  lemma SetIsUpdateIff(t: Table, opt: byte, p: Pair)
    requires WellSized(t)
    ensures AsMap(Set(t, opt, p)) == AsMap(t)[opt := p]
       <==> Find(t, opt) < |t| || |t| < 252 || (AsMap(t) == EMPTY_MAP && p == NO_NO)
    ensures Find(t, opt) == |t| == 252 ==> AsMap(Set(t, opt, p)) == EMPTY_MAP
  {
    if Find(t, opt) < |t| || |t| < 252 {
      SetUpdatesMap(t, opt, p);
    } else {
      assert Set(t, opt, p) == [];
      assert AsMap([]) == EMPTY_MAP;
      var m := AsMap(t)[opt := p];
      if m == EMPTY_MAP {
        assert m[opt] == EMPTY_MAP[opt] && Get(t, opt) == NO_NO;
        forall o | 0 <= o < 256 ensures AsMap(t)[o] == EMPTY_MAP[o] {
          assert m[o] == EMPTY_MAP[o];
        }
        assert AsMap(t) == EMPTY_MAP;
      }
    }
  }

  // ----- how many options fit

  ghost predicate HeadsWithin(t: Table, used: set<byte>) {
    && (forall i :: 0 <= i < |t| && i % 4 == 0 ==> t[i].telopt in used)
    && (forall i, j :: 0 <= i < j < |t| && i % 4 == 0 && j % 4 == 0 ==> t[i].telopt != t[j].telopt)
  }

  /** Every growth of the table is paid for by a distinct option. */
  lemma {:induction false} HeadsBound(t: Table, used: set<byte>)
    requires |t| % 4 == 0 && HeadsWithin(t, used)
    ensures |t| <= 4 * |used|
    decreases |t|
  {
    if t != [] {
      var n := |t| - 4;
      var front, rest := t[..n], used - {t[n].telopt};
      assert HeadsWithin(front, rest);
      HeadsBound(front, rest);
    }
  }

  /** With at most 63 options in play the table never fills, whatever order they come in. */
  lemma RoomForSixtyThree(t: Table, used: set<byte>, opt: byte, p: Pair)
    requires WellSized(t) && HeadsWithin(t, used) && opt in used && |used| <= 63
    ensures !Full(t, opt)
    ensures WellSized(Set(t, opt, p)) && HeadsWithin(Set(t, opt, p), used)
  {
    if Find(t, opt) == |t| {
      assert HeadsWithin(t, used - {opt});
      HeadsBound(t, used - {opt});
    }
  }

  // ----- one endpoint on its table

  function ReceiveOnTable(t: Table, opt: byte, cmd: Cmd, supported: bool): Table {
    var p := Get(t, opt);
    if React(p, cmd, supported).stored then Set(t, opt, Received(p, cmd, supported)) else t
  }

  function AskOnTable(t: Table, opt: byte, cmd: Cmd): Table {
    var p := Get(t, opt);
    if Ask(p, cmd).stored then Set(t, opt, Asked(p, cmd)) else t
  }

  /** The table is full of other options: there is no room for this one. */
  predicate Full(t: Table, opt: byte) { Find(t, opt) == |t| == 252 }

  /** Writing something is a map update exactly if there is room. */
  lemma WriteIff(t: Table, opt: byte, p: Pair)
    requires WellSized(t) && (Get(t, opt) == NO_NO ==> p != NO_NO)
    ensures WellSized(Set(t, opt, p))
    ensures AsMap(Set(t, opt, p)) == AsMap(t)[opt := p] <==> !Full(t, opt)
  {
    SetIsUpdateIff(t, opt, p);
    if Full(t, opt) {
      assert AsMap(t)[opt := p][opt] == p && AsMap(Set(t, opt, p))[opt] == NO_NO;
    }
  }

  lemma NothingWritten(t: Table, opt: byte)
    ensures AsMap(t)[opt] == Get(t, opt) && AsMap(t)[opt := Get(t, opt)] == AsMap(t)
  {
  }

  /** Neither a command nor a request makes an end store NO/NO for an option about which it knows nothing. */
  lemma StoredIsNews(p: Pair, cmd: Cmd, supported: bool)
    ensures React(p, cmd, supported).stored && p == NO_NO ==> Received(p, cmd, supported) != NO_NO
    ensures !React(p, cmd, supported).stored ==> Received(p, cmd, supported) == p
    ensures Ask(p, cmd).stored && p == NO_NO ==> Asked(p, cmd) != NO_NO
    ensures !Ask(p, cmd).stored ==> Asked(p, cmd) == p
  {
  }

  /**
   An endpoint driven by the table is one driven by the map, unless a 64th option is to be stored: what is
   stored about a new option is never NO/NO, so it is lost then.
   */
  lemma ReceiveRefinesIff(t: Table, opt: byte, cmd: Cmd, supported: bool)
    requires WellSized(t)
    ensures var t' := ReceiveOnTable(t, opt, cmd, supported);
            && WellSized(t')
            && (AsMap(t') == AsMap(t)[opt := Received(AsMap(t)[opt], cmd, supported)]
                <==> !(React(Get(t, opt), cmd, supported).stored && Full(t, opt)))
  {
    var p := Get(t, opt);
    NothingWritten(t, opt);
    StoredIsNews(p, cmd, supported);
    if React(p, cmd, supported).stored {
      WriteIff(t, opt, Received(p, cmd, supported));
    }
  }

  lemma AskRefinesIff(t: Table, opt: byte, cmd: Cmd)
    requires WellSized(t)
    ensures var t' := AskOnTable(t, opt, cmd);
            && WellSized(t')
            && (AsMap(t') == AsMap(t)[opt := Asked(AsMap(t)[opt], cmd)]
                <==> !(Ask(Get(t, opt), cmd).stored && Full(t, opt)))
  {
    var p := Get(t, opt);
    NothingWritten(t, opt);
    StoredIsNews(p, cmd, false);
    if Ask(p, cmd).stored {
      WriteIff(t, opt, Asked(p, cmd));
    }
  }
}
