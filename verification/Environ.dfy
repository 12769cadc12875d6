/**
 The ENVIRON / NEW-ENVIRON payload of section 2 of RFC 1572: a reference grammar over tokens, and
 the parser of `_environ_telnet`, which unescapes the payload in place over its own buffer.
 */
module Environ {
  import opened Bytes

  const IS: byte := 0
  const SEND: byte := 1
  const INFO: byte := 2

  const VAR: byte := 0
  const VALUE: byte := 1
  const ESC: byte := 2
  const USERVAR: byte := 3

  /** A variable as the event handler sees it: both strings are NUL-terminated C strings. */
  datatype Variable = Variable(kind: byte, name: seq<byte>, value: seq<byte>)

  // ----- reference grammar

  datatype Token = Start(kind: byte) | ValueMark | Literal(octet: byte)

  function Classify(b: byte): Token {
    if b == VAR || b == USERVAR then Start(b) else if b == VALUE then ValueMark else Literal(b)
  }

  /** ESC makes the next byte a literal, whatever it is. */
  function Lex(p: seq<byte>): seq<Token> {
    if p == [] then []
    else if p[0] != ESC then [Classify(p[0])] + Lex(p[1..])
    else if |p| == 1 then []
    else [Literal(p[1])] + Lex(p[2..])
  }

  /** A name ends at any marker, a value only at the next variable. */
  predicate Ends(t: Token, inName: bool) { if inName then !t.Literal? else t.Start? }

  ghost predicate IsEnd(ts: seq<Token>, k: nat, e: nat, inName: bool) {
    && k <= e <= |ts|
    && (forall i :: k <= i < e ==> !Ends(ts[i], inName))
    && (e < |ts| ==> Ends(ts[e], inName))
  }

  /** Where the string that starts at token `k` ends. */
  function EndOf(ts: seq<Token>, k: nat, inName: bool): (e: nat)
    requires k <= |ts|
    ensures IsEnd(ts, k, e, inName)
    decreases |ts| - k
  {
    if k == |ts| || Ends(ts[k], inName) then k else EndOf(ts, k + 1, inName)
  }

  function Octet(t: Token): byte {
    match t
    case Start(kind) => kind
    case ValueMark => VALUE
    case Literal(b) => b
  }

  function Octets(ts: seq<Token>, i: nat, j: nat): seq<byte>
    requires i <= j <= |ts|
  {
    seq<byte>(j - i, x requires 0 <= x < j - i => Octet(ts[i + x]))
  }

  predicate AtVariable(ts: seq<Token>, k: nat) { k <= |ts| && (k < |ts| ==> ts[k].Start?) }

  /** Where the variable at token `k` ends: after VALUE, anything but a new type belongs to it. */
  function Extent(ts: seq<Token>, k: nat): (m: nat)
    requires k < |ts|
    ensures k < m && AtVariable(ts, m)
    ensures forall i :: k < i < m ==> !ts[i].Start?
  {
    var n := EndOf(ts, k + 1, true);
    if n < |ts| && ts[n].ValueMark? then EndOf(ts, n + 1, false) else n
  }

  /** A variable is a type, literals, and optionally VALUE and what follows it. */
  function VariableAt(ts: seq<Token>, k: nat): Variable
    requires k < |ts| && ts[k].Start?
  {
    var n, m := EndOf(ts, k + 1, true), Extent(ts, k);
    Variable(ts[k].kind, Octets(ts, k + 1, n), if n < m then Octets(ts, n + 1, m) else [])
  }

  function Group(ts: seq<Token>, k: nat): seq<Variable>
    requires AtVariable(ts, k)
    decreases |ts| - k
  {
    if k == |ts| then [] else [VariableAt(ts, k)] + Group(ts, Extent(ts, k))
  }

  /** What reading a C string makes of bytes followed by a NUL. */
  function CString(s: seq<byte>): (r: seq<byte>)
    ensures |r| <= |s| && forall i :: 0 <= i < |r| ==> r[i] == s[i] != 0
    ensures |r| < |s| ==> s[|r|] == 0
  {
    if s == [] || s[0] == 0 then [] else [s[0]] + CString(s[1..])
  }

  function Seen(v: Variable): Variable { v.(name := CString(v.name), value := CString(v.value)) }

  function SeenAll(vs: seq<Variable>): seq<Variable> { seq(|vs|, i requires 0 <= i < |vs| => Seen(vs[i])) }

  datatype Fault = InvalidCommand | MissingType | EndsWithEsc

  /** Empty payloads are passed over; others are rejected with a reason or yield variables. */
  datatype Verdict = Nothing | Rejected(why: Fault) | Accepted(cmd: byte, vars: seq<Variable>)

  predicate WellFormed(p: seq<byte>) {
    |p| >= 2 && p[0] in {SEND, IS, INFO} && p[1] in {VAR, USERVAR} && p[|p| - 1] != ESC
  }

  lemma WellFormedStarts(p: seq<byte>)
    requires WellFormed(p)
    ensures Lex(p[1..]) != [] && AtVariable(Lex(p[1..]), 0)
  {
  }

  function Parse(p: seq<byte>): Verdict {
    if p == [] then Nothing
    else if p[0] !in {SEND, IS, INFO} then Rejected(InvalidCommand)
    else if |p| == 1 then Accepted(p[0], [])
    else if p[1] !in {VAR, USERVAR} then Rejected(MissingType)
    else if p[|p| - 1] == ESC then Rejected(EndsWithEsc)
    else
      WellFormedStarts(p);
      Accepted(p[0], SeenAll(Group(Lex(p[1..]), 0)))
  }

  // ----- tokens and the positions they are read from

  function Width(b: byte): nat { if b == ESC then 2 else 1 }

  /** The loop guards of the parser, on the raw byte under the read cursor. */
  predicate Stops(b: byte, inName: bool) { b == VAR || (inName && b == VALUE) || b == USERVAR }

  /** Token `t` is spelled by the bytes from `c` up to `next`. */
  predicate TokenAt(p: seq<byte>, c: nat, next: nat, t: Token) {
    && c < next <= |p| && next == c + Width(p[c])
    && t == if Stops(p[c], true) then Classify(p[c]) else Literal(p[next - 1])
  }

  ghost predicate Spells(p: seq<byte>, ts: seq<Token>, pos: seq<nat>, k: nat)
    requires k < |ts| < |pos|
  {
    TokenAt(p, pos[k], pos[k + 1], ts[k])
  }

  /** Token `k` starts at `pos[k]`; the last position is the end of the payload. */
  ghost predicate Spelled(p: seq<byte>, ts: seq<Token>, pos: seq<nat>) {
    && |pos| == |ts| + 1 && pos[|ts|] == |p|
    && forall k :: 0 <= k < |ts| ==> Spells(p, ts, pos, k)
  }

  /** Where the lexer finds its tokens: a payload that does not end in ESC is read to its very end. */
  lemma {:induction false} LexSpelled(p: seq<byte>, c: nat) returns (pos: seq<nat>)
    requires c <= |p| && (c < |p| ==> p[|p| - 1] != ESC)
    ensures Spelled(p, Lex(p[c..]), pos) && pos[0] == c
    decreases |p| - c
  {
    if c == |p| {
      pos := [c];
    } else {
      var next := c + Width(p[c]);
      var rest := LexSpelled(p, next);
      pos := [c] + rest;
      assert p[c..][Width(p[c])..] == p[next..];
      var ts := Lex(p[c..]);
      assert ts[1..] == Lex(p[next..]);
      forall k | 0 < k < |ts| ensures Spells(p, ts, pos, k) {
        assert Spells(p, ts[1..], rest, k - 1);
        assert ts[k] == ts[1..][k - 1] && pos[k] == rest[k - 1] && pos[k + 1] == rest[k];
      }
    }
  }

  function Starts(ts: seq<Token>, k: nat): nat
    requires k <= |ts|
    decreases |ts| - k
  {
    if k == |ts| then 0 else (if ts[k].Start? then 1 else 0) + Starts(ts, k + 1)
  }

  lemma {:induction false} StartsSkip(ts: seq<Token>, k: nat, m: nat)
    requires k <= m <= |ts| && forall i :: k <= i < m ==> !ts[i].Start?
    ensures Starts(ts, k) == Starts(ts, m)
    decreases m - k
  {
    if k < m {
      StartsSkip(ts, k + 1, m);
    }
  }

  /** The counting pass and the grammar see the same number of variables. */
  lemma {:induction false} GroupLength(ts: seq<Token>, k: nat)
    requires AtVariable(ts, k)
    ensures |Group(ts, k)| == Starts(ts, k)
    decreases |ts| - k
  {
    if k < |ts| {
      StartsSkip(ts, k + 1, Extent(ts, k));
      GroupLength(ts, Extent(ts, k));
    }
  }

  // ----- strings in the buffer

  /** `struct telnet_environ_t`: the type and where its strings start in the buffer. */
  datatype Slot = Slot(kind: byte, name: nat, value: Region)
  /** A string inside the buffer, or the empty literal. */
  datatype Region = Nowhere | At(start: nat)

  /** The buffer holds `s` and a NUL at `off`, all of it before `end`. */
  ghost predicate Stored(b: seq<byte>, off: nat, s: seq<byte>, end: nat) {
    off + |s| < end <= |b| && b[off + |s|] == 0 && forall j :: off <= j < off + |s| ==> b[j] == s[j - off]
  }

  ghost predicate Holds(b: seq<byte>, slot: Slot, v: Variable, end: nat) {
    && slot.kind == v.kind
    && Stored(b, slot.name, v.name, end)
    && (if slot.value.Nowhere? then v.value == [] else Stored(b, slot.value.start, v.value, end))
  }

  /** What the slots filled so far stand for; nothing they use lies past `out`. */
  ghost predicate Filled(b: seq<byte>, slots: seq<Slot>, vars: seq<Variable>, out: nat) {
    |slots| <= |vars| && forall i :: 0 <= i < |slots| ==> Holds(b, slots[i], vars[i], out)
  }

  lemma StoredKept(b: seq<byte>, b': seq<byte>, off: nat, s: seq<byte>, end: nat, end': nat)
    requires Stored(b, off, s, end) && end <= end' <= |b'| == |b|
    requires forall j :: 0 <= j < end ==> b'[j] == b[j]
    ensures Stored(b', off, s, end')
  {
  }

  /** Writing at or after `end` keeps what is stored before it. */
  lemma FilledKept(b: seq<byte>, b': seq<byte>, slots: seq<Slot>, vars: seq<Variable>, end: nat, end': nat)
    requires Filled(b, slots, vars, end) && end <= end' <= |b'| == |b|
    requires forall j :: 0 <= j < end ==> b'[j] == b[j]
    ensures Filled(b', slots, vars, end')
  {
    forall i | 0 <= i < |slots| ensures Holds(b', slots[i], vars[i], end') {
      assert Holds(b, slots[i], vars[i], end);
      StoredKept(b, b', slots[i].name, vars[i].name, end, end');
      if slots[i].value.At? {
        StoredKept(b, b', slots[i].value.start, vars[i].value, end, end');
      }
    }
  }

  lemma {:induction false} CStringStops(s: seq<byte>, t: seq<byte>)
    ensures CString(s + [0] + t) == CString(s)
  {
    var w := s + [0] + t;
    if s != [] && s[0] != 0 {
      assert w[1..] == s[1..] + [0] + t;
      CStringStops(s[1..], t);
    }
  }

  lemma StoredReads(b: seq<byte>, off: nat, s: seq<byte>, end: nat)
    requires Stored(b, off, s, end)
    ensures CString(b[off..]) == CString(s)
  {
    assert b[off..] == s + [0] + b[off + |s| + 1..];
    CStringStops(s, b[off + |s| + 1..]);
  }

  predicate InBuffer(slot: Slot, size: nat) {
    slot.name <= size && (slot.value.At? ==> slot.value.start <= size)
  }

  /** The variable a handler reads through a slot. */
  function Read(b: seq<byte>, slot: Slot): Variable
    requires InBuffer(slot, |b|)
  {
    Variable(slot.kind, CString(b[slot.name..]),
             if slot.value.Nowhere? then [] else CString(b[slot.value.start..]))
  }

  function ReadAll(b: seq<byte>, slots: seq<Slot>): seq<Variable>
    requires forall i :: 0 <= i < |slots| ==> InBuffer(slots[i], |b|)
  {
    seq(|slots|, i requires 0 <= i < |slots| => Read(b, slots[i]))
  }

  lemma FilledReads(b: seq<byte>, slots: seq<Slot>, vars: seq<Variable>, out: nat)
    requires Filled(b, slots, vars, out) && |slots| == |vars|
    ensures forall i :: 0 <= i < |slots| ==> InBuffer(slots[i], |b|)
    ensures ReadAll(b, slots) == SeenAll(vars)
  {
    forall i | 0 <= i < |slots| ensures InBuffer(slots[i], |b|) && Read(b, slots[i]) == Seen(vars[i]) {
      var slot, v := slots[i], vars[i];
      assert Holds(b, slot, v, out);
      StoredReads(b, slot.name, v.name, out);
      if slot.value.At? {
        StoredReads(b, slot.value.start, v.value, out);
      }
    }
  }

  // ----- the in-place parser

  /** The first pass: how many unescaped VAR and USERVAR bytes there are. */
  method CountVariables(buffer: array<byte>, size: nat, ghost p: seq<byte>, ghost ts: seq<Token>, ghost pos: seq<nat>)
    returns (count: nat)
    requires 1 <= size <= buffer.Length && p == buffer[..size]
    requires Spelled(p, ts, pos) && pos[0] == 1
    ensures count == Starts(ts, 0)
  {
    count := 0;
    var c := 1;
    ghost var k := 0;
    while c < size
      invariant 0 <= k <= |ts| && c == pos[k]
      invariant k < |ts| ==> Spells(p, ts, pos, k)
      invariant count + Starts(ts, k) == Starts(ts, 0)
      decreases |ts| - k
    {
      if buffer[c] == VAR || buffer[c] == USERVAR {
        count := count + 1;
      } else if buffer[c] == ESC {
        c := c + 1;
      }
      c, k := c + 1, k + 1;
    }
  }

  /** From the read cursor on, the buffer is still the payload. */
  ghost predicate Unread(buffer: array<byte>, c: nat, p: seq<byte>)
    reads buffer
  {
    |p| <= buffer.Length && forall i {:trigger buffer[i]} :: c <= i < |p| ==> buffer[i] == p[i]
  }

  /**
   One string: unescape from `c0` (token `k`) to the next end marker, writing from `out0` and
   closing with a NUL. The writer stays behind the reader, so no unread byte is touched.
   */
  method Unescape(buffer: array<byte>, size: nat, c0: nat, out0: nat, inName: bool,
                  ghost p: seq<byte>, ghost ts: seq<Token>, ghost pos: seq<nat>, ghost k: nat, ghost e: nat)
    returns (c: nat, out: nat)
    requires |p| == size <= buffer.Length && Spelled(p, ts, pos)
    requires IsEnd(ts, k, e, inName)
    requires c0 == pos[k] && out0 + 2 <= c0 <= size && Unread(buffer, c0, p)
    modifies buffer
    ensures c == pos[e] <= size && out < c && Unread(buffer, c, p)
    ensures out == out0 + (e - k) + 1
    ensures forall j :: out0 <= j < out - 1 ==> buffer[j] == Octet(ts[k + j - out0])
    ensures buffer[out - 1] == 0
    ensures forall j :: 0 <= j < out0 ==> buffer[j] == old(buffer[j])
  {
    c, out := c0, out0;
    ghost var i := k;
    while c < size && !Stops(buffer[c], inName)
      invariant k <= i <= e && c == pos[i] <= size && out == out0 + (i - k) && out + 2 <= c
      invariant forall j :: out0 <= j < out ==> buffer[j] == Octet(ts[k + j - out0])
      invariant Unread(buffer, c, p)
      invariant forall j :: 0 <= j < out0 ==> buffer[j] == old(buffer[j])
      decreases e - i
    {
      assert i < |ts| && Spells(p, ts, pos, i);
      var next := c + Width(buffer[c]);
      buffer[out] := buffer[next - 1];
      out, c, i := out + 1, next, i + 1;
    }
    assert i < |ts| ==> Spells(p, ts, pos, i);
    buffer[out] := 0;
    out := out + 1;
  }

  lemma OctetsStored(b: seq<byte>, off: nat, ts: seq<Token>, k: nat, e: nat, end: nat)
    requires k <= e <= |ts| && end == off + (e - k) + 1 <= |b| && b[end - 1] == 0
    requires forall j :: off <= j < end - 1 ==> b[j] == Octet(ts[k + j - off])
    ensures Stored(b, off, Octets(ts, k, e), end)
  {
  }

  /** One string, as it is found afterwards. */
  method ReadString(buffer: array<byte>, size: nat, c0: nat, out0: nat, inName: bool,
                    ghost p: seq<byte>, ghost ts: seq<Token>, ghost pos: seq<nat>, ghost k: nat, ghost e: nat)
    returns (c: nat, out: nat)
    requires |p| == size <= buffer.Length && Spelled(p, ts, pos)
    requires IsEnd(ts, k, e, inName)
    requires c0 == pos[k] && out0 + 2 <= c0 <= size && Unread(buffer, c0, p)
    modifies buffer
    ensures c == pos[e] <= size && out0 < out < c && Unread(buffer, c, p)
    ensures Stored(buffer[..], out0, Octets(ts, k, e), out)
    ensures forall j :: 0 <= j < out0 ==> buffer[j] == old(buffer[j])
  {
    c, out := Unescape(buffer, size, c0, out0, inName, p, ts, pos, k, e);
    OctetsStored(buffer[..], out0, ts, k, e, out);
  }

  /** One variable: its type, its name and, if VALUE follows, its value. */
  method ParseVariable(buffer: array<byte>, size: nat, c0: nat, out0: nat,
                       ghost p: seq<byte>, ghost ts: seq<Token>, ghost pos: seq<nat>, ghost k: nat)
    returns (slot: Slot, c: nat, out: nat)
    requires |p| == size <= buffer.Length && Spelled(p, ts, pos)
    requires k < |ts| && ts[k].Start? && c0 == pos[k] && out0 < c0 < size && Unread(buffer, c0, p)
    modifies buffer
    ensures c == pos[Extent(ts, k)] <= size && out0 < out < c && Unread(buffer, c, p)
    ensures Holds(buffer[..], slot, VariableAt(ts, k), out)
    ensures forall j :: 0 <= j < out0 ==> buffer[j] == old(buffer[j])
  {
    assert Spells(p, ts, pos, k);
    var kind := buffer[c0];
    ghost var n := EndOf(ts, k + 1, true);
    c, out := ReadString(buffer, size, c0 + 1, out0, true, p, ts, pos, k + 1, n);
    slot := Slot(kind, out0, Nowhere);
    ghost var name := Octets(ts, k + 1, n);
    if n < |ts| {
      assert Spells(p, ts, pos, n);
    }
    if c < size && buffer[c] == VALUE {
      ghost var m := EndOf(ts, n + 1, false);
      var start := out;
      ghost var before := buffer[..];
      c, out := ReadString(buffer, size, c + 1, start, false, p, ts, pos, n + 1, m);
      StoredKept(before, buffer[..], out0, name, start, out);
      slot := slot.(value := At(start));
    }
  }

  /** Variable `i` of the list is spelled by the tokens from `starts[i]` up to `starts[i + 1]`. */
  ghost predicate VariableIs(ts: seq<Token>, all: seq<Variable>, starts: seq<nat>, i: nat)
    requires i < |all| < |starts|
  {
    && starts[i] < |ts| && ts[starts[i]].Start? && all[i] == VariableAt(ts, starts[i])
    && starts[i + 1] == Extent(ts, starts[i])
  }

  /** Where each variable of a list starts; the last start is the end of the tokens. */
  ghost predicate Listed(ts: seq<Token>, all: seq<Variable>, starts: seq<nat>) {
    && |starts| == |all| + 1 && starts[|all|] == |ts|
    && (forall i :: 0 <= i <= |all| ==> starts[i] <= |ts|)
    && forall i :: 0 <= i < |all| ==> VariableIs(ts, all, starts, i)
  }

  lemma ListedMore(ts: seq<Token>, k: nat, v: Variable, more: seq<Variable>, rest: seq<nat>)
    requires k < |ts| && ts[k].Start? && v == VariableAt(ts, k)
    requires Listed(ts, more, rest) && rest[0] == Extent(ts, k)
    ensures Listed(ts, [v] + more, [k] + rest)
  {
    var all, starts := [v] + more, [k] + rest;
    forall i | 0 < i < |all| ensures VariableIs(ts, all, starts, i) {
      assert VariableIs(ts, more, rest, i - 1);
      assert all[i] == more[i - 1] && starts[i] == rest[i - 1] && starts[i + 1] == rest[i];
    }
  }

  lemma {:induction false} GroupListed(ts: seq<Token>, k: nat) returns (starts: seq<nat>)
    requires AtVariable(ts, k)
    ensures Listed(ts, Group(ts, k), starts) && starts[0] == k
    decreases |ts| - k
  {
    if k == |ts| {
      starts := [k];
    } else {
      var rest := GroupListed(ts, Extent(ts, k));
      ListedMore(ts, k, VariableAt(ts, k), Group(ts, Extent(ts, k)), rest);
      starts := [k] + rest;
    }
  }

  lemma FilledMore(b: seq<byte>, slots: seq<Slot>, vars: seq<Variable>, slot: Slot, out: nat)
    requires Filled(b, slots, vars, out) && |slots| < |vars| && Holds(b, slot, vars[|slots|], out)
    ensures Filled(b, slots + [slot], vars, out)
  {
  }

  /** The next variable, into the next slot. */
  method ParseNext(buffer: array<byte>, size: nat, c0: nat, out0: nat, slots0: seq<Slot>, ghost p: seq<byte>,
                   ghost ts: seq<Token>, ghost pos: seq<nat>, ghost all: seq<Variable>, ghost starts: seq<nat>)
    returns (slots: seq<Slot>, c: nat, out: nat)
    requires |p| == size <= buffer.Length && Spelled(p, ts, pos)
    requires |slots0| < |all| < |starts| && VariableIs(ts, all, starts, |slots0|)
    requires c0 == pos[starts[|slots0|]] && out0 < c0 && Unread(buffer, c0, p) && Filled(buffer[..], slots0, all, out0)
    modifies buffer
    ensures |slots| == |slots0| + 1 && Filled(buffer[..], slots, all, out)
    ensures starts[|slots|] <= |ts| && c == pos[starts[|slots|]] <= size && out < c && Unread(buffer, c, p)
  {
    ghost var before, k := buffer[..], starts[|slots0|];
    assert Spells(p, ts, pos, k);
    var slot;
    slot, c, out := ParseVariable(buffer, size, c0, out0, p, ts, pos, k);
    FilledKept(before, buffer[..], slots0, all, out0, out);
    FilledMore(buffer[..], slots0, all, slot, out);
    slots := slots0 + [slot];
  }

  /** The second pass: exactly `count` variables, ending exactly at the end of the payload. */
  method ParseVariables(buffer: array<byte>, size: nat, count: nat, ghost p: seq<byte>, ghost ts: seq<Token>,
                        ghost pos: seq<nat>, ghost all: seq<Variable>, ghost starts: seq<nat>)
    returns (slots: seq<Slot>, c: nat, out: nat)
    requires 1 <= |p| == size <= buffer.Length && Spelled(p, ts, pos) && pos[0] == 1
    requires Unread(buffer, 1, p) && Listed(ts, all, starts) && starts[0] == 0 && count == |all|
    modifies buffer
    ensures |slots| == |all| && Filled(buffer[..], slots, all, out)
    ensures out < c == size
  {
    slots, out, c := [], 0, 1;
    for index := 0 to count
      invariant |slots| == index && Filled(buffer[..], slots, all, out)
      invariant c == pos[starts[index]] <= size && out < c && Unread(buffer, c, p)
    {
      assert VariableIs(ts, all, starts, index);
      slots, c, out := ParseNext(buffer, size, c, out, slots, p, ts, pos, all, starts);
    }
  }

  /** Tokens, variables and where each of them starts. */
  ghost predicate Layout(p: seq<byte>, ts: seq<Token>, pos: seq<nat>, all: seq<Variable>, starts: seq<nat>) {
    && Spelled(p, ts, pos) && pos[0] == 1
    && Listed(ts, all, starts) && starts[0] == 0
    && |all| == Starts(ts, 0)
  }

  ghost predicate Lists(p: seq<byte>, vars: seq<Variable>) {
    exists ts, pos, all, starts :: Layout(p, ts, pos, all, starts) && vars == SeenAll(all)
  }

  /** A verdict branch by branch. */
  ghost predicate Fits(p: seq<byte>, v: Verdict) {
    && (p == [] ==> v == Nothing)
    && (p != [] && p[0] !in {SEND, IS, INFO} ==> v == Rejected(InvalidCommand))
    && (p != [] && p[0] in {SEND, IS, INFO} ==>
          if |p| == 1 then v == Accepted(p[0], [])
          else if p[1] !in {VAR, USERVAR} then v == Rejected(MissingType)
          else if p[|p| - 1] == ESC then v == Rejected(EndsWithEsc)
          else v.Accepted? && v.cmd == p[0] && Lists(p, v.vars))
  }

  lemma GroupLists(p: seq<byte>)
    requires WellFormed(p) && AtVariable(Lex(p[1..]), 0)
    ensures Lists(p, SeenAll(Group(Lex(p[1..]), 0)))
  {
    var pos := LexSpelled(p, 1);
    var ts := Lex(p[1..]);
    var starts := GroupListed(ts, 0);
    GroupLength(ts, 0);
    assert Layout(p, ts, pos, Group(ts, 0), starts);
  }

  lemma ParseFits(p: seq<byte>)
    ensures Fits(p, Parse(p))
  {
    if WellFormed(p) {
      WellFormedStarts(p);
      GroupLists(p);
    }
  }

  /** Both passes over a payload that passed the initial checks. */
  method ParseList(buffer: array<byte>, size: nat, ghost p: seq<byte>, ghost ts: seq<Token>, ghost pos: seq<nat>,
                   ghost all: seq<Variable>, ghost starts: seq<nat>)
    returns (vars: seq<Variable>)
    requires 1 <= size <= buffer.Length && p == buffer[..size] && Layout(p, ts, pos, all, starts)
    modifies buffer
    ensures vars == SeenAll(all)
  {
    var count := CountVariables(buffer, size, p, ts, pos);
    var slots, _, out := ParseVariables(buffer, size, count, p, ts, pos, all, starts);
    FilledReads(buffer[..], slots, all, out);
    vars := ReadAll(buffer[..], slots);
  }

  /** The initial checks, in the order of `_environ_telnet`, and then the two passes. */
  method Judge(buffer: array<byte>, size: nat, ghost p: seq<byte>, ghost goal: Verdict) returns (v: Verdict)
    requires size <= buffer.Length && p == buffer[..size] && Fits(p, goal)
    modifies buffer
    ensures v == goal
  {
    if size == 0 {
      return Nothing;
    }
    var cmd := buffer[0];
    if cmd != SEND && cmd != IS && cmd != INFO {
      return Rejected(InvalidCommand);
    }
    if size == 1 {
      return Accepted(cmd, []);
    }
    if buffer[1] != VAR && buffer[1] != USERVAR {
      return Rejected(MissingType);
    }
    if buffer[size - 1] == ESC {
      return Rejected(EndsWithEsc);
    }
    ghost var ts, pos, all, starts :| Layout(p, ts, pos, all, starts) && goal.vars == SeenAll(all);
    var vars := ParseList(buffer, size, p, ts, pos, all, starts);
    v := Accepted(cmd, vars);
  }

  /** `_environ_telnet`. */
  method ParseInPlace(buffer: array<byte>, size: nat) returns (v: Verdict)
    requires size <= buffer.Length
    modifies buffer
    ensures v == Parse(old(buffer[..size]))
  {
    ghost var p := buffer[..size];
    ParseFits(p);
    v := Judge(buffer, size, p, Parse(p));
  }
}
