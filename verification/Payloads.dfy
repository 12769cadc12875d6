/**
 Subnegotiations spelled out byte by byte, as a peer that knows only the standards would write them, and
 what is made of them: ENVIRON variables (RFC 1572), terminal types (RFC 1091) and ZMP commands.
 */
module Payloads {
  import opened Bytes
  import opened Environ
  import T = TelnetWire
  import R = TelnetRoundTrip
  import Seqs
  import Telnet
  import Zmp

  // ----- the encoder of section 2 of RFC 1572

  /** A variable of a list, with or without a value. */
  datatype Setting = Named(user: bool, name: seq<byte>) | Valued(user: bool, name: seq<byte>, value: seq<byte>)

  /** The bytes 0 to 3 are preceded by 2. */
  function Guard(b: byte): seq<byte> { if b <= 3 then [2, b] else [b] }

  function Guarded(s: seq<byte>): seq<byte> {
    if s == [] then [] else Guard(s[0]) + Guarded(s[1..])
  }

  function Kind(user: bool): byte { if user then 3 else 0 }

  function Written(v: Setting): seq<byte> {
    [Kind(v.user)] + Guarded(v.name) + if v.Valued? then [1] + Guarded(v.value) else []
  }

  function AllWritten(vs: seq<Setting>): seq<byte> { if vs == [] then [] else Written(vs[0]) + AllWritten(vs[1..]) }

  /** A string up to its first NUL. */
  function UpToNul(s: seq<byte>): (r: seq<byte>)
    ensures 0 !in s ==> r == s
  {
    if s == [] || s[0] == 0 then [] else [s[0]] + UpToNul(s[1..])
  }

  /** What a C program sees of a variable; a value that is not given is empty. */
  function InC(v: Setting): Variable {
    Variable(Kind(v.user), UpToNul(v.name), if v.Valued? then UpToNul(v.value) else [])
  }

  function AllInC(vs: seq<Setting>): seq<Variable> { if vs == [] then [] else [InC(vs[0])] + AllInC(vs[1..]) }

  /** The list ends in a string that ends in byte 2. */
  predicate EndsBadly(vs: seq<Setting>) {
    vs != [] &&
    var v := vs[|vs| - 1];
    var s := if v.Valued? then v.value else v.name;
    s != [] && s[|s| - 1] == 2
  }

  // ----- its tokens

  function Literals(s: seq<byte>): seq<Token> { seq(|s|, i requires 0 <= i < |s| => Literal(s[i])) }

  function Tokens(v: Setting): seq<Token> {
    [Start(Kind(v.user))] + Literals(v.name) + if v.Valued? then [ValueMark] + Literals(v.value) else []
  }

  function AllTokens(vs: seq<Setting>): seq<Token> { if vs == [] then [] else Tokens(vs[0]) + AllTokens(vs[1..]) }

  lemma LiteralsFirst(s: seq<byte>)
    requires s != []
    ensures Literals(s) == [Literal(s[0])] + Literals(s[1..])
  {
  }

  lemma LexOne(b: byte, rest: seq<byte>)
    ensures Lex(Guard(b) + rest) == [Literal(b)] + Lex(rest)
  {
    assert (Guard(b) + rest)[|Guard(b)|..] == rest;
  }

  lemma {:induction false} LexGuarded(s: seq<byte>, rest: seq<byte>)
    ensures Lex(Guarded(s) + rest) == Literals(s) + Lex(rest)
  {
    if s == [] {
      assert Guarded(s) + rest == rest && Literals(s) == [];
    } else {
      Seqs.Assoc(Guard(s[0]), Guarded(s[1..]), rest);
      LexOne(s[0], Guarded(s[1..]) + rest);
      LexGuarded(s[1..], rest);
      LiteralsFirst(s);
      Seqs.Assoc([Literal(s[0])], Literals(s[1..]), Lex(rest));
    }
  }

  lemma LexMark(b: byte, rest: seq<byte>)
    requires b == 0 || b == 1 || b == 3
    ensures Lex([b] + rest) == [if b == 1 then ValueMark else Start(b)] + Lex(rest)
  {
    assert ([b] + rest)[1..] == rest;
  }

  lemma LexTail(v: Setting, rest: seq<byte>)
    ensures Lex((if v.Valued? then [1] + Guarded(v.value) else []) + rest)
         == (if v.Valued? then [ValueMark] + Literals(v.value) else []) + Lex(rest)
  {
    if v.Valued? {
      Seqs.Assoc([1], Guarded(v.value), rest);
      LexMark(1, Guarded(v.value) + rest);
      LexGuarded(v.value, rest);
      Seqs.Assoc([ValueMark], Literals(v.value), Lex(rest));
    } else {
      assert [] + rest == rest;
    }
  }

  lemma Assoc4<X>(a: seq<X>, b: seq<X>, c: seq<X>, d: seq<X>)
    ensures (a + b + c) + d == a + (b + (c + d))
  {
  }

  lemma LexWritten(v: Setting, rest: seq<byte>)
    ensures Lex(Written(v) + rest) == Tokens(v) + Lex(rest)
  {
    var tail := if v.Valued? then [1] + Guarded(v.value) else [];
    Assoc4([Kind(v.user)], Guarded(v.name), tail, rest);
    LexMark(Kind(v.user), Guarded(v.name) + (tail + rest));
    LexGuarded(v.name, tail + rest);
    LexTail(v, rest);
    Assoc4([Start(Kind(v.user))], Literals(v.name), if v.Valued? then [ValueMark] + Literals(v.value) else [],
           Lex(rest));
  }

  lemma {:induction false} LexAll(vs: seq<Setting>)
    ensures Lex(AllWritten(vs)) == AllTokens(vs)
  {
    if vs != [] {
      LexWritten(vs[0], AllWritten(vs[1..]));
      LexAll(vs[1..]);
    }
  }

  // ----- from tokens to variables

  lemma {:induction false} EndIs(ts: seq<Token>, k: nat, e: nat, inName: bool)
    requires IsEnd(ts, k, e, inName)
    ensures EndOf(ts, k, inName) == e
    decreases e - k
  {
    if k < e {
      EndIs(ts, k + 1, e, inName);
    }
  }

  /** The tokens from `k` on start with `part`. */
  ghost predicate Has(ts: seq<Token>, k: nat, part: seq<Token>) {
    k + |part| <= |ts| && forall i :: 0 <= i < |part| ==> part[i] == ts[k + i]
  }

  lemma HasBoth(ts: seq<Token>, k: nat, a: seq<Token>, b: seq<Token>)
    requires Has(ts, k, a + b)
    ensures Has(ts, k, a) && Has(ts, k + |a|, b)
  {
    forall i | 0 <= i < |a| ensures a[i] == ts[k + i] {
      assert (a + b)[i] == a[i];
    }
    forall i | 0 <= i < |b| ensures b[i] == ts[k + |a| + i] {
      assert (a + b)[|a| + i] == b[i];
    }
  }

  /** A string of literals from token `k` on, up to the end or to a marker. */
  lemma StringOf(ts: seq<Token>, k: nat, s: seq<byte>, inName: bool)
    requires Has(ts, k, Literals(s))
    requires k + |s| < |ts| ==> Ends(ts[k + |s|], inName)
    ensures EndOf(ts, k, inName) == k + |s| && Octets(ts, k, k + |s|) == s
  {
    forall i | 0 <= i < |s| ensures ts[k + i] == Literal(s[i]) && Octet(ts[k + i]) == s[i] {
      assert Literals(s)[i] == ts[k + i];
    }
    forall i | k <= i < k + |s| ensures !Ends(ts[i], inName) {
      assert ts[k + (i - k)] == Literal(s[i - k]);
    }
    EndIs(ts, k, k + |s|, inName);
  }

  lemma NameOnly(ts: seq<Token>, k: nat, kind: byte, name: seq<byte>)
    requires k < |ts| && ts[k] == Start(kind) && Has(ts, k + 1, Literals(name))
    requires k + 1 + |name| < |ts| ==> ts[k + 1 + |name|].Start?
    ensures Extent(ts, k) == k + 1 + |name| && VariableAt(ts, k) == Variable(kind, name, [])
  {
    StringOf(ts, k + 1, name, true);
  }

  lemma ValuedAt(ts: seq<Token>, k: nat, n: nat, m: nat)
    requires k < n < m <= |ts| && ts[k].Start? && ts[n] == ValueMark
    requires EndOf(ts, k + 1, true) == n && EndOf(ts, n + 1, false) == m
    ensures Extent(ts, k) == m
    ensures VariableAt(ts, k) == Variable(ts[k].kind, Octets(ts, k + 1, n), Octets(ts, n + 1, m))
  {
  }

  lemma NameAndValue(ts: seq<Token>, k: nat, kind: byte, name: seq<byte>, value: seq<byte>)
    requires k < |ts| && ts[k] == Start(kind) && Has(ts, k + 1, Literals(name))
    requires k + 1 + |name| < |ts| && ts[k + 1 + |name|] == ValueMark
    requires Has(ts, k + 2 + |name|, Literals(value))
    requires k + 2 + |name| + |value| < |ts| ==> ts[k + 2 + |name| + |value|].Start?
    ensures Extent(ts, k) == k + 2 + |name| + |value| && VariableAt(ts, k) == Variable(kind, name, value)
  {
    var n := k + 1 + |name|;
    StringOf(ts, k + 1, name, true);
    StringOf(ts, n + 1, value, false);
    ValuedAt(ts, k, n, n + 1 + |value|);
  }

  lemma HasFirst(ts: seq<Token>, k: nat, t: Token, rest: seq<Token>)
    requires Has(ts, k, [t] + rest)
    ensures k < |ts| && ts[k] == t && Has(ts, k + 1, rest)
  {
    assert ([t] + rest)[0] == t;
    HasBoth(ts, k, [t], rest);
  }

  lemma SettingAt(ts: seq<Token>, k: nat, v: Setting)
    requires Has(ts, k, Tokens(v))
    requires k + |Tokens(v)| < |ts| ==> ts[k + |Tokens(v)|].Start?
    ensures k < |ts| && ts[k] == Start(Kind(v.user)) && Extent(ts, k) == k + |Tokens(v)|
    ensures VariableAt(ts, k) == Variable(Kind(v.user), v.name, if v.Valued? then v.value else [])
  {
    var tail := if v.Valued? then [ValueMark] + Literals(v.value) else [];
    Seqs.Assoc([Start(Kind(v.user))], Literals(v.name), tail);
    HasFirst(ts, k, Start(Kind(v.user)), Literals(v.name) + tail);
    HasBoth(ts, k + 1, Literals(v.name), tail);
    if v.Valued? {
      HasFirst(ts, k + 1 + |v.name|, ValueMark, Literals(v.value));
      NameAndValue(ts, k, Kind(v.user), v.name, v.value);
    } else {
      NameOnly(ts, k, Kind(v.user), v.name);
    }
  }

  lemma {:induction false} NulCut(s: seq<byte>)
    ensures CString(s) == UpToNul(s)
  {
    if s != [] && s[0] != 0 {
      NulCut(s[1..]);
    }
  }

  lemma SeenInC(v: Setting)
    ensures Seen(Variable(Kind(v.user), v.name, if v.Valued? then v.value else [])) == InC(v)
  {
    NulCut(v.name);
    if v.Valued? {
      NulCut(v.value);
    }
  }

  lemma SeenMore(v: Variable, more: seq<Variable>)
    ensures SeenAll([v] + more) == [Seen(v)] + SeenAll(more)
  {
  }

  lemma GroupMore(ts: seq<Token>, k: nat, n: nat, u: Variable, more: seq<Variable>)
    requires k < |ts| && ts[k].Start? && Extent(ts, k) == n && VariableAt(ts, k) == u
    requires AtVariable(ts, n) && Group(ts, n) == more
    ensures AtVariable(ts, k) && Group(ts, k) == [u] + more
  {
  }

  lemma SettingMore(ts: seq<Token>, k: nat, n: nat, v: Setting, seen: seq<Variable>)
    requires Has(ts, k, Tokens(v)) && n == k + |Tokens(v)| && AtVariable(ts, n) && SeenAll(Group(ts, n)) == seen
    ensures AtVariable(ts, k) && SeenAll(Group(ts, k)) == [InC(v)] + seen
  {
    var more := Group(ts, n);
    SettingAt(ts, k, v);
    SeenInC(v);
    SeenMore(VariableAt(ts, k), more);
    GroupMore(ts, k, n, VariableAt(ts, k), more);
  }

  lemma {:induction false} GroupAll(ts: seq<Token>, k: nat, vs: seq<Setting>)
    requires Has(ts, k, AllTokens(vs)) && |ts| == k + |AllTokens(vs)|
    ensures AtVariable(ts, k) && SeenAll(Group(ts, k)) == AllInC(vs)
    decreases |vs|
  {
    if vs != [] {
      var n := k + |Tokens(vs[0])|;
      HasBoth(ts, k, Tokens(vs[0]), AllTokens(vs[1..]));
      GroupAll(ts, n, vs[1..]);
      SettingMore(ts, k, n, vs[0], AllInC(vs[1..]));
    }
  }

  // ----- the last byte

  lemma {:induction false} GuardedLast(s: seq<byte>)
    ensures s == [] <==> Guarded(s) == []
    ensures s != [] ==> Guarded(s)[|Guarded(s)| - 1] == s[|s| - 1]
  {
    if s != [] {
      GuardedLast(s[1..]);
    }
  }

  lemma WrittenLast(v: Setting)
    ensures Written(v) != [] && (Written(v)[|Written(v)| - 1] == 2 <==> EndsBadly([v]))
  {
    GuardedLast(v.name);
    if v.Valued? {
      GuardedLast(v.value);
    }
  }

  lemma LastOfBoth(a: seq<byte>, b: seq<byte>)
    requires a != [] && b != []
    ensures a + b != [] && (a + b)[|a + b| - 1] == b[|b| - 1] && (a + b)[0] == a[0]
  {
  }

  /** The bytes of a list: where they begin, and whether they end badly. */
  ghost predicate Framed(w: seq<byte>, bad: bool) {
    w != [] && (w[0] == 0 || w[0] == 3) && (w[|w| - 1] == 2 <==> bad)
  }

  lemma FramedMore(v: Setting, w: seq<byte>, bad: bool)
    requires Framed(w, bad)
    ensures Framed(Written(v) + w, bad)
  {
    LastOfBoth(Written(v), w);
  }

  lemma {:induction false} AllWrittenLast(vs: seq<Setting>)
    requires vs != []
    ensures Framed(AllWritten(vs), EndsBadly(vs))
  {
    if |vs| == 1 {
      WrittenLast(vs[0]);
      assert vs == [vs[0]] && AllWritten(vs) == Written(vs[0]);
    } else {
      AllWrittenLast(vs[1..]);
      assert EndsBadly(vs[1..]) == EndsBadly(vs);
      FramedMore(vs[0], AllWritten(vs[1..]), EndsBadly(vs));
    }
  }

  // ----- ENVIRON

  lemma ParseLists(p: seq<byte>, w: seq<byte>)
    requires WellFormed(p) && p[1..] == w
    ensures AtVariable(Lex(w), 0) && Parse(p) == Accepted(p[0], SeenAll(Group(Lex(w), 0)))
  {
    WellFormedStarts(p);
  }

  lemma ParseRejects(p: seq<byte>)
    requires |p| >= 2 && p[0] in {SEND, IS, INFO} && p[1] in {VAR, USERVAR} && p[|p| - 1] == ESC
    ensures Parse(p) == Rejected(EndsWithEsc)
  {
  }

  lemma Verdicts(cmd: byte, w: seq<byte>)
    requires cmd <= 2 && w != [] && (w[0] == 0 || w[0] == 3)
    ensures w[|w| - 1] == 2 ==> Parse([cmd] + w) == Rejected(EndsWithEsc)
    ensures w[|w| - 1] != 2 ==> AtVariable(Lex(w), 0) && Parse([cmd] + w) == Accepted(cmd, SeenAll(Group(Lex(w), 0)))
  {
    var p := [cmd] + w;
    assert p[1..] == w && p[|p| - 1] == w[|w| - 1] && p[1] == w[0];
    if w[|w| - 1] != 2 {
      ParseLists(p, w);
    } else {
      ParseRejects(p);
    }
  }

  lemma ListRead(vs: seq<Setting>) returns (vars: seq<Variable>)
    ensures AtVariable(Lex(AllWritten(vs)), 0) && vars == SeenAll(Group(Lex(AllWritten(vs)), 0)) == AllInC(vs)
  {
    LexAll(vs);
    GroupAll(AllTokens(vs), 0, vs);
    vars := AllInC(vs);
  }

  /**
   Any list of variables, whatever bytes their names and values hold, is read back as it was written, strings
   up to their first NUL, if and only if the last of these strings does not end in byte 2: escaped as it is,
   the code takes it for a missing escape.
   */
  lemma EnvironIff(cmd: byte, vs: seq<Setting>)
    requires cmd <= 2
    ensures Parse([cmd] + AllWritten(vs)) == Accepted(cmd, AllInC(vs)) <==> !EndsBadly(vs)
    ensures EndsBadly(vs) ==> Parse([cmd] + AllWritten(vs)) == Rejected(EndsWithEsc)
  {
    if vs != [] {
      AllWrittenLast(vs);
      var vars := ListRead(vs);
      Verdicts(cmd, AllWritten(vs));
    }
  }

  /** The parser over its own buffer recovers what was written. */
  method ReadBack(cmd: byte, vs: seq<Setting>) returns (v: Verdict)
    requires cmd <= 2
    ensures v == if EndsBadly(vs) then Rejected(EndsWithEsc) else Accepted(cmd, AllInC(vs))
  {
    var p := [cmd] + AllWritten(vs);
    var buffer := new byte[|p|](i requires 0 <= i < |p| => p[i]);
    assert buffer[..|p|] == p;
    EnvironIff(cmd, vs);
    v := ParseInPlace(buffer, |p|);
  }

  // ----- what ends a string

  predicate PlainBytes(s: seq<byte>) { forall i :: 0 <= i < |s| ==> s[i] > 3 }

  lemma {:induction false} LexPlain(s: seq<byte>, rest: seq<byte>)
    requires PlainBytes(s)
    ensures Lex(s + rest) == Literals(s) + Lex(rest)
  {
    if s == [] {
      assert s + rest == rest && Literals(s) == [];
    } else {
      assert (s + rest)[1..] == s[1..] + rest;
      LexPlain(s[1..], rest);
      LiteralsFirst(s);
      Seqs.Assoc([Literal(s[0])], Literals(s[1..]), Lex(rest));
    }
  }

  /** A VALUE byte and what follows it, and the same as tokens. */
  lemma MarkedTail(s: seq<byte>, rest: seq<byte>)
    requires PlainBytes(s)
    ensures Lex([1] + (s + rest)) == [ValueMark] + (Literals(s) + Lex(rest))
  {
    LexPlain(s, rest);
    LexMark(1, s + rest);
  }

  lemma MarkedEnd(s: seq<byte>)
    requires PlainBytes(s)
    ensures Lex([1] + s) == [ValueMark] + Literals(s)
  {
    MarkedTail(s, []);
    Seqs.Unit(s);
    Seqs.Unit(Literals(s));
  }

  lemma GoesOn(ts: seq<Token>, k: nat, a: seq<byte>, b: seq<byte>)
    requires Has(ts, k, Literals(a)) && Has(ts, k + |a|, [ValueMark] + Literals(b)) && k + |a| + 1 + |b| == |ts|
    ensures EndOf(ts, k, false) == |ts| && Octets(ts, k, |ts|) == a + [1] + b
  {
    var s := a + [1] + b;
    HasFirst(ts, k + |a|, ValueMark, Literals(b));
    forall i | 0 <= i < |s| ensures s[i] == Octet(ts[k + i]) && !Ends(ts[k + i], false) {
      if i < |a| {
        assert Literals(a)[i] == ts[k + i];
      } else if i > |a| {
        assert Literals(b)[i - |a| - 1] == ts[k + |a| + 1 + (i - |a| - 1)];
      }
    }
    forall i | k <= i < |ts| ensures !Ends(ts[i], false) {
      assert s[i - k] == Octet(ts[k + (i - k)]) && !Ends(ts[k + (i - k)], false);
    }
    EndIs(ts, k, |ts|, false);
  }

  /** A name, and a value with a VALUE byte in it, are all there is. */
  ghost predicate Marked(ts: seq<Token>, name: seq<byte>, a: seq<byte>, b: seq<byte>) {
    var n := 1 + |name|;
    && |ts| == n + |a| + |b| + 2
    && ts[0] == Start(0) && Has(ts, 1, Literals(name))
    && ts[n] == ValueMark && Has(ts, n + 1, Literals(a)) && Has(ts, n + 1 + |a|, [ValueMark] + Literals(b))
  }

  lemma TailIs(ts: seq<Token>, n: nat, a: seq<byte>, b: seq<byte>)
    requires Has(ts, n, [ValueMark] + (Literals(a) + ([ValueMark] + Literals(b))))
    ensures n < |ts| && ts[n] == ValueMark
    ensures Has(ts, n + 1, Literals(a)) && Has(ts, n + 1 + |a|, [ValueMark] + Literals(b))
  {
    var two := [ValueMark] + Literals(b);
    HasFirst(ts, n, ValueMark, Literals(a) + two);
    HasBoth(ts, n + 1, Literals(a), two);
  }

  lemma MarkedIs(ts: seq<Token>, name: seq<byte>, a: seq<byte>, b: seq<byte>, tail: seq<Token>)
    requires tail == [ValueMark] + (Literals(a) + ([ValueMark] + Literals(b))) && |tail| == |a| + |b| + 2
    requires ts == [Start(0)] + (Literals(name) + tail)
    ensures Marked(ts, name, a, b)
  {
    HasFirst(ts, 0, Start(0), Literals(name) + tail);
    HasBoth(ts, 1, Literals(name), tail);
    TailIs(ts, 1 + |name|, a, b);
  }

  lemma MarkedVariable(ts: seq<Token>, name: seq<byte>, a: seq<byte>, b: seq<byte>)
    requires Marked(ts, name, a, b)
    ensures AtVariable(ts, 0) && Group(ts, 0) == [Variable(0, name, a + [1] + b)]
  {
    var n := 1 + |name|;
    StringOf(ts, 1, name, true);
    GoesOn(ts, n + 1, a, b);
    ValuedAt(ts, 0, n, |ts|);
    GroupMore(ts, 0, |ts|, Variable(0, name, a + [1] + b), []);
  }

  lemma PlainSeen(name: seq<byte>, value: seq<byte>)
    requires 0 !in name && 0 !in value
    ensures SeenAll([Variable(0, name, value)]) == [Variable(0, name, value)]
  {
    NulCut(name);
    NulCut(value);
  }

  lemma MarkedRead(cmd: byte, w: seq<byte>, name: seq<byte>, a: seq<byte>, b: seq<byte>)
    requires cmd <= 2 && w != [] && w[0] == 0 && w[|w| - 1] != 2 && Marked(Lex(w), name, a, b)
    requires 0 !in name && 0 !in a + [1] + b
    ensures Parse([cmd] + w) == Accepted(cmd, [Variable(0, name, a + [1] + b)])
  {
    MarkedVariable(Lex(w), name, a, b);
    PlainSeen(name, a + [1] + b);
    Verdicts(cmd, w);
  }

  lemma MarkedLex(name: seq<byte>, a: seq<byte>, b: seq<byte>, tail: seq<byte>)
    requires PlainBytes(name) && PlainBytes(a) && PlainBytes(b) && tail == [1] + (a + ([1] + b))
    ensures Marked(Lex([0] + (name + tail)), name, a, b)
  {
    MarkedEnd(b);
    MarkedTail(a, [1] + b);
    LexPlain(name, tail);
    LexMark(0, name + tail);
    MarkedIs(Lex([0] + (name + tail)), name, a, b, Lex(tail));
  }

  /** Only a name ends at a VALUE byte: in a value it is a byte like any other, escaped or not. */
  lemma ValueKeepsMarks(cmd: byte, name: seq<byte>, a: seq<byte>, b: seq<byte>)
    requires cmd <= 2 && PlainBytes(name) && PlainBytes(a) && PlainBytes(b)
    ensures Parse([cmd] + ([0] + (name + ([1] + (a + ([1] + b)))))) == Accepted(cmd, [Variable(0, name, a + [1] + b)])
  {
    var tail := [1] + (a + ([1] + b));
    MarkedLex(name, a, b, tail);
    MarkedRead(cmd, [0] + (name + tail), name, a, b);
  }

  // ----- whole subnegotiations

  /** Every 255 twice. */
  function Doubled(s: seq<byte>): seq<byte> {
    if s == [] then [] else (if s[0] == 255 then [255, 255] else [s[0]]) + Doubled(s[1..])
  }

  lemma EscapeFirst(s: seq<byte>)
    requires s != []
    ensures T.Escape(s) == T.EscapeOne(s[0]) + T.Escape(s[1..])
  {
    assert [s[0]] + s[1..] == s && [s[0]][..0] == [];
    T.EscapeAppend([s[0]], s[1..]);
    T.EscapeSnoc([], s[0]);
    assert [] + [s[0]] == [s[0]] && [] + T.EscapeOne(s[0]) == T.EscapeOne(s[0]);
  }

  lemma {:induction false} EscapeDoubles(s: seq<byte>)
    ensures T.Escape(s) == Doubled(s)
  {
    if s != [] {
      EscapeFirst(s);
      EscapeDoubles(s[1..]);
    }
  }

  /** IAC SB, the option, the payload with every IAC twice, IAC SE. */
  function Sub(opt: byte, p: seq<byte>): seq<byte> { [255, 250, opt] + Doubled(p) + [255, 240] }

  /** What a payload by itself is reported as. */
  lemma SubRead(cfg: T.Config, st: T.St, opt: byte, p: seq<byte>)
    requires st.state.InData? && |p| <= 16384
    ensures T.Fold(cfg, st, Sub(opt, p))
         == (st.(sb := opt, buf := []), [T.Subnegotiation(opt, p)] + T.PayloadEvents(cfg, opt, p))
    ensures T.Envelope(opt, p) == Sub(opt, p)
  {
    EscapeDoubles(p);
    R.EnvelopeFits((x: T.St, b: byte) => T.Step(cfg, x, b), cfg, st, opt, p);
  }

  lemma EnvironPayload(cfg: T.Config, opt: byte, p: seq<byte>, cmd: byte, vars: seq<Variable>)
    requires (opt == 36 || opt == 39) && Parse(p) == Accepted(cmd, vars)
    ensures T.PayloadEvents(cfg, opt, p) == [T.Variables(cmd, vars)]
  {
  }

  /** Environment variables, under the old and the new option. */
  lemma EnvironRead(cfg: T.Config, st: T.St, opt: byte, cmd: byte, vs: seq<Setting>)
    requires st.state.InData? && (opt == 36 || opt == 39) && cmd <= 2
    requires |AllWritten(vs)| < 16384 && !EndsBadly(vs)
    ensures T.Fold(cfg, st, Sub(opt, [cmd] + AllWritten(vs))).1
         == [T.Subnegotiation(opt, [cmd] + AllWritten(vs)), T.Variables(cmd, AllInC(vs))]
  {
    var p := [cmd] + AllWritten(vs);
    EnvironIff(cmd, vs);
    EnvironPayload(cfg, opt, p, cmd, AllInC(vs));
    SubRead(cfg, st, opt, p);
  }

  lemma TtypePayload(cfg: T.Config, name: seq<byte>)
    ensures T.PayloadEvents(cfg, 24, [0] + name) == [T.TerminalType(0, UpToNul(name))]
    ensures T.PayloadEvents(cfg, 24, [1]) == [T.TerminalType(1, [])]
  {
    assert ([0] + name)[1..] == name;
    NulCut(name);
  }

  /** The name of a terminal, and the question for it. */
  lemma TerminalRead(cfg: T.Config, st: T.St, name: seq<byte>)
    requires st.state.InData? && |name| < 16384
    ensures T.Fold(cfg, st, Sub(24, [0] + name)).1
         == [T.Subnegotiation(24, [0] + name), T.TerminalType(0, UpToNul(name))]
    ensures T.Fold(cfg, st, Sub(24, [1])).1 == [T.Subnegotiation(24, [1]), T.TerminalType(1, [])]
  {
    var answer, question := [0] + name, [1];
    TtypePayload(cfg, name);
    SubRead(cfg, st, 24, answer);
    SubRead(cfg, st, 24, question);
  }

  /** Strings one after the other, each followed by a NUL. */
  function Terminated(args: seq<seq<byte>>): seq<byte> {
    if args == [] then [] else args[0] + [0] + Terminated(args[1..])
  }

  lemma {:induction false} FrameTerminates(args: seq<seq<byte>>)
    ensures Zmp.Frame(args) == Terminated(args)
  {
    if args != [] {
      FrameTerminates(args[1..]);
    }
  }

  /** A ZMP command and its arguments. */
  lemma ZmpRead(cfg: T.Config, st: T.St, args: seq<seq<byte>>)
    requires st.state.InData? && |Terminated(args)| <= 16384
    requires args != [] && forall k :: 0 <= k < |args| ==> 0 !in args[k]
    ensures T.Fold(cfg, st, Sub(93, Terminated(args))).1
         == [T.Subnegotiation(93, Terminated(args)), T.ZmpCommand(args)]
  {
    SubRead(cfg, st, 93, Terminated(args));
    FrameTerminates(args);
    R.ZmpPayload(cfg, args);
  }

  /** What is not well formed is passed on as it is, with a warning that says why. */
  lemma BadPayload(cfg: T.Config, p: seq<byte>)
    ensures p == [] || p[|p| - 1] != 0 ==> T.PayloadEvents(cfg, 93, p) == [T.Warning(T.IncompleteZmp)]
    ensures p == [] ==> T.PayloadEvents(cfg, 24, p) == [T.Warning(T.IncompleteTtype)]
    ensures p != [] && p[0] > 1 ==> T.PayloadEvents(cfg, 24, p) == [T.Warning(T.BadTtype)]
    ensures p != [] && p[0] > 2 ==> T.PayloadEvents(cfg, 39, p) == [T.Warning(T.BadEnviron(InvalidCommand))]
    ensures |p| >= 2 && p[0] <= 2 && p[1] != 0 && p[1] != 3 ==>
              T.PayloadEvents(cfg, 39, p) == [T.Warning(T.BadEnviron(MissingType))]
    ensures T.PayloadEvents(cfg, 36, p) == T.PayloadEvents(cfg, 39, p) && T.PayloadEvents(cfg, 39, []) == []
  {
  }

  /** MSSP has a parser of its own; of any other option the payload is all there is. */
  lemma OtherRead(cfg: T.Config, st: T.St, opt: byte, p: seq<byte>)
    requires st.state.InData? && |p| <= 16384 && opt !in {24, 36, 39, 93}
    ensures T.Fold(cfg, st, Sub(opt, p)).1 == [T.Subnegotiation(opt, p)] + if opt == 70 then cfg.mssp(p) else []
  {
    SubRead(cfg, st, opt, p);
  }

  // ----- stray bytes

  /** A payload that is ended by IAC and a byte other than SE. */
  function Broken(opt: byte, p: seq<byte>, b: byte): seq<byte> { [255, 250, opt] + Doubled(p) + [255, b] }

  lemma PayloadHeld(f: R.StepFn, cfg: T.Config, st: T.St, opt: byte, p: seq<byte>)
    requires T.IsStep(f, cfg) && st.state.InData? && |p| <= 16384
    ensures T.FoldWith(f, st, [255, 250, opt] + Doubled(p)) == (st.(state := T.InSbData, sb := opt, buf := p), [])
  {
    EscapeDoubles(p);
    R.Header(f, cfg, st, opt);
    R.PayloadFits(f, cfg, st.(state := T.InSbData, sb := opt, buf := []), p);
    Seqs.Unit(p);
    T.FoldWithAppend(f, st, [255, 250, opt], Doubled(p));
  }

  lemma BrokenSteps(cfg: T.Config, st: T.St, opt: byte, p: seq<byte>, b: byte)
    requires st.state.InData? && |p| <= 16384
    ensures T.Fold(cfg, st, Broken(opt, p, b))
         == T.Step(cfg, st.(state := T.InSbDataIac, sb := opt, buf := p), b)
  {
    var f: R.StepFn := (x: T.St, c: byte) => T.Step(cfg, x, c);
    var held := st.(state := T.InSbData, sb := opt, buf := p);
    PayloadHeld(f, cfg, st, opt, p);
    T.FoldWithAppend(f, st, [255, 250, opt] + Doubled(p), [255, b]);
    R.TwoSteps(f, held, 255, b);
    Seqs.Unit(T.Step(cfg, held.(state := T.InSbDataIac), b).1);
  }

  lemma AfterStray(cfg: T.Config, st: T.St, b: byte)
    requires st.state.InData?
    ensures T.Fold(cfg, st, [255, b]) == T.AfterIac(st.(state := T.InIac), b)
  {
    R.TwoSteps((x: T.St, c: byte) => T.Step(cfg, x, c), st, 255, b);
    Seqs.Unit(T.AfterIac(st.(state := T.InIac), b).1);
  }

  /** A command of two bytes. */
  lemma CommandRead(cfg: T.Config, st: T.St, b: byte)
    requires st.state.InData? && b < 250
    ensures T.Fold(cfg, st, [255, b]) == (st, [T.Command(b)])
  {
    AfterStray(cfg, st, b);
  }

  /**
   The payload is reported after a warning, and then the byte is read as the command that it is; but after a
   list of variables the tracker waits for another one.
   */
  lemma BrokenRead(cfg: T.Config, st: T.St, opt: byte, p: seq<byte>, b: byte)
    requires st.state.InData? && |p| <= 16384 && b != 240 && b != 255
    ensures var at := st.(sb := opt, buf := []);
            var told := [T.Warning(T.UnexpectedByte(b))] + ([T.Subnegotiation(opt, p)] + T.PayloadEvents(cfg, opt, p));
            T.Fold(cfg, st, Broken(opt, p, b)) ==
            if (opt == 36 || opt == 39) && Parse(p).Accepted? then (at.(state := T.InIac), told)
            else (T.Fold(cfg, at, [255, b]).0, told + T.Fold(cfg, at, [255, b]).1)
  {
    BrokenSteps(cfg, st, opt, p, b);
    AfterStray(cfg, st.(sb := opt, buf := []), b);
  }

  /**
   A tracker is given a list of variables, cut in any way: it raises the two events, keeps its options and is
   ready for more.
   */
  method Receive(t: Telnet.Tracker, opt: byte, cmd: byte, vs: seq<Setting>, cut: seq<byte> -> seq<seq<byte>>)
    requires t.Valid() && t.state.InData? && (opt == 36 || opt == 39) && cmd <= 2
    requires |AllWritten(vs)| < 16384 && !EndsBadly(vs)
    requires forall s :: Telnet.Flatten(cut(s)) == s
    modifies t, t.buffer
    ensures t.Valid() && t.state.InData? && t.Options() == old(t.Options())
    ensures t.Log() == old(t.Log()) + [T.Whole(T.Subnegotiation(opt, [cmd] + AllWritten(vs))),
                                       T.Whole(T.Variables(cmd, AllInC(vs)))]
  {
    ghost var was, st, p := t.events, t.Abs(), [cmd] + AllWritten(vs);
    EnvironRead(t.cfg, st, opt, cmd, vs);
    SubRead(t.cfg, st, opt, p);
    R.ExpandTwo(T.Subnegotiation(opt, p), T.Variables(cmd, AllInC(vs)));
    T.ExpandAppend(was, T.Fold(t.cfg, st, Sub(opt, p)).1);
    t.RecvAll(cut(Sub(opt, [cmd] + AllWritten(vs))));
  }
}
