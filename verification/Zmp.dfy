/** ZMP frames: one or more NUL-terminated arguments, and `_zmp_telnet`, which finds them. */
module Zmp {
  import opened Bytes
  import opened Environ
  import opened Seqs

  /** What a sender puts between IAC SB ZMP and IAC SE, before escaping. */
  function Frame(args: seq<seq<byte>>): seq<byte> {
    if args == [] then [] else args[0] + [0] + Frame(args[1..])
  }

  /** The arguments of a frame. */
  function Split(p: seq<byte>): seq<seq<byte>> {
    if p == [] then []
    else
      var a := CString(p);
      if |a| == |p| then [a] else [a] + Split(p[|a| + 1..])
  }

  lemma {:induction false} FrameSnoc(args: seq<seq<byte>>, a: seq<byte>)
    ensures Frame(args + [a]) == Frame(args) + (a + [0])
  {
    if args == [] {
      assert (args + [a])[1..] == [];
      Unit(a + [0]);
    } else {
      assert (args + [a])[1..] == args[1..] + [a];
      FrameSnoc(args[1..], a);
      Assoc(args[0] + [0], Frame(args[1..]), a + [0]);
    }
  }

  predicate NulFree(a: seq<byte>) { forall i :: 0 <= i < |a| ==> a[i] != 0 }

  lemma {:induction false} CStringOfTerminated(a: seq<byte>, rest: seq<byte>)
    requires NulFree(a)
    ensures CString(a + [0] + rest) == a
  {
    var w := a + [0] + rest;
    if a != [] {
      assert w[1..] == a[1..] + [0] + rest;
      CStringOfTerminated(a[1..], rest);
    }
  }

  lemma SplitTerminated(a: seq<byte>, rest: seq<byte>)
    requires NulFree(a)
    ensures Split(a + [0] + rest) == [a] + Split(rest)
  {
    CStringOfTerminated(a, rest);
    assert (a + [0] + rest)[|a| + 1..] == rest;
  }

  /** Splitting undoes framing. */
  lemma {:induction false} SplitFrame(args: seq<seq<byte>>)
    requires forall k :: 0 <= k < |args| ==> NulFree(args[k])
    ensures Split(Frame(args)) == args
    ensures args != [] ==> Frame(args) != [] && Frame(args)[|Frame(args)| - 1] == 0
  {
    if args != [] {
      SplitTerminated(args[0], Frame(args[1..]));
      SplitFrame(args[1..]);
    }
  }

  /** The argument found at `c` is the next one of the frame. */
  lemma SplitStep(p: seq<byte>, c: nat, n: nat)
    requires c + n < |p| && p[c + n] == 0 && NulFree(p[c..c + n])
    ensures Split(p[c..]) == [p[c..c + n]] + Split(p[c + n + 1..])
  {
    assert p[c..] == p[c..c + n] + [0] + p[c + n + 1..];
    SplitTerminated(p[c..c + n], p[c + n + 1..]);
  }

  /** `strlen` at an offset of a buffer whose last byte is NUL. */
  method StrLen(buffer: seq<byte>, off: nat) returns (n: nat)
    requires off < |buffer| && buffer[|buffer| - 1] == 0
    ensures off + n < |buffer| && buffer[off + n] == 0 && NulFree(buffer[off..off + n])
  {
    n := 0;
    while buffer[off + n] != 0
      invariant off + n < |buffer| && forall j :: off <= j < off + n ==> buffer[j] != 0
      decreases |buffer| - n
    {
      n := n + 1;
    }
  }

  /** Where the arguments found so far leave off. */
  ghost predicate Collected(buffer: seq<byte>, all: seq<seq<byte>>, args: seq<seq<byte>>, c: nat) {
    c <= |buffer| && forall rest {:trigger args + rest} :: rest == Split(buffer[c..]) ==> all == args + rest
  }

  lemma CollectStart(buffer: seq<byte>)
    ensures Collected(buffer, Split(buffer), [], 0)
  {
    assert buffer[0..] == buffer;
    Unit(Split(buffer));
  }

  lemma CollectEnd(buffer: seq<byte>, all: seq<seq<byte>>, args: seq<seq<byte>>)
    requires Collected(buffer, all, args, |buffer|)
    ensures args == all
  {
    assert buffer[|buffer|..] == [];
    Unit(args);
  }

  lemma CollectStep(buffer: seq<byte>, all: seq<seq<byte>>, args: seq<seq<byte>>, c: nat, n: nat)
    requires Collected(buffer, all, args, c)
    requires c + n < |buffer| && buffer[c + n] == 0 && NulFree(buffer[c..c + n])
    ensures Collected(buffer, all, args + [buffer[c..c + n]], c + n + 1)
  {
    var a, rest := buffer[c..c + n], Split(buffer[c + n + 1..]);
    SplitStep(buffer, c, n);
    assert all == args + Split(buffer[c..]);
    Assoc(args, [a], rest);
  }

  /** As long as arguments are missing there are bytes left; when none are, all have been found. */
  lemma MoreToCome(buffer: seq<byte>, all: seq<seq<byte>>, args: seq<seq<byte>>, c: nat)
    requires Collected(buffer, all, args, c)
    ensures |args| < |all| ==> c < |buffer|
    ensures |args| == |all| ==> args == all
  {
    var rest := Split(buffer[c..]);
    assert all == args + rest;
    if rest == [] {
      Unit(args);
    }
  }

  /** The argument at `c` is measured, and is the next one of the frame. */
  method NextArg(buffer: seq<byte>, c: nat, ghost all: seq<seq<byte>>, ghost args: seq<seq<byte>>) returns (n: nat)
    requires c < |buffer| && buffer[|buffer| - 1] == 0 && Collected(buffer, all, args, c)
    ensures c + n < |buffer| && Collected(buffer, all, args + [buffer[c..c + n]], c + n + 1)
  {
    n := StrLen(buffer, c);
    CollectStep(buffer, all, args, c, n);
  }

  /** The counting pass of `_zmp_telnet`. */
  method CountArgs(buffer: seq<byte>, ghost all: seq<seq<byte>>) returns (argc: nat)
    requires buffer != [] && buffer[|buffer| - 1] == 0 && Collected(buffer, all, [], 0)
    ensures argc == |all|
  {
    argc := 0;
    var c := 0;
    ghost var args := [];
    while c != |buffer|
      invariant 0 <= c <= |buffer| && |args| == argc && Collected(buffer, all, args, c)
      decreases |buffer| - c
    {
      var n := NextArg(buffer, c, all, args);
      args := args + [buffer[c..c + n]];
      c, argc := c + n + 1, argc + 1;
    }
    CollectEnd(buffer, all, args);
  }

  /** The second pass: each argument in turn. */
  method CollectArgs(buffer: seq<byte>, argc: nat, ghost all: seq<seq<byte>>) returns (args: seq<seq<byte>>)
    requires buffer != [] && buffer[|buffer| - 1] == 0 && Collected(buffer, all, [], 0) && argc == |all|
    ensures args == all
  {
    args := [];
    var c := 0;
    for i := 0 to argc
      invariant 0 <= c <= |buffer| && |args| == i && Collected(buffer, all, args, c)
    {
      MoreToCome(buffer, all, args, c);
      var n := NextArg(buffer, c, all, args);
      args := args + [buffer[c..c + n]];
      c := c + n + 1;
    }
    MoreToCome(buffer, all, args, c);
  }

  /** `_zmp_telnet`; `ok` is false for an incomplete frame. */
  method Parse(buffer: seq<byte>) returns (ok: bool, args: seq<seq<byte>>)
    ensures ok <==> buffer != [] && buffer[|buffer| - 1] == 0
    ensures ok ==> args == Split(buffer)
  {
    args := [];
    ok := |buffer| > 0 && buffer[|buffer| - 1] == 0;
    if ok {
      CollectStart(buffer);
      var argc := CountArgs(buffer, Split(buffer));
      args := CollectArgs(buffer, argc, Split(buffer));
    }
  }
}
