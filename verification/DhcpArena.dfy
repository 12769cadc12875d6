/**
 The option store of `struct dhcp_msg`: 512 options whose bytes live in one growing arena that is
 reallocated and compacted as options are appended to. It stands for a map from code to bytes.
 */
module DhcpArena {
  import opened Bytes

  const N_OPTIONS := 512
  const PAD: byte := 0
  const END: byte := 255

  /** `struct dhcp_option`: no data pointer, or `n` bytes at an address. */
  datatype Slot = Absent | Segment(buf: array<byte>, off: nat, n: nat)

  function Size(s: Slot): nat { if s.Absent? then 0 else s.n }

  /** Two options share no byte. */
  predicate Disjoint(a: Slot, b: Slot) {
    a.Segment? && b.Segment? && a.n > 0 && b.n > 0 ==> a.off + a.n <= b.off || b.off + b.n <= a.off
  }

  /** Bytes referred to by the first `k` options. */
  function Live(opts: seq<Slot>, k: nat): nat
    requires k <= |opts|
  {
    if k == 0 then 0 else Live(opts, k - 1) + Size(opts[k - 1])
  }

  lemma {:induction false} LiveUpdate(opts: seq<Slot>, code: nat, s: Slot, k: nat)
    requires code < |opts| && k <= |opts|
    ensures Live(opts[code := s], k) == Live(opts, k) + (if code < k then Size(s) - Size(opts[code]) else 0)
  {
    if k > 0 {
      LiveUpdate(opts, code, s, k - 1);
    }
  }

  lemma {:induction false} LiveMonotone(opts: seq<Slot>, j: nat, k: nat)
    requires j <= k <= |opts|
    ensures Live(opts, j) <= Live(opts, k)
  {
    if j < k {
      LiveMonotone(opts, j, k - 1);
    }
  }

  /** What the store means: the options present, and whether an arena has been allocated at all. */
  datatype Store = Store(m: map<nat, seq<byte>>, ready: bool)

  const EMPTY := Store(map[], false)

  function Content(m: map<nat, seq<byte>>, code: nat): seq<byte> {
    if code in m then m[code] else []
  }

  /**
   `dhcp_msg_put`: append to one option. PAD and END are ignored, and so is putting nothing
   before anything was ever stored, because the data pointer stays null.
   */
  function Appended(s: Store, code: nat, d: seq<byte>): Store {
    if code == PAD || code == END || (!s.ready && d == []) then s
    else Store(s.m[code := Content(s.m, code) + d], true)
  }

  // ----- the arena as a value

  /** The arena's bytes and how many of them are in use. */
  datatype Image = Image(mem: seq<byte>, used: nat)

  ghost predicate InImage(s: Slot, data: array<byte>, im: Image, d: seq<byte>) {
    && s.Segment? && s.buf == data && s.off + s.n <= im.used <= |im.mem| && |d| == s.n
    && forall i :: 0 <= i < s.n ==> im.mem[s.off + i] == d[i]
  }

  /** Every segment lies below `used` and holds its bytes, and no two segments overlap. */
  ghost predicate Consistent(opts: seq<Slot>, data: array<byte>, im: Image, m: map<nat, seq<byte>>) {
    && |opts| == N_OPTIONS && im.used <= |im.mem| && Live(opts, N_OPTIONS) <= im.used
    && (forall c :: c in m <==> 0 <= c < N_OPTIONS && opts[c].Segment?)
    && (forall c :: c in m ==> InImage(opts[c], data, im, m[c]))
    && (forall c, e :: 0 <= c < e < N_OPTIONS ==> Disjoint(opts[c], opts[e]))
  }

  /**
   Giving one option a new segment that ends the used part of the arena, and that starts above
   everything or where the option itself ended it, keeps all the others as they were.
   */
  lemma Install(opts: seq<Slot>, data: array<byte>, im: Image, im': Image, code: nat, off: nat, d: seq<byte>,
                m: map<nat, seq<byte>>)
    requires Consistent(opts, data, im, m) && code < N_OPTIONS
    requires |im'.mem| == |im.mem| && im.used <= im'.used == off + |d| <= |im'.mem|
    requires forall i :: 0 <= i < im.used ==> im'.mem[i] == im.mem[i]
    requires forall i :: 0 <= i < |d| ==> im'.mem[off + i] == d[i]
    requires off >= im.used || (opts[code].Segment? && opts[code].off == off && off + opts[code].n == im.used)
    requires Size(opts[code]) <= |d|
    ensures Consistent(opts[code := Segment(data, off, |d|)], data, im', m[code := d])
  {
    var opts' := opts[code := Segment(data, off, |d|)];
    LiveUpdate(opts, code, Segment(data, off, |d|), N_OPTIONS);
    forall c | c in m[code := d] ensures InImage(opts'[c], data, im', m[code := d][c]) {
      if c != code {
        assert InImage(opts[c], data, im, m[c]);
      }
    }
    forall c, e | 0 <= c < e < N_OPTIONS ensures Disjoint(opts'[c], opts'[e]) {
      assert Disjoint(opts[c], opts[e]);
      if c == code && opts[e].Segment? {
        assert InImage(opts[e], data, im, m[e]);
      } else if e == code && opts[c].Segment? {
        assert InImage(opts[c], data, im, m[c]);
      }
    }
  }

  lemma Uninstall(opts: seq<Slot>, data: array<byte>, im: Image, code: nat, m: map<nat, seq<byte>>)
    requires Consistent(opts, data, im, m) && code < N_OPTIONS
    ensures Consistent(opts[code := Absent], data, im, m - {code})
  {
    LiveUpdate(opts, code, Absent, N_OPTIONS);
    var opts' := opts[code := Absent];
    forall c | c in m - {code} ensures InImage(opts'[c], data, im, m[c]) {
      assert InImage(opts[c], data, im, m[c]);
    }
    forall c, e | 0 <= c < e < N_OPTIONS ensures Disjoint(opts'[c], opts'[e]) {
      assert Disjoint(opts[c], opts[e]);
    }
  }

  lemma {:induction false} AllAbsent(opts: seq<Slot>, k: nat)
    requires k <= |opts| && forall c :: 0 <= c < k ==> opts[c].Absent?
    ensures Live(opts, k) == 0
  {
    if k > 0 {
      AllAbsent(opts, k - 1);
    }
  }

  lemma {:induction false} LiveSame(a: seq<Slot>, b: seq<Slot>, k: nat)
    requires k <= |a| == |b| && forall c :: 0 <= c < k ==> Size(a[c]) == Size(b[c])
    ensures Live(a, k) == Live(b, k)
  {
    if k > 0 {
      LiveSame(a, b, k - 1);
    }
  }

  // ----- compaction

  /** An option still pointing into another arena. */
  ghost predicate Elsewhere(s: Slot, data: array<byte>, d: seq<byte>)
    reads if s.Segment? then {s.buf} else {}
  {
    && s.Segment? && s.buf != data && s.off + s.n <= s.buf.Length && |d| == s.n
    && forall i :: 0 <= i < s.n ==> s.buf[s.off + i] == d[i]
  }

  /** An option already packed behind those with smaller codes. */
  predicate Moved(s: Slot, opts: seq<Slot>, c: nat, data: array<byte>)
    requires c < |opts|
  {
    s.Segment? == opts[c].Segment? && (s.Segment? ==> s == Segment(data, Live(opts, c), opts[c].n))
  }

  /** The options before `code` have been moved, the others not yet. */
  ghost predicate AllMoved(options: seq<Slot>, opts: seq<Slot>, code: nat, data: array<byte>) {
    && code <= |opts| == |options|
    && (forall c :: 0 <= c < code ==> Moved(options[c], opts, c, data))
    && (forall c :: code <= c < |opts| ==> options[c] == opts[c])
  }

  lemma MovedMore(options: seq<Slot>, opts: seq<Slot>, code: nat, data: array<byte>)
    requires AllMoved(options, opts, code, data) && code < |opts|
    ensures opts[code].Absent? ==> AllMoved(options, opts, code + 1, data)
    ensures opts[code].Segment? ==>
              AllMoved(options[code := Segment(data, Live(opts, code), opts[code].n)], opts, code + 1, data)
  {
  }

  lemma PackedApart(options: seq<Slot>, opts: seq<Slot>, data: array<byte>)
    requires |options| == |opts| && forall c :: 0 <= c < |opts| ==> Moved(options[c], opts, c, data)
    ensures forall c, e :: 0 <= c < e < |opts| ==> Disjoint(options[c], options[e])
  {
    forall c, e | 0 <= c < e < |opts| ensures Disjoint(options[c], options[e]) {
      LiveMonotone(opts, c + 1, e);
    }
  }

  /** All options packed: the arena is consistent. */
  lemma Packed(options: seq<Slot>, opts: seq<Slot>, data: array<byte>, im: Image, m: map<nat, seq<byte>>)
    requires |options| == |opts| == N_OPTIONS && im.used == Live(opts, N_OPTIONS) <= |im.mem|
    requires forall c :: 0 <= c < N_OPTIONS ==> Moved(options[c], opts, c, data)
    requires forall c :: c in m <==> 0 <= c < N_OPTIONS && opts[c].Segment?
    requires forall c :: c in m ==> InImage(options[c], data, im, m[c])
    ensures Consistent(options, data, im, m)
  {
    LiveSame(opts, options, N_OPTIONS);
    PackedApart(options, opts, data);
  }

  class Arena {
    var data: array?<byte>
    var used: nat
    var options: seq<Slot>
    /** What the store stands for. */
    ghost var store: Store

    ghost predicate Valid()
      reads this, data
    {
      && |options| == N_OPTIONS
      && store.ready == (data != null)
      && (data != null ==> Is(store.m))
      && (data == null ==> used == 0 && store.m == map[] && forall c :: 0 <= c < N_OPTIONS ==> options[c].Absent?)
    }

    /** Once an arena exists: it holds exactly `m`. */
    ghost predicate Is(m: map<nat, seq<byte>>)
      reads this, data
    {
      data != null && Consistent(options, data, Image(data[..], used), m)
    }

    /** `dhcp_msg_init` */
    constructor ()
      ensures Valid() && store == EMPTY && data == null
    {
      data, used := null, 0;
      options := seq(N_OPTIONS, _ => Absent);
      store := EMPTY;
    }

    /** `dhcp_msg_copy`: an independent copy with an arena of its own, just large enough. */
    constructor Copy(src: Arena)
      requires src.Valid()
      ensures Valid() && fresh(data) && store == Store(src.store.m, true)
    {
      data, used := new byte[src.used], 0;
      options := src.options;
      store := Store(src.store.m, true);
      new;
      if src.data == null {
        AllAbsent(options, N_OPTIONS);
      } else {
        assert forall c :: c in store.m ==> InImage(options[c], src.data, Image(src.data[..], src.used), store.m[c]);
      }
      CopyData(store.m);
    }

    /** `append_data` */
    method AppendData(d: seq<byte>) returns (off: nat)
      requires data != null && used + |d| <= data.Length
      modifies this`used, data
      ensures off == old(used) && used == off + |d|
      ensures forall i :: 0 <= i < |d| ==> data[off + i] == d[i]
      ensures forall i :: 0 <= i < off ==> data[i] == old(data[i])
    {
      off := used;
      forall i | 0 <= i < |d| {
        data[off + i] := d[i];
      }
      used := used + |d|;
    }

    /**
     `copy_data`: move every option into the current arena, in order of code. `m` is what the
     options hold in the arena they still point to. The assertion is the one in the source.
     */
    method CopyData(ghost m: map<nat, seq<byte>>)
      requires data != null && |options| == N_OPTIONS
      requires forall c :: c in m <==> 0 <= c < N_OPTIONS && options[c].Segment?
      requires forall c :: c in m ==> Elsewhere(options[c], data, m[c])
      requires Live(options, N_OPTIONS) <= data.Length
      modifies this`used, this`options, data
      ensures Is(m) && used == old(Live(options, N_OPTIONS))
    {
      ghost var opts := options;
      used := 0;
      for code := 0 to N_OPTIONS
        invariant AllMoved(options, opts, code, data) && used == Live(opts, code)
        invariant forall c :: c in m && code <= c ==> Elsewhere(opts[c], data, m[c])
        invariant forall c :: c in m && c < code ==> InImage(options[c], data, Image(data[..], used), m[c])
      {
        LiveMonotone(opts, code + 1, N_OPTIONS);
        MoveNext(code, opts, m);
      }
      Packed(options, opts, data, Image(data[..], used), m);
    }

    /** The turn of `code`. */
    method MoveNext(code: nat, ghost opts: seq<Slot>, ghost m: map<nat, seq<byte>>)
      requires data != null && code < |opts| == N_OPTIONS && AllMoved(options, opts, code, data)
      requires used == Live(opts, code) && Live(opts, code + 1) <= data.Length
      requires code in m <==> opts[code].Segment?
      requires code in m ==> Elsewhere(opts[code], data, m[code])
      requires forall c :: c in m && c < code ==> InImage(options[c], data, Image(data[..], used), m[c])
      modifies this`used, this`options, data
      ensures AllMoved(options, opts, code + 1, data) && used == Live(opts, code + 1)
      ensures forall c :: c in m && c <= code ==> InImage(options[c], data, Image(data[..], used), m[c])
    {
      MovedMore(options, opts, code, data);
      if options[code].Segment? {
        MoveOption(code, m[code], m);
      }
    }

    method MoveOption(code: nat, ghost d: seq<byte>, ghost m: map<nat, seq<byte>>)
      requires data != null && code < |options| == N_OPTIONS
      requires options[code].Segment? && Elsewhere(options[code], data, d)
      requires used + options[code].n <= data.Length
      requires forall c :: c in m && c < code ==>
                             c < N_OPTIONS && InImage(options[c], data, Image(data[..], used), m[c])
      modifies this`used, this`options, data
      ensures options == old(options)[code := Segment(data, old(used), |d|)] && used == old(used) + |d|
      ensures InImage(options[code], data, Image(data[..], used), d)
      ensures forall c :: c in m && c < code ==> InImage(options[c], data, Image(data[..], used), m[c])
    {
      var opt := options[code];
      var bytes := opt.buf[opt.off..opt.off + opt.n];
      assert bytes == d;
      ghost var before := Image(data[..], used);
      var off := AppendData(bytes);
      forall c | c in m && c < code ensures InImage(options[c], data, Image(data[..], used), m[c]) {
        assert InImage(options[c], data, before, m[c]);
      }
      options := options[code := Segment(data, off, opt.n)];
    }

    /** `prealloc_data`: room for `n` more bytes; relocation loses nothing. */
    method Prealloc(n: nat)
      requires Valid()
      modifies this
      ensures store.m == old(store.m) && (data == old(data) || fresh(data)) && Valid()
      ensures data == null <==> n == 0 && old(data) == null
      ensures data != null ==> used + n <= data.Length
      ensures forall c :: 0 <= c < N_OPTIONS ==> Size(options[c]) == old(Size(options[c]))
    {
      var needed := used + n;
      var capacity := if data == null then 0 else data.Length;
      if needed > capacity {
        ghost var m, image, was := store.m, if data == null then Image([], 0) else Image(data[..], used), data;
        var had := data != null;
        assert had ==> forall c :: c in m ==> InImage(options[c], was, image, m[c]);
        data := new byte[if needed * 2 > 64 then needed * 2 else 64];
        store := store.(ready := true);
        if had {
          assert forall c :: c in m ==> Elsewhere(options[c], data, m[c]);
          CopyData(m);
          assert forall c :: c in m ==> InImage(options[c], data, Image(data[..], used), m[c]);
        } else {
          AllAbsent(options, N_OPTIONS);
        }
      }
    }

    /** Bytes for an option that has none yet become its segment, on top of the arena. */
    method PutFirst(code: nat, d: seq<byte>, ghost m: map<nat, seq<byte>>)
      requires Is(m) && code < N_OPTIONS && Size(options[code]) == 0 && used + |d| <= data.Length
      modifies this`used, this`options, data
      ensures Is(m[code := d])
    {
      ghost var image := Image(data[..], used);
      var off := AppendData(d);
      Install(options, data, image, Image(data[..], used), code, off, d, m);
      options := options[code := Segment(data, off, |d|)];
    }

    /** An option with bytes that does not end the arena yet is moved there. */
    method MoveToTop(code: nat, ghost m: map<nat, seq<byte>>)
      requires Is(m) && code < N_OPTIONS && Size(options[code]) > 0 && used + Size(options[code]) <= data.Length
      modifies this`used, this`options, data
      ensures Is(m) && options[code].Segment? && options[code].n == old(options[code].n)
      ensures options[code].off + options[code].n == used <= old(used) + options[code].n
    {
      var opt := options[code];
      ghost var image := Image(data[..], used);
      assert InImage(opt, data, image, m[code]);
      if used - opt.n != opt.off {
        var d := data[opt.off..opt.off + opt.n];
        assert d == m[code];
        var off := AppendData(d);
        Install(options, data, image, Image(data[..], used), code, off, d, m);
        assert m[code := d] == m;
        options := options[code := Segment(data, off, opt.n)];
      }
    }

    /** The option that ends the arena grows in place. */
    method Grow(code: nat, d: seq<byte>, ghost m: map<nat, seq<byte>>)
      requires Is(m) && code < N_OPTIONS && options[code].Segment?
      requires options[code].off + options[code].n == used && used + |d| <= data.Length
      modifies this`used, this`options, data
      ensures code in m && Is(m[code := m[code] + d])
    {
      var opt := options[code];
      ghost var image, all := Image(data[..], used), m[code] + d;
      assert InImage(opt, data, image, m[code]);
      var _ := AppendData(d);
      assert forall i :: 0 <= i < |all| ==> data[opt.off + i] == all[i];
      Install(options, data, image, Image(data[..], used), code, opt.off, all, m);
      options := options[code := Segment(data, opt.off, opt.n + |d|)];
    }

    method Extend(code: nat, d: seq<byte>, ghost m: map<nat, seq<byte>>)
      requires Is(m) && code < N_OPTIONS && used + |d| + Size(options[code]) <= data.Length
      modifies this`used, this`options, data
      ensures Is(m[code := Content(m, code) + d])
    {
      if Size(options[code]) > 0 {
        MoveToTop(code, m);
        Grow(code, d, m);
      } else {
        assert code in m ==> InImage(options[code], data, Image(data[..], used), m[code]);
        assert Content(m, code) + d == d;
        PutFirst(code, d, m);
      }
    }

    /** `dhcp_msg_put` */
    method Put(code: nat, d: seq<byte>)
      requires Valid() && code < N_OPTIONS
      modifies this, data
      ensures Valid() && (data == old(data) || fresh(data))
      ensures store == Appended(old(store), code, d)
    {
      if code == PAD || code == END {
        return;
      }
      Prealloc(|d| + Size(options[code]));
      if data != null {
        ghost var m := store.m;
        Extend(code, d, m);
        store := Store(m[code := Content(m, code) + d], true);
      }
    }

    /** The bytes of an option, if it is there. */
    method Get(code: nat) returns (present: bool, d: seq<byte>)
      requires Valid() && code < N_OPTIONS
      ensures present == (code in store.m) && d == Content(store.m, code)
    {
      var opt := options[code];
      present, d := opt.Segment?, [];
      if present {
        assert InImage(opt, data, Image(data[..], used), store.m[code]);
        d := data[opt.off..opt.off + opt.n];
      }
    }

    /** An option that fails validation is cleared. */
    method Drop(code: nat)
      requires Valid() && code < N_OPTIONS
      modifies this`options, this`store
      ensures Valid() && store == Store(old(store.m) - {code}, old(store.ready))
    {
      if data != null {
        Uninstall(options, data, Image(data[..], used), code, store.m);
      }
      options := options[code := Absent];
      store := store.(m := store.m - {code});
    }
  }
}
