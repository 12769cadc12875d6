/**
 `table-hash.c`: a hash table of exact flows with one flow per bucket. The hash is a parameter: only
 the key's fields enter it, and any function of them will do.
 */
module TableHash {
  import opened FlowKey
  import opened FlowList
  import opened Options
  import opened TableLinear

  type Buckets = seq<Option<Flow>>

  /** The flow found under each key, if any. */
  type Finder = Fields -> Option<Flow>

  /** `find_bucket`: masking with a power of two less one is taking the remainder. */
  function Index(h: Fields -> nat, n: nat, f: Fields): (i: nat)
    requires n > 0
    ensures i < n
  {
    h(f) % n
  }

  /** A bucket holds nothing or an exact flow that hashes to it. */
  ghost predicate Placed(h: Fields -> nat, b: Buckets) {
    |b| > 0 && forall i :: 0 <= i < |b| && b[i].Some? ==> PlacedAt(h, |b|, i, b[i].value)
  }

  ghost predicate PlacedAt(h: Fields -> nat, n: nat, i: nat, x: Flow) {
    n > 0 && WellFormed(x) && IsExact(x) && Index(h, n, x.key.f) == i
  }

  /** `table_hash_lookup` */
  function Find(h: Fields -> nat, b: Buckets, f: Fields): Option<Flow>
    requires |b| > 0
  {
    var x := b[Index(h, |b|, f)];
    if x.Some? && x.value.key.f == f then x else None
  }

  ghost function FindIn(h: Fields -> nat, b: Buckets): Finder
    requires |b| > 0
  {
    (f: Fields) => Find(h, b, f)
  }

  /** Under each key nothing or an exact flow for it. */
  ghost predicate ForKeys(find: Finder) {
    forall f :: find(f).Some? ==> WellFormed(find(f).value) && ExactFor(f)(find(f).value)
  }

  function KeysIn(b: Buckets): seq<Option<Fields>> {
    seq(|b|, i requires 0 <= i < |b| => if b[i].Some? then Some(b[i].value.key.f) else None)
  }

  /** No other key is in the way. */
  predicate Open(h: Fields -> nat, keys: seq<Option<Fields>>, f: Fields)
    requires |keys| > 0
  {
    var k := keys[Index(h, |keys|, f)];
    k.None? || k.value == f
  }

  function CountIf(b: Buckets, p: Flow -> bool): nat {
    if b == [] then 0
    else CountIf(b[..|b| - 1], p) + if Holds(b[|b| - 1], p) then 1 else 0
  }

  predicate Holds(x: Option<Flow>, p: Flow -> bool) { x.Some? && p(x.value) }

  ghost predicate Has(b: Buckets, p: Flow -> bool) { exists i :: 0 <= i < |b| && Holds(b[i], p) }

  ghost predicate Finds(find: Finder, p: Flow -> bool) { exists f :: Holds(find(f), p) }

  function Any(): Flow -> bool { (x: Flow) => true }

  function MapOne(x: Option<Flow>, g: Flow -> Flow): Option<Flow> { if x.Some? then Some(g(x.value)) else None }

  function MapAll(b: Buckets, g: Flow -> Flow): Buckets {
    seq(|b|, i requires 0 <= i < |b| => MapOne(b[i], g))
  }

  function KeepOne(x: Option<Flow>, p: Flow -> bool): Option<Flow> { if Holds(x, p) then x else None }

  function KeepAll(b: Buckets, p: Flow -> bool): Buckets {
    seq(|b|, i requires 0 <= i < |b| => KeepOne(b[i], p))
  }

  function Or(a: Option<Flow>, b: Option<Flow>): Option<Flow> { if a.Some? then a else b }

  // ----- what happens to the flows found under the keys

  ghost predicate Puts(was: Finder, now: Finder, r: Flow) {
    forall f :: now(f) == if f == r.key.f then Some(r) else was(f)
  }

  /** A flow goes to the first of two tables, or else to the second. */
  ghost predicate PutsInto(first: bool, a: Finder, b: Finder,
                           a': Finder, b': Finder, r: Flow) {
    if first then Puts(a, a', r) && b' == b else a' == a && Puts(b, b', r)
  }

  ghost predicate Maps(was: Finder, now: Finder, g: Flow -> Flow) {
    forall f :: now(f) == MapOne(was(f), g)
  }

  ghost predicate Keeps(was: Finder, now: Finder, p: Flow -> bool) {
    forall f :: now(f) == KeepOne(was(f), p)
  }

  // ----- copies

  function ExactFor(f: Fields): Flow -> bool { (x: Flow) => IsExact(x) && x.key.f == f }

  /** Copies of a flow stand or fall together. */
  ghost predicate ByIdentity(p: Flow -> bool) {
    forall x: Flow, y: Flow :: x.key == y.key && x.priority == y.priority ==> p(x) == p(y)
  }

  lemma SelectsByIdentity(d: Key, priority: nat, strict: bool)
    ensures ByIdentity(Selects(d, priority, strict)) && ByIdentity(Not(Selects(d, priority, strict)))
  {
  }

  lemma DeletesByIdentity(d: Key, priority: nat, strict: bool)
    ensures ByIdentity(Deletes(d, None, priority, strict)) && ByIdentity(Not(Deletes(d, None, priority, strict)))
  {
    assert forall x: Flow :: Deletes(d, None, priority, strict)(x) == Selects(d, priority, strict)(x);
  }

  lemma ConflictsByIdentity(d: Key, priority: nat, strict: bool)
    ensures ByIdentity(ConflictsWith(d, priority, strict))
  {
  }

  function ConflictsWith(d: Key, priority: nat, strict: bool): Flow -> bool {
    (x: Flow) => Conflicts(x, d, priority, strict)
  }

  lemma KeepOr(a: Option<Flow>, b: Option<Flow>, p: Flow -> bool, f: Fields)
    requires ByIdentity(p)
    requires a.Some? ==> WellFormed(a.value) && ExactFor(f)(a.value)
    requires b.Some? ==> WellFormed(b.value) && ExactFor(f)(b.value)
    ensures Or(KeepOne(a, p), KeepOne(b, p)) == KeepOne(Or(a, b), p)
  {
    if a.Some? && b.Some? {
      SameExact(a.value.key, b.value.key);
    }
  }

  // ----- counting

  lemma {:induction false} CountUpdate(b: Buckets, k: nat, x: Option<Flow>, p: Flow -> bool)
    requires k < |b|
    ensures CountIf(b[k := x], p) + (if Holds(b[k], p) then 1 else 0) == CountIf(b, p) + (if Holds(x, p) then 1 else 0)
  {
    var n := |b| - 1;
    if k < n {
      CountUpdate(b[..n], k, x, p);
      assert b[k := x][..n] == b[..n][k := x];
    } else {
      assert b[k := x][..n] == b[..n];
    }
  }

  lemma {:induction false} CountNone(b: Buckets, p: Flow -> bool)
    requires forall i :: 0 <= i < |b| ==> !Holds(b[i], p)
    ensures CountIf(b, p) == 0
  {
    if b != [] {
      CountNone(b[..|b| - 1], p);
    }
  }

  lemma CountOne(b: Buckets, k: nat, p: Flow -> bool)
    requires k < |b| && forall i :: 0 <= i < |b| && i != k ==> !Holds(b[i], p)
    ensures CountIf(b, p) == if Holds(b[k], p) then 1 else 0
  {
    CountUpdate(b, k, None, p);
    CountNone(b[k := None], p);
  }

  lemma {:induction false} CountSome(b: Buckets, k: nat, p: Flow -> bool)
    requires k < |b| && Holds(b[k], p)
    ensures CountIf(b, p) > 0
  {
    if k < |b| - 1 {
      CountSome(b[..|b| - 1], k, p);
    }
  }

  lemma CountPositive(b: Buckets, p: Flow -> bool)
    ensures CountIf(b, p) > 0 <==> Has(b, p)
  {
    if i :| 0 <= i < |b| && Holds(b[i], p) {
      CountSome(b, i, p);
    } else {
      CountNone(b, p);
    }
  }

  lemma {:induction false} CountMap(b: Buckets, g: Flow -> Flow)
    ensures CountIf(MapAll(b, g), Any()) == CountIf(b, Any())
  {
    if b != [] {
      var n := |b| - 1;
      CountMap(b[..n], g);
      assert MapAll(b, g)[..n] == MapAll(b[..n], g);
    }
  }

  lemma {:induction false} CountKeep(b: Buckets, p: Flow -> bool)
    ensures CountIf(KeepAll(b, Not(p)), Any()) == CountIf(b, Any()) - CountIf(b, p)
  {
    if b != [] {
      var n := |b| - 1;
      CountKeep(b[..n], p);
      assert KeepAll(b, Not(p))[..n] == KeepAll(b[..n], Not(p));
    }
  }

  lemma CountStep(b: Buckets, k: nat, p: Flow -> bool)
    requires k < |b|
    ensures CountIf(b[..k + 1], p) == CountIf(b[..k], p) + if Holds(b[k], p) then 1 else 0
  {
    assert b[..k + 1][..k] == b[..k];
  }

  // ----- lookups after an update

  lemma FindPut(h: Fields -> nat, b: Buckets, r: Flow)
    requires Placed(h, b) && WellFormed(r) && IsExact(r)
    requires var x := b[Index(h, |b|, r.key.f)]; x.Some? ==> x.value.key.f == r.key.f
    ensures var c := b[Index(h, |b|, r.key.f) := Some(r)];
            Placed(h, c) && forall f :: Find(h, c, f) == if f == r.key.f then Some(r) else Find(h, b, f)
  {
  }

  lemma FindMap(h: Fields -> nat, b: Buckets, sel: Flow -> bool, acts: Acts)
    requires Placed(h, b)
    ensures var c := MapAll(b, Updating(sel, acts));
            Placed(h, c) && forall f :: Find(h, c, f) == MapOne(Find(h, b, f), Updating(sel, acts))
  {
  }

  lemma KeysMap(b: Buckets, sel: Flow -> bool, acts: Acts)
    ensures KeysIn(MapAll(b, Updating(sel, acts))) == KeysIn(b)
  {
  }

  lemma FindKeep(h: Fields -> nat, b: Buckets, p: Flow -> bool)
    requires Placed(h, b)
    ensures var c := KeepAll(b, p);
            Placed(h, c) && forall f :: Find(h, c, f) == KeepOne(Find(h, b, f), p)
  {
  }

  /** A selection by exact key concerns one bucket. */
  lemma SelectsExact(x: Flow, d: Key, priority: nat, strict: bool)
    requires WellFormed(x) && IsExact(x) && Normal(d) && d.w == EXACT
    ensures Selects(d, priority, strict)(x) <==> x.key.f == d.f && (strict ==> priority == EXACT_PRIORITY)
  {
    ExactMatches(x.key.f, d);
  }

  lemma ElsewhereUnselected(h: Fields -> nat, b: Buckets, d: Key, priority: nat, strict: bool)
    requires Placed(h, b) && Normal(d) && d.w == EXACT
    ensures forall i :: 0 <= i < |b| && i != Index(h, |b|, d.f) ==> !Holds(b[i], Selects(d, priority, strict))
  {
    forall i | 0 <= i < |b| && i != Index(h, |b|, d.f) ensures !Holds(b[i], Selects(d, priority, strict)) {
      if b[i].Some? {
        SelectsExact(b[i].value, d, priority, strict);
      }
    }
  }

  /** The hash table's test for a delete, which leaves out the priority. */
  predicate DeletesHere(x: Flow, d: Key, out: Option<nat>, strict: bool) {
    MatchesDesc(x.key, d, strict) && HasOutPort(x.acts, out)
  }

  /** `struct sw_table_hash` */
  class Hash {
    const hash: Fields -> nat
    const buckets: array<Option<Flow>>
    var nFlows: nat
    /** The flow found under each key. */
    ghost var find: Finder

    ghost predicate Valid()
      reads this, buckets
    {
      && Placed(hash, buckets[..]) && nFlows == CountIf(buckets[..], Any())
      && find == FindIn(hash, buckets[..]) && ForKeys(find)
    }

    constructor (hash: Fields -> nat, n: nat)
      requires n > 0
      ensures Valid() && fresh(buckets) && nFlows == 0
      ensures forall i :: 0 <= i < |buckets[..]| ==> buckets[..][i].None?
      ensures forall f :: find(f).None?
      ensures this.hash == hash && buckets.Length == n
    {
      this.hash := hash;
      buckets := new Option<Flow>[n](_ => None);
      nFlows := 0;
      new;
      CountNone(buckets[..], Any());
      find := FindIn(hash, buckets[..]);
    }

    /** The flow is exact, and no other key holds its bucket. */
    ghost predicate Takes(r: Flow)
      requires Valid()
      reads this, buckets
    {
      IsExact(r) && Open(hash, KeysIn(buckets[..]), r.key.f)
    }

    method Lookup(p: Fields) returns (r: Option<Flow>)
      requires Valid()
      ensures r == find(p)
    {
      var i := Index(hash, buckets.Length, p);
      r := if buckets[i].Some? && buckets[i].value.key.f == p then buckets[i] else None;
    }

    /** `table_hash_insert` */
    method Insert(r: Flow) returns (ok: bool)
      requires Valid() && WellFormed(r)
      modifies this, buckets
      ensures Valid()
      ensures ok <==> IsExact(r) && Open(hash, KeysIn(old(buckets[..])), r.key.f)
      ensures !ok ==> buckets[..] == old(buckets[..]) && find == old(find)
      ensures ok ==> Puts(old(find), find, r)
      ensures nFlows == old(nFlows) + if ok && old(find)(r.key.f).None? then 1 else 0
    {
      if !IsExact(r) {
        return false;
      }
      var i := Index(hash, buckets.Length, r.key.f);
      if buckets[i].None? {
        ok := true;
        nFlows := nFlows + 1;
      } else {
        ok := buckets[i].value.key.f == r.key.f;
      }
      if ok {
        FindPut(hash, buckets[..], r);
        CountUpdate(buckets[..], i, Some(r), Any());
        buckets[i] := Some(r);
        assert buckets[..] == old(buckets[..])[i := Some(r)];
        find := FindIn(hash, buckets[..]);
      }
    }

    /** `table_hash_modify` */
    method Modify(d: NormalKey, priority: nat, strict: bool, acts: Acts) returns (count: nat)
      requires Valid()
      modifies this, buckets
      ensures Valid()
      ensures buckets[..] == MapAll(old(buckets[..]), Updating(Selects(d, priority, strict), acts))
      ensures count == CountIf(old(buckets[..]), Selects(d, priority, strict))
      ensures Maps(old(find), find, Updating(Selects(d, priority, strict), acts))
      ensures KeysIn(buckets[..]) == KeysIn(old(buckets[..]))
    {
      var sel := Selects(d, priority, strict);
      ghost var was := buckets[..];
      FindMap(hash, was, sel, acts);
      CountMap(was, Updating(sel, acts));
      KeysMap(was, sel, acts);
      count := 0;
      if d.w == EXACT {
        var i := Index(hash, buckets.Length, d.f);
        ElsewhereUnselected(hash, was, d, priority, strict);
        CountOne(was, i, sel);
        if buckets[i].Some? && sel(buckets[i].value) {
          buckets[i] := Some(buckets[i].value.(acts := acts));
          count := 1;
        }
        assert buckets[..] == MapAll(was, Updating(sel, acts));
      } else {
        count := ModifyAll(sel, acts);
      }
      find := FindIn(hash, buckets[..]);
    }

    method ModifyAll(sel: Flow -> bool, acts: Acts) returns (count: nat)
      modifies buckets
      ensures buckets[..] == MapAll(old(buckets[..]), Updating(sel, acts))
      ensures count == CountIf(old(buckets[..]), sel)
    {
      ghost var was := buckets[..];
      count := 0;
      for i := 0 to buckets.Length
        invariant forall j :: 0 <= j < i ==> buckets[j] == MapOne(was[j], Updating(sel, acts))
        invariant forall j :: i <= j < buckets.Length ==> buckets[j] == was[j]
        invariant count == CountIf(was[..i], sel)
      {
        CountStep(was, i, sel);
        if buckets[i].Some? && sel(buckets[i].value) {
          buckets[i] := Some(buckets[i].value.(acts := acts));
          count := count + 1;
        }
      }
      assert was[..buckets.Length] == was;
    }

    /** `table_hash_delete`; the priority of an exact flow is not looked at. */
    method Delete(d: NormalKey, out: Option<nat>, priority: nat, strict: bool) returns (count: nat)
      requires Valid() && (strict && d.w == EXACT ==> priority == EXACT_PRIORITY)
      modifies this, buckets
      ensures Valid()
      ensures buckets[..] == KeepAll(old(buckets[..]), Not(Deletes(d, out, priority, strict)))
      ensures count == CountIf(old(buckets[..]), Deletes(d, out, priority, strict))
      ensures Keeps(old(find), find, Not(Deletes(d, out, priority, strict)))
    {
      ghost var sel := Deletes(d, out, priority, strict);
      ghost var was := buckets[..];
      FindKeep(hash, was, Not(sel));
      CountKeep(was, sel);
      count := 0;
      if d.w == EXACT {
        var i := Index(hash, buckets.Length, d.f);
        ElsewhereUnselected(hash, was, d, priority, strict);
        CountOne(was, i, sel);
        if buckets[i].Some? {
          SelectsExact(buckets[i].value, d, priority, strict);
          if buckets[i].value.key.f == d.f && HasOutPort(buckets[i].value.acts, out) {
            buckets[i] := None;
            count := 1;
          }
        }
        assert buckets[..] == KeepAll(was, Not(sel));
      } else {
        SelectsWild(hash, was, d, priority, strict);
        count := DeleteAll(d, out, strict, sel);
      }
      nFlows := nFlows - count;
      find := FindIn(hash, buckets[..]);
    }

    method DeleteAll(d: NormalKey, out: Option<nat>, strict: bool, ghost sel: Flow -> bool) returns (count: nat)
      requires forall i :: 0 <= i < buckets.Length && buckets[i].Some? ==>
                             (sel(buckets[i].value) <==> DeletesHere(buckets[i].value, d, out, strict))
      modifies buckets
      ensures buckets[..] == KeepAll(old(buckets[..]), Not(sel))
      ensures count == CountIf(old(buckets[..]), sel)
    {
      ghost var was := buckets[..];
      count := 0;
      for i := 0 to buckets.Length
        invariant forall j :: 0 <= j < i ==> buckets[j] == KeepOne(was[j], Not(sel))
        invariant forall j :: i <= j < buckets.Length ==> buckets[j] == was[j]
        invariant count == CountIf(was[..i], sel)
      {
        CountStep(was, i, sel);
        if buckets[i].Some? && DeletesHere(buckets[i].value, d, out, strict) {
          buckets[i] := None;
          count := count + 1;
        }
      }
      assert was[..buckets.Length] == was;
    }

    /** `table_hash_has_conflict` */
    method HasConflict(d: NormalKey, priority: nat, strict: bool) returns (found: bool)
      requires Valid()
      ensures found <==> Finds(find, ConflictsWith(d, priority, strict))
    {
      HasIffFinds(hash, buckets[..], ConflictsWith(d, priority, strict));
      ghost var p := ConflictsWith(d, priority, strict);
      ghost var b := buckets[..];
      if d.w == EXACT {
        var i := Index(hash, buckets.Length, d.f);
        found := buckets[i].Some? && Conflicts(buckets[i].value, d, priority, strict);
        assert found <==> Holds(b[i], p);
        ConflictsExact(hash, b, d, priority, strict);
      } else {
        for i := 0 to buckets.Length
          invariant forall j :: 0 <= j < i ==> !Holds(b[j], p)
        {
          if buckets[i].Some? && Conflicts(buckets[i].value, d, priority, strict) {
            assert Holds(b[i], p);
            return true;
          }
        }
        return false;
      }
    }
  }

  lemma ConflictsExact(h: Fields -> nat, b: Buckets, d: NormalKey, priority: nat, strict: bool)
    requires Placed(h, b) && Normal(d) && d.w == EXACT
    ensures forall j :: 0 <= j < |b| && Holds(b[j], ConflictsWith(d, priority, strict)) ==> j == Index(h, |b|, d.f)
  {
    forall j | 0 <= j < |b| && Holds(b[j], ConflictsWith(d, priority, strict)) ensures j == Index(h, |b|, d.f) {
      SameExact(b[j].value.key, d);
    }
  }

  /** The hash table's scan leaves out the priority, which decides nothing there. */
  lemma SelectsWild(h: Fields -> nat, b: Buckets, d: NormalKey, priority: nat, strict: bool)
    requires Placed(h, b) && d.w != EXACT
    ensures forall i :: 0 <= i < |b| && b[i].Some? ==>
                          (Selects(d, priority, strict)(b[i].value) <==> MatchesDesc(b[i].value.key, d, strict))
  {
  }

  /** A table holds such a flow exactly if a lookup finds one. */
  lemma HasIffFinds(h: Fields -> nat, b: Buckets, p: Flow -> bool)
    requires Placed(h, b)
    ensures Finds(FindIn(h, b), p) <==> Has(b, p)
  {
    if i: nat :| i < |b| && Holds(b[i], p) {
      assert Find(h, b, b[i].value.key.f) == b[i];
      assert Holds(FindIn(h, b)(b[i].value.key.f), p);
    }
    if f :| Holds(FindIn(h, b)(f), p) {
      assert Holds(b[Index(h, |b|, f)], p);
    }
  }

  /** The first flow for a key in two tables. */
  ghost function Both(a: Finder, b: Finder): Finder {
    (f: Fields) => Or(a(f), b(f))
  }

  /** One of the two tables holds such a flow: so does a lookup by key, if copies pass the test together. */
  lemma FindsBoth(a: Finder, b: Finder, p: Flow -> bool)
    requires ForKeys(a) && ForKeys(b) && ByIdentity(p)
    ensures Finds(Both(a, b), p) <==> Finds(a, p) || Finds(b, p)
  {
    if f :| Holds(a(f), p) {
      assert Holds(Both(a, b)(f), p);
    }
    if f :| Holds(b(f), p) {
      if a(f).Some? {
        SameExact(a(f).value.key, b(f).value.key);
      }
      assert Holds(Both(a, b)(f), p);
    }
    if f :| Holds(Both(a, b)(f), p) {
      assert Holds(a(f), p) || Holds(b(f), p);
    }
  }

  lemma KeepsBoth(a: Finder, b: Finder, a': Finder, b': Finder,
                  p: Flow -> bool)
    requires ForKeys(a) && ForKeys(b) && ByIdentity(p) && Keeps(a, a', p) && Keeps(b, b', p)
    ensures Keeps(Both(a, b), Both(a', b'), p)
  {
    forall f ensures Both(a', b')(f) == KeepOne(Both(a, b)(f), p) {
      KeepOr(a(f), b(f), p, f);
    }
  }

  /** `struct sw_table_hash2` */
  class Hash2 {
    const sub0: Hash
    const sub1: Hash
    /** The flow found under each key. */
    ghost var find: Finder

    ghost function Repr(): set<object> { {this, sub0, sub0.buckets, sub1, sub1.buckets} }

    ghost predicate Valid()
      reads Repr()
    {
      sub0 != sub1 && sub0.buckets != sub1.buckets && sub0.Valid() && sub1.Valid()
      && find == Both(sub0.find, sub1.find)
    }

    /** How many flows the two tables hold, older copies included. */
    ghost function Entries(): nat
      reads Repr()
    {
      sub0.nFlows + sub1.nFlows
    }

    /** One of the two tables holds such a flow, older copies included. */
    ghost predicate Contains(p: Flow -> bool)
      reads Repr()
    {
      Finds(sub0.find, p) || Finds(sub1.find, p)
    }

    ghost predicate HasRoom(r: Flow)
      requires Valid()
      reads Repr()
    {
      IsExact(r) && (Open(sub0.hash, Keys().0, r.key.f) || Open(sub1.hash, Keys().1, r.key.f))
    }

    /** The keys in the buckets of the two tables. */
    ghost function Keys(): (seq<Option<Fields>>, seq<Option<Fields>>)
      reads Repr()
    {
      (KeysIn(sub0.buckets[..]), KeysIn(sub1.buckets[..]))
    }

    constructor (h0: Fields -> nat, h1: Fields -> nat, n: nat)
      requires n > 0
      ensures Valid() && fresh(Repr())
      ensures forall f :: find(f).None?
      ensures sub0.buckets.Length == sub1.buckets.Length == n && sub0.hash == h0 && sub1.hash == h1
    {
      sub0 := new Hash(h0, n);
      sub1 := new Hash(h1, n);
      new;
      find := Both(sub0.find, sub1.find);
    }

    /** `table_hash2_lookup` */
    method Lookup(p: Fields) returns (r: Option<Flow>)
      requires Valid()
      ensures r == find(p)
    {
      r := sub0.Lookup(p);
      if r.None? {
        r := sub1.Lookup(p);
      }
    }

    /** `table_hash2_insert`: a table that takes the flow may leave an older copy in the other. */
    method Insert(r: Flow) returns (ok: bool)
      requires Valid() && WellFormed(r)
      modifies Repr()
      ensures Valid()
      ensures ok <==> old(HasRoom(r))
      ensures ok ==> Puts(old(find), find, r)
      ensures ok ==> PutsInto(old(sub0.Takes(r)), old(sub0.find), old(sub1.find), sub0.find, sub1.find, r)
      ensures !ok ==> sub0.find == old(sub0.find) && sub1.find == old(sub1.find)
      ensures !ok ==> find == old(find) && (IsExact(r) ==> find(r.key.f).None?)
      ensures !ok ==> Entries() == old(Entries())
      ensures ok && old(find)(r.key.f).None? ==> Entries() == old(Entries()) + 1
    {
      ok := sub0.Insert(r);
      if !ok {
        ok := sub1.Insert(r);
      }
      find := Both(sub0.find, sub1.find);
    }

    /** Counting in both tables finds out whether they hold such a flow. */
    lemma CountsTell(p: Flow -> bool)
      requires Valid()
      ensures CountIf(sub0.buckets[..], p) + CountIf(sub1.buckets[..], p) > 0 <==> Contains(p)
    {
      HasIffFinds(sub0.hash, sub0.buckets[..], p);
      HasIffFinds(sub1.hash, sub1.buckets[..], p);
      CountPositive(sub0.buckets[..], p);
      CountPositive(sub1.buckets[..], p);
    }

    /** `table_hash2_modify` */
    method Modify(d: NormalKey, priority: nat, strict: bool, acts: Acts) returns (count: nat)
      requires Valid()
      modifies Repr()
      ensures Valid()
      ensures Maps(old(find), find, Updating(Selects(d, priority, strict), acts))
      ensures count > 0 <==> Finds(old(find), Selects(d, priority, strict))
      ensures Keys() == old(Keys())
    {
      CountsTell(Selects(d, priority, strict));
      SelectsByIdentity(d, priority, strict);
      FindsBoth(sub0.find, sub1.find, Selects(d, priority, strict));
      var count0 := sub0.Modify(d, priority, strict, acts);
      var count1 := sub1.Modify(d, priority, strict, acts);
      find := Both(sub0.find, sub1.find);
      count := count0 + count1;
    }

    /** `table_hash2_delete`: for any port no older copy comes to light. */
    method Delete(d: NormalKey, out: Option<nat>, priority: nat, strict: bool) returns (count: nat)
      requires Valid() && (strict && d.w == EXACT ==> priority == EXACT_PRIORITY)
      modifies Repr()
      ensures Valid()
      ensures Keeps(old(sub0.find), sub0.find, Not(Deletes(d, out, priority, strict)))
      ensures Keeps(old(sub1.find), sub1.find, Not(Deletes(d, out, priority, strict)))
      ensures out.None? ==> Keeps(old(find), find, Not(Deletes(d, out, priority, strict)))
      ensures count > 0 <==> old(Contains(Deletes(d, out, priority, strict)))
    {
      CountsTell(Deletes(d, out, priority, strict));
      ghost var a, b := sub0.find, sub1.find;
      var count0 := sub0.Delete(d, out, priority, strict);
      var count1 := sub1.Delete(d, out, priority, strict);
      find := Both(sub0.find, sub1.find);
      count := count0 + count1;
      if out.None? {
        DeletesByIdentity(d, priority, strict);
        KeepsBoth(a, b, sub0.find, sub1.find, Not(Deletes(d, None, priority, strict)));
      }
    }

    /** `table_hash2_has_conflict` */
    method HasConflict(d: NormalKey, priority: nat, strict: bool) returns (found: bool)
      requires Valid()
      ensures found <==> Finds(find, ConflictsWith(d, priority, strict))
    {
      ConflictsByIdentity(d, priority, strict);
      FindsBoth(sub0.find, sub1.find, ConflictsWith(d, priority, strict));
      found := sub0.HasConflict(d, priority, strict);
      if !found {
        found := sub1.HasConflict(d, priority, strict);
      }
    }
  }
}
