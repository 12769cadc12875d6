/**
 A delete by output port that leaves an older copy of a flow: the copy was put in the second hash table
 while the first was taken, and has other actions than the flow that replaced it.
 */
module OlderCopy {
  import opened FlowKey
  import opened FlowList
  import opened Options
  import opened TableLinear
  import opened TableHash
  import opened Chain

  const PORT := 2

  const BLOCKER := Flow(NULL_KEY.(f := NULL_KEY.f.(inPort := 1)), EXACT_PRIORITY, [], 0, 0)
  const OLDER := Flow(NULL_KEY, EXACT_PRIORITY, [Output(1)], 0, 0)
  const NEWER := OLDER.(acts := [Output(PORT)])

  function OnlyFor(x: Option<Flow>, f: Fields): Option<Flow> { if x.Some? && x.value.key.f == f then x else None }

  /** Hash tables holding these flows, and nothing in the list. */
  ghost predicate Holding(c: Chain, x: Option<Flow>, y: Option<Flow>)
    reads c, c.hash2, c.hash2.Repr(), c.linear, c.emerg
  {
    && c.Valid() && c.linear.rules == []
    && (forall f :: c.hash2.sub0.find(f) == OnlyFor(x, f))
    && (forall f :: c.hash2.sub1.find(f) == OnlyFor(y, f))
  }

  /** A table with one flow takes any exact flow but for another key in the same bucket. */
  lemma OneFlow(h: Hash, x: Option<Flow>, r: Flow)
    requires h.Valid() && IsExact(r) && forall f :: h.find(f) == OnlyFor(x, f)
    ensures h.Takes(r) <==> x.None? || x.value.key.f == r.key.f || !SameBucket(h.hash, h.buckets.Length, x.value, r)
  {
    var b, i := h.buckets[..], Index(h.hash, h.buckets.Length, r.key.f);
    if b[i].Some? {
      assert PlacedAt(h.hash, |b|, i, b[i].value);
      assert h.find(b[i].value.key.f) == b[i];
    }
    if x.Some? {
      assert h.find(x.value.key.f) == x;
    }
  }

  predicate SameBucket(h: Fields -> nat, n: nat, x: Flow, y: Flow)
    requires n > 0
  {
    Index(h, n, x.key.f) == Index(h, n, y.key.f)
  }

  method InsertFirst(c: Chain, r: Flow, ghost x: Option<Flow>, ghost y: Option<Flow>)
    requires Holding(c, x, y) && WellFormed(r) && IsExact(r) && (x.None? || x.value.key.f == r.key.f)
    modifies c, c.Working()
    ensures Holding(c, Some(r), y) && c.rules == Inserted(old(c.rules), r)
  {
    OneFlow(c.hash2.sub0, x, r);
    var _ := c.Insert(r);
  }

  method InsertSecond(c: Chain, r: Flow, ghost x: Flow)
    requires Holding(c, Some(x), None) && WellFormed(r) && IsExact(r) && x.key.f != r.key.f
    requires SameBucket(c.hash2.sub0.hash, c.hash2.sub0.buckets.Length, x, r)
    modifies c, c.Working()
    ensures Holding(c, Some(x), Some(r)) && c.rules == Inserted(old(c.rules), r)
  {
    OneFlow(c.hash2.sub0, Some(x), r);
    OneFlow(c.hash2.sub1, None, r);
    var _ := c.Insert(r);
  }

  method DeleteBy(c: Chain, d: NormalKey, out: Option<nat>, ghost x: Flow, ghost y: Flow)
    requires Holding(c, Some(x), Some(y))
    modifies c, c.Working()
    ensures var keep := Not(Deletes(d, out, EXACT_PRIORITY, false));
            Holding(c, KeepOne(Some(x), keep), KeepOne(Some(y), keep))
    ensures out.None? ==> c.rules == Filter(old(c.rules), Not(Deletes(d, out, EXACT_PRIORITY, false)))
  {
    AnyPort(c, d, EXACT_PRIORITY, false);
    var _ := c.Delete(d, out, EXACT_PRIORITY, false);
  }

  lemma FlowsWellFormed()
    ensures WellFormed(BLOCKER) && WellFormed(OLDER) && WellFormed(NEWER) && IsPacket(OLDER.key.f)
    ensures IsExact(BLOCKER) && IsExact(OLDER) && IsExact(NEWER)
    ensures BLOCKER.key.f != OLDER.key.f && NEWER.key == OLDER.key
  {
  }

  /** Away with the blocker; away with everything that outputs to the port. */
  function AllButBlocker(): Flow -> bool { Not(Deletes(BLOCKER.key, None, EXACT_PRIORITY, false)) }
  function AllButPort(): Flow -> bool { Not(Deletes(OLDER.key, Some(PORT), EXACT_PRIORITY, false)) }

  lemma WhatGoes()
    ensures !AllButBlocker()(BLOCKER) && AllButBlocker()(OLDER)
    ensures !AllButPort()(NEWER) && AllButPort()(OLDER)
  {
    ExactMatches(BLOCKER.key.f, BLOCKER.key);
    ExactMatches(OLDER.key.f, BLOCKER.key);
    ExactMatches(OLDER.key.f, OLDER.key);
    assert Selects(BLOCKER.key, EXACT_PRIORITY, false)(BLOCKER);
    assert !Selects(BLOCKER.key, EXACT_PRIORITY, false)(OLDER);
    assert Selects(OLDER.key, EXACT_PRIORITY, false)(NEWER);
    assert Output(PORT) in NEWER.acts && Output(PORT) !in OLDER.acts;
    assert Deletes(BLOCKER.key, None, EXACT_PRIORITY, false)(BLOCKER);
    assert !Deletes(BLOCKER.key, None, EXACT_PRIORITY, false)(OLDER);
    assert Deletes(OLDER.key, Some(PORT), EXACT_PRIORITY, false)(NEWER);
    assert !Deletes(OLDER.key, Some(PORT), EXACT_PRIORITY, false)(OLDER);
  }

  /** What becomes of the rule list. */
  lemma RulesGrow()
    ensures Inserted([], BLOCKER) == [BLOCKER] && Inserted([BLOCKER], OLDER) == [BLOCKER, OLDER]
    ensures Inserted([OLDER], NEWER) == [NEWER]
  {
    SameExact(BLOCKER.key, OLDER.key);
    SameExact(OLDER.key, NEWER.key);
    assert BLOCKER in [BLOCKER] && OLDER in [OLDER];
    assert [BLOCKER] + [OLDER] == [BLOCKER, OLDER] && [] + [BLOCKER] == [BLOCKER];
  }

  lemma RulesGo()
    ensures Filter([BLOCKER, OLDER], AllButBlocker()) == [OLDER] && Filter([NEWER], AllButPort()) == []
  {
    WhatGoes();
    FilterSnoc([BLOCKER], OLDER, AllButBlocker());
    FilterOne(BLOCKER, AllButBlocker());
    FilterOne(NEWER, AllButPort());
    assert [BLOCKER] + [OLDER] == [BLOCKER, OLDER] && [] + [OLDER] == [OLDER];
  }

  /** The older flow finds the first bucket taken. */
  method Block(c: Chain)
    requires Holding(c, None, None) && c.rules == []
    requires SameBucket(c.hash2.sub0.hash, c.hash2.sub0.buckets.Length, BLOCKER, OLDER)
    modifies c, c.Working()
    ensures Holding(c, Some(BLOCKER), Some(OLDER)) && c.rules == [BLOCKER, OLDER]
  {
    FlowsWellFormed();
    RulesGrow();
    InsertFirst(c, BLOCKER, None, None);
    InsertSecond(c, OLDER, BLOCKER);
  }

  /** Once the blocker has made way, the newer flow does not. */
  method Replace(c: Chain)
    requires Holding(c, Some(BLOCKER), Some(OLDER)) && c.rules == [BLOCKER, OLDER]
    modifies c, c.Working()
    ensures Holding(c, Some(NEWER), Some(OLDER)) && c.rules == [NEWER]
  {
    FlowsWellFormed();
    RulesGrow();
    RulesGo();
    WhatGoes();
    DeleteBy(c, BLOCKER.key, None, BLOCKER, OLDER);
    InsertFirst(c, NEWER, None, Some(OLDER));
  }

  /** The packet is answered with what the hash tables hold for it. */
  method Ask(c: Chain) returns (r: Option<Flow>)
    requires Holding(c, None, Some(OLDER))
    ensures r == Some(OLDER) && c.rules != []
  {
    var f := OLDER.key.f;
    assert c.hash2.find(f) == Some(OLDER);
    RefinedAt(c.hash2.find, c.linear.rules, c.rules, f);
    r := c.Lookup(f, false);
  }

  method NewChain(h0: Fields -> nat, h1: Fields -> nat, n: nat, maxFlows: nat) returns (c: Chain)
    requires n > 0
    ensures Holding(c, None, None) && c.rules == [] && fresh(c) && fresh(c.Working())
    ensures c.hash2.sub0.hash == h0 && c.hash2.sub0.buckets.Length == n
  {
    c := new Chain(h0, h1, n, maxFlows);
    forall f ensures c.hash2.sub0.find(f).None? && c.hash2.sub1.find(f).None? {
      assert Or(c.hash2.sub0.find(f), c.hash2.sub1.find(f)) == c.hash2.find(f);
    }
  }

  /** The delete by output port. */
  method Away(c: Chain) returns (r: Option<Flow>)
    requires Holding(c, Some(NEWER), Some(OLDER)) && c.rules == [NEWER]
    modifies c, c.Working()
    ensures c.Valid() && r == Some(OLDER) && Filter(old(c.rules), AllButPort()) == [] != c.rules
  {
    RulesGo();
    WhatGoes();
    DeleteBy(c, OLDER.key, Some(PORT), NEWER, OLDER);
    r := Ask(c);
  }

  /**
   On any new chain whose first hash table puts the two keys in one bucket: insert the blocker and then the
   older flow, delete the blocker, insert the newer flow, which is then the only rule, and delete all flows
   that output to its port. No rule should be left, but the packet gets the older flow again.
   */
  method CopyResurfaces(h0: Fields -> nat, h1: Fields -> nat, n: nat, maxFlows: nat)
    returns (c: Chain, ghost before: seq<Flow>, r: Option<Flow>)
    requires n > 0 && SameBucket(h0, n, BLOCKER, OLDER)
    ensures c.Valid() && before == [NEWER] && Filter(before, AllButPort()) == [] != c.rules
    ensures r == Some(OLDER)
  {
    c := NewChain(h0, h1, n, maxFlows);
    Block(c);
    Replace(c);
    before := c.rules;
    r := Away(c);
  }
}
