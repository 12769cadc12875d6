/**
 Wildcard flows at the priority that exact flows are given: the two hash tables answer before the list
 does, so an exact flow in them comes before an older wildcard flow of its priority. In the list it
 does not.
 */
module TopPriority {
  import opened FlowKey
  import opened FlowList
  import opened Options
  import opened TableLinear
  import opened TableHash
  import opened Chain

  /** Everything at the highest priority, then an exact flow. */
  const WILD := Flow(Key(NULL_KEY.f, ANY, Mask(63), Mask(63)), EXACT_PRIORITY, [Output(1)], 0, 0)
  const LATER := Flow(NULL_KEY, EXACT_PRIORITY, [Output(2)], 0, 0)

  lemma FlowsWellFormed()
    ensures WellFormed(WILD) && WellFormed(LATER) && !Same(WILD, LATER)
  {
  }

  lemma OvertakenIn(l: seq<Flow>, e: nat)
    requires 0 < e < |l| && l[0] == WILD && l[e] == LATER
    ensures Overtaken(l, LATER.key.f)
  {
    MaskEnds();
    assert IsTopWild(l[0], LATER.key.f) && ExactFor(LATER.key.f)(l[e]);
  }

  /** With nothing in the hash tables there is room for any exact flow. */
  lemma NothingHashed(c: Chain, r: Flow)
    requires c.Valid() && c.hash2.Entries() == 0 && IsExact(r)
    ensures c.hash2.HasRoom(r)
  {
    var b := c.hash2.sub0.buckets[..];
    CountPositive(b, Any());
    assert !Holds(b[Index(c.hash2.sub0.hash, |b|, r.key.f)], Any());
  }

  /** A first wildcard flow is in the list. */
  method First(c: Chain)
    requires c.Valid() && c.rules == [] && c.linear.maxFlows > 0 && c.Entries() == 0
    modifies c, c.Working()
    ensures c.Valid() && c.rules == [WILD] && c.hash2.Entries() == 0
  {
    RefinesEmpty(c.hash2.find, c.linear.rules);
    FlowsWellFormed();
    var _ := c.Insert(WILD);
    Refined(c.hash2.find, c.linear.rules, c.rules);
    FilterOne(WILD, IsWild());
    assert c.linear.rules != [];
  }

  /** An exact flow after it is in the hash tables. */
  method Second(c: Chain)
    requires c.Valid() && c.rules == [WILD] && c.hash2.Entries() == 0
    modifies c, c.Working()
    ensures c.Valid() && c.rules == [WILD, LATER] && c.hash2.find(LATER.key.f) == Some(LATER)
  {
    FlowsWellFormed();
    NothingHashed(c, LATER);
    var _ := c.Insert(LATER);
  }

  /**
   On any empty chain: after a wildcard flow of the highest priority and then an exact flow, the packet
   gets the exact flow, while the older of the two is the best rule.
   */
  method HashedComesFirst(c: Chain) returns (r: Option<Flow>)
    requires c.Valid() && c.rules == [] && c.linear.maxFlows > 0 && c.Entries() == 0
    modifies c, c.Working()
    ensures c.Valid() && c.rules == [WILD, LATER]
    ensures r == Some(LATER) != Best(c.rules, LATER.key.f)
  {
    First(c);
    Second(c);
    OvertakenIn(c.rules, 1);
    r := c.Lookup(LATER.key.f, false);
  }

  /**
   On any chain: an exact flow that finds no bucket goes to the list and waits its turn there; its packet
   gets the best rule, be it an older wildcard flow of the highest priority.
   */
  method ListedWaitsItsTurn(c: Chain, e: Flow) returns (ok: bool, r: Option<Flow>)
    requires c.Valid() && WellFormed(e) && IsExact(e) && !c.hash2.HasRoom(e)
    modifies c, c.Working()
    ensures c.Valid() && ok == (|Inserted(old(c.linear.rules), e)| <= c.linear.maxFlows)
    ensures c.rules == if ok then Inserted(old(c.rules), e) else old(c.rules)
    ensures r == Best(c.rules, e.key.f)
  {
    ok := c.Insert(e);
    r := c.Lookup(e.key.f, false);
  }
}
