/**
 Emergency protection (`private-msg.c`): the working tables are emptied and refilled from the
 emergency table. Nothing is lost or added, and packets fare as the emergency table says unless two
 of its flows tie for them.
 */
module Protection {
  import opened FlowKey
  import opened FlowList
  import opened Options
  import opened TableLinear
  import opened TableHash
  import opened Chain
  import FlowMod

  const PERMANENT := 0

  /** All wildcards, everything else zero: the key both passes select flows with. */
  const ANYTHING: NormalKey := Key(NULL_KEY.f, ANY, Mask(63), Mask(63))

  /** The copy `protection_callback` makes: the key goes through an `ofp_match`, timeouts are dropped. */
  function Duplicate(x: Flow): Flow {
    Flow(Extract(Fill(x.key)), x.priority, x.acts, PERMANENT, PERMANENT)
  }

  /** The same flow without timeouts. */
  function Permanent(): Flow -> Flow { (x: Flow) => x.(idle := PERMANENT, hard := PERMANENT) }

  lemma DuplicateIsPermanent(x: Flow)
    requires WellFormed(x)
    ensures Duplicate(x) == Permanent()(x) && WellFormed(Duplicate(x))
  {
    ExtractFill(x.key);
  }

  lemma AnythingSelects(x: Flow)
    ensures Selects(ANYTHING, 0, false)(x) && Deletes(ANYTHING, None, 0, false)(x) && Overlap(ANYTHING, x.key)
  {
    MaskEnds();
  }

  lemma SameCopies(x: Flow, y: Flow)
    requires WellFormed(x) && WellFormed(y)
    ensures Same(Permanent()(x), Permanent()(y)) <==> Same(x, y)
    ensures Same(x, x) && (Same(x, y) ==> Same(y, x))
  {
    SameKeyEquivalence(x.key, y.key, x.key);
  }

  /** The rules of the working tables when the newest `k` flows of `l` have been copied. */
  ghost predicate Copied(rules: seq<Flow>, l: seq<Flow>, k: nat) {
    |rules| == k <= |l| && forall i :: 0 <= i < k ==> rules[i] == Permanent()(l[|l| - 1 - i])
  }

  /** The next flow to copy is none of those copied before. */
  lemma NextIsNew(rules: seq<Flow>, l: seq<Flow>, k: nat)
    requires RuleList(l) && Copied(rules, l, k) && k < |l|
    ensures var r := Permanent()(l[|l| - 1 - k]); New(rules, r) && Inserted(rules, r) == rules + [r]
    ensures Copied(Inserted(rules, Permanent()(l[|l| - 1 - k])), l, k + 1)
  {
    var x := l[|l| - 1 - k];
    forall y | y in rules ensures !Same(y, Permanent()(x)) {
      var i :| 0 <= i < k && y == Permanent()(l[|l| - 1 - i]);
      var z := l[|l| - 1 - i];
      assert x in l && z in l;
      DistinctAt(l, |l| - 1 - k, |l| - 1 - i);
      SameCopies(z, x);
    }
  }

  lemma CopiedAll(rules: seq<Flow>, l: seq<Flow>)
    ensures Copied(rules, l, |l|) <==> rules == Reverse(Map(l, Permanent()))
  {
  }

  // ----- the code

  /** `flush_working` */
  method FlushWorking(c: Chain)
    requires c.Valid()
    modifies c, c.Working()
    ensures c.Valid() && c.rules == [] && c.linear.rules == [] && c.Entries() == 0
  {
    ghost var was := c.rules;
    AnyPort(c, ANYTHING, 0, false);
    var _ := c.Delete(ANYTHING, None, 0, false);
    FilterIn(was, Not(Deletes(ANYTHING, None, 0, false)));
    forall x | x in c.rules ensures false {
      AnythingSelects(x);
    }
    HeadIn(c.rules);
    RefinesEmpty(c.hash2.find, c.linear.rules);
    NothingFound(c);
  }

  lemma NothingFound(c: Chain)
    requires c.Valid() && c.rules == [] && c.linear.rules == []
    ensures c.Entries() == 0
  {
    var h := c.hash2;
    RefinesStored(h.find, c.linear.rules, c.rules, Any());
    FindsBoth(h.sub0.find, h.sub1.find, Any());
    h.CountsTell(Any());
  }

  /** `protection_callback`: the `k`th newest flow of the emergency table is copied. */
  method CopyFlow(c: Chain, x: Flow, ghost l: seq<Flow>, ghost k: nat) returns (ok: bool)
    requires c.Valid() && RuleList(l) && k < |l| <= c.linear.maxFlows && x == l[|l| - 1 - k]
    requires Copied(c.rules, l, k) && |c.linear.rules| <= k && c.Entries() == k
    modifies c, c.Working()
    ensures c.Valid() && ok && Copied(c.rules, l, k + 1) && |c.linear.rules| <= k + 1 && c.Entries() == k + 1
  {
    assert x in l;
    DuplicateIsPermanent(x);
    NextIsNew(c.rules, l, k);
    InsertedLength(c.linear.rules, Duplicate(x));
    ok := c.Insert(Duplicate(x));
  }

  /** One turn of the iteration over the emergency table, which selects any flow. */
  method Visit(c: Chain, ghost l: seq<Flow>, k: nat) returns (ok: bool)
    requires c.Valid() && RuleList(l) && k < |l| <= c.linear.maxFlows && c.emerg.iterFlows == Reverse(l)
    requires Copied(c.rules, l, k) && |c.linear.rules| <= k && c.Entries() == k
    modifies c, c.Working()
    ensures c.Valid() && ok && Copied(c.rules, l, k + 1) && |c.linear.rules| <= k + 1 && c.Entries() == k + 1
  {
    var x := c.emerg.iterFlows[k];
    AnythingSelects(x);
    ok := true;
    if Overlap(ANYTHING, x.key) {
      ok := CopyFlow(c, x, l, k);
    }
  }

  /**
   `do_protection`: the emergency table is walked along its iteration list, newest flow first, and
   stops at the first insert that fails. None does.
   */
  method CopyEmergency(c: Chain) returns (error: bool)
    requires c.Valid() && c.rules == [] && c.linear.rules == [] && c.Entries() == 0
    modifies c, c.Working()
    ensures c.Valid() && !error
    ensures c.rules == Reverse(Map(c.emerg.rules, Permanent())) && c.Entries() == |c.rules|
  {
    ghost var l := c.emerg.rules;
    Listed(c.emerg.flows, c.emerg.iterFlows, l);
    error := false;
    var k := 0;
    while k < |c.emerg.iterFlows|
      invariant 0 <= k <= |l| && c.Valid() && !error
      invariant Copied(c.rules, l, k) && |c.linear.rules| <= k && c.Entries() == k
    {
      var ok := Visit(c, l, k);
      if !ok {
        return true;
      }
      k := k + 1;
    }
    CopiedAll(c.rules, l);
  }

  /**
   A protection message: afterwards the working tables hold one entry for every flow of the
   emergency table, with its key, priority and actions and without timeouts, and nothing else.
   */
  method Protect(c: Chain) returns (error: bool)
    requires c.Valid()
    modifies c, c.Working()
    ensures c.Valid() && !error && c.emerg.rules == old(c.emerg.rules)
    ensures c.rules == Reverse(Map(c.emerg.rules, Permanent())) && c.Entries() == |c.emerg.rules|
    ensures multiset(c.rules) == multiset(Map(c.emerg.rules, Permanent()))
    ensures |c.rules| == |c.emerg.rules| && forall i :: 0 <= i < |c.rules| ==>
              var x := c.emerg.rules[i]; c.rules[|c.rules| - 1 - i] == Flow(x.key, x.priority, x.acts, 0, 0)
  {
    FlushWorking(c);
    error := CopyEmergency(c);
    ReverseBag(Map(c.emerg.rules, Permanent()));
    CopiesAre(c.emerg.rules);
  }

  lemma CopiesAre(l: seq<Flow>)
    ensures forall i :: 0 <= i < |l| ==>
              Reverse(Map(l, Permanent()))[|l| - 1 - i] == Flow(l[i].key, l[i].priority, l[i].acts, 0, 0)
  {
  }

  lemma {:induction false} ReverseBag(l: seq<Flow>)
    ensures multiset(Reverse(l)) == multiset(l)
  {
    if l == [] {
      assert Reverse(l) == [];
    } else {
      var front, x := l[..|l| - 1], l[|l| - 1];
      ReverseBag(front);
      assert l == front + [x];
      ReverseSnoc(front, x);
    }
  }

  // ----- packets after protection

  /** No other flow of the same priority as the best one is hit too. */
  ghost predicate Untied(l: seq<Flow>, hit: Flow -> bool) {
    forall i: nat, j: nat :: IsBest(l, hit, i) && j < |l| && j != i && hit(l[j]) ==> l[j].priority != l[i].priority
  }

  /** The test does not look at timeouts. */
  ghost predicate Timeless(hit: Flow -> bool) { forall x :: hit(Permanent()(x)) == hit(x) }

  lemma BestUnique(l: seq<Flow>, hit: Flow -> bool, i: nat, j: nat)
    requires IsBest(l, hit, i) && IsBest(l, hit, j)
    ensures i == j
  {
  }

  /** Rule `j` is the one of highest priority that `hit` accepts, the latest of those. */
  ghost predicate IsLatestBest(l: seq<Flow>, hit: Flow -> bool, j: nat) {
    && j < |l| && hit(l[j])
    && forall i :: 0 <= i < |l| && hit(l[i]) ==>
                     l[i].priority < l[j].priority || (l[i].priority == l[j].priority && i <= j)
  }

  lemma TiedIff(l: seq<Flow>, hit: Flow -> bool, i: nat, j: nat)
    requires IsBest(l, hit, i) && IsLatestBest(l, hit, j)
    ensures i == j <==> Untied(l, hit)
    ensures i <= j
  {
    if i == j {
      forall i': nat, j': nat | IsBest(l, hit, i') && j' < |l| && j' != i' && hit(l[j'])
        ensures l[j'].priority != l[i'].priority
      {
        BestUnique(l, hit, i, i');
      }
    }
  }

  /** Two rules of a list are never copies of each other. */
  lemma CopiesDiffer(l: seq<Flow>, i: nat, j: nat)
    requires RuleList(l) && i <= j < |l|
    ensures Permanent()(l[i]) == Permanent()(l[j]) <==> i == j
  {
    if i < j {
      DistinctAt(l, i, j);
      assert l[i] in l && l[j] in l;
      SameCopies(l[i], l[j]);
      SameCopies(l[i], l[i]);
    }
  }

  lemma CopyAt(w: seq<Flow>, l: seq<Flow>, hit: Flow -> bool, i: nat)
    requires Copied(w, l, |l|) && Timeless(hit) && i < |l|
    ensures w[|l| - 1 - i] == Permanent()(l[i]) && hit(w[|l| - 1 - i]) == hit(l[i])
  {
  }

  /** In the reversed list the latest of the best flows wins. */
  lemma ReversedBest(l: seq<Flow>, w: seq<Flow>, hit: Flow -> bool, k: nat)
    requires Copied(w, l, |l|) && Timeless(hit) && IsBest(w, hit, k)
    ensures k < |l| && w[k] == Permanent()(l[|l| - 1 - k]) && IsLatestBest(l, hit, |l| - 1 - k)
  {
    CopyAt(w, l, hit, |l| - 1 - k);
    forall i | 0 <= i < |l| && hit(l[i])
      ensures l[i].priority < w[k].priority || (l[i].priority == w[k].priority && i <= |l| - 1 - k)
    {
      CopyAt(w, l, hit, i);
    }
  }

  /** Without a match in one list there is none in the other. */
  lemma NoMatch(l: seq<Flow>, w: seq<Flow>, hit: Flow -> bool)
    requires Copied(w, l, |l|) && Timeless(hit)
    ensures BestIs(l, hit, None) <==> BestIs(w, hit, None)
  {
    forall i | 0 <= i < |l| ensures hit(w[|l| - 1 - i]) == hit(l[i]) {
      CopyAt(w, l, hit, i);
    }
    forall i | 0 <= i < |l| ensures hit(w[i]) == hit(l[|l| - 1 - i]) {
      CopyAt(w, l, hit, |l| - 1 - i);
    }
  }

  /** The best of the copies is the copy of the latest of the best flows. */
  lemma LatestCopied(l: seq<Flow>, w: seq<Flow>, hit: Flow -> bool, y: Flow) returns (j: nat)
    requires Copied(w, l, |l|) && Timeless(hit) && BestIs(w, hit, Some(y))
    ensures IsLatestBest(l, hit, j) && y == Permanent()(l[j])
  {
    var k := BestAt(w, hit, y);
    ReversedBest(l, w, hit, k);
    j := |l| - 1 - k;
  }

  lemma TiedMatch(l: seq<Flow>, hit: Flow -> bool, i: nat, j: nat)
    requires RuleList(l) && IsBest(l, hit, i) && IsLatestBest(l, hit, j)
    ensures Permanent()(l[j]) == Permanent()(l[i]) <==> Untied(l, hit)
  {
    TiedIff(l, hit, i, j);
    CopiesDiffer(l, i, j);
  }

  lemma BestAt(l: seq<Flow>, hit: Flow -> bool, x: Flow) returns (i: nat)
    requires BestIs(l, hit, Some(x))
    ensures IsBest(l, hit, i) && l[i] == x
  {
    i :| IsBest(l, hit, i) && l[i] == x;
  }

  /**
   In a rule list the flow for a packet is, after protection, the one the emergency table has if and only
   if no second flow ties with that one: of tied flows the emergency table prefers the oldest, the copies
   the newest.
   */
  lemma ReversedAgreesIff(l: seq<Flow>, p: Fields)
    requires RuleList(l)
    ensures Best(Reverse(Map(l, Permanent())), p) == MapOne(Best(l, p), Permanent()) <==> Untied(l, Hit(p))
  {
    var w := Reverse(Map(l, Permanent()));
    CopiedAll(w, l);
    BestOfCopies(l, w, Hit(p), First(Sorted(l), Hit(p)), First(Sorted(w), Hit(p)));
  }

  lemma BestOfCopies(l: seq<Flow>, w: seq<Flow>, hit: Flow -> bool, b: Option<Flow>, b': Option<Flow>)
    requires RuleList(l) && Copied(w, l, |l|) && Timeless(hit)
    requires b == First(Sorted(l), hit) && b' == First(Sorted(w), hit)
    ensures b' == MapOne(b, Permanent()) <==> Untied(l, hit)
  {
    FirstIsBest(l, hit);
    FirstIsBest(w, hit);
    NoMatch(l, w, hit);
    if b.Some? && b'.Some? {
      var i := BestAt(l, hit, b.value);
      var j := LatestCopied(l, w, hit, b'.value);
      TiedMatch(l, hit, i, j);
    }
  }

  /** The exact flow for a packet is copied, wherever it stands. */
  lemma CopiedExact(l: seq<Flow>, w: seq<Flow>, p: Fields)
    requires RuleList(l) && RuleList(w) && Copied(w, l, |l|)
    ensures First(w, ExactFor(p)) == MapOne(First(l, ExactFor(p)), Permanent())
  {
    FirstSome(l, ExactFor(p));
    if First(l, ExactFor(p)).Some? {
      var e := ExactAt(l, p);
      assert w[|l| - 1 - e] == Permanent()(l[e]) && w[|l| - 1 - e] in w;
      FirstExact(w, w[|l| - 1 - e]);
    } else {
      FirstSome(w, ExactFor(p));
      forall x | x in w ensures !ExactFor(p)(x) {
        var k :| 0 <= k < |w| && w[k] == x;
        assert l[|l| - 1 - k] in l;
      }
    }
  }

  /** Copies answer for a packet as the emergency table does. */
  ghost predicate Faithful(c: Chain, p: Fields)
    requires c.Valid()
    reads c, c.hash2, c.hash2.Repr(), c.linear, c.emerg
  {
    if c.hash2.find(p).Some? then !Overtaken(c.emerg.rules, p) else Untied(c.emerg.rules, Hit(p))
  }

  /**
   After protection a packet is handled by the copy of the flow the emergency table has for it if and only
   if the hash tables have the exact flow for it and no older wildcard flow of its priority matches, or
   they have none and no second flow ties with the best one.
   */
  method LookupProtected(c: Chain, p: Fields) returns (before: Option<Flow>, after: Option<Flow>)
    requires c.Valid() && c.rules == Reverse(Map(c.emerg.rules, Permanent()))
    ensures before == Best(c.emerg.rules, p)
    ensures after == MapOne(before, Permanent()) <==> Faithful(c, p)
  {
    before := c.Lookup(p, true);
    after := c.Lookup(p, false);
    ghost var l := c.emerg.rules;
    Listed(c.emerg.flows, c.emerg.iterFlows, l);
    LookupAgreesIff(c.hash2.find, c.linear.rules, c.rules, p);
    if c.hash2.find(p).Some? {
      Refined(c.hash2.find, c.linear.rules, c.rules);
      CopiedAll(c.rules, l);
      CopiedExact(l, c.rules, p);
      ExactIsBestIff(l, p);
      ExactCopies(l, p);
    } else {
      ReversedAgreesIff(l, p);
    }
  }

  /** A flow whose copy is that of the exact flow is the exact flow. */
  lemma ExactCopies(l: seq<Flow>, p: Fields)
    requires RuleList(l) && First(l, ExactFor(p)).Some?
    ensures MapOne(First(l, ExactFor(p)), Permanent()) == MapOne(Best(l, p), Permanent())
       <==> First(l, ExactFor(p)) == Best(l, p)
  {
    FirstSome(l, ExactFor(p));
    FirstIsBest(l, Hit(p));
    SortedKeeps(l);
    FirstSome(Sorted(l), Hit(p));
    var x, b := First(l, ExactFor(p)).value, Best(l, p);
    if b.Some? && Permanent()(x) == Permanent()(b.value) {
      FirstExact(l, b.value);
    }
  }

  /** If no two emergency flows of one priority overlap, every packet is handled as the emergency table says. */
  lemma ApartIsFaithful(c: Chain, p: Fields)
    requires c.Valid() && FlowMod.Apart(c.emerg.rules) && IsPacket(p)
    ensures Faithful(c, p)
  {
    var l := c.emerg.rules;
    Listed(c.emerg.flows, c.emerg.iterFlows, l);
    FlowMod.OnePerPriorityIff(l);
    OnePerPriorityUntied(l, p);
    forall i, e | 0 <= i < e < |l| && ExactFor(p)(l[e]) ensures !IsTopWild(l[i], p) {
      assert l[e] in l;
      ExactMatches(p, l[e].key);
      assert Hit(p)(l[e]);
    }
  }

  lemma OnePerPriorityUntied(l: seq<Flow>, p: Fields)
    requires FlowMod.OnePerPriority(l, p)
    ensures Untied(l, Hit(p))
  {
  }

  /**
   The overlap check does not bring that about: it lets two overlapping emergency flows pass, and a packet
   that both match fares differently before and after protection.
   */
  method BlindCheckShows(c: Chain) returns (before: Option<Flow>, after: Option<Flow>)
    requires c.Valid() && FlowMod.StateOf(c) == FlowMod.State([], []) && c.linear.maxFlows >= 2
    modifies c, c.Working(), c.emerg
    ensures c.Valid() && c.emerg.rules == [FlowMod.FlowOf(FlowMod.ONE), FlowMod.FlowOf(FlowMod.TWO)]
    ensures after != MapOne(before, Permanent())
  {
    FlowMod.CheckIsBlind(c);
    var _ := Protect(c);
    BlindIsTied(c);
    before, after := LookupProtected(c, NULL_KEY.f);
  }

  lemma BlindIsTied(c: Chain)
    requires c.Valid() && c.emerg.rules == [FlowMod.FlowOf(FlowMod.ONE), FlowMod.FlowOf(FlowMod.TWO)]
    requires c.rules == Reverse(Map(c.emerg.rules, Permanent()))
    ensures !Faithful(c, NULL_KEY.f)
  {
    var l, p := c.emerg.rules, NULL_KEY.f;
    FlowMod.OneAndTwo();
    assert IsBest(l, Hit(p), 0) && Hit(p)(l[1]);
    Refined(c.hash2.find, c.linear.rules, c.rules);
    FirstSome(c.rules, ExactFor(p));
    assert forall x :: x in c.rules ==> !IsExact(x);
    assert Or(c.hash2.find(p), First(c.linear.rules, ExactFor(p))) == First(c.rules, ExactFor(p));
  }
}
