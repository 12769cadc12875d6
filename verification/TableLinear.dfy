/** `table-linear.c`: a flow table kept as a priority list, and the rule list it stands for. */
module TableLinear {
  import opened FlowKey
  import opened FlowList
  import opened Options

  /** No two rules are ones an insert would have merged. */
  ghost predicate Distinct(l: seq<Flow>) {
    l == [] || (Distinct(l[..|l| - 1]) && New(l[..|l| - 1], l[|l| - 1]))
  }

  ghost predicate New(l: seq<Flow>, r: Flow) { forall x :: x in l ==> !Same(x, r) }

  ghost predicate AllWellFormed(l: seq<Flow>) { forall x :: x in l ==> WellFormed(x) }

  // ----- what the operations mean for a list of rules

  function SameAs(r: Flow): Flow -> bool { (x: Flow) => Same(x, r) }

  function Replacing(r: Flow): Flow -> Flow { (x: Flow) => if Same(x, r) then r else x }

  /** Insert: replace the rule with the same match and priority, or come last. */
  function Inserted(rules: seq<Flow>, r: Flow): seq<Flow> {
    if exists x :: x in rules && Same(x, r) then Map(rules, Replacing(r)) else rules + [r]
  }

  /** The flows a modify or delete concerns. */
  function Selects(d: Key, priority: nat, strict: bool): Flow -> bool {
    (x: Flow) => MatchesDesc(x.key, d, strict) && (strict ==> x.priority == priority)
  }

  /** The flows a delete with an output port concerns. */
  function Deletes(d: Key, out: Option<nat>, priority: nat, strict: bool): Flow -> bool {
    (x: Flow) => Selects(d, priority, strict)(x) && HasOutPort(x.acts, out)
  }

  function Updating(sel: Flow -> bool, acts: Acts): Flow -> Flow {
    (x: Flow) => if sel(x) then x.(acts := acts) else x
  }

  /** `flow_matches_2desc` at one priority */
  predicate Conflicts(x: Flow, d: Key, priority: nat, strict: bool) {
    (strict ==> d.w == x.key.w) && Overlap(x.key, d) && x.priority == priority
  }

  function Not(sel: Flow -> bool): Flow -> bool { (x: Flow) => !sel(x) }

  function Hit(p: Fields): Flow -> bool { (x: Flow) => Matches(p, x.key) }

  // ----- distinctness

  lemma DistinctAt(l: seq<Flow>, i: nat, j: nat)
    requires Distinct(l) && i < j < |l|
    ensures !Same(l[i], l[j])
  {
    var n := |l| - 1;
    if j < n {
      DistinctAt(l[..n], i, j);
    } else {
      assert l[i] in l[..n];
    }
  }

  lemma {:induction false} DistinctFilter(l: seq<Flow>, p: Flow -> bool)
    requires Distinct(l)
    ensures Distinct(Filter(l, p))
  {
    if l != [] {
      var front, x := l[..|l| - 1], l[|l| - 1];
      DistinctFilter(front, p);
      FilterIn(front, p);
      if p(x) {
        assert Filter(l, p)[..|Filter(l, p)| - 1] == Filter(front, p);
      } else {
        assert Filter(l, p) == Filter(front, p);
      }
    }
  }

  lemma {:induction false} DistinctMap(l: seq<Flow>, g: Flow -> Flow)
    requires Distinct(l) && forall x, y :: x in l && y in l && Same(g(x), g(y)) ==> Same(x, y)
    ensures Distinct(Map(l, g))
  {
    if l != [] {
      var n := |l| - 1;
      DistinctMap(l[..n], g);
      assert Map(l, g)[..n] == Map(l[..n], g);
      forall y | y in Map(l[..n], g) ensures !Same(y, g(l[n])) {
        var i :| 0 <= i < n && y == g(l[i]);
        assert l[i] in l[..n];
      }
    }
  }

  lemma {:induction false} FilterNone(l: seq<Flow>, p: Flow -> bool)
    requires forall x :: x in l ==> !p(x)
    ensures Filter(l, p) == []
  {
    if l != [] {
      FilterNone(l[..|l| - 1], p);
    }
  }

  /** At most one rule can be the one to replace. */
  lemma {:induction false} SameOnce(l: seq<Flow>, r: Flow)
    requires Distinct(l) && AllWellFormed(l) && WellFormed(r)
    ensures |Filter(l, SameAs(r))| <= 1
  {
    if l != [] {
      var front, x := l[..|l| - 1], l[|l| - 1];
      SameOnce(front, r);
      FilterIn(front, SameAs(r));
      if Same(x, r) {
        forall y | y in front ensures !Same(y, r) {
          assert y in l && x in l;
          SameKeyEquivalence(x.key, r.key, y.key);
          SameKeyEquivalence(y.key, r.key, x.key);
        }
        FilterNone(front, SameAs(r));
      }
    }
  }

  lemma {:induction false} FilterOnce(l: seq<Flow>, p: Flow -> bool, i: nat, j: nat)
    requires |Filter(l, p)| <= 1 && i < j < |l| && p(l[i])
    ensures !p(l[j])
  {
    var n := |l| - 1;
    if j < n {
      FilterOnce(l[..n], p, i, j);
    } else {
      FilterIn(l[..n], p);
      assert l[i] in l[..n];
    }
  }

  /** Replacing one element is replacing all that are the same. */
  lemma ReplaceOne(l: seq<Flow>, r: Flow, i: nat)
    requires i < |l| && Same(l[i], r) && |Filter(l, SameAs(r))| <= 1
    ensures l[i := r] == Map(l, Replacing(r))
  {
    forall j | 0 <= j < |l| && j != i ensures !Same(l[j], r) {
      if j < i {
        if Same(l[j], r) {
          FilterOnce(l, SameAs(r), j, i);
        }
      } else {
        FilterOnce(l, SameAs(r), i, j);
      }
    }
  }

  lemma {:induction false} InsertAt(l: seq<Flow>, r: Flow, i: nat)
    requires i <= |l| && (forall j :: 0 <= j < i ==> l[j].priority >= r.priority)
    requires i < |l| ==> l[i].priority < r.priority
    ensures InsertBehind(l, r) == l[..i] + [r] + l[i..]
  {
    if i > 0 {
      InsertAt(l[1..], r, i - 1);
      assert [l[0]] + (l[1..][..i - 1] + [r] + l[1..][i - 1..]) == l[..i] + [r] + l[i..];
    }
  }

  lemma FilterStep(l: seq<Flow>, k: nat, p: Flow -> bool)
    requires k < |l|
    ensures Filter(l[..k + 1], p) == if p(l[k]) then Filter(l[..k], p) + [l[k]] else Filter(l[..k], p)
  {
    assert l[..k + 1] == l[..k] + [l[k]];
    FilterSnoc(l[..k], l[k], p);
  }

  lemma Splice(kept: seq<Flow>, was: seq<Flow>, k: nat)
    requires k < |was|
    ensures var l := kept + was[k..];
            && l[|kept|] == was[k] && l[..|kept|] + l[|kept| + 1..] == kept + was[k + 1..]
            && l == (kept + [was[k]]) + was[k + 1..]
  {
  }

  // ----- reversal

  lemma ReverseMap(l: seq<Flow>, g: Flow -> Flow)
    ensures Reverse(Map(l, g)) == Map(Reverse(l), g)
  {
  }

  lemma ReverseSnoc(l: seq<Flow>, x: Flow)
    ensures Reverse(l + [x]) == [x] + Reverse(l)
  {
  }

  lemma {:induction false} ReverseFilter(l: seq<Flow>, p: Flow -> bool)
    ensures Reverse(Filter(l, p)) == Filter(Reverse(l), p)
  {
    if l != [] {
      var front, x := l[..|l| - 1], l[|l| - 1];
      ReverseFilter(front, p);
      assert l == front + [x];
      ReverseSnoc(front, x);
      FilterCons(x, Reverse(front), p);
      FilterSnoc(front, x, p);
      ReverseSnoc(Filter(front, p), x);
    }
  }

  // ----- invariants of a rule list

  ghost predicate RuleList(l: seq<Flow>) { Distinct(l) && AllWellFormed(l) }

  lemma InsertedKeeps(l: seq<Flow>, r: Flow)
    requires RuleList(l) && WellFormed(r)
    ensures RuleList(Inserted(l, r))
  {
    if exists x :: x in l && Same(x, r) {
      var g := Replacing(r);
      forall x, y | x in l && y in l && Same(g(x), g(y)) ensures Same(x, y) {
        SameKeyEquivalence(x.key, r.key, y.key);
        SameKeyEquivalence(y.key, r.key, x.key);
        SameKeyEquivalence(r.key, y.key, x.key);
      }
      DistinctMap(l, g);
    } else {
      assert (l + [r])[..|l|] == l;
    }
  }

  lemma FilterKeeps(l: seq<Flow>, p: Flow -> bool)
    requires RuleList(l)
    ensures RuleList(Filter(l, p))
  {
    DistinctFilter(l, p);
    FilterIn(l, p);
  }

  lemma UpdateKeeps(l: seq<Flow>, sel: Flow -> bool, acts: Acts)
    requires RuleList(l)
    ensures RuleList(Map(l, Updating(sel, acts)))
  {
    var g := Updating(sel, acts);
    DistinctMap(l, g);
    forall y | y in Map(l, g) ensures WellFormed(y) {
      var i :| 0 <= i < |l| && y == g(l[i]);
      assert WellFormed(l[i]);
    }
  }

  // ----- the two lists against the rule list

  /** The priority list and the iteration list, for rules in order of insertion. */
  ghost predicate Lists(flows: seq<Flow>, iterFlows: seq<Flow>, rules: seq<Flow>) {
    forall l {:trigger Sorted(l)} :: l == rules ==> RuleList(l) && flows == Sorted(l) && iterFlows == Reverse(l)
  }

  lemma NoLists()
    ensures Lists([], [], [])
  {
    assert RuleList([]) && Sorted([]) == [] && Reverse([]) == [];
  }

  lemma Listed(flows: seq<Flow>, iterFlows: seq<Flow>, rules: seq<Flow>)
    requires Lists(flows, iterFlows, rules)
    ensures RuleList(rules) && flows == Sorted(rules) && iterFlows == Reverse(rules)
  {
    assert Sorted(rules) == Sorted(rules);
  }

  lemma ListsAppend(flows: seq<Flow>, iterFlows: seq<Flow>, rules: seq<Flow>, r: Flow, i: nat)
    requires Lists(flows, iterFlows, rules) && WellFormed(r) && i <= |flows|
    requires forall j :: 0 <= j < i ==> flows[j].priority >= r.priority && !Same(flows[j], r)
    requires i < |flows| ==> flows[i].priority < r.priority
    ensures Lists(flows[..i] + [r] + flows[i..], [r] + iterFlows, Inserted(rules, r))
    ensures Inserted(rules, r) == rules + [r]
  {
    Listed(flows, iterFlows, rules);
    SortedKeeps(rules);
    assert New(rules, r) by {
      forall x | x in rules ensures !Same(x, r) {
        assert x in flows;
      }
    }
    InsertedKeeps(rules, r);
    InsertAt(flows, r, i);
    SortedSnoc(rules, r);
    ReverseSnoc(rules, r);
  }

  lemma ListsReplace(flows: seq<Flow>, iterFlows: seq<Flow>, rules: seq<Flow>, r: Flow)
    requires Lists(flows, iterFlows, rules) && WellFormed(r) && exists x :: x in rules && Same(x, r)
    ensures Lists(Map(flows, Replacing(r)), Map(iterFlows, Replacing(r)), Inserted(rules, r))
  {
    Listed(flows, iterFlows, rules);
    InsertedKeeps(rules, r);
    SortedMap(rules, Replacing(r));
    ReverseMap(rules, Replacing(r));
  }

  lemma ListsUpdate(flows: seq<Flow>, iterFlows: seq<Flow>, rules: seq<Flow>, sel: Flow -> bool, acts: Acts)
    requires Lists(flows, iterFlows, rules)
    ensures Lists(Map(flows, Updating(sel, acts)), Map(iterFlows, Updating(sel, acts)), Map(rules, Updating(sel, acts)))
  {
    Listed(flows, iterFlows, rules);
    UpdateKeeps(rules, sel, acts);
    SortedMap(rules, Updating(sel, acts));
    ReverseMap(rules, Updating(sel, acts));
  }

  lemma ListsFilter(flows: seq<Flow>, iterFlows: seq<Flow>, rules: seq<Flow>, p: Flow -> bool)
    requires Lists(flows, iterFlows, rules)
    ensures Lists(Filter(flows, p), Filter(iterFlows, p), Filter(rules, p))
    ensures |Filter(rules, p)| == |Filter(flows, p)|
  {
    Listed(flows, iterFlows, rules);
    FilterKeeps(rules, p);
    SortedFilter(rules, p);
    SortedKeeps(Filter(rules, p));
    ReverseFilter(rules, p);
  }

  /** Each list holds one element to replace. */
  lemma SameOnceInLists(flows: seq<Flow>, iterFlows: seq<Flow>, rules: seq<Flow>, r: Flow)
    requires Lists(flows, iterFlows, rules) && WellFormed(r)
    ensures |Filter(flows, SameAs(r))| <= 1 && |Filter(iterFlows, SameAs(r))| <= 1
  {
    Listed(flows, iterFlows, rules);
    SameOnce(rules, r);
    ListsFilter(flows, iterFlows, rules, SameAs(r));
    ReverseFilter(rules, SameAs(r));
  }

  lemma SameLength(flows: seq<Flow>, iterFlows: seq<Flow>, rules: seq<Flow>)
    requires Lists(flows, iterFlows, rules)
    ensures |flows| == |iterFlows| == |rules|
  {
    Listed(flows, iterFlows, rules);
    SortedKeeps(rules);
  }

  lemma InAll(flows: seq<Flow>, iterFlows: seq<Flow>, rules: seq<Flow>)
    requires Lists(flows, iterFlows, rules)
    ensures |flows| == |iterFlows| == |rules|
    ensures forall x :: x in flows <==> x in rules
    ensures forall x :: x in iterFlows <==> x in rules
  {
    Listed(flows, iterFlows, rules);
    SortedKeeps(rules);
    forall x | x in rules ensures x in iterFlows {
      var i :| 0 <= i < |rules| && rules[i] == x;
      assert iterFlows[|rules| - 1 - i] == x;
    }
  }

  /** The first `i` flows have been visited by the loop of `table_linear_modify`, the others not yet. */
  ghost predicate Visited(l: seq<Flow>, was: seq<Flow>, i: nat, sel: Flow -> bool, acts: Acts) {
    && i <= |l| == |was|
    && (forall j :: 0 <= j < i ==> l[j] == Updating(sel, acts)(was[j]))
    && (forall j :: i <= j < |was| ==> l[j] == was[j])
  }

  lemma VisitedMore(l: seq<Flow>, was: seq<Flow>, i: nat, sel: Flow -> bool, acts: Acts)
    requires Visited(l, was, i, sel, acts) && i < |was|
    ensures l[i] == was[i]
    ensures Visited(if sel(l[i]) then l[i := l[i].(acts := acts)] else l, was, i + 1, sel, acts)
  {
  }

  lemma VisitedAll(l: seq<Flow>, was: seq<Flow>, sel: Flow -> bool, acts: Acts)
    requires Visited(l, was, |l|, sel, acts)
    ensures l == Map(was, Updating(sel, acts)) && was[..|l|] == was
  {
  }

  /** `struct sw_table_linear` */
  class Linear {
    const maxFlows: nat
    var nFlows: nat
    var flows: seq<Flow>
    var iterFlows: seq<Flow>
    /** The rules of the table, in order of insertion. */
    ghost var rules: seq<Flow>

    ghost predicate Valid()
      reads this
    {
      Lists(flows, iterFlows, rules) && nFlows == |rules| <= maxFlows
    }

    constructor (maxFlows: nat)
      ensures Valid() && rules == [] && this.maxFlows == maxFlows
    {
      this.maxFlows := maxFlows;
      nFlows, flows, iterFlows, rules := 0, [], [], [];
      NoLists();
    }

    /** `table_linear_lookup` */
    method Lookup(p: Fields) returns (r: Option<Flow>)
      requires Valid()
      ensures BestIs(rules, Hit(p), r)
      ensures r == First(Sorted(rules), Hit(p))
    {
      Listed(flows, iterFlows, rules);
      FirstIsBest(rules, Hit(p));
      var i := 0;
      while i < |flows|
        invariant 0 <= i <= |flows|
        invariant First(flows, Hit(p)) == First(flows[i..], Hit(p))
      {
        assert flows[i..][1..] == flows[i + 1..];
        if Matches(p, flows[i].key) {
          return Some(flows[i]);
        }
        i := i + 1;
      }
      return None;
    }

    /** `list_replace_rcu` on the iteration list */
    method ReplaceInIteration(r: Flow)
      requires |Filter(iterFlows, SameAs(r))| <= 1 && exists x :: x in iterFlows && Same(x, r)
      modifies this`iterFlows
      ensures iterFlows == Map(old(iterFlows), Replacing(r))
    {
      var k := 0;
      while !Same(iterFlows[k], r)
        invariant 0 <= k < |iterFlows|
        invariant exists j :: k <= j < |iterFlows| && Same(iterFlows[j], r)
        decreases |iterFlows| - k
      {
        k := k + 1;
      }
      ReplaceOne(iterFlows, r, k);
      iterFlows := iterFlows[k := r];
    }

    /** `table_linear_insert` */
    method Insert(r: Flow) returns (ok: bool)
      requires Valid() && WellFormed(r)
      modifies this
      ensures Valid()
      ensures ok <==> |Inserted(old(rules), r)| <= maxFlows
      ensures rules == if ok then Inserted(old(rules), r) else old(rules)
    {
      InAll(flows, iterFlows, rules);
      var i := 0;
      while i < |flows|
        invariant 0 <= i <= |flows|
        invariant forall j :: 0 <= j < i ==> flows[j].priority >= r.priority && !Same(flows[j], r)
      {
        if Same(flows[i], r) {
          Replace(r, i);
          return true;
        }
        if flows[i].priority < r.priority {
          break;
        }
        i := i + 1;
      }
      ListsAppend(flows, iterFlows, rules, r, i);
      if nFlows >= maxFlows {
        return false;
      }
      nFlows := nFlows + 1;
      flows := flows[..i] + [r] + flows[i..];
      iterFlows := [r] + iterFlows;
      rules := Inserted(rules, r);
      return true;
    }

    method Replace(r: Flow, i: nat)
      requires Valid() && WellFormed(r) && i < |flows| && Same(flows[i], r)
      modifies this
      ensures Valid() && rules == Inserted(old(rules), r) && |rules| == |old(rules)|
    {
      InAll(flows, iterFlows, rules);
      assert flows[i] in rules && flows[i] in iterFlows;
      SameOnceInLists(flows, iterFlows, rules, r);
      ListsReplace(flows, iterFlows, rules, r);
      ReplaceOne(flows, r, i);
      ReplaceInIteration(r);
      flows := flows[i := r];
      rules := Inserted(rules, r);
    }

    /** The loop of `table_linear_modify`. */
    method ModifyFlows(sel: Flow -> bool, acts: Acts) returns (count: nat)
      modifies this`flows
      ensures flows == Map(old(flows), Updating(sel, acts))
      ensures count == |Filter(old(flows), sel)|
    {
      ghost var was := flows;
      var i := 0;
      count := 0;
      while i < |flows|
        invariant Visited(flows, was, i, sel, acts) && count == |Filter(was[..i], sel)|
      {
        FilterStep(was, i, sel);
        VisitedMore(flows, was, i, sel, acts);
        if sel(flows[i]) {
          flows := flows[i := flows[i].(acts := acts)];
          count := count + 1;
        }
        i := i + 1;
      }
      VisitedAll(flows, was, sel, acts);
    }

    /** `table_linear_modify`: a flow is one record on two lists, so both change. */
    method Modify(d: Key, priority: nat, strict: bool, acts: Acts) returns (count: nat)
      requires Valid()
      modifies this
      ensures Valid()
      ensures rules == Map(old(rules), Updating(Selects(d, priority, strict), acts))
      ensures count == |Filter(old(rules), Selects(d, priority, strict))|
    {
      count := Update(Selects(d, priority, strict), acts);
    }

    method Update(sel: Flow -> bool, acts: Acts) returns (count: nat)
      requires Valid()
      modifies this
      ensures Valid() && rules == Map(old(rules), Updating(sel, acts)) && count == |Filter(old(rules), sel)|
    {
      ListsUpdate(flows, iterFlows, rules, sel, acts);
      ListsFilter(flows, iterFlows, rules, sel);
      count := ModifyFlows(sel, acts);
      iterFlows := Map(iterFlows, Updating(sel, acts));
      rules := Map(rules, Updating(sel, acts));
    }

    /** The loop of `table_linear_delete`. */
    method DeleteFlows(keep: Flow -> bool) returns (count: nat)
      modifies this`flows
      ensures flows == Filter(old(flows), keep)
      ensures count == |old(flows)| - |flows|
    {
      ghost var was := flows;
      var i := 0;
      ghost var k, kept := 0, [];
      count := 0;
      while i < |flows|
        invariant 0 <= k <= |was| && i == |kept| && count == k - i
        invariant kept == Filter(was[..k], keep) && flows == kept + was[k..]
        decreases |was| - k
      {
        FilterStep(was, k, keep);
        Splice(kept, was, k);
        if !keep(flows[i]) {
          flows := flows[..i] + flows[i + 1..];
          count := count + 1;
        } else {
          kept := kept + [flows[i]];
          i := i + 1;
        }
        k := k + 1;
      }
      assert was[..k] == was && flows == kept;
    }

    /** `table_linear_delete` */
    method Delete(d: Key, out: Option<nat>, priority: nat, strict: bool) returns (count: nat)
      requires Valid()
      modifies this
      ensures Valid()
      ensures rules == Filter(old(rules), Not(Deletes(d, out, priority, strict)))
      ensures count == |old(rules)| - |rules|
    {
      count := Retain(Not(Deletes(d, out, priority, strict)));
    }

    method Retain(keep: Flow -> bool) returns (count: nat)
      requires Valid()
      modifies this
      ensures Valid() && rules == Filter(old(rules), keep) && count == |old(rules)| - |rules|
    {
      SameLength(flows, iterFlows, rules);
      ListsFilter(flows, iterFlows, rules, keep);
      count := DeleteFlows(keep);
      nFlows := nFlows - count;
      iterFlows := Filter(iterFlows, keep);
      rules := Filter(rules, keep);
    }

    /** `table_linear_has_conflict` */
    method HasConflict(d: Key, priority: nat, strict: bool) returns (found: bool)
      requires Valid()
      ensures found <==> exists x :: x in rules && Conflicts(x, d, priority, strict)
    {
      InAll(flows, iterFlows, rules);
      for i := 0 to |flows|
        invariant forall j :: 0 <= j < i ==> !Conflicts(flows[j], d, priority, strict)
      {
        if Conflicts(flows[i], d, priority, strict) {
          assert flows[i] in rules;
          return true;
        }
      }
      return false;
    }
  }
}
