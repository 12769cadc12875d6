/**
 Prioritised rule lists: the specification of a flow table, and the lists of `table-linear.c` that
 are kept sorted by priority, equal priorities in order of insertion.
 */
module FlowList {
  import opened FlowKey
  import opened Options

  /** An action, as far as the tables look at it. */
  datatype Act = Output(port: nat) | Other(code: nat)

  type Acts = seq<Act>

  /** `flow_has_out_port`, where no port stands for OFPP_NONE. */
  predicate HasOutPort(acts: Acts, out: Option<nat>) { out.None? || Output(out.value) in acts }

  /** `struct sw_flow`, as far as the tables look at it. */
  datatype Flow = Flow(key: Key, priority: nat, acts: Acts, idle: nat, hard: nat)

  const EXACT_PRIORITY := 0xffff

  predicate IsExact(x: Flow) { x.key.w == EXACT }

  /** As `add_flow` builds it: an exact flow gets the highest priority, a wildcard flow any it asks for. */
  predicate WellFormed(x: Flow) {
    Normal(x.key) && x.priority <= EXACT_PRIORITY && (IsExact(x) ==> x.priority == EXACT_PRIORITY)
  }

  /** The test by which an insert replaces a flow. */
  predicate Same(a: Flow, b: Flow) { a.priority == b.priority && SameKey(a.key, b.key) }

  // ----- lists

  function Map(l: seq<Flow>, g: Flow -> Flow): seq<Flow> {
    seq(|l|, i requires 0 <= i < |l| => g(l[i]))
  }

  function Keep(x: Flow, p: Flow -> bool): seq<Flow> { if p(x) then [x] else [] }

  function Filter(l: seq<Flow>, p: Flow -> bool): seq<Flow> {
    if l == [] then []
    else Filter(l[..|l| - 1], p) + Keep(l[|l| - 1], p)
  }

  ghost predicate AnyIn(l: seq<Flow>, p: Flow -> bool) { exists x :: x in l && p(x) }

  function Reverse(l: seq<Flow>): seq<Flow> {
    seq(|l|, i requires 0 <= i < |l| => l[|l| - 1 - i])
  }

  /** The first flow of the list that `hit` accepts. */
  function First(l: seq<Flow>, hit: Flow -> bool): Option<Flow> {
    if l == [] then None else if hit(l[0]) then Some(l[0]) else First(l[1..], hit)
  }

  /** Behind everything of the same or a higher priority. */
  function InsertBehind(l: seq<Flow>, r: Flow): seq<Flow> {
    if l == [] || l[0].priority < r.priority then [r] + l else [l[0]] + InsertBehind(l[1..], r)
  }

  /** Rules in order of insertion, put in order of priority. */
  function Sorted(rules: seq<Flow>): seq<Flow> {
    if rules == [] then [] else InsertBehind(Sorted(rules[..|rules| - 1]), rules[|rules| - 1])
  }

  ghost predicate Descending(l: seq<Flow>) {
    forall i, j :: 0 <= i < j < |l| ==> l[i].priority >= l[j].priority
  }

  lemma {:induction false} InsertKeeps(l: seq<Flow>, r: Flow)
    requires Descending(l)
    ensures Descending(InsertBehind(l, r)) && |InsertBehind(l, r)| == |l| + 1
    ensures forall x :: x in InsertBehind(l, r) <==> x in l || x == r
  {
    if l != [] && l[0].priority >= r.priority {
      var tail := InsertBehind(l[1..], r);
      InsertKeeps(l[1..], r);
      forall j | 0 <= j < |tail| ensures l[0].priority >= tail[j].priority {
        assert tail[j] in tail;
      }
      assert l == [l[0]] + l[1..];
    }
  }

  lemma {:induction false} SortedKeeps(rules: seq<Flow>)
    ensures Descending(Sorted(rules)) && |Sorted(rules)| == |rules|
    ensures forall x :: x in Sorted(rules) <==> x in rules
  {
    if rules != [] {
      var front := rules[..|rules| - 1];
      SortedKeeps(front);
      InsertKeeps(Sorted(front), rules[|rules| - 1]);
      assert rules == front + [rules[|rules| - 1]];
    }
  }

  // ----- maps and filters commute with sorting

  ghost predicate KeepsPriority(g: Flow -> Flow) { forall x :: g(x).priority == x.priority }

  lemma {:induction false} InsertMap(l: seq<Flow>, r: Flow, g: Flow -> Flow)
    requires KeepsPriority(g)
    ensures Map(InsertBehind(l, r), g) == InsertBehind(Map(l, g), g(r))
  {
    if l != [] && l[0].priority >= r.priority {
      InsertMap(l[1..], r, g);
      assert Map(l, g)[1..] == Map(l[1..], g);
      assert Map([l[0]] + InsertBehind(l[1..], r), g) == [g(l[0])] + Map(InsertBehind(l[1..], r), g);
    } else {
      assert Map([r] + l, g) == [g(r)] + Map(l, g);
    }
  }

  lemma {:induction false} SortedMap(rules: seq<Flow>, g: Flow -> Flow)
    requires KeepsPriority(g)
    ensures Sorted(Map(rules, g)) == Map(Sorted(rules), g)
  {
    if rules != [] {
      var n := |rules| - 1;
      SortedMap(rules[..n], g);
      InsertMap(Sorted(rules[..n]), rules[n], g);
      assert Map(rules, g)[..n] == Map(rules[..n], g);
    }
  }

  lemma {:induction false} FilterAppend(a: seq<Flow>, b: seq<Flow>, p: Flow -> bool)
    ensures Filter(a + b, p) == Filter(a, p) + Filter(b, p)
    decreases |b|
  {
    if b == [] {
      assert a + b == a;
    } else {
      var n := |b| - 1;
      assert (a + b)[..|a + b| - 1] == a + b[..n];
      FilterAppend(a, b[..n], p);
    }
  }

  lemma FilterOne(x: Flow, p: Flow -> bool)
    ensures Filter([x], p) == Keep(x, p)
  {
    assert [x][..0] == [];
  }

  lemma {:induction false} FilterIn(l: seq<Flow>, p: Flow -> bool)
    ensures forall x :: x in Filter(l, p) <==> x in l && p(x)
  {
    if l != [] {
      FilterIn(l[..|l| - 1], p);
      assert l == l[..|l| - 1] + [l[|l| - 1]];
    }
  }

  lemma FilterCons(x: Flow, l: seq<Flow>, p: Flow -> bool)
    ensures Filter([x] + l, p) == if p(x) then [x] + Filter(l, p) else Filter(l, p)
  {
    FilterAppend([x], l, p);
    FilterOne(x, p);
    assert [] + Filter(l, p) == Filter(l, p);
  }

  lemma FilterSnoc(l: seq<Flow>, x: Flow, p: Flow -> bool)
    ensures Filter(l + [x], p) == if p(x) then Filter(l, p) + [x] else Filter(l, p)
  {
    assert (l + [x])[..|l|] == l;
    assert Filter(l, p) + [] == Filter(l, p);
  }

  lemma InsertFront(l: seq<Flow>, r: Flow)
    requires forall x :: x in l ==> x.priority < r.priority
    ensures InsertBehind(l, r) == [r] + l
  {
    if l != [] {
      assert l[0] in l;
    }
  }

  lemma InsertCons(x: Flow, l: seq<Flow>, r: Flow)
    ensures InsertBehind([x] + l, r) == if x.priority < r.priority then [r] + ([x] + l) else [x] + InsertBehind(l, r)
  {
    assert ([x] + l)[1..] == l;
  }

  lemma InsertFilterFront(l: seq<Flow>, r: Flow, p: Flow -> bool)
    requires forall x :: x in l ==> x.priority < r.priority
    ensures Filter([r] + l, p) == if p(r) then InsertBehind(Filter(l, p), r) else Filter(l, p)
  {
    FilterCons(r, l, p);
    FilterIn(l, p);
    InsertFront(Filter(l, p), r);
  }

  lemma InsertFilterStep(x: Flow, l: seq<Flow>, r: Flow, p: Flow -> bool)
    requires x.priority >= r.priority
    requires Filter(InsertBehind(l, r), p) == if p(r) then InsertBehind(Filter(l, p), r) else Filter(l, p)
    ensures Filter(InsertBehind([x] + l, r), p)
         == if p(r) then InsertBehind(Filter([x] + l, p), r) else Filter([x] + l, p)
  {
    InsertCons(x, l, r);
    var rest, kept := InsertBehind(l, r), Filter(l, p);
    assert Filter([x] + rest, p) == if p(x) then [x] + Filter(rest, p) else Filter(rest, p) by {
      FilterCons(x, rest, p);
    }
    assert Filter([x] + l, p) == if p(x) then [x] + kept else kept by { FilterCons(x, l, p); }
    assert InsertBehind([x] + kept, r) == [x] + InsertBehind(kept, r) by { InsertCons(x, kept, r); }
  }

  lemma InsertFilterMore(l: seq<Flow>, r: Flow, p: Flow -> bool)
    requires l != [] && l[0].priority >= r.priority
    requires Filter(InsertBehind(l[1..], r), p) ==
               if p(r) then InsertBehind(Filter(l[1..], p), r) else Filter(l[1..], p)
    ensures Filter(InsertBehind(l, r), p) == if p(r) then InsertBehind(Filter(l, p), r) else Filter(l, p)
  {
    assert l == [l[0]] + l[1..];
    InsertFilterStep(l[0], l[1..], r, p);
  }

  lemma {:induction false} InsertFilter(l: seq<Flow>, r: Flow, p: Flow -> bool)
    requires Descending(l)
    ensures Filter(InsertBehind(l, r), p) == if p(r) then InsertBehind(Filter(l, p), r) else Filter(l, p)
  {
    if l == [] || l[0].priority < r.priority {
      InsertFilterFront(l, r, p);
    } else {
      InsertFilter(l[1..], r, p);
      InsertFilterMore(l, r, p);
    }
  }

  lemma SortedSnoc(l: seq<Flow>, r: Flow)
    ensures Sorted(l + [r]) == InsertBehind(Sorted(l), r)
  {
    assert (l + [r])[..|l|] == l;
  }

  lemma SortedFilterStep(front: seq<Flow>, r: Flow, p: Flow -> bool)
    requires Sorted(Filter(front, p)) == Filter(Sorted(front), p)
    ensures Sorted(Filter(front + [r], p)) == Filter(Sorted(front + [r]), p)
  {
    var l, kept := Sorted(front), Filter(front, p);
    assert Descending(l) by { SortedKeeps(front); }
    assert Sorted(front + [r]) == InsertBehind(l, r) by { SortedSnoc(front, r); }
    assert Filter(front + [r], p) == if p(r) then kept + [r] else kept by { FilterSnoc(front, r, p); }
    assert Sorted(kept + [r]) == InsertBehind(Sorted(kept), r) by { SortedSnoc(kept, r); }
    InsertFilter(l, r, p);
  }

  lemma {:induction false} SortedFilter(rules: seq<Flow>, p: Flow -> bool)
    ensures Sorted(Filter(rules, p)) == Filter(Sorted(rules), p)
  {
    if rules != [] {
      var front, r := rules[..|rules| - 1], rules[|rules| - 1];
      SortedFilter(front, p);
      SortedFilterStep(front, r, p);
      assert rules == front + [r];
    }
  }

  // ----- the best match

  /** Rule `i` is the one of highest priority that `hit` accepts, the earliest of those. */
  ghost predicate IsBest(rules: seq<Flow>, hit: Flow -> bool, i: nat) {
    && i < |rules| && hit(rules[i])
    && forall j :: 0 <= j < |rules| && hit(rules[j]) ==>
                     rules[j].priority < rules[i].priority || (rules[j].priority == rules[i].priority && i <= j)
  }

  ghost predicate BestIs(rules: seq<Flow>, hit: Flow -> bool, r: Option<Flow>) {
    match r
    case None => forall j :: 0 <= j < |rules| ==> !hit(rules[j])
    case Some(x) => exists i: nat :: IsBest(rules, hit, i) && rules[i] == x
  }

  lemma {:induction false} FirstBelow(l: seq<Flow>, hit: Flow -> bool, bound: nat)
    requires forall i :: 0 <= i < |l| ==> l[i].priority <= bound
    ensures First(l, hit).Some? ==> First(l, hit).value.priority <= bound
  {
    if l != [] && !hit(l[0]) {
      FirstBelow(l[1..], hit, bound);
    }
  }

  lemma {:induction false} FirstInsert(l: seq<Flow>, r: Flow, hit: Flow -> bool)
    requires Descending(l)
    ensures var m := First(l, hit);
            First(InsertBehind(l, r), hit) ==
            if hit(r) && (m.None? || m.value.priority < r.priority) then Some(r) else m
  {
    if l == [] || l[0].priority < r.priority {
      assert ([r] + l)[1..] == l;
      if l != [] {
        FirstBelow(l, hit, l[0].priority);
      }
    } else {
      FirstInsert(l[1..], r, hit);
      assert ([l[0]] + InsertBehind(l[1..], r))[1..] == InsertBehind(l[1..], r);
    }
  }

  /** The first hit in the sorted list is the best rule of the list in insertion order. */
  lemma {:induction false} FirstIsBest(rules: seq<Flow>, hit: Flow -> bool)
    ensures BestIs(rules, hit, First(Sorted(rules), hit))
  {
    if rules != [] {
      var n := |rules| - 1;
      var front, r := rules[..n], rules[n];
      FirstIsBest(front, hit);
      SortedKeeps(front);
      FirstInsert(Sorted(front), r, hit);
      BestSnoc(front, r, hit, First(Sorted(front), hit));
      assert rules == front + [r];
    }
  }

  lemma BestSnoc(front: seq<Flow>, r: Flow, hit: Flow -> bool, m: Option<Flow>)
    requires BestIs(front, hit, m)
    ensures BestIs(front + [r], hit, if hit(r) && (m.None? || m.value.priority < r.priority) then Some(r) else m)
  {
    var rules := front + [r];
    if hit(r) && (m.None? || m.value.priority < r.priority) {
      assert IsBest(rules, hit, |front|);
    } else if m.Some? {
      var i: nat :| IsBest(front, hit, i) && front[i] == m.value;
      assert IsBest(rules, hit, i);
    }
  }
}
