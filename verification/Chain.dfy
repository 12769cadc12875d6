/**
 `chain.c`: the two-way hash table chained before the linear table. Together they are one prioritised
 rule list: the same list, under the same operations, that a linear table alone would hold.
 */
module Chain {
  import opened FlowKey
  import opened FlowList
  import opened Options
  import opened TableLinear
  import opened TableHash

  function IsWild(): Flow -> bool { (x: Flow) => !IsExact(x) }

  // ----- the first flow for a key

  lemma {:induction false} FirstSome(l: seq<Flow>, e: Flow -> bool)
    ensures var m := First(l, e);
            (m.Some? ==> m.value in l && e(m.value)) && (m.None? ==> forall x :: x in l ==> !e(x))
  {
    if l != [] {
      FirstSome(l[1..], e);
      assert l == [l[0]] + l[1..];
    }
  }

  lemma {:induction false} FirstSnoc(l: seq<Flow>, r: Flow, e: Flow -> bool)
    ensures First(l + [r], e) == Or(First(l, e), if e(r) then Some(r) else None)
  {
    if l == [] {
      assert ([r])[1..] == [];
      assert l + [r] == [r];
    } else {
      FirstSnoc(l[1..], r, e);
      assert (l + [r])[1..] == l[1..] + [r];
    }
  }

  lemma {:induction false} FirstMap(l: seq<Flow>, g: Flow -> Flow, e: Flow -> bool)
    requires forall x :: x in l ==> e(g(x)) == e(x)
    ensures First(Map(l, g), e) == MapOne(First(l, e), g)
  {
    if l != [] {
      FirstMap(l[1..], g, e);
      assert Map(l, g)[1..] == Map(l[1..], g);
    }
  }

  lemma SnocParts(l: seq<Flow>)
    requires l != []
    ensures l == l[..|l| - 1] + [l[|l| - 1]]
  {
  }

  /** Filtering cannot bring a second flow for the key to light, for there is none. */
  lemma {:induction false} FirstFilter(l: seq<Flow>, p: Flow -> bool, f: Fields)
    requires RuleList(l)
    ensures First(Filter(l, p), ExactFor(f)) == KeepOne(First(l, ExactFor(f)), p)
  {
    if l != [] {
      var front, r := l[..|l| - 1], l[|l| - 1];
      SnocParts(l);
      FirstFilter(front, p, f);
      FilterSnoc(front, r, p);
      FirstSnoc(front, r, ExactFor(f));
      FirstSnoc(Filter(front, p), r, ExactFor(f));
      if ExactFor(f)(r) {
        OnlyExact(front, r, f);
      }
    }
  }

  lemma OnlyExact(l: seq<Flow>, r: Flow, f: Fields)
    requires AllWellFormed(l) && WellFormed(r) && New(l, r) && ExactFor(f)(r)
    ensures First(l, ExactFor(f)) == None
  {
    FirstSome(l, ExactFor(f));
    var m := First(l, ExactFor(f));
    if m.Some? {
      SameExact(m.value.key, r.key);
    }
  }

  /** An exact rule of the list is the one found under its key. */
  lemma {:induction false} FirstExact(l: seq<Flow>, x: Flow)
    requires RuleList(l) && x in l && IsExact(x)
    ensures First(l, ExactFor(x.key.f)) == Some(x)
  {
    var front, r := l[..|l| - 1], l[|l| - 1];
    SnocParts(l);
    FirstSnoc(front, r, ExactFor(x.key.f));
    if x in front {
      FirstExact(front, x);
    } else {
      OnlyExact(front, r, x.key.f);
    }
  }

  // ----- inserting

  lemma FirstInserted(l: seq<Flow>, r: Flow, f: Fields)
    requires RuleList(l) && WellFormed(r)
    ensures First(Inserted(l, r), ExactFor(f)) == if ExactFor(f)(r) then Some(r) else First(l, ExactFor(f))
  {
    var e := ExactFor(f);
    if exists x :: x in l && Same(x, r) {
      var x :| x in l && Same(x, r);
      forall y | y in l ensures e(Replacing(r)(y)) == e(y) {
        if Same(y, r) && IsExact(y) {
          SameExact(y.key, r.key);
        }
      }
      FirstMap(l, Replacing(r), e);
      FirstSome(l, e);
      if e(r) {
        SameExact(x.key, r.key);
        FirstExact(l, x);
      }
    } else {
      FirstSnoc(l, r, e);
      if e(r) {
        OnlyExact(l, r, f);
      }
    }
  }

  lemma {:induction false} FilterMap(l: seq<Flow>, g: Flow -> Flow, p: Flow -> bool)
    requires forall x :: x in l ==> p(g(x)) == p(x)
    ensures Filter(Map(l, g), p) == Map(Filter(l, p), g)
  {
    if l != [] {
      var n := |l| - 1;
      FilterMap(l[..n], g, p);
      assert Map(l, g)[..n] == Map(l[..n], g);
      MapSnoc(Filter(l[..n], p), l[n], g);
    }
  }

  lemma MapSnoc(l: seq<Flow>, x: Flow, g: Flow -> Flow)
    ensures Map(l + [x], g) == Map(l, g) + [g(x)] && Map(l + [], g) == Map(l, g) + []
  {
    assert l + [] == l;
  }

  /** An insert seen through a filter that does not tell a flow from the one it replaces. */
  lemma FilterInserted(l: seq<Flow>, r: Flow, p: Flow -> bool)
    requires forall x :: x in l && Same(x, r) ==> p(x) == p(r)
    ensures Filter(Inserted(l, r), p) == if p(r) then Inserted(Filter(l, p), r) else Filter(l, p)
  {
    var kept := Filter(l, p);
    FilterIn(l, p);
    if exists x :: x in l && Same(x, r) {
      FilterMap(l, Replacing(r), p);
      assert !p(r) ==> Map(kept, Replacing(r)) == kept;
      var x :| x in l && Same(x, r);
      assert p(r) ==> x in kept;
    } else {
      FilterSnoc(l, r, p);
    }
  }

  lemma {:induction false} FilterAlike(l: seq<Flow>, p: Flow -> bool, q: Flow -> bool)
    requires forall x :: x in l ==> p(x) == q(x)
    ensures Filter(l, p) == Filter(l, q)
  {
    if l != [] {
      FilterAlike(l[..|l| - 1], p, q);
    }
  }

  lemma WildInserted(l: seq<Flow>, r: Flow)
    ensures Filter(Inserted(l, r), IsWild())
         == if IsExact(r) then Filter(l, IsWild()) else Inserted(Filter(l, IsWild()), r)
  {
    FilterInserted(l, r, IsWild());
  }

  /** The flows that can match a packet with these fields: wildcard flows, and the exact one. */
  function Relevant(f: Fields): Flow -> bool { (x: Flow) => IsExact(x) ==> x.key.f == f }

  lemma RelevantInserted(l: seq<Flow>, r: Flow, f: Fields)
    requires AllWellFormed(l) && WellFormed(r)
    ensures Filter(Inserted(l, r), Relevant(f))
         == if Relevant(f)(r) then Inserted(Filter(l, Relevant(f)), r) else Filter(l, Relevant(f))
  {
    forall x | x in l && Same(x, r) ensures Relevant(f)(x) == Relevant(f)(r) {
      if IsExact(x) {
        SameExact(x.key, r.key);
      }
    }
    FilterInserted(l, r, Relevant(f));
  }

  // ----- the best match of a list

  function Best(l: seq<Flow>, p: Fields): Option<Flow> { First(Sorted(l), Hit(p)) }

  lemma {:induction false} FirstOfFilter(s: seq<Flow>, q: Flow -> bool, hit: Flow -> bool)
    requires forall x :: x in s && hit(x) ==> q(x)
    ensures First(Filter(s, q), hit) == First(s, hit)
  {
    if s != [] {
      FirstOfFilter(s[1..], q, hit);
      assert s == [s[0]] + s[1..];
      FilterCons(s[0], s[1..], q);
      if q(s[0]) {
        assert ([s[0]] + Filter(s[1..], q))[1..] == Filter(s[1..], q);
      }
    }
  }

  /** Exact flows for other packets do not take part. */
  lemma BestRelevant(l: seq<Flow>, p: Fields)
    requires AllWellFormed(l)
    ensures Best(Filter(l, Relevant(p)), p) == Best(l, p)
  {
    SortedKeeps(l);
    forall x | x in Sorted(l) && Hit(p)(x) ensures Relevant(p)(x) {
      if IsExact(x) {
        ExactMatches(p, x.key);
      }
    }
    SortedFilter(l, Relevant(p));
    FirstOfFilter(Sorted(l), Relevant(p), Hit(p));
  }

  predicate IsTopWild(x: Flow, p: Fields) { !IsExact(x) && x.priority == EXACT_PRIORITY && Matches(p, x.key) }

  /** A wildcard flow of the highest priority matches the packet and is older than the exact flow for it. */
  ghost predicate Overtaken(l: seq<Flow>, p: Fields) {
    exists i, e :: 0 <= i < e < |l| && ExactFor(p)(l[e]) && IsTopWild(l[i], p)
  }

  lemma ExactAt(l: seq<Flow>, p: Fields) returns (e: nat)
    requires RuleList(l) && First(l, ExactFor(p)).Some?
    ensures e < |l| && First(l, ExactFor(p)) == Some(l[e]) && ExactFor(p)(l[e]) && Hit(p)(l[e])
    ensures forall j :: 0 <= j < |l| && ExactFor(p)(l[j]) ==> j == e
  {
    FirstSome(l, ExactFor(p));
    var x := First(l, ExactFor(p)).value;
    e :| 0 <= e < |l| && l[e] == x;
    ExactMatches(p, x.key);
    forall j | 0 <= j < |l| && ExactFor(p)(l[j]) ensures j == e {
      assert l[j] in l && l[e] in l;
      SameExact(l[j].key, l[e].key);
      if j < e {
        DistinctAt(l, j, e);
      } else if e < j {
        DistinctAt(l, e, j);
      }
    }
  }

  /** With an exact flow at `e`, the best rule is an older wildcard flow of its priority, if there is one. */
  lemma BestIsExactIff(l: seq<Flow>, p: Fields, e: nat, i: nat)
    requires RuleList(l) && e < |l| && ExactFor(p)(l[e]) && Hit(p)(l[e])
    requires forall j :: 0 <= j < |l| && ExactFor(p)(l[j]) ==> j == e
    requires IsBest(l, Hit(p), i)
    ensures l[i] == l[e] <==> !Overtaken(l, p)
  {
    assert l[i] in l && l[e] in l;
    assert i <= e && l[i].priority == EXACT_PRIORITY;
    if i < e {
      if IsExact(l[i]) {
        ExactMatches(p, l[i].key);
      }
      assert IsTopWild(l[i], p);
    } else {
      forall j, k | 0 <= j < k < |l| && ExactFor(p)(l[k]) ensures !IsTopWild(l[j], p) {
        assert k == e;
      }
    }
  }

  /** The exact flow of a list is the best one for its packet unless it is overtaken. */
  lemma ExactIsBestIff(l: seq<Flow>, p: Fields)
    requires RuleList(l) && First(l, ExactFor(p)).Some?
    ensures First(l, ExactFor(p)) == Best(l, p) <==> !Overtaken(l, p)
  {
    FirstIsBest(l, Hit(p));
    var e := ExactAt(l, p);
    var i: nat :| IsBest(l, Hit(p), i) && l[i] == Best(l, p).value;
    BestIsExactIff(l, p, e, i);
  }

  // ----- the tables against the rule list

  /** The flows for exact keys, of which a later table may hold an older copy, and the wildcard flows. */
  ghost predicate Refines(find: Finder, linear: seq<Flow>, rules: seq<Flow>) {
    forall l {:trigger RuleList(l)} :: l == rules ==> Agrees(find, linear, l)
  }

  ghost predicate Agrees(find: Finder, linear: seq<Flow>, rules: seq<Flow>) {
    && RuleList(rules) && RuleList(linear)
    && Filter(linear, IsWild()) == Filter(rules, IsWild())
    && InPlace(find, linear, rules) && AllFound(find, linear, rules)
  }

  /** A flow that the hash tables do not have is in the list, if at all, in its place among the wildcard flows. */
  ghost predicate InPlace(find: Finder, linear: seq<Flow>, rules: seq<Flow>) {
    forall f :: find(f).None? ==> Filter(linear, Relevant(f)) == Filter(rules, Relevant(f))
  }

  /** The first flow for a key is the rule for it. */
  ghost predicate AllFound(find: Finder, linear: seq<Flow>, rules: seq<Flow>) {
    && ForKeys(find)
    && (forall f :: Or(find(f), First(linear, ExactFor(f))) == First(rules, ExactFor(f)))
  }

  lemma Refined(find: Finder, linear: seq<Flow>, rules: seq<Flow>)
    requires Refines(find, linear, rules)
    ensures Agrees(find, linear, rules)
  {
    assert RuleList(rules) || !RuleList(rules);
  }

  lemma RefinesNothing(find: Finder)
    requires forall f :: find(f).None?
    ensures Refines(find, [], [])
  {
    assert Agrees(find, [], []);
  }

  lemma AgreesPut(was: Finder, now: Finder, linear: seq<Flow>, rules: seq<Flow>, r: Flow)
    requires Agrees(was, linear, rules) && WellFormed(r) && IsExact(r) && Puts(was, now, r)
    ensures Agrees(now, linear, Inserted(rules, r))
  {
    InsertedKeeps(rules, r);
    WildInserted(rules, r);
    forall f | now(f).None? ensures Filter(linear, Relevant(f)) == Filter(Inserted(rules, r), Relevant(f)) {
      RelevantInserted(rules, r, f);
    }
    forall f ensures Or(now(f), First(linear, ExactFor(f))) == First(Inserted(rules, r), ExactFor(f)) {
      FirstInserted(rules, r, f);
    }
  }

  lemma RefinesPut(was: Finder, now: Finder, linear: seq<Flow>, rules: seq<Flow>, r: Flow)
    requires Refines(was, linear, rules) && WellFormed(r) && IsExact(r) && Puts(was, now, r)
    ensures Refines(now, linear, Inserted(rules, r))
  {
    Refined(was, linear, rules);
    AgreesPut(was, now, linear, rules, r);
  }

  lemma AgreesInsert(find: Finder, linear: seq<Flow>, rules: seq<Flow>, r: Flow)
    requires Agrees(find, linear, rules) && WellFormed(r) && (IsExact(r) ==> find(r.key.f).None?)
    ensures Agrees(find, Inserted(linear, r), Inserted(rules, r))
  {
    InsertedKeeps(rules, r);
    InsertedKeeps(linear, r);
    WildInserted(rules, r);
    WildInserted(linear, r);
    forall f | find(f).None?
      ensures Filter(Inserted(linear, r), Relevant(f)) == Filter(Inserted(rules, r), Relevant(f))
    {
      RelevantInserted(rules, r, f);
      RelevantInserted(linear, r, f);
    }
    forall f ensures Or(find(f), First(Inserted(linear, r), ExactFor(f))) == First(Inserted(rules, r), ExactFor(f)) {
      FirstInserted(rules, r, f);
      FirstInserted(linear, r, f);
    }
  }

  lemma RefinesInsert(find: Finder, linear: seq<Flow>, rules: seq<Flow>, r: Flow)
    requires Refines(find, linear, rules) && WellFormed(r) && (IsExact(r) ==> find(r.key.f).None?)
    ensures Refines(find, Inserted(linear, r), Inserted(rules, r))
  {
    Refined(find, linear, rules);
    AgreesInsert(find, linear, rules, r);
  }

  lemma FilterUpdated(linear: seq<Flow>, rules: seq<Flow>, sel: Flow -> bool, acts: Acts, p: Flow -> bool)
    requires Filter(linear, p) == Filter(rules, p)
    requires forall x: Flow, a: Acts :: p(x.(acts := a)) == p(x)
    ensures Filter(Map(linear, Updating(sel, acts)), p) == Filter(Map(rules, Updating(sel, acts)), p)
  {
    FilterMap(rules, Updating(sel, acts), p);
    FilterMap(linear, Updating(sel, acts), p);
  }

  lemma FirstUpdated(was: Option<Flow>, linear: seq<Flow>, rules: seq<Flow>, sel: Flow -> bool, acts: Acts, f: Fields)
    requires Or(was, First(linear, ExactFor(f))) == First(rules, ExactFor(f))
    ensures var g := Updating(sel, acts);
            Or(MapOne(was, g), First(Map(linear, g), ExactFor(f))) == First(Map(rules, g), ExactFor(f))
  {
    FirstMap(rules, Updating(sel, acts), ExactFor(f));
    FirstMap(linear, Updating(sel, acts), ExactFor(f));
  }

  lemma InPlaceUpdate(was: Finder, now: Finder, linear: seq<Flow>, rules: seq<Flow>,
                      sel: Flow -> bool, acts: Acts)
    requires InPlace(was, linear, rules) && Maps(was, now, Updating(sel, acts))
    ensures InPlace(now, Map(linear, Updating(sel, acts)), Map(rules, Updating(sel, acts)))
  {
    var g := Updating(sel, acts);
    forall f | now(f).None? ensures Filter(Map(linear, g), Relevant(f)) == Filter(Map(rules, g), Relevant(f)) {
      FilterUpdated(linear, rules, sel, acts, Relevant(f));
    }
  }

  lemma AllFoundUpdate(was: Finder, now: Finder, linear: seq<Flow>, rules: seq<Flow>,
                       sel: Flow -> bool, acts: Acts)
    requires AllFound(was, linear, rules) && Maps(was, now, Updating(sel, acts))
    ensures AllFound(now, Map(linear, Updating(sel, acts)), Map(rules, Updating(sel, acts)))
  {
    var g := Updating(sel, acts);
    forall f ensures Or(now(f), First(Map(linear, g), ExactFor(f))) == First(Map(rules, g), ExactFor(f)) {
      FirstUpdated(was(f), linear, rules, sel, acts, f);
    }
  }

  lemma AgreesUpdate(was: Finder, now: Finder, linear: seq<Flow>, rules: seq<Flow>,
                     sel: Flow -> bool, acts: Acts)
    requires Agrees(was, linear, rules) && Maps(was, now, Updating(sel, acts))
    ensures Agrees(now, Map(linear, Updating(sel, acts)), Map(rules, Updating(sel, acts)))
  {
    UpdateKeeps(rules, sel, acts);
    UpdateKeeps(linear, sel, acts);
    FilterUpdated(linear, rules, sel, acts, IsWild());
    InPlaceUpdate(was, now, linear, rules, sel, acts);
    AllFoundUpdate(was, now, linear, rules, sel, acts);
  }

  lemma RefinesUpdate(was: Finder, now: Finder, linear: seq<Flow>, rules: seq<Flow>,
                      sel: Flow -> bool, acts: Acts)
    requires Refines(was, linear, rules) && Maps(was, now, Updating(sel, acts))
    ensures Refines(now, Map(linear, Updating(sel, acts)), Map(rules, Updating(sel, acts)))
  {
    Refined(was, linear, rules);
    AgreesUpdate(was, now, linear, rules, sel, acts);
  }

  lemma {:induction false} FilterFilter(l: seq<Flow>, p: Flow -> bool, q: Flow -> bool)
    ensures Filter(Filter(l, p), q) == Filter(Filter(l, q), p)
  {
    if l != [] {
      var front, r := l[..|l| - 1], l[|l| - 1];
      SnocParts(l);
      FilterFilter(front, p, q);
      FilterSnoc(front, r, p);
      FilterSnoc(front, r, q);
      FilterSnoc(Filter(front, p), r, q);
      FilterSnoc(Filter(front, q), r, p);
    }
  }

  // ----- deleting: older copies may come to light

  /** Of three copies in order of lookup the first goes, and a later one stays. */
  predicate Uncovers(a: Option<Flow>, b: Option<Flow>, c: Option<Flow>, keep: Flow -> bool) {
    var top := Or(a, Or(b, c));
    top.Some? && !keep(top.value) && Or(KeepOne(a, keep), Or(KeepOne(b, keep), KeepOne(c, keep))).Some?
  }

  /** The keys whose first flow goes, while an older copy of it in a later table stays. */
  ghost function Resurfacing(a: Finder, b: Finder, linear: seq<Flow>, keep: Flow -> bool): iset<Fields> {
    iset f | Uncovers(a(f), b(f), First(linear, ExactFor(f)), keep)
  }

  /** If such flows are kept, no older copy of another comes to light. */
  ghost predicate Clean(a: Finder, b: Finder, linear: seq<Flow>, keep: Flow -> bool) {
    forall l {:trigger Resurfacing(a, b, l, keep)} :: l == linear ==> Resurfacing(a, b, l, keep) == iset{}
  }

  lemma CleanIff(a: Finder, b: Finder, linear: seq<Flow>, keep: Flow -> bool)
    ensures Clean(a, b, linear, keep) <==> forall f :: !Uncovers(a(f), b(f), First(linear, ExactFor(f)), keep)
  {
    assert forall f :: f in Resurfacing(a, b, linear, keep) <==> Uncovers(a(f), b(f), First(linear, ExactFor(f)), keep);
  }

  /** Without an exact flow for the key only wildcard flows are relevant. */
  lemma OnlyWild(l: seq<Flow>, f: Fields)
    requires First(l, ExactFor(f)).None?
    ensures Filter(l, Relevant(f)) == Filter(l, IsWild())
  {
    FirstSome(l, ExactFor(f));
    FilterAlike(l, Relevant(f), IsWild());
  }

  /** What is found first is what was, unless it goes. */
  ghost predicate FoundKept(was: Finder, now: Finder, linear: seq<Flow>, p: Flow -> bool) {
    && ForKeys(now)
    && (forall f :: now(f).None? ==> KeepOne(was(f), p).None?)
    && (forall f ::
          Or(now(f), First(Filter(linear, p), ExactFor(f))) == KeepOne(Or(was(f), First(linear, ExactFor(f))), p))
  }

  lemma InPlaceKeep(was: Finder, now: Finder, linear: seq<Flow>, rules: seq<Flow>, p: Flow -> bool)
    requires Agrees(was, linear, rules) && FoundKept(was, now, linear, p)
    requires AllFound(now, Filter(linear, p), Filter(rules, p))
    ensures InPlace(now, Filter(linear, p), Filter(rules, p))
  {
    forall f | now(f).None? ensures Filter(Filter(linear, p), Relevant(f)) == Filter(Filter(rules, p), Relevant(f)) {
      if was(f).None? {
        FilterFilter(rules, p, Relevant(f));
        FilterFilter(linear, p, Relevant(f));
      } else {
        assert Or(now(f), First(Filter(linear, p), ExactFor(f))) == KeepOne(was(f), p) == None;
        OnlyWild(Filter(linear, p), f);
        OnlyWild(Filter(rules, p), f);
        FilterFilter(rules, p, IsWild());
        FilterFilter(linear, p, IsWild());
      }
    }
  }

  lemma AllFoundKeep(was: Finder, now: Finder, linear: seq<Flow>, rules: seq<Flow>, p: Flow -> bool)
    requires Agrees(was, linear, rules) && FoundKept(was, now, linear, p)
    ensures AllFound(now, Filter(linear, p), Filter(rules, p))
  {
    forall f ensures Or(now(f), First(Filter(linear, p), ExactFor(f))) == First(Filter(rules, p), ExactFor(f)) {
      FirstFilter(rules, p, f);
    }
  }

  lemma AgreesKeep(was: Finder, now: Finder, linear: seq<Flow>, rules: seq<Flow>, p: Flow -> bool)
    requires Agrees(was, linear, rules) && FoundKept(was, now, linear, p)
    ensures Agrees(now, Filter(linear, p), Filter(rules, p))
  {
    FilterKeeps(rules, p);
    FilterKeeps(linear, p);
    FilterFilter(rules, p, IsWild());
    FilterFilter(linear, p, IsWild());
    AllFoundKeep(was, now, linear, rules, p);
    InPlaceKeep(was, now, linear, rules, p);
  }

  lemma FoundKeptIff(a: Finder, b: Finder, a': Finder, b': Finder,
                     linear: seq<Flow>, keep: Flow -> bool)
    requires ForKeys(a) && ForKeys(b) && Keeps(a, a', keep) && Keeps(b, b', keep) && RuleList(linear)
    ensures FoundKept(Both(a, b), Both(a', b'), linear, keep) <==> Clean(a, b, linear, keep)
  {
    var was, now := Both(a, b), Both(a', b');
    CleanIff(a, b, linear, keep);
    forall f
      ensures Or(now(f), First(Filter(linear, keep), ExactFor(f)))
           == KeepOne(Or(was(f), First(linear, ExactFor(f))), keep)
         <==> !Uncovers(a(f), b(f), First(linear, ExactFor(f)), keep)
    {
      FirstFilter(linear, keep, f);
    }
  }

  /** A delete leaves the tables with the rules it should leave exactly if no older copy comes to light. */
  lemma RefinesKeepIff(a: Finder, b: Finder, a': Finder, b': Finder,
                       linear: seq<Flow>, rules: seq<Flow>, keep: Flow -> bool)
    requires ForKeys(a) && ForKeys(b) && Keeps(a, a', keep) && Keeps(b, b', keep) && Refines(Both(a, b), linear, rules)
    ensures Refines(Both(a', b'), Filter(linear, keep), Filter(rules, keep)) <==> Clean(a, b, linear, keep)
  {
    var was, now := Both(a, b), Both(a', b');
    Refined(was, linear, rules);
    FoundKeptIff(a, b, a', b', linear, keep);
    CleanIff(a, b, linear, keep);
    if Clean(a, b, linear, keep) {
      AgreesKeep(was, now, linear, rules, keep);
    } else {
      var f :| Uncovers(a(f), b(f), First(linear, ExactFor(f)), keep);
      StaysBehind(was, linear, rules, keep, f);
      FirstFilter(linear, keep, f);
      RefinedAt(now, Filter(linear, keep), Filter(rules, keep), f);
    }
  }

  lemma RefinedAt(find: Finder, linear: seq<Flow>, rules: seq<Flow>, f: Fields)
    ensures Refines(find, linear, rules) ==> Or(find(f), First(linear, ExactFor(f))) == First(rules, ExactFor(f))
  {
    if Refines(find, linear, rules) {
      Refined(find, linear, rules);
    }
  }

  lemma StaysBehind(was: Finder, linear: seq<Flow>, rules: seq<Flow>, keep: Flow -> bool, f: Fields)
    requires Agrees(was, linear, rules)
    ensures First(Filter(rules, keep), ExactFor(f)) == KeepOne(Or(was(f), First(linear, ExactFor(f))), keep)
  {
    FirstFilter(rules, keep, f);
  }

  /** A test that copies pass together brings nothing to light. */
  lemma NothingResurfaces(a: Finder, b: Finder, linear: seq<Flow>, keep: Flow -> bool)
    requires ForKeys(a) && ForKeys(b) && RuleList(linear) && ByIdentity(keep)
    ensures Clean(a, b, linear, keep)
  {
    CleanIff(a, b, linear, keep);
    forall f ensures !Uncovers(a(f), b(f), First(linear, ExactFor(f)), keep) {
      FirstSome(linear, ExactFor(f));
      KeepOr(b(f), First(linear, ExactFor(f)), keep, f);
      KeepOr(a(f), Or(b(f), First(linear, ExactFor(f))), keep, f);
    }
  }

  // ----- every state of the tables stands for some rule list

  /** The flows of the first `k` buckets, before what `later` finds. */
  ghost function FindBelow(h: Fields -> nat, b: Buckets, k: nat, later: Finder): Finder
    requires |b| > 0
  {
    (f: Fields) => if Index(h, |b|, f) < k then Or(Find(h, b, f), later(f)) else later(f)
  }

  lemma AgreesAlike(was: Finder, now: Finder, linear: seq<Flow>, rules: seq<Flow>)
    requires Agrees(was, linear, rules) && forall f :: now(f) == was(f)
    ensures Agrees(now, linear, rules)
  {
  }

  lemma BelowStep(h: Fields -> nat, b: Buckets, k: nat, later: Finder)
    requires Placed(h, b) && k < |b|
    ensures b[k].Some? ==> Puts(FindBelow(h, b, k, later), FindBelow(h, b, k + 1, later), b[k].value)
    ensures b[k].None? ==> forall f :: FindBelow(h, b, k + 1, later)(f) == FindBelow(h, b, k, later)(f)
  {
    var was, now := FindBelow(h, b, k, later), FindBelow(h, b, k + 1, later);
    assert b[k].Some? ==> PlacedAt(h, |b|, k, b[k].value);
    forall f ensures now(f) == if b[k].Some? && b[k].value.key.f == f then b[k] else was(f) {
      if Index(h, |b|, f) == k {
        assert now(f) == Or(Find(h, b, f), later(f)) && was(f) == later(f);
      }
    }
  }

  lemma {:induction false} AgreesBelow(h: Fields -> nat, b: Buckets, k: nat, later: Finder, linear: seq<Flow>,
                                       rules: seq<Flow>) returns (rules': seq<Flow>)
    requires Placed(h, b) && k <= |b| && Agrees(later, linear, rules)
    ensures Agrees(FindBelow(h, b, k, later), linear, rules')
  {
    if k == 0 {
      rules' := rules;
      AgreesAlike(later, FindBelow(h, b, 0, later), linear, rules);
    } else {
      var front := AgreesBelow(h, b, k - 1, later, linear, rules);
      var was, now := FindBelow(h, b, k - 1, later), FindBelow(h, b, k, later);
      BelowStep(h, b, k - 1, later);
      if b[k - 1].Some? {
        var r := b[k - 1].value;
        AgreesPut(was, now, linear, front, r);
        rules' := Inserted(front, r);
      } else {
        AgreesAlike(was, now, linear, front);
        rules' := front;
      }
    }
  }

  /** Whatever the tables hold, some rule list is what they stand for. */
  lemma TablesStandForRules(h0: Fields -> nat, b0: Buckets, h1: Fields -> nat, b1: Buckets, linear: seq<Flow>)
    returns (rules: seq<Flow>)
    requires Placed(h0, b0) && Placed(h1, b1) && RuleList(linear)
    ensures Refines(Both(FindIn(h0, b0), FindIn(h1, b1)), linear, rules)
  {
    var none := (f: Fields) => None;
    assert Agrees(none, linear, linear);
    var rules1 := AgreesBelow(h1, b1, |b1|, none, linear, linear);
    var later := FindBelow(h1, b1, |b1|, none);
    rules := AgreesBelow(h0, b0, |b0|, later, linear, rules1);
    AgreesAlike(FindBelow(h0, b0, |b0|, later), Both(FindIn(h0, b0), FindIn(h1, b1)), linear, rules);
  }

  /**
   Looking the key up in the hash tables and then in the list finds the best rule, if and only if it is
   not that the hash tables have the exact flow and an older wildcard flow of its priority matches.
   */
  lemma LookupAgreesIff(find: Finder, linear: seq<Flow>, rules: seq<Flow>, p: Fields)
    requires Refines(find, linear, rules)
    ensures find(p).Some? ==> find(p) == First(rules, ExactFor(p))
    ensures Or(find(p), Best(linear, p)) == Best(rules, p) <==> !(find(p).Some? && Overtaken(rules, p))
    ensures BestIs(rules, Hit(p), Best(rules, p))
  {
    Refined(find, linear, rules);
    FirstIsBest(rules, Hit(p));
    if find(p).Some? {
      assert Or(find(p), First(linear, ExactFor(p))) == First(rules, ExactFor(p));
      ExactIsBestIff(rules, p);
    } else {
      BestRelevant(linear, p);
      BestRelevant(rules, p);
    }
  }

  // ----- the list is no longer than the rules

  function ExactOnly(): Flow -> bool { (x: Flow) => IsExact(x) }

  ghost function KeysOf(l: seq<Flow>): set<Fields> { set x | x in l && IsExact(x) :: x.key.f }

  lemma KeysMore(l: seq<Flow>)
    requires RuleList(l) && l != []
    ensures var front, r := l[..|l| - 1], l[|l| - 1];
            && KeysOf(l) == KeysOf(front) + (if IsExact(r) then {r.key.f} else {})
            && (IsExact(r) ==> r.key.f !in KeysOf(front))
  {
    var front, r := l[..|l| - 1], l[|l| - 1];
    SnocParts(l);
    if IsExact(r) {
      OnlyExact(front, r, r.key.f);
      FirstSome(front, ExactFor(r.key.f));
    }
  }

  /** Exact rules have keys of their own. */
  lemma {:induction false} OneKeyEach(l: seq<Flow>)
    requires RuleList(l)
    ensures |Filter(l, ExactOnly())| == |KeysOf(l)|
  {
    if l != [] {
      SnocParts(l);
      KeysMore(l);
      OneKeyEach(l[..|l| - 1]);
    }
  }

  lemma {:induction false} KindsAddUp(l: seq<Flow>)
    ensures |l| == |Filter(l, IsWild())| + |Filter(l, ExactOnly())|
  {
    if l != [] {
      KindsAddUp(l[..|l| - 1]);
    }
  }

  lemma {:induction false} SubsetSize<T>(a: set<T>, b: set<T>)
    requires a <= b
    ensures |a| <= |b|
  {
    if a != {} {
      var x :| x in a;
      SubsetSize(a - {x}, b - {x});
    }
  }

  /** Every flow of the list is a rule, or an older copy of one. */
  lemma ListNoLonger(find: Finder, linear: seq<Flow>, rules: seq<Flow>)
    requires Refines(find, linear, rules)
    ensures |linear| <= |rules|
  {
    Refined(find, linear, rules);
    forall f | f in KeysOf(linear) ensures f in KeysOf(rules) {
      var x :| x in linear && IsExact(x) && x.key.f == f;
      FirstExact(linear, x);
      assert Or(find(f), First(linear, ExactFor(f))) == First(rules, ExactFor(f));
      FirstSome(rules, ExactFor(f));
    }
    SubsetSize(KeysOf(linear), KeysOf(rules));
    OneKeyEach(linear);
    OneKeyEach(rules);
    KindsAddUp(linear);
    KindsAddUp(rules);
  }

  ghost predicate Stored(find: Finder, linear: seq<Flow>, p: Flow -> bool) {
    Finds(find, p) || AnyIn(linear, p)
  }

  /** What the tables store, older copies included, answers for the rules. */
  lemma RefinesStored(find: Finder, linear: seq<Flow>, rules: seq<Flow>, p: Flow -> bool)
    requires Refines(find, linear, rules) && ByIdentity(p)
    ensures Stored(find, linear, p) <==> AnyIn(rules, p)
  {
    Refined(find, linear, rules);
    if exists x :: x in rules && p(x) {
      var x :| x in rules && p(x);
      StoredRule(find, linear, rules, x);
    }
    forall f | Holds(find(f), p) ensures exists x :: x in rules && p(x) {
      StoredFound(find, linear, rules, p, f, find(f).value);
    }
    forall y | y in linear && p(y) ensures exists x :: x in rules && p(x) {
      if IsExact(y) {
        FirstExact(linear, y);
        StoredFound(find, linear, rules, p, y.key.f, y);
      } else {
        FilterIn(linear, IsWild());
        FilterIn(rules, IsWild());
        assert y in Filter(rules, IsWild());
      }
    }
  }

  lemma HeadIn(l: seq<Flow>)
    ensures l != [] ==> l[0] in l
  {
  }

  /** A flow that no rule is the same as is in none of the tables. */
  lemma RefinesNew(find: Finder, linear: seq<Flow>, rules: seq<Flow>, r: Flow)
    requires Refines(find, linear, rules) && WellFormed(r) && New(rules, r)
    ensures IsExact(r) ==> find(r.key.f).None?
    ensures New(linear, r)
  {
    Refined(find, linear, rules);
    if IsExact(r) {
      OnlyExact(rules, r, r.key.f);
      assert Or(find(r.key.f), First(linear, ExactFor(r.key.f))) == None;
    }
    forall x | x in linear ensures !Same(x, r) {
      if IsExact(x) && Same(x, r) {
        SameExact(x.key, r.key);
        FirstExact(linear, x);
      } else if !IsExact(x) {
        FilterIn(linear, IsWild());
        FilterIn(rules, IsWild());
        assert x in Filter(rules, IsWild());
      }
    }
  }

  /** Without rules the tables are empty. */
  lemma RefinesEmpty(find: Finder, linear: seq<Flow>)
    requires Refines(find, linear, [])
    ensures linear == []
  {
    RefinesStored(find, linear, [], Any());
    HeadIn(linear);
  }

  lemma StoredRule(find: Finder, linear: seq<Flow>, rules: seq<Flow>, x: Flow)
    requires Refines(find, linear, rules) && x in rules
    ensures x in linear || (find(x.key.f) == Some(x))
  {
    Refined(find, linear, rules);
    if IsExact(x) {
      FirstExact(rules, x);
      FirstSome(linear, ExactFor(x.key.f));
    } else {
      FilterIn(linear, IsWild());
      FilterIn(rules, IsWild());
      assert x in Filter(linear, IsWild());
    }
  }

  lemma StoredFound(find: Finder, linear: seq<Flow>, rules: seq<Flow>, p: Flow -> bool, f: Fields, y: Flow)
    requires Refines(find, linear, rules) && ByIdentity(p) && p(y) && WellFormed(y) && ExactFor(f)(y)
    requires find(f) == Some(y) || First(linear, ExactFor(f)) == Some(y)
    ensures exists x :: x in rules && p(x)
  {
    Refined(find, linear, rules);
    var x := First(rules, ExactFor(f));
    assert Or(find(f), First(linear, ExactFor(f))) == x;
    FirstSome(rules, ExactFor(f));
    SameExact(x.value.key, y.key);
    assert p(x.value);
  }

  /** Of what the three tables held, that is left which passes the test. */
  ghost predicate KeepsOnly(a: Finder, b: Finder, linear: seq<Flow>, a': Finder, b': Finder, linear': seq<Flow>,
                            keep: Flow -> bool)
  {
    Keeps(a, a', keep) && Keeps(b, b', keep) && linear' == Filter(linear, keep)
  }

  /** `struct sw_chain` without a hardware table. */
  class Chain {
    const hash2: Hash2
    const linear: Linear
    const emerg: Linear
    /** The working tables as one rule list, in order of insertion. */
    ghost var rules: seq<Flow>

    ghost predicate Valid()
      reads this, hash2, hash2.Repr(), linear, emerg
    {
      && hash2.Valid() && linear.Valid() && emerg.Valid() && linear != emerg && linear.maxFlows == emerg.maxFlows
      && Refines(hash2.find, linear.rules, rules)
    }

    ghost function Working(): set<object> { hash2.Repr() + {linear} }

    /** How many flows the working tables hold, older copies included. */
    ghost function Entries(): nat
      reads this, hash2, hash2.Repr(), linear
    {
      hash2.Entries() + linear.nFlows
    }

    constructor (h0: Fields -> nat, h1: Fields -> nat, n: nat, maxFlows: nat)
      requires n > 0
      ensures Valid() && rules == [] && emerg.rules == [] && linear.maxFlows == maxFlows
      ensures hash2.sub0.buckets.Length == hash2.sub1.buckets.Length == n
      ensures hash2.sub0.hash == h0 && hash2.sub1.hash == h1
      ensures linear.rules == [] && forall f :: hash2.find(f).None?
      ensures fresh(hash2.Repr()) && fresh(linear) && fresh(emerg)
    {
      hash2 := new Hash2(h0, h1, n);
      linear := new Linear(maxFlows);
      emerg := new Linear(maxFlows);
      rules := [];
      new;
      RefinesNothing(hash2.find);
    }

    /** The hash tables have the exact flow for the packet, but an older wildcard flow of its priority matches. */
    ghost predicate JumpsQueue(p: Fields)
      requires Valid()
      reads this, hash2, hash2.Repr(), linear, emerg
    {
      hash2.find(p).Some? && Overtaken(rules, p)
    }

    /** `chain_lookup`: the best rule of the rule list, unless the hash tables jump the queue. */
    method Lookup(p: Fields, emergency: bool) returns (r: Option<Flow>)
      requires Valid()
      ensures emergency ==> BestIs(emerg.rules, Hit(p), r) && r == Best(emerg.rules, p)
      ensures !emergency ==> r == Or(hash2.find(p), Best(linear.rules, p))
      ensures !emergency ==> (r == Best(rules, p) <==> !JumpsQueue(p)) && BestIs(rules, Hit(p), Best(rules, p))
      ensures !emergency && JumpsQueue(p) ==> r == First(rules, ExactFor(p))
    {
      if emergency {
        r := emerg.Lookup(p);
      } else {
        LookupAgreesIff(hash2.find, linear.rules, rules, p);
        r := hash2.Lookup(p);
        if r.None? {
          r := linear.Lookup(p);
        }
      }
    }

    /** No working table takes the flow: no bucket is free for it, and the list is full without it. */
    ghost predicate Full(r: Flow)
      requires Valid()
      reads this, hash2, hash2.Repr(), linear, emerg
    {
      !hash2.HasRoom(r) && |Inserted(linear.rules, r)| > linear.maxFlows
    }

    /** `chain_insert` into the working tables */
    method Insert(r: Flow) returns (ok: bool)
      requires Valid() && WellFormed(r)
      modifies this, Working()
      ensures Valid()
      ensures ok == !old(Full(r))
      ensures rules == if ok then Inserted(old(rules), r) else old(rules)
      ensures if old(hash2.HasRoom(r)) then hash2.find(r.key.f) == Some(r) else hash2.find == old(hash2.find)
      ensures old(hash2.HasRoom(r)) ==> linear.rules == old(linear.rules)
      ensures old(hash2.HasRoom(r)) ==>
                PutsInto(old(hash2.sub0.Takes(r)), old(hash2.sub0.find), old(hash2.sub1.find),
                         hash2.sub0.find, hash2.sub1.find, r)
      ensures |linear.rules| <= |old(linear.rules)| + 1
      ensures ok && New(old(rules), r) ==> Entries() == old(Entries()) + 1
    {
      ghost var was, linearWas := hash2.find, linear.rules;
      if New(rules, r) {
        RefinesNew(was, linear.rules, rules, r);
      }
      var hashed;
      hashed, ok := InsertTables(r);
      if ok {
        if hashed {
          RefinesPut(was, hash2.find, linearWas, rules, r);
        } else {
          RefinesInsert(was, linearWas, rules, r);
        }
        rules := Inserted(rules, r);
      }
    }

    /** `chain_insert` into the emergency table */
    method InsertEmergency(r: Flow) returns (ok: bool)
      requires Valid() && WellFormed(r)
      modifies emerg
      ensures Valid() && ok == (|Inserted(old(emerg.rules), r)| <= emerg.maxFlows)
      ensures emerg.rules == if ok then Inserted(old(emerg.rules), r) else old(emerg.rules)
    {
      ok := emerg.Insert(r);
    }

    /** `chain_modify` on the emergency table */
    method ModifyEmergency(d: NormalKey, priority: nat, strict: bool, acts: Acts) returns (count: nat)
      requires Valid()
      modifies emerg
      ensures Valid() && emerg.rules == Map(old(emerg.rules), Updating(Selects(d, priority, strict), acts))
      ensures (count > 0) == AnyIn(old(emerg.rules), Selects(d, priority, strict))
    {
      FilterSome(emerg.rules, Selects(d, priority, strict));
      count := emerg.Modify(d, priority, strict, acts);
    }

    /** `chain_delete` on the emergency table */
    method DeleteEmergency(d: NormalKey, out: Option<nat>, priority: nat, strict: bool) returns (count: nat)
      requires Valid()
      modifies emerg
      ensures Valid() && emerg.rules == Filter(old(emerg.rules), Not(Deletes(d, out, priority, strict)))
      ensures (count > 0) == AnyIn(old(emerg.rules), Deletes(d, out, priority, strict))
    {
      FilterSome(emerg.rules, Deletes(d, out, priority, strict));
      FilterParts(emerg.rules, Deletes(d, out, priority, strict));
      count := emerg.Delete(d, out, priority, strict);
    }

    /** The first table that takes the flow keeps it. */
    method InsertTables(r: Flow) returns (hashed: bool, ok: bool)
      requires hash2.Valid() && linear.Valid() && WellFormed(r)
      modifies Working()
      ensures hash2.Valid() && linear.Valid()
      ensures hashed <==> old(hash2.HasRoom(r))
      ensures ok <==> hashed || |Inserted(old(linear.rules), r)| <= linear.maxFlows
      ensures if hashed then Puts(old(hash2.find), hash2.find, r) && IsExact(r)
              else hash2.find == old(hash2.find) && (IsExact(r) ==> hash2.find(r.key.f).None?)
      ensures linear.rules == if ok && !hashed then Inserted(old(linear.rules), r) else old(linear.rules)
      ensures hashed ==> PutsInto(old(hash2.sub0.Takes(r)), old(hash2.sub0.find), old(hash2.sub1.find),
                                  hash2.sub0.find, hash2.sub1.find, r)
      ensures |linear.rules| <= |old(linear.rules)| + 1
      ensures ok && New(old(linear.rules), r) && (IsExact(r) ==> old(hash2.find)(r.key.f).None?)
              ==> Entries() == old(Entries()) + 1
    {
      InsertedLength(linear.rules, r);
      hashed := hash2.Insert(r);
      ok := hashed;
      if !hashed {
        ok := linear.Insert(r);
      }
    }

    /** `chain_modify` on the working tables; older copies count too. */
    method Modify(d: NormalKey, priority: nat, strict: bool, acts: Acts) returns (count: nat)
      requires Valid()
      modifies this, Working()
      ensures Valid()
      ensures rules == Map(old(rules), Updating(Selects(d, priority, strict), acts))
      ensures count > 0 <==> AnyIn(old(rules), Selects(d, priority, strict))
      ensures hash2.Keys() == old(hash2.Keys())
      ensures linear.rules == Map(old(linear.rules), Updating(Selects(d, priority, strict), acts))
    {
      ghost var sel := Selects(d, priority, strict);
      SelectsByIdentity(d, priority, strict);
      RefinesStored(hash2.find, linear.rules, rules, sel);
      count := ModifyTables(d, priority, strict, acts);
      RefinesUpdate(old(hash2.find), hash2.find, old(linear.rules), rules, sel, acts);
      rules := Map(rules, Updating(sel, acts));
    }

    method ModifyTables(d: NormalKey, priority: nat, strict: bool, acts: Acts) returns (count: nat)
      requires hash2.Valid() && linear.Valid()
      modifies Working()
      ensures hash2.Valid() && linear.Valid()
      ensures Maps(old(hash2.find), hash2.find, Updating(Selects(d, priority, strict), acts))
      ensures linear.rules == Map(old(linear.rules), Updating(Selects(d, priority, strict), acts))
      ensures count > 0 <==> Stored(old(hash2.find), old(linear.rules), Selects(d, priority, strict))
      ensures hash2.Keys() == old(hash2.Keys())
    {
      FilterSome(linear.rules, Selects(d, priority, strict));
      var count0 := hash2.Modify(d, priority, strict, acts);
      var count1 := linear.Modify(d, priority, strict, acts);
      count := count0 + count1;
    }

    /** Deleting these flows leaves no older copy of one behind. */
    ghost predicate LeavesNone(d: Key, out: Option<nat>, priority: nat, strict: bool)
      reads this, hash2.sub0, hash2.sub1, linear
    {
      Clean(hash2.sub0.find, hash2.sub1.find, linear.rules, Not(Deletes(d, out, priority, strict)))
    }

    /**
     `chain_delete` on the working tables. The rules that are left are those not selected, exactly if no
     older copy comes to light; for any port none does (AnyPort).
     */
    method Delete(d: NormalKey, out: Option<nat>, priority: nat, strict: bool) returns (count: nat)
      requires Valid() && (strict && d.w == EXACT ==> priority == EXACT_PRIORITY)
      modifies this, Working()
      ensures Valid()
      ensures (rules == Filter(old(rules), Not(Deletes(d, out, priority, strict))))
           == old(LeavesNone(d, out, priority, strict))
      ensures KeepsOnly(old(hash2.sub0.find), old(hash2.sub1.find), old(linear.rules),
                        hash2.sub0.find, hash2.sub1.find, linear.rules, Not(Deletes(d, out, priority, strict)))
      ensures (count > 0) == (old(hash2.Contains(Deletes(d, out, priority, strict)))
                              || AnyIn(old(linear.rules), Deletes(d, out, priority, strict)))
    {
      count := DeleteSelected(d, out, priority, strict, Deletes(d, out, priority, strict));
    }

    /** ... with the flows it concerns under a name. */
    method DeleteSelected(d: NormalKey, out: Option<nat>, priority: nat, strict: bool, ghost sel: Flow -> bool)
      returns (count: nat)
      requires Valid() && (strict && d.w == EXACT ==> priority == EXACT_PRIORITY)
      requires sel == Deletes(d, out, priority, strict)
      modifies this, Working()
      ensures Valid()
      ensures (rules == Filter(old(rules), Not(sel)))
           == Clean(old(hash2.sub0.find), old(hash2.sub1.find), old(linear.rules), Not(sel))
      ensures KeepsOnly(old(hash2.sub0.find), old(hash2.sub1.find), old(linear.rules),
                        hash2.sub0.find, hash2.sub1.find, linear.rules, Not(sel))
      ensures (count > 0) == (old(hash2.Contains(sel)) || AnyIn(old(linear.rules), sel))
    {
      ghost var a, b, was, stored := hash2.sub0.find, hash2.sub1.find, linear.rules, rules;
      assert Refines(Both(a, b), was, stored);
      count := DeleteTables(d, out, priority, strict, sel);
      assert rules == stored;
      KeepRules(a, b, was, Not(sel));
    }

    /** The rules that the tables are left with once only flows that pass the test were kept. */
    ghost method KeepRules(a: Finder, b: Finder, was: seq<Flow>, keep: Flow -> bool)
      requires hash2.Valid() && linear.Valid() && emerg.Valid() && linear != emerg && linear.maxFlows == emerg.maxFlows
      requires ForKeys(a) && ForKeys(b) && Refines(Both(a, b), was, rules)
      requires KeepsOnly(a, b, was, hash2.sub0.find, hash2.sub1.find, linear.rules, keep)
      modifies this`rules
      ensures Valid() && (rules == Filter(old(rules), keep)) == Clean(a, b, was, keep)
    {
      RefinesKeepIff(a, b, hash2.sub0.find, hash2.sub1.find, was, rules, keep);
      if Clean(a, b, was, keep) {
        rules := Filter(rules, keep);
      } else {
        Listed(linear.flows, linear.iterFlows, linear.rules);
        rules := TablesStandForRules(hash2.sub0.hash, hash2.sub0.buckets[..],
                                     hash2.sub1.hash, hash2.sub1.buckets[..], linear.rules);
      }
    }

    method DeleteTables(d: NormalKey, out: Option<nat>, priority: nat, strict: bool, ghost sel: Flow -> bool)
      returns (count: nat)
      requires hash2.Valid() && linear.Valid() && (strict && d.w == EXACT ==> priority == EXACT_PRIORITY)
      requires sel == Deletes(d, out, priority, strict)
      modifies Working()
      ensures hash2.Valid() && linear.Valid()
      ensures KeepsOnly(old(hash2.sub0.find), old(hash2.sub1.find), old(linear.rules),
                        hash2.sub0.find, hash2.sub1.find, linear.rules, Not(sel))
      ensures (count > 0) == (old(hash2.Contains(sel)) || AnyIn(old(linear.rules), sel))
    {
      FilterSome(linear.rules, sel);
      FilterParts(linear.rules, sel);
      var count0 := hash2.Delete(d, out, priority, strict);
      var count1 := linear.Delete(d, out, priority, strict);
      count := count0 + count1;
    }

    /** `chain_has_conflict` */
    method HasConflict(d: NormalKey, priority: nat, strict: bool) returns (found: bool)
      requires Valid()
      ensures found <==> exists x :: x in rules && Conflicts(x, d, priority, strict)
    {
      ConflictsByIdentity(d, priority, strict);
      RefinesStored(hash2.find, linear.rules, rules, ConflictsWith(d, priority, strict));
      found := hash2.HasConflict(d, priority, strict);
      if !found {
        found := linear.HasConflict(d, priority, strict);
      }
    }
  }

  /** Deleting for any port brings nothing to light, and the count tells whether a rule was selected. */
  lemma AnyPort(c: Chain, d: Key, priority: nat, strict: bool)
    requires c.Valid()
    ensures c.LeavesNone(d, None, priority, strict)
    ensures var sel := Deletes(d, None, priority, strict);
            c.hash2.Contains(sel) || AnyIn(c.linear.rules, sel) <==> AnyIn(c.rules, Selects(d, priority, strict))
    ensures Filter(c.rules, Not(Deletes(d, None, priority, strict)))
         == Filter(c.rules, Not(Selects(d, priority, strict)))
  {
    var a, b, linear, sel := c.hash2.sub0.find, c.hash2.sub1.find, c.linear.rules, Deletes(d, None, priority, strict);
    DeletesByIdentity(d, priority, strict);
    Refined(Both(a, b), linear, c.rules);
    FindsBoth(a, b, sel);
    RefinesStored(Both(a, b), linear, c.rules, sel);
    NothingResurfaces(a, b, linear, Not(sel));
    FilterAlike(c.rules, Not(sel), Not(Selects(d, priority, strict)));
  }

  /** A flow that no table takes is a new rule, and there are as many rules as the list has room for. */
  lemma FullMeansCrowded(c: Chain, r: Flow)
    requires c.Valid() && WellFormed(r) && c.Full(r)
    ensures New(c.rules, r) && |c.rules| >= c.linear.maxFlows
  {
    Refined(c.hash2.find, c.linear.rules, c.rules);
    ListNoLonger(c.hash2.find, c.linear.rules, c.rules);
    InsertedLength(c.linear.rules, r);
    assert New(c.linear.rules, r);
    forall x | x in c.rules ensures !Same(x, r) {
      if Same(x, r) {
        StoredRule(c.hash2.find, c.linear.rules, c.rules, x);
        BlockedKey(c.hash2, r, x);
      }
    }
  }

  lemma UpdateKeepsIdentity(x: Flow, r: Flow, sel: Flow -> bool, acts: Acts)
    ensures Same(Updating(sel, acts)(x), r) == Same(x, r)
  {
  }

  /** New actions take up no room. */
  lemma InsertedUpdated(l: seq<Flow>, r: Flow, sel: Flow -> bool, acts: Acts)
    ensures |Inserted(Map(l, Updating(sel, acts)), r)| == |Inserted(l, r)|
  {
    var l' := Map(l, Updating(sel, acts));
    if x :| x in l && Same(x, r) {
      var i :| 0 <= i < |l| && l[i] == x;
      UpdateKeepsIdentity(x, r, sel, acts);
      assert l'[i] in l';
    } else {
      forall y | y in l' ensures !Same(y, r) {
        var i :| 0 <= i < |l'| && l'[i] == y;
        UpdateKeepsIdentity(l[i], r, sel, acts);
        assert l[i] in l;
      }
    }
  }

  /** A rule is stored in one of the tables. */
  lemma RuleContained(c: Chain, p: Flow -> bool)
    requires c.Valid() && AnyIn(c.rules, p)
    ensures c.hash2.Contains(p) || AnyIn(c.linear.rules, p)
  {
    var x :| x in c.rules && p(x);
    var h := c.hash2;
    StoredRule(h.find, c.linear.rules, c.rules, x);
    if x !in c.linear.rules {
      assert Holds(h.sub0.find(x.key.f), p) || Holds(h.sub1.find(x.key.f), p);
    }
  }

  /** If the flow were in the hash tables, its bucket would be open for it. */
  lemma BlockedKey(h: Hash2, r: Flow, x: Flow)
    requires h.Valid() && WellFormed(r) && WellFormed(x) && Same(x, r) && !h.HasRoom(r)
    ensures h.find(x.key.f) != Some(x)
  {
    if IsExact(r) {
      SameExact(x.key, r.key);
    }
  }

  lemma InsertedLength(l: seq<Flow>, r: Flow)
    ensures |l| <= |Inserted(l, r)| <= |l| + 1
  {
  }

  lemma {:induction false} FilterSome(l: seq<Flow>, p: Flow -> bool)
    ensures |Filter(l, p)| > 0 <==> AnyIn(l, p)
  {
    FilterIn(l, p);
    if |Filter(l, p)| > 0 {
      assert Filter(l, p)[0] in l;
    }
  }

  lemma {:induction false} FilterParts(l: seq<Flow>, p: Flow -> bool)
    ensures |Filter(l, p)| + |Filter(l, Not(p))| == |l|
  {
    if l != [] {
      FilterParts(l[..|l| - 1], p);
    }
  }
}
