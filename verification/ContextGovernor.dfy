/** `pack_context`: mandatory closure, greedy selection under a budget, then local replacement. */
module ContextGovernor {
  import opened Ordering
  import opened Reachability
  import opened Sums
  import opened ContextItems

  // ---- The greedy phase ----

  datatype Score = Score(density: real, utility: real, cost: int, id: Id, closure: set<Id>)

  /** The order of the tuples (-density, -utility, cost, id); ids are distinct, so the closure is never compared. */
  predicate ScoreLe(a: Score, b: Score) {
    a.density > b.density || (a.density == b.density &&
    (a.utility > b.utility || (a.utility == b.utility &&
    (a.cost < b.cost || (a.cost == b.cost && NodeLe(a.id, b.id))))))
  }

  lemma ScoreLeIsTotal()
    ensures TotalOrder(ScoreLe)
  {
    hide NodeLe;
    NodeLeIsLinear();
    forall a: Score, b: Score ensures ScoreLe(a, b) || ScoreLe(b, a) {
      assert NodeLe(a.id, b.id) || NodeLe(b.id, a.id);
    }
    forall a: Score, b: Score, c: Score | ScoreLe(a, b) && ScoreLe(b, c) ensures ScoreLe(a, c) {
      assert NodeLe(a.id, b.id) && NodeLe(b.id, c.id) ==> NodeLe(a.id, c.id);
    }
  }

  function AtLeastOne(n: int): int { if n < 1 then 1 else n }

  /** What `marginal` and the density computation say about one candidate. */
  ghost function ScoreOf(items: Catalog, selected: set<Id>, v: Id): Score {
    var closure := ClosureOf(items, selected, v);
    var utility, cost := Worth(items, closure), Cost(items, closure);
    Score(utility / AtLeastOne(cost) as real, utility, cost, v, closure)
  }

  datatype Scored = Scores(rows: seq<Score>) | Unresolved(missing: Id)

  /** Some item outside the selection needs, directly or not, something that does not exist. */
  ghost predicate HasMissing(items: Catalog, selected: set<Id>) {
    exists v, w :: v in items && MissingFrom(items, selected, v, w)
  }

  method ScoreCandidates(items: Catalog, selected: set<Id>, candidates: seq<Id>) returns (r: Scored)
    requires forall v :: v in candidates ==> v in items
    ensures r.Unresolved? ==> HasMissing(items, selected) && r.missing !in items
    ensures r.Scores? ==> forall v, w :: v in candidates ==> !MissingFrom(items, selected, v, w)
    ensures r.Scores? ==> |r.rows| == |candidates| && forall i :: 0 <= i < |candidates| ==>
              r.rows[i] == ScoreOf(items, selected, candidates[i])
  {
    hide ClosureOf, MissingFrom, Worth, Cost;
    var rows := [];
    for i := 0 to |candidates|
      invariant |rows| == i && forall j :: 0 <= j < i ==> rows[j] == ScoreOf(items, selected, candidates[j])
      invariant forall j, w :: 0 <= j < i ==> !MissingFrom(items, selected, candidates[j], w)
    {
      var found := FindClosure(items, selected, candidates[i]);
      if found.KeyError? {
        assert candidates[i] in candidates;
        return Unresolved(found.missing);
      }
      ClosureInItems(items, selected, candidates[i]);
      var cost := SumCost(items, found.required);
      var utility := SumWorth(items, found.required);
      rows := rows + [Score(utility / AtLeastOne(cost) as real, utility, cost, candidates[i], found.required)];
    }
    r := Scores(rows);
  }

  lemma ClosureInItems(items: Catalog, selected: set<Id>, v: Id)
    ensures ClosureOf(items, selected, v) <= items.Keys
  {
  }

  datatype Pick = Chosen(score: Score) | NoneFits | Broken(missing: Id)

  /** One greedy round: the first candidate in score order that fits into the remaining room. */
  method GreedyPick(items: Catalog, selected: set<Id>, candidates: seq<Id>, room: int) returns (r: Pick)
    requires forall v :: v in candidates ==> v in items
    ensures r.Broken? ==> HasMissing(items, selected) && r.missing !in items
    ensures !r.Broken? ==> forall v, w :: v in candidates ==> !MissingFrom(items, selected, v, w)
    ensures r.NoneFits? ==> forall v :: v in candidates ==> ScoreOf(items, selected, v).cost > room
    ensures r.Chosen? ==>
              r.score.id in candidates && r.score == ScoreOf(items, selected, r.score.id) && r.score.cost <= room
    ensures r.Chosen? ==> forall v :: v in candidates && ScoreOf(items, selected, v).cost <= room
                            ==> ScoreLe(r.score, ScoreOf(items, selected, v))
  {
    hide ScoreOf, MissingFrom, ScoreLe, TotalOrder, Sort;
    var scored := ScoreCandidates(items, selected, candidates);
    if scored.Unresolved? {
      return Broken(scored.missing);
    }
    var rows := Sort(ScoreLe, scored.rows);
    ScoresInOrder(items, selected, candidates, scored.rows);
    for i := 0 to |rows|
      invariant forall j :: 0 <= j < i ==> rows[j].cost > room
    {
      if rows[i].cost <= room {
        forall v | v in candidates && ScoreOf(items, selected, v).cost <= room
            ensures ScoreLe(rows[i], ScoreOf(items, selected, v)) {
          var m := IndexOf(rows, ScoreOf(items, selected, v));
          SortedFrom(rows, i, m);
        }
        return Chosen(rows[i]);
      }
    }
    forall v | v in candidates ensures ScoreOf(items, selected, v).cost > room {
      var m := IndexOf(rows, ScoreOf(items, selected, v));
    }
    r := NoneFits;
  }

  /** Sorting the scores keeps one for every candidate and none else. */
  lemma ScoresInOrder(items: Catalog, selected: set<Id>, candidates: seq<Id>, rows: seq<Score>)
    requires |rows| == |candidates|
    requires forall i :: 0 <= i < |candidates| ==> rows[i] == ScoreOf(items, selected, candidates[i])
    ensures var sorted := Sort(ScoreLe, rows);
            && SortedBy(ScoreLe, sorted)
            && (forall v :: v in candidates ==> ScoreOf(items, selected, v) in sorted)
            && (forall k :: 0 <= k < |sorted| ==>
                sorted[k].id in candidates && sorted[k] == ScoreOf(items, selected, sorted[k].id))
  {
    hide ScoreOf, ScoreLe, TotalOrder, SortedBy, Sort;
    ScoreLeIsTotal();
    var sorted := Sort(ScoreLe, rows);
    SortIsSorted(ScoreLe, rows);
    forall v | v in candidates ensures ScoreOf(items, selected, v) in sorted {
      var i := IndexOf(candidates, v);
      SortMember(ScoreLe, rows, rows[i]);
    }
    forall k | 0 <= k < |sorted|
        ensures sorted[k].id in candidates && sorted[k] == ScoreOf(items, selected, sorted[k].id) {
      SortMember(ScoreLe, rows, sorted[k]);
      var i := IndexOf(rows, sorted[k]);
      ScoreId(items, selected, candidates[i]);
    }
  }

  lemma ScoreId(items: Catalog, selected: set<Id>, v: Id)
    ensures ScoreOf(items, selected, v).id == v
  {
  }

  lemma SortedFrom(rows: seq<Score>, i: nat, m: nat)
    requires SortedBy(ScoreLe, rows) && i <= m < |rows|
    ensures ScoreLe(rows[i], rows[m])
  {
    hide NodeLe;
    if i == m { ScoreLeIsTotal(); }
  }

  /** What the greedy phase promises: complete, within budget, and with nothing left that would still fit. */
  ghost predicate GreedyOutcome(items: Catalog, mandatory: set<Id>, budget: int, selected: set<Id>) {
    && mandatory <= selected <= items.Keys
    && DependencyClosed(items, selected)
    && Cost(items, selected) <= budget
    && (forall v :: v in items && v !in selected ==>
        Cost(items, ClosureOf(items, selected, v)) > budget - Cost(items, selected))
  }

  /** v is the candidate the score order puts first among those that fit. */
  ghost predicate BestFit(items: Catalog, selected: set<Id>, room: int, v: Id) {
    && v in items && v !in selected && ScoreOf(items, selected, v).cost <= room
    && (forall u :: u in items && u !in selected && ScoreOf(items, selected, u).cost <= room
          ==> ScoreLe(ScoreOf(items, selected, v), ScoreOf(items, selected, u)))
  }

  /** `trail` lists the picks that lead from one selection to another, each the best fit of its round. */
  ghost predicate GreedyRun(items: Catalog, budget: int, from: set<Id>, trail: seq<Id>, to: set<Id>)
    decreases |trail|
  {
    if trail == [] then
      from == to
    else
      && NextPick(items, budget, from, trail[0])
      && GreedyRun(items, budget, from + ClosureOf(items, from, trail[0]), trail[1..], to)
  }

  ghost predicate NextPick(items: Catalog, budget: int, selected: set<Id>, v: Id) {
    BestFit(items, selected, budget - Cost(items, selected), v)
  }

  lemma {:induction false} GreedyRunExtends(items: Catalog, budget: int, from: set<Id>, trail: seq<Id>, to: set<Id>,
                                            v: Id)
    requires GreedyRun(items, budget, from, trail, to) && NextPick(items, budget, to, v)
    ensures GreedyRun(items, budget, from, trail + [v], to + ClosureOf(items, to, v))
    decreases |trail|
  {
    hide NextPick, ClosureOf;
    if trail == [] {
      assert ([] + [v])[1..] == [];
    } else {
      GreedyRunExtends(items, budget, from + ClosureOf(items, from, trail[0]), trail[1..], to, v);
      assert (trail + [v])[1..] == trail[1..] + [v];
    }
  }

  lemma BestFitUnique(items: Catalog, selected: set<Id>, room: int, u: Id, v: Id)
    requires BestFit(items, selected, room, u) && BestFit(items, selected, room, v)
    ensures u == v
  {
    hide NodeLe, ClosureOf;
    NodeLeIsLinear();
    assert NodeLe(u, v) && NodeLe(v, u) ==> u == v;
  }

  /** The greedy phase has one possible result: any two runs that cannot be continued end in the same selection. */
  lemma {:induction false} GreedyDeterministic(items: Catalog, budget: int, from: set<Id>, t1: seq<Id>, s1: set<Id>,
                                               t2: seq<Id>, s2: set<Id>)
    requires GreedyRun(items, budget, from, t1, s1) && GreedyRun(items, budget, from, t2, s2)
    requires forall v :: !NextPick(items, budget, s1, v)
    requires forall v :: !NextPick(items, budget, s2, v)
    ensures s1 == s2
    decreases |t1|
  {
    hide BestFit, ClosureOf, IntSum;
    if t1 != [] && t2 != [] {
      BestFitUnique(items, from, budget - Cost(items, from), t1[0], t2[0]);
      GreedyDeterministic(items, budget, from + ClosureOf(items, from, t1[0]), t1[1..], s1, t2[1..], s2);
    }
  }

  datatype Greedy = Selected(selected: set<Id>, used: int) | GreedyKeyError(missing: Id)

  lemma AddPick(items: Catalog, selected: set<Id>, v: Id)
    requires selected <= items.Keys && DependencyClosed(items, selected) && v in items && v !in selected
    requires forall w :: !MissingFrom(items, selected, v, w)
    ensures var c := ClosureOf(items, selected, v);
            && v in c && c <= items.Keys && DependencyClosed(items, selected + c)
            && Cost(items, selected + c) == Cost(items, selected) + Cost(items, c)
  {
    hide Reach, IntSum;
    ClosureCloses(items, selected, v);
    IntSumUnion(selected, ClosureOf(items, selected, v), CostOf(items));
  }

  /** The candidates that are not selected, in the order given. */
  function Remaining(candidates: seq<Id>, selected: set<Id>): (r: seq<Id>)
    ensures forall v :: v in r <==> v in candidates && v !in selected
    ensures |r| <= |candidates|
    ensures (exists v :: v in candidates && v in selected) ==> |r| < |candidates|
  {
    if candidates == [] then []
    else
      var rest := Remaining(candidates[1..], selected);
      assert candidates == [candidates[0]] + candidates[1..];
      if candidates[0] in selected then rest else [candidates[0]] + rest
  }

  /** Rounds until no candidate is left or none fits. */
  method SelectGreedily(items: Catalog, rows: seq<Id>, mandatory: set<Id>, budget: int)
    returns (r: Greedy, ghost trail: seq<Id>)
    requires Elements(rows) == items.Keys && mandatory <= items.Keys && DependencyClosed(items, mandatory)
    requires Cost(items, mandatory) <= budget
    ensures r.GreedyKeyError? <==> !Resolved(items)
    ensures r.GreedyKeyError? ==> r.missing !in items
    ensures r.Selected? ==> GreedyOutcome(items, mandatory, budget, r.selected) && r.used == Cost(items, r.selected)
    ensures r.Selected? ==> GreedyRun(items, budget, mandatory, trail, r.selected)
  {
    hide ClosureOf, MissingFrom, IntSum, Sum, GreedyRun, ScoreLe;
    var selected := mandatory;
    trail := [];
    EmptyRun(items, budget, mandatory);
    var used := SumCost(items, mandatory);
    var candidates := Remaining(rows, mandatory);
    ghost var resolved := false;
    forall v ensures v in items <==> v in rows { assert v in Elements(rows) <==> v in rows; }
    while candidates != []
      invariant mandatory <= selected <= items.Keys && DependencyClosed(items, selected)
      invariant used == Cost(items, selected) <= budget
      invariant forall v :: v in candidates <==> v in items && v !in selected
      invariant resolved ==> Resolved(items)
      invariant GreedyRun(items, budget, mandatory, trail, selected)
      decreases |candidates|
    {
      var pick := GreedyPick(items, selected, candidates, budget - used);
      if pick.Broken? {
        MissingMeansUnresolved(items, selected);
        return GreedyKeyError(pick.missing), trail;
      }
      AllResolved(items, selected);
      resolved := true;
      if pick.NoneFits? {
        break;
      }
      AddPick(items, selected, pick.score.id);
      GreedyRunExtends(items, budget, mandatory, trail, selected, pick.score.id);
      trail := trail + [pick.score.id];
      selected := selected + pick.score.closure;
      used := used + pick.score.cost;
      candidates := Remaining(candidates, selected);
    }
    if candidates == [] { AllSelectedResolved(items, selected); }
    r := Selected(selected, used);
  }

  lemma EmptyRun(items: Catalog, budget: int, from: set<Id>)
    ensures GreedyRun(items, budget, from, [], from)
  {
  }

  /** A greedy outcome cannot be continued. */
  lemma OutcomeIsFinal(items: Catalog, mandatory: set<Id>, budget: int, selected: set<Id>, v: Id)
    requires GreedyOutcome(items, mandatory, budget, selected)
    ensures !NextPick(items, budget, selected, v)
  {
  }

  lemma AllSelectedResolved(items: Catalog, selected: set<Id>)
    requires selected == items.Keys && DependencyClosed(items, selected)
    ensures Resolved(items)
  {
  }

  lemma AllResolved(items: Catalog, selected: set<Id>)
    requires selected <= items.Keys && DependencyClosed(items, selected)
    requires forall v, w :: v in items && v !in selected ==> !MissingFrom(items, selected, v, w)
    ensures Resolved(items)
  {
    hide Reach;
    forall v, x | v in items && x in Needs(items, v) ensures x in items {
      if v !in selected && x !in selected {
        assert x in Succ(Open(items, selected), v);
        ReachEdge(Open(items, selected), v, x);
        assert !MissingFrom(items, selected, v, x);
      }
    }
  }

  lemma MissingMeansUnresolved(items: Catalog, selected: set<Id>)
    requires HasMissing(items, selected)
    ensures !Resolved(items)
  {
    hide Reach;
    var v, w :| v in items && MissingFrom(items, selected, v, w);
    if Resolved(items) { ClosedKeepsReach(Open(items, selected), items.Keys, v, w); }
  }

  // ---- The replacement phase ----

  /** Another selected item depends directly on v. */
  ghost predicate Depended(items: Catalog, selected: set<Id>, v: Id) {
    exists w :: w in selected && w != v && v in Needs(items, w)
  }

  /** The test of the replacement pass: the incoming closure is worth more than the outgoing item, fits once it is gone,
      and no other selected item depends on it. */
  ghost predicate CanReplace(items: Catalog, budget: int, selected: set<Id>, used: int, incoming: Id, outgoing: Id) {
    var c := ClosureOf(items, selected, incoming);
    && outgoing in selected && outgoing in items
    && Worth(items, c) > ItemValue(items[outgoing])
    && Cost(items, c) <= budget - used + items[outgoing].tokens
    && !Depended(items, selected, outgoing)
  }

  ghost function AfterSwap(items: Catalog, selected: set<Id>, incoming: Id, outgoing: Id): set<Id> {
    selected - {outgoing} + ClosureOf(items, selected, incoming)
  }

  ghost function UsedAfter(items: Catalog, selected: set<Id>, used: int, incoming: Id, outgoing: Id): int
    requires outgoing in items
  {
    used - items[outgoing].tokens + Cost(items, ClosureOf(items, selected, incoming))
  }

  /** The two sets a swap combines do not overlap, and stay within the catalog. */
  lemma SwapParts(items: Catalog, selected: set<Id>, incoming: Id, outgoing: Id)
    requires outgoing in selected
    ensures ClosureOf(items, selected, incoming) !! selected && ClosureOf(items, selected, incoming) <= items.Keys
  {
    NotThroughSelected(items, selected, incoming);
  }

  /** `used` never understates the selection and never exceeds the budget; with no negative token count it is exact. */
  lemma SwapAccounting(items: Catalog, budget: int, selected: set<Id>, used: int, incoming: Id, outgoing: Id)
    requires CanReplace(items, budget, selected, used, incoming, outgoing) && Cost(items, selected) <= used
    ensures var after, usedAfter := AfterSwap(items, selected, incoming, outgoing),
                                    UsedAfter(items, selected, used, incoming, outgoing);
            && Cost(items, after) <= usedAfter <= budget
            && (used == Cost(items, selected) && items[outgoing].tokens >= 0 ==> usedAfter == Cost(items, after))
  {
    hide ClosureOf, IntSum, Worth, Depended;
    SwapParts(items, selected, incoming, outgoing);
    IntSumRemove(selected, CostOf(items), outgoing);
    IntSumUnion(selected - {outgoing}, ClosureOf(items, selected, incoming), CostOf(items));
  }

  /** Each replacement strictly raises the total value. */
  lemma SwapRaisesValue(items: Catalog, budget: int, selected: set<Id>, used: int, incoming: Id, outgoing: Id)
    requires Sensible(items) && CanReplace(items, budget, selected, used, incoming, outgoing)
    ensures Value(items, AfterSwap(items, selected, incoming, outgoing)) > Value(items, selected)
  {
    hide ClosureOf, Sum, Cost, Depended;
    var c := ClosureOf(items, selected, incoming);
    SwapParts(items, selected, incoming, outgoing);
    WorthIsValue(items, c);
    SumRemove(selected, ValueOf(items), outgoing);
    SumUnion(selected - {outgoing}, c, ValueOf(items));
  }

  /** A replacement keeps the selection complete exactly when nothing in the incoming closure depends on the evicted
      item, which the test does not look at. */
  lemma SwapClosedIff(items: Catalog, budget: int, selected: set<Id>, used: int, incoming: Id, outgoing: Id)
    requires Resolved(items) && selected <= items.Keys && DependencyClosed(items, selected) && incoming in items
    requires CanReplace(items, budget, selected, used, incoming, outgoing)
    ensures DependencyClosed(items, AfterSwap(items, selected, incoming, outgoing))
       <==> forall w :: w in ClosureOf(items, selected, incoming) ==> outgoing !in Needs(items, w)
  {
    hide ClosureOf, IntSum, Sum;
    SwapParts(items, selected, incoming, outgoing);
    NothingMissing(items, selected, incoming);
    ClosureCloses(items, selected, incoming);
    var c := ClosureOf(items, selected, incoming);
    var after := AfterSwap(items, selected, incoming, outgoing);
    if forall w :: w in c ==> outgoing !in Needs(items, w) {
      forall w | w in after ensures Needs(items, w) <= after {
        if w !in c { assert !(w in selected && w != outgoing && outgoing in Needs(items, w)); }
      }
    } else {
      var w :| w in c && outgoing in Needs(items, w);
      assert w in after && outgoing !in after;
    }
  }

  lemma NothingMissing(items: Catalog, selected: set<Id>, v: Id)
    requires Resolved(items) && v in items
    ensures forall w :: !MissingFrom(items, selected, v, w)
  {
    hide Reach;
    assert Closed(Open(items, selected), items.Keys);
    forall w ensures !MissingFrom(items, selected, v, w) {
      if Reach(Open(items, selected), v, w) { ClosedKeepsReach(Open(items, selected), items.Keys, v, w); }
    }
  }

  const CHEAP: Id := Node("a")
  const DEAR: Id := Node("b")

  /** A cheap item, and a more valuable one that depends on it. */
  ghost function BreakingCatalog(): Catalog {
    map[CHEAP := Item(CHEAP, "", 10, 1.0, 1.0, false, false, [], ""),
        DEAR := Item(DEAR, "", 10, 5.0, 1.0, false, false, [CHEAP], "")]
  }

  lemma BreakingNeeds()
    ensures CHEAP != DEAR && BreakingCatalog().Keys == {CHEAP, DEAR}
    ensures Needs(BreakingCatalog(), CHEAP) == {} && Needs(BreakingCatalog(), DEAR) == {CHEAP}
    ensures Resolved(BreakingCatalog()) && Consistent(BreakingCatalog()) && Sensible(BreakingCatalog())
    ensures DependencyClosed(BreakingCatalog(), {CHEAP}) && DependencyClosed(BreakingCatalog(), {CHEAP, DEAR})
    ensures !DependencyClosed(BreakingCatalog(), {DEAR})
  {
    assert CHEAP != DEAR;
    var items := BreakingCatalog();
    assert Needs(items, CHEAP) == {};
    assert Needs(items, DEAR) == {CHEAP};
    assert DEAR in {DEAR} && CHEAP !in {DEAR};
  }

  lemma BreakingClosures()
    ensures ClosureOf(BreakingCatalog(), {}, CHEAP) == {CHEAP}
    ensures ClosureOf(BreakingCatalog(), {}, DEAR) == {CHEAP, DEAR}
    ensures ClosureOf(BreakingCatalog(), {CHEAP}, DEAR) == {DEAR}
  {
    hide ClosureOf, BreakingCatalog, Resolved, Needs, DependencyClosed;
    var items := BreakingCatalog();
    BreakingNeeds();
    BreakingCloses({}, CHEAP, {CHEAP});
    BreakingCloses({}, DEAR, {CHEAP, DEAR});
    BreakingCloses({CHEAP}, DEAR, {CHEAP, DEAR});
    assert CHEAP in Needs(items, DEAR);
  }

  lemma BreakingCloses(selected: set<Id>, v: Id, s: set<Id>)
    requires DependencyClosed(BreakingCatalog(), s) && selected <= s && v in s && v in BreakingCatalog()
    ensures var c := ClosureOf(BreakingCatalog(), selected, v);
            && c <= s && c !! selected && v in c + selected
            && (forall w :: w in c ==> Needs(BreakingCatalog(), w) <= c + selected)
  {
    hide ClosureOf, BreakingCatalog, Needs, DependencyClosed, Resolved;
    BreakingNeeds();
    NothingMissing(BreakingCatalog(), selected, v);
    ClosureCloses(BreakingCatalog(), selected, v);
    ClosureIsLeast(BreakingCatalog(), selected, v, s);
  }

  lemma BreakingSums()
    ensures Cost(BreakingCatalog(), {}) == 0
    ensures Cost(BreakingCatalog(), {CHEAP}) == Cost(BreakingCatalog(), {DEAR}) == 10
    ensures Cost(BreakingCatalog(), {CHEAP, DEAR}) == 20
    ensures Worth(BreakingCatalog(), {DEAR}) == Value(BreakingCatalog(), {DEAR}) == 5.0
    ensures ItemValue(BreakingCatalog()[CHEAP]) == 1.0
  {
    hide IntSum, Sum;
    var items := BreakingCatalog();
    assert {CHEAP} - {CHEAP} == {} && {DEAR} - {DEAR} == {} && {CHEAP, DEAR} - {CHEAP} == {DEAR};
    EmptySums(items);
    IntSumRemove({CHEAP}, CostOf(items), CHEAP);
    IntSumRemove({DEAR}, CostOf(items), DEAR);
    IntSumRemove({CHEAP, DEAR}, CostOf(items), CHEAP);
    SumRemove({DEAR}, WorthOf(items), DEAR);
    SumRemove({DEAR}, ValueOf(items), DEAR);
  }

  /** The failing case exists: a greedy outcome in which the replacement test admits an item by evicting its own
      dependency. */
  lemma ReplacementCanBreakClosure() returns (items: Catalog, selected: set<Id>, incoming: Id, outgoing: Id)
    ensures items == BreakingCatalog() && selected == {CHEAP} && incoming == DEAR && outgoing == CHEAP
    ensures Resolved(items) && Consistent(items) && Sensible(items)
    ensures GreedyOutcome(items, {}, 10, selected)
    ensures CanReplace(items, 10, selected, Cost(items, selected), incoming, outgoing)
    ensures AfterSwap(items, selected, incoming, outgoing) == {DEAR}
    ensures DependencyClosed(items, selected)
    ensures !DependencyClosed(items, AfterSwap(items, selected, incoming, outgoing))
  {
    hide ClosureOf, BreakingCatalog, Cost, Worth, DependencyClosed, Resolved, Consistent, Sensible;
    items, selected, incoming, outgoing := BreakingCatalog(), {CHEAP}, DEAR, CHEAP;
    BreakingNeeds();
    BreakingClosures();
    BreakingSums();
    BreakingTokens();
  }

  lemma BreakingTokens()
    ensures CHEAP in BreakingCatalog() && BreakingCatalog()[CHEAP].tokens == 10
  {
  }

  datatype Swap = Swap(incoming: Id, outgoing: Id)

  /** The replacements of a pass, each admitted by the test at its turn. */
  ghost predicate SwapRun(items: Catalog, budget: int, from: set<Id>, used: int, swaps: seq<Swap>, to: set<Id>,
                          usedTo: int)
    decreases |swaps|
  {
    if swaps == [] then
      from == to && used == usedTo
    else
      && CanReplace(items, budget, from, used, swaps[0].incoming, swaps[0].outgoing)
      && SwapRun(items, budget, AfterSwap(items, from, swaps[0].incoming, swaps[0].outgoing),
                 UsedAfter(items, from, used, swaps[0].incoming, swaps[0].outgoing), swaps[1..], to, usedTo)
  }

  lemma {:induction false} SwapRunExtends(items: Catalog, budget: int, from: set<Id>, used: int, swaps: seq<Swap>,
                                          to: set<Id>, usedTo: int, s: Swap)
    requires SwapRun(items, budget, from, used, swaps, to, usedTo)
    requires CanReplace(items, budget, to, usedTo, s.incoming, s.outgoing)
    ensures SwapRun(items, budget, from, used, swaps + [s],
                    AfterSwap(items, to, s.incoming, s.outgoing), UsedAfter(items, to, usedTo, s.incoming, s.outgoing))
    decreases |swaps|
  {
    CanReplaceHere(items, budget, to, usedTo, s.incoming, s.outgoing);
    hide CanReplace, AfterSwap, UsedAfter;
    if swaps == [] {
      assert ([] + [s])[1..] == [];
      assert SwapRun(items, budget, AfterSwap(items, to, s.incoming, s.outgoing),
                     UsedAfter(items, to, usedTo, s.incoming, s.outgoing),
                     [], AfterSwap(items, to, s.incoming, s.outgoing),
                         UsedAfter(items, to, usedTo, s.incoming, s.outgoing));
    } else {
      CanReplaceHere(items, budget, from, used, swaps[0].incoming, swaps[0].outgoing);
      SwapRunExtends(items, budget, AfterSwap(items, from, swaps[0].incoming, swaps[0].outgoing),
                     UsedAfter(items, from, used, swaps[0].incoming, swaps[0].outgoing), swaps[1..], to, usedTo, s);
      assert (swaps + [s])[1..] == swaps[1..] + [s];
    }
  }

  lemma CanReplaceHere(items: Catalog, budget: int, selected: set<Id>, used: int, incoming: Id, outgoing: Id)
    requires CanReplace(items, budget, selected, used, incoming, outgoing)
    ensures outgoing in items && outgoing in selected
  {
  }

  /** Over a whole pass: nothing is understated, the budget holds, and with sensible scores the value never falls
      and strictly rises when anything was replaced. */
  lemma {:induction false} SwapRunKeeps(items: Catalog, budget: int, from: set<Id>, used: int, swaps: seq<Swap>,
                                        to: set<Id>, usedTo: int)
    requires SwapRun(items, budget, from, used, swaps, to, usedTo) && Cost(items, from) <= used <= budget
    ensures Cost(items, to) <= usedTo <= budget
    ensures used == Cost(items, from) && (forall v :: v in items ==> items[v].tokens >= 0) ==> usedTo == Cost(items, to)
    ensures Sensible(items) ==> Value(items, to) >= Value(items, from)
    ensures Sensible(items) && swaps != [] ==> Value(items, to) > Value(items, from)
    decreases |swaps|
  {
    if swaps != [] {
      CanReplaceHere(items, budget, from, used, swaps[0].incoming, swaps[0].outgoing);
      hide CanReplace, AfterSwap, UsedAfter, Cost, Value;
      SwapAccounting(items, budget, from, used, swaps[0].incoming, swaps[0].outgoing);
      if Sensible(items) { SwapRaisesValue(items, budget, from, used, swaps[0].incoming, swaps[0].outgoing); }
      SwapRunKeeps(items, budget, AfterSwap(items, from, swaps[0].incoming, swaps[0].outgoing),
                   UsedAfter(items, from, used, swaps[0].incoming, swaps[0].outgoing), swaps[1..], to, usedTo);
    }
  }

  /** The items that a run of swaps evicts. */
  ghost function EvictedBy(swaps: seq<Swap>): set<Id> {
    set s | s in swaps :: s.outgoing
  }

  /** Where every unmet dependency of a selection points. */
  ghost predicate GapsWithin(items: Catalog, selected: set<Id>, gone: set<Id>) {
    forall w, x :: w in selected && x in Needs(items, w) ==> x in selected || x in gone
  }

  lemma SwapGaps(items: Catalog, selected: set<Id>, gone: set<Id>, incoming: Id, outgoing: Id)
    requires Resolved(items) && GapsWithin(items, selected, gone)
    ensures GapsWithin(items, AfterSwap(items, selected, incoming, outgoing), gone + {outgoing})
  {
    hide ClosureOf, Reach;
    var c := ClosureOf(items, selected, incoming);
    if incoming in items {
      NothingMissing(items, selected, incoming);
      ClosureCloses(items, selected, incoming);
    } else {
      NoClosure(items, selected, incoming);
    }
    forall w, x | w in AfterSwap(items, selected, incoming, outgoing) && x in Needs(items, w)
      ensures x in AfterSwap(items, selected, incoming, outgoing) || x in gone + {outgoing} {
      if w in c { assert x in c + selected; }
    }
  }

  lemma NoClosure(items: Catalog, selected: set<Id>, v: Id)
    requires v !in items
    ensures ClosureOf(items, selected, v) == {}
  {
    hide Reach;
    var g := Open(items, selected);
    assert Closed(g, {v});
    forall w | Reach(g, v, w) ensures w == v { ClosedKeepsReach(g, {v}, v, w); }
  }

  /** A run of swaps leaves no dependency unmet but those on items it evicted. */
  lemma {:induction false} SwapRunGaps(items: Catalog, budget: int, from: set<Id>, used: int, swaps: seq<Swap>,
                                       to: set<Id>, usedTo: int,
                                       gone: set<Id>)
    requires Resolved(items) && SwapRun(items, budget, from, used, swaps, to, usedTo) && GapsWithin(items, from, gone)
    ensures GapsWithin(items, to, gone + EvictedBy(swaps))
    decreases |swaps|
  {
    if swaps == [] {
      assert gone + EvictedBy(swaps) == gone;
    } else {
      CanReplaceHere(items, budget, from, used, swaps[0].incoming, swaps[0].outgoing);
      SwapGaps(items, from, gone, swaps[0].incoming, swaps[0].outgoing);
      hide CanReplace, AfterSwap, UsedAfter, GapsWithin;
      SwapRunGaps(items, budget, AfterSwap(items, from, swaps[0].incoming, swaps[0].outgoing),
                  UsedAfter(items, from, used, swaps[0].incoming, swaps[0].outgoing), swaps[1..], to, usedTo,
                  gone + {swaps[0].outgoing});
      EvictedFirst(swaps);
      assert gone + {swaps[0].outgoing} + EvictedBy(swaps[1..]) == gone + EvictedBy(swaps);
    }
  }

  lemma EvictedFirst(swaps: seq<Swap>)
    requires swaps != []
    ensures EvictedBy(swaps) == {swaps[0].outgoing} + EvictedBy(swaps[1..])
  {
    forall v | v in EvictedBy(swaps) ensures v in {swaps[0].outgoing} + EvictedBy(swaps[1..]) {
      var s :| s in swaps && s.outgoing == v;
      assert s == swaps[0] || s in swaps[1..];
    }
    assert swaps[0] in swaps;
  }

  /** No item outside the greedy selection depends on an item of it that may be evicted. */
  ghost predicate NothingLeansOn(items: Catalog, mandatory: set<Id>, greedy: set<Id>) {
    forall w :: w in items && w !in greedy ==> Needs(items, w) !! greedy - mandatory
  }

  /** A swap between an item from outside the greedy selection and an optional one of it then keeps a complete
      selection complete. */
  lemma SwapKeepsClosed(items: Catalog, budget: int, mandatory: set<Id>, greedy: set<Id>, selected: set<Id>,
                        used: int, s: Swap)
    requires Resolved(items) && NothingLeansOn(items, mandatory, greedy)
    requires mandatory <= selected <= items.Keys && DependencyClosed(items, selected)
    requires s.incoming in items && s.incoming !in greedy && s.outgoing in greedy - mandatory
    requires CanReplace(items, budget, selected, used, s.incoming, s.outgoing)
    ensures DependencyClosed(items, AfterSwap(items, selected, s.incoming, s.outgoing))
    ensures mandatory <= AfterSwap(items, selected, s.incoming, s.outgoing) <= items.Keys
  {
    hide ClosureOf, Reach, CanReplace;
    var g, outside := Open(items, selected), items.Keys - greedy;
    CanReplaceHere(items, budget, selected, used, s.incoming, s.outgoing);
    SwapParts(items, selected, s.incoming, s.outgoing);
    assert Closed(g, outside);
    forall w | w in ClosureOf(items, selected, s.incoming) ensures w in outside {
      ClosureReached(items, selected, s.incoming, w);
      ClosedKeepsReach(g, outside, s.incoming, w);
    }
    SwapClosedIff(items, budget, selected, used, s.incoming, s.outgoing);
  }

  lemma ClosureReached(items: Catalog, selected: set<Id>, v: Id, w: Id)
    requires w in ClosureOf(items, selected, v)
    ensures Reach(Open(items, selected), v, w)
  {
    hide Reach;
  }

  lemma {:induction false} SwapRunKeepsClosed(items: Catalog, budget: int, mandatory: set<Id>, greedy: set<Id>,
                                              from: set<Id>, used: int, swaps: seq<Swap>, to: set<Id>, usedTo: int)
    requires Resolved(items) && NothingLeansOn(items, mandatory, greedy)
    requires mandatory <= from <= items.Keys && DependencyClosed(items, from)
    requires SwapRun(items, budget, from, used, swaps, to, usedTo)
    requires forall s :: s in swaps ==> s.incoming in items && s.incoming !in greedy && s.outgoing in greedy - mandatory
    ensures DependencyClosed(items, to)
    decreases |swaps|
  {
    hide DependencyClosed, NothingLeansOn;
    if swaps != [] {
      var s := swaps[0];
      assert s in swaps;
      CanReplaceHere(items, budget, from, used, s.incoming, s.outgoing);
      hide CanReplace, AfterSwap, UsedAfter;
      SwapKeepsClosed(items, budget, mandatory, greedy, from, used, s);
      SwapRunKeepsClosed(items, budget, mandatory, greedy, AfterSwap(items, from, s.incoming, s.outgoing),
                         UsedAfter(items, from, used, s.incoming, s.outgoing), swaps[1..], to, usedTo);
    }
  }

  method IsDepended(items: Catalog, selected: set<Id>, v: Id) returns (r: bool)
    requires selected <= items.Keys
    ensures r <==> Depended(items, selected, v)
  {
    var rest := selected;
    while rest != {}
      invariant rest <= selected && forall w :: w in selected && w !in rest ==> w == v || v !in Needs(items, w)
      decreases rest
    {
      var w :| w in rest;
      if w != v && v in items[w].dependencies {
        assert v in Needs(items, w);
        return true;
      }
      rest := rest - {w};
    }
    r := false;
  }

  datatype Replaced = Kept | Evicted(outgoing: Id)

  /** The first optional item, in order, that the test lets the incoming one replace. */
  ghost function FirstReplaceable(items: Catalog, budget: int, optional: seq<Id>, selected: set<Id>, used: int,
                                  incoming: Id): Replaced {
    if optional == [] then Kept
    else if CanReplace(items, budget, selected, used, incoming, optional[0]) then Evicted(optional[0])
    else FirstReplaceable(items, budget, optional[1..], selected, used, incoming)
  }

  lemma {:induction false} FirstReplaceableFits(items: Catalog, budget: int, optional: seq<Id>, selected: set<Id>,
                                                used: int, incoming: Id)
    ensures var r := FirstReplaceable(items, budget, optional, selected, used, incoming);
            r.Evicted? ==>
                r.outgoing in optional && r.outgoing in items
                    && CanReplace(items, budget, selected, used, incoming, r.outgoing)
  {
    if optional != [] && !CanReplace(items, budget, selected, used, incoming, optional[0]) {
      hide CanReplace;
      FirstReplaceableFits(items, budget, optional[1..], selected, used, incoming);
    }
  }

  datatype Selection = Selection(selected: set<Id>, used: int, swaps: seq<Swap>)

  /** The whole pass: each dropped item in turn replaces the first item it can. */
  ghost function Pass(items: Catalog, budget: int, optional: seq<Id>, dropped: seq<Id>, selected: set<Id>,
                      used: int): Selection {
    if dropped == [] then
      Selection(selected, used, [])
    else
      Turn(items, budget, optional, dropped[|dropped| - 1],
           Pass(items, budget, optional, dropped[..|dropped| - 1], selected, used))
  }

  ghost function Turn(items: Catalog, budget: int, optional: seq<Id>, incoming: Id, now: Selection): Selection {
    var r := FirstReplaceable(items, budget, optional, now.selected, now.used, incoming);
    if r.Evicted? && r.outgoing in items then
      Selection(AfterSwap(items, now.selected, incoming, r.outgoing),
                UsedAfter(items, now.selected, now.used, incoming, r.outgoing),
                now.swaps + [Swap(incoming, r.outgoing)])
    else now
  }

  /** A pass is a run of admitted swaps that touches no mandatory item. */
  lemma {:induction false} PassIsSwapRun(items: Catalog, budget: int, mandatory: set<Id>, optional: seq<Id>,
                                         dropped: seq<Id>, selected: set<Id>, used: int)
    requires mandatory <= selected <= items.Keys && forall v :: v in optional ==> v !in mandatory
    ensures var p := Pass(items, budget, optional, dropped, selected, used);
            SwapRun(items, budget, selected, used, p.swaps, p.selected, p.used) && mandatory <= p.selected <= items.Keys
  {
    if dropped != [] {
      var incoming := dropped[|dropped| - 1];
      PassIsSwapRun(items, budget, mandatory, optional, dropped[..|dropped| - 1], selected, used);
      var p := Pass(items, budget, optional, dropped[..|dropped| - 1], selected, used);
      hide CanReplace, SwapRun, ClosureOf, FirstReplaceable, UsedAfter;
      FirstReplaceableFits(items, budget, optional, p.selected, p.used, incoming);
      var r := FirstReplaceable(items, budget, optional, p.selected, p.used, incoming);
      ClosureInItems(items, p.selected, incoming);
      if r.Evicted? {
        SwapRunExtends(items, budget, selected, used, p.swaps, p.selected, p.used, Swap(incoming, r.outgoing));
      }
    }
  }

  /** The swaps of a pass bring in dropped items and evict optional ones. */
  lemma {:induction false} PassSwaps(items: Catalog, budget: int, optional: seq<Id>, dropped: seq<Id>,
                                     selected: set<Id>, used: int)
    ensures forall s :: s in Pass(items, budget, optional, dropped, selected, used).swaps ==>
              s.incoming in dropped && s.outgoing in optional
  {
    if dropped != [] {
      var incoming := dropped[|dropped| - 1];
      PassSwaps(items, budget, optional, dropped[..|dropped| - 1], selected, used);
      var p := Pass(items, budget, optional, dropped[..|dropped| - 1], selected, used);
      hide CanReplace, ClosureOf, FirstReplaceable, UsedAfter, AfterSwap;
      FirstReplaceableFits(items, budget, optional, p.selected, p.used, incoming);
    }
  }

  /** One incoming item against the optional ones in order: the first that passes the test is evicted. */
  method ReplaceOne(items: Catalog, budget: int, optional: seq<Id>, now: Selection, incoming: Id)
    returns (next: Selection)
    requires Resolved(items) && now.selected <= items.Keys && incoming in items
    requires forall v :: v in optional ==> v in items
    ensures next == Turn(items, budget, optional, incoming, now)
    ensures next.selected <= items.Keys
  {
    hide ClosureOf, MissingFrom, IntSum, Sum;
    var selected, used := now.selected, now.used;
    NothingMissing(items, selected, incoming);
    var found := FindClosure(items, selected, incoming);
    assert found.Closure?;
    ClosureInItems(items, selected, incoming);
    var cost := SumCost(items, found.required);
    var utility := SumWorth(items, found.required);
    for i := 0 to |optional|
      invariant FirstReplaceable(items, budget, optional, selected, used, incoming)
             == FirstReplaceable(items, budget, optional[i..], selected, used, incoming)
    {
      var outgoing := optional[i];
      assert outgoing in optional;
      assert optional[i..][1..] == optional[i + 1..];
      if outgoing in selected && utility > ItemValue(items[outgoing])
          && cost <= budget - used + items[outgoing].tokens {
        var depended := IsDepended(items, selected, outgoing);
        if !depended {
          return Selection(selected - {outgoing} + found.required, used - items[outgoing].tokens + cost,
                           now.swaps + [Swap(incoming, outgoing)]);
        }
      }
    }
    next := now;
  }

  /** The pass over all dropped items. */
  method ReplaceAll(items: Catalog, budget: int, optional: seq<Id>, dropped: seq<Id>, selected: set<Id>, used: int)
    returns (r: Selection)
    requires Resolved(items) && selected <= items.Keys
    requires forall v :: v in optional ==> v in items
    requires forall v :: v in dropped ==> v in items
    ensures r == Pass(items, budget, optional, dropped, selected, used)
    ensures r.selected <= items.Keys
  {
    hide Turn;
    r := Selection(selected, used, []);
    for i := 0 to |dropped|
      invariant r == Pass(items, budget, optional, dropped[..i], selected, used) && r.selected <= items.Keys
    {
      assert dropped[i] in dropped;
      assert dropped[..i + 1][..i] == dropped[..i];
      r := ReplaceOne(items, budget, optional, r, dropped[i]);
    }
    assert dropped[..|dropped|] == dropped;
  }
}
