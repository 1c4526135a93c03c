/** Invalidation over the contract dependency graph: a worklist from everything that changed. */
module ContractGraph {
  import opened Ordering
  import opened Reachability

  type Path = Node

  /** A node row of a graph snapshot: its path and everything else it records. */
  datatype Contract = Contract(path: Path, record: string)
  datatype Edge = Edge(dependent: Path, dependency: Path)
  datatype Snapshot = Snapshot(nodes: seq<Contract>, edges: seq<Edge>)

  type Records = map<Path, string>

  ghost predicate DistinctNodes(nodes: seq<Contract>) {
    forall i, j :: 0 <= i < j < |nodes| ==> nodes[i].path != nodes[j].path
  }

  function RecordsOf(nodes: seq<Contract>): Records {
    if nodes == [] then map[] else RecordsOf(nodes[..|nodes| - 1])[nodes[|nodes| - 1].path := nodes[|nodes| - 1].record]
  }

  ghost function PathsOf(nodes: seq<Contract>): set<Path> { set x | x in nodes :: x.path }

  lemma PathsOfAppend(nodes: seq<Contract>, x: Contract)
    ensures PathsOf(nodes + [x]) == PathsOf(nodes) + {x.path}
  {
    forall p | p in PathsOf(nodes) + {x.path} ensures p in PathsOf(nodes + [x]) {
      if p in PathsOf(nodes) {
        var y :| y in nodes && y.path == p;
        assert y in nodes + [x];
      } else {
        assert x in nodes + [x];
      }
    }
  }

  /** The records hold exactly the paths of the rows and, when these are distinct, each row. */
  lemma {:induction false} RecordsHold(nodes: seq<Contract>)
    ensures RecordsOf(nodes).Keys == PathsOf(nodes)
    ensures DistinctNodes(nodes) ==> forall x :: x in nodes ==>
              x.path in RecordsOf(nodes) && RecordsOf(nodes)[x.path] == x.record
  {
    if nodes != [] {
      var n := |nodes| - 1;
      assert nodes == nodes[..n] + [nodes[n]];
      RecordsHold(nodes[..n]);
      PathsOfAppend(nodes[..n], nodes[n]);
      if DistinctNodes(nodes) {
        DistinctLast(nodes, n);
        forall x | x in nodes ensures x.path in RecordsOf(nodes) && RecordsOf(nodes)[x.path] == x.record {
          if x in nodes[..n] { assert x.path in PathsOf(nodes[..n]); }
        }
      }
    }
  }

  lemma DistinctLast(nodes: seq<Contract>, n: nat)
    requires |nodes| == n + 1
    ensures DistinctNodes(nodes) <==> DistinctNodes(nodes[..n]) && nodes[n].path !in PathsOf(nodes[..n])
  {
    if DistinctNodes(nodes[..n]) && nodes[n].path !in PathsOf(nodes[..n]) {
      forall i, j | 0 <= i < j < |nodes| ensures nodes[i].path != nodes[j].path {
        assert nodes[..n][i] in nodes[..n] && nodes[..n][i] == nodes[i];
        if j < n { assert nodes[..n][j] == nodes[j]; }
      }
    }
  }

  // ---- What changed ----

  function Added(before: Records, after: Records): set<Path> { after.Keys - before.Keys }

  function Removed(before: Records, after: Records): set<Path> { before.Keys - after.Keys }

  function Changed(before: Records, after: Records): set<Path> {
    set p | p in before.Keys * after.Keys && before[p] != after[p]
  }

  function Seeds(before: Records, after: Records): set<Path>
  {
    Added(before, after) + Removed(before, after) + Changed(before, after)
  }

  /** The contract is the same in both snapshots, or in neither. */
  ghost predicate Unchanged(before: Records, after: Records, p: Path) {
    (p !in before && p !in after) || (p in before && p in after && before[p] == after[p])
  }

  lemma SeedsAreChanges(before: Records, after: Records, p: Path)
    ensures p in Seeds(before, after) <==> !Unchanged(before, after, p)
  {
  }

  // ---- The graphs ----

  function Dependents(edges: set<Edge>, p: Path): set<Path> { set e | e in edges && e.dependency == p :: e.dependent }

  function Dependencies(edges: set<Edge>, p: Path): set<Path> { set e | e in edges && e.dependent == p :: e.dependency }

  function Targets(edges: set<Edge>): set<Path> { set e | e in edges :: e.dependency }

  function Sources(edges: set<Edge>): set<Path> { set e | e in edges :: e.dependent }

  /** From each dependency to its dependents. */
  function Reverse(edges: set<Edge>): Graph { map p | p in Targets(edges) :: Dependents(edges, p) }

  /** From each dependent to its dependencies. */
  ghost function Forward(edges: set<Edge>): Graph { map p | p in Sources(edges) :: Dependencies(edges, p) }

  lemma Opposite(edges: set<Edge>, p: Path, q: Path)
    ensures q in Succ(Forward(edges), p) <==> Edge(p, q) in edges
    ensures p in Succ(Reverse(edges), q) <==> Edge(p, q) in edges
  {
    if Edge(p, q) in edges {
      assert Edge(p, q).dependent == p && Edge(p, q).dependency == q;
    }
  }

  /** Everything reached from some seed. */
  ghost predicate Affected(g: Graph, seeds: set<Path>, p: Path) {
    exists s :: s in seeds && Reach(g, s, p)
  }

  /** The smallest set that holds the seeds and the dependents of its members. */
  ghost predicate LeastAffected(g: Graph, seeds: set<Path>, a: set<Path>) {
    && seeds <= a && Closed(g, a)
    && forall b {:trigger Closed(g, b)} :: seeds <= b && Closed(g, b) ==> a <= b
  }

  lemma AffectedIsLeast(g: Graph, seeds: set<Path>, a: set<Path>)
    requires forall p :: p in a <==> Affected(g, seeds, p)
    ensures LeastAffected(g, seeds, a)
  {
    hide Reach;
    forall s | s in seeds ensures s in a { ReachSelf(g, s); }
    forall p, q | p in a && q in Succ(g, p) ensures q in a {
      var s :| s in seeds && Reach(g, s, p);
      ReachStep(g, s, p, q);
    }
    forall b | seeds <= b && Closed(g, b) ensures a <= b {
      forall p | p in a ensures p in b {
        var s :| s in seeds && Reach(g, s, p);
        ClosedKeepsReach(g, b, s, p);
      }
    }
  }

  // ---- The worklist ----

  ghost predicate Working(g: Graph, seeds: set<Path>, affected: set<Path>, queue: seq<Path>) {
    && seeds <= affected
    && (forall p :: p in queue ==> p in affected)
    && (forall p :: p in affected ==> Affected(g, seeds, p))
    && (forall p, q :: p in affected && q in Succ(g, p) ==> q in affected || p in queue)
  }

  lemma WorkingDone(g: Graph, seeds: set<Path>, affected: set<Path>)
    requires Working(g, seeds, affected, [])
    ensures forall p :: p in affected <==> Affected(g, seeds, p)
  {
    hide Reach;
    assert Closed(g, affected);
    forall p | Affected(g, seeds, p) ensures p in affected {
      var s :| s in seeds && Reach(g, s, p);
      ClosedKeepsReach(g, affected, s, p);
    }
  }

  /** The dependents of one path taken from the queue. */
  method Visit(g: Graph, ghost seeds: set<Path>, affected: set<Path>, queue: seq<Path>, dependency: Path)
    returns (affected': set<Path>, queue': seq<Path>)
    requires Working(g, seeds, affected, [dependency] + queue)
    ensures Working(g, seeds, affected', queue') && affected' == affected + Succ(g, dependency)
    ensures affected' == affected ==> queue' == queue
  {
    hide Reach, LinearOrder, TotalOrder, Working, NodeLe, SortedBy, NoDuplicates;
    NodeLeIsLinear();
    LinearIsTotal(NodeLe);
    var dependents := SortedElements(NodeLe, Succ(g, dependency));
    affected', queue' := affected, queue;
    for i := 0 to |dependents|
      invariant affected' == affected + Elements(dependents[..i])
      invariant forall p :: p in queue' <==> p in queue || p in affected' - affected
      invariant affected' == affected ==> queue' == queue
    {
      assert dependents[..i + 1] == dependents[..i] + [dependents[i]];
      ElementsConcat(dependents[..i], [dependents[i]]);
      if dependents[i] !in affected' {
        affected' := affected' + {dependents[i]};
        queue' := queue' + [dependents[i]];
      }
    }
    assert dependents[..|dependents|] == dependents;
    VisitKeeps(g, seeds, affected, queue, dependency, affected', queue');
  }

  lemma VisitKeeps(g: Graph, seeds: set<Path>, affected: set<Path>, queue: seq<Path>, dependency: Path,
                   affected': set<Path>, queue': seq<Path>)
    requires Working(g, seeds, affected, [dependency] + queue) && affected' == affected + Succ(g, dependency)
    requires forall p :: p in queue' <==> p in queue || p in affected' - affected
    ensures Working(g, seeds, affected', queue')
  {
    hide Reach;
    assert ([dependency] + queue)[0] == dependency;
    forall p | p in affected' - affected ensures Affected(g, seeds, p) {
      var s :| s in seeds && Reach(g, s, dependency);
      ReachStep(g, s, dependency, p);
    }
    forall p, q | p in affected' && q in Succ(g, p) ensures q in affected' || p in queue' {
      if p in affected && p != dependency { assert q in affected || p in [dependency] + queue; }
    }
  }

  /** The closure loop. */
  method Propagate(g: Graph, seeds: set<Path>) returns (affected: set<Path>)
    ensures forall p :: p in affected <==> Affected(g, seeds, p)
  {
    hide Affected, LinearOrder, TotalOrder, Working, Universe, NodeLe, SortedBy, NoDuplicates;
    NodeLeIsLinear();
    LinearIsTotal(NodeLe);
    affected := seeds;
    var queue := SortedElements(NodeLe, seeds);
    ghost var all := Universe(g) + seeds;
    StartWorking(g, seeds, queue);
    while queue != []
      invariant Working(g, seeds, affected, queue) && affected <= all
      decreases all - affected, |queue|
    {
      assert queue == [queue[0]] + queue[1..];
      SuccInUniverse(g, queue[0]);
      ghost var before := affected;
      affected, queue := Visit(g, seeds, affected, queue[1..], queue[0]);
      Shrinks(all, before, affected);
    }
    WorkingDone(g, seeds, affected);
  }

  lemma Shrinks(all: set<Path>, before: set<Path>, after: set<Path>)
    requires before <= after <= all
    ensures after != before ==> all - after < all - before
  {
    if after != before {
      var p :| p in after && p !in before;
      assert p in all - before && p !in all - after;
    }
  }

  lemma StartWorking(g: Graph, seeds: set<Path>, queue: seq<Path>)
    requires Elements(queue) == seeds
    ensures Working(g, seeds, seeds, queue)
  {
    hide Reach;
    forall p | p in seeds ensures p in queue && Affected(g, seeds, p) {
      assert p in Elements(queue);
      ReachSelf(g, p);
    }
    forall p | p in queue ensures p in seeds { assert p in Elements(queue); }
  }

  // ---- The plan ----

  datatype Plan = Plan(added: seq<Path>, removed: seq<Path>, changed: seq<Path>, invalidated: seq<Path>)

  datatype Outcome = DuplicateNode | Planned(plan: Plan)

  ghost predicate Lists(s: set<Path>, order: seq<Path>) {
    SortedBy(NodeLe, order) && NoDuplicates(order) && Elements(order) == s
  }

  method SortedPaths(s: set<Path>) returns (order: seq<Path>)
    ensures Lists(s, order)
  {
    hide NodeLe, LinearOrder;
    NodeLeIsLinear();
    LinearIsTotal(NodeLe);
    order := SortedElements(NodeLe, s);
  }

  function AllEdges(previous: Snapshot, current: Snapshot): set<Edge>
  {
    Elements(previous.edges) + Elements(current.edges)
  }

  /** The current contracts that something changed can reach. */
  ghost function Invalidated(previous: Snapshot, current: Snapshot): set<Path> {
    var before, after := RecordsOf(previous.nodes), RecordsOf(current.nodes);
    set p | p in after && Affected(Reverse(AllEdges(previous, current)), Seeds(before, after), p)
  }

  method RecordNodes(nodes: seq<Contract>) returns (records: Records, distinct: bool)
    ensures distinct <==> DistinctNodes(nodes)
    ensures distinct ==> records == RecordsOf(nodes)
  {
    hide PathsOf;
    records := map[];
    for i := 0 to |nodes|
      invariant records == RecordsOf(nodes[..i]) && DistinctNodes(nodes[..i])
    {
      hide DistinctNodes;
      RecordsHold(nodes[..i]);
      assert nodes[..i + 1][..i] == nodes[..i];
      DistinctLast(nodes[..i + 1], i);
      if nodes[i].path in records {
        distinct := false;
        NotDistinctPrefix(nodes, i + 1);
        return;
      }
      records := records[nodes[i].path := nodes[i].record];
    }
    assert nodes[..|nodes|] == nodes;
    distinct := true;
  }

  lemma NotDistinctPrefix(nodes: seq<Contract>, n: nat)
    requires n <= |nodes| && !DistinctNodes(nodes[..n])
    ensures !DistinctNodes(nodes)
  {
    var i, j :| 0 <= i < j < n && nodes[..n][i].path == nodes[..n][j].path;
    assert nodes[i].path == nodes[j].path;
  }

  /** `invalidation_plan` */
  method InvalidationPlan(previous: Snapshot, current: Snapshot) returns (r: Outcome)
    ensures r.DuplicateNode? <==> !DistinctNodes(previous.nodes) || !DistinctNodes(current.nodes)
    ensures r.Planned? ==>
              var before, after := RecordsOf(previous.nodes), RecordsOf(current.nodes);
              && Lists(Added(before, after), r.plan.added) && Lists(Removed(before, after), r.plan.removed)
              && Lists(Changed(before, after), r.plan.changed)
                 && Lists(Invalidated(previous, current), r.plan.invalidated)
  {
    hide Lists, DistinctNodes, Affected, Reverse;
    var before, distinct := RecordNodes(previous.nodes);
    if !distinct {
      return DuplicateNode;
    }
    var after, alsoDistinct := RecordNodes(current.nodes);
    if !alsoDistinct {
      return DuplicateNode;
    }
    var added := SortedPaths(Added(before, after));
    var removed := SortedPaths(Removed(before, after));
    var changed := SortedPaths(Changed(before, after));
    var affected := Propagate(Reverse(AllEdges(previous, current)), Seeds(before, after));
    var paths := set p | p in affected && p in after;
    assert paths == Invalidated(previous, current);
    var invalidated := SortedPaths(paths);
    r := Planned(Plan(added, removed, changed, invalidated));
  }

  // ---- What the plan guarantees ----

  lemma {:induction false} DependencyReverses(edges: set<Edge>, path: seq<Path>, p: Path, q: Path)
    requires PathFromTo(Forward(edges), path, p, q)
    ensures Reach(Reverse(edges), q, p)
    decreases |path|
  {
    if |path| == 1 {
      ReachSelf(Reverse(edges), p);
    } else {
      var next := path[1];
      assert PathFromTo(Forward(edges), path[1..], next, q);
      DependencyReverses(edges, path[1..], next, q);
      Opposite(edges, p, next);
      hide Reach;
      ReachStep(Reverse(edges), q, next, p);
    }
  }

  /** The promise of the plan: a current contract that is not invalidated is itself unchanged, and so is everything it
      depends on, directly or through others, by the old or the new edges. */
  lemma NotInvalidatedIsSafe(previous: Snapshot, current: Snapshot, p: Path, q: Path)
    requires p in RecordsOf(current.nodes) && p !in Invalidated(previous, current)
    requires Reach(Forward(AllEdges(previous, current)), p, q)
    ensures Unchanged(RecordsOf(previous.nodes), RecordsOf(current.nodes), q)
  {
    var edges := AllEdges(previous, current);
    var before, after := RecordsOf(previous.nodes), RecordsOf(current.nodes);
    var path :| PathFromTo(Forward(edges), path, p, q);
    DependencyReverses(edges, path, p, q);
    SeedsAreChanges(before, after, q);
  }

  /** And nothing is invalidated without cause: an invalidated contract depends on something that changed, or changed
      itself. */
  lemma InvalidatedHasCause(previous: Snapshot, current: Snapshot, p: Path) returns (q: Path)
    requires p in Invalidated(previous, current)
    ensures !Unchanged(RecordsOf(previous.nodes), RecordsOf(current.nodes), q)
    ensures Reach(Reverse(AllEdges(previous, current)), q, p)
  {
    hide Reach;
    var before, after := RecordsOf(previous.nodes), RecordsOf(current.nodes);
    q :| q in Seeds(before, after) && Reach(Reverse(AllEdges(previous, current)), q, p);
    SeedsAreChanges(before, after, q);
  }

  /** Before it is cut down to current contracts, the affected set is the least one closed under dependents. */
  lemma InvalidatedIsLeast(previous: Snapshot, current: Snapshot, a: set<Path>)
    requires forall p :: p in a <==>
               Affected(Reverse(AllEdges(previous, current)),
                        Seeds(RecordsOf(previous.nodes), RecordsOf(current.nodes)), p)
    ensures LeastAffected(Reverse(AllEdges(previous, current)),
                          Seeds(RecordsOf(previous.nodes), RecordsOf(current.nodes)), a)
    ensures Invalidated(previous, current) == a * RecordsOf(current.nodes).Keys
  {
    hide Affected;
    AffectedIsLeast(Reverse(AllEdges(previous, current)), Seeds(RecordsOf(previous.nodes), RecordsOf(current.nodes)),
                    a);
  }

  // ---- The plan spelled out ----

  /** A snapshot has a contract at the path, with this record. */
  ghost predicate Has(nodes: seq<Contract>, p: Path, record: string) { Contract(p, record) in nodes }

  ghost predicate HasPath(nodes: seq<Contract>, p: Path) { exists r :: Has(nodes, p, r) }

  /** Both snapshots have the path, with different records. */
  ghost predicate Differs(a: seq<Contract>, b: seq<Contract>, p: Path) {
    exists r, s :: Has(a, p, r) && Has(b, p, s) && r != s
  }

  /** A chain of dependencies of either snapshot leads from the dependent down to the dependency. */
  ghost predicate DependsOn(previous: Snapshot, current: Snapshot, p: Path, q: Path) {
    exists chain: seq<Path> ::
      && |chain| > 0 && chain[0] == p && chain[|chain| - 1] == q
      && forall i :: 0 < i < |chain| ==>
           Edge(chain[i - 1], chain[i]) in previous.edges || Edge(chain[i - 1], chain[i]) in current.edges
  }

  lemma RecordIff(nodes: seq<Contract>, p: Path, record: string)
    requires DistinctNodes(nodes)
    ensures p in RecordsOf(nodes) && RecordsOf(nodes)[p] == record <==> Has(nodes, p, record)
    ensures p in RecordsOf(nodes) <==> HasPath(nodes, p)
  {
    hide RecordsOf, DistinctNodes;
    RecordsHold(nodes);
    if p in RecordsOf(nodes) {
      var x :| x in nodes && x.path == p;
      assert x == Contract(p, x.record);
      assert Has(nodes, p, RecordsOf(nodes)[p]);
    }
    forall r | Has(nodes, p, r) ensures p in RecordsOf(nodes) && RecordsOf(nodes)[p] == r {
      assert Contract(p, r).path == p;
    }
  }

  lemma {:induction false} ChainReach(edges: set<Edge>, chain: seq<Path>)
    requires |chain| > 0 && forall i :: 0 < i < |chain| ==> Edge(chain[i - 1], chain[i]) in edges
    ensures Reach(Reverse(edges), chain[|chain| - 1], chain[0])
  {
    hide Reach, Reverse;
    if |chain| == 1 {
      ReachSelf(Reverse(edges), chain[0]);
    } else {
      ChainReach(edges, chain[1..]);
      Opposite(edges, chain[0], chain[1]);
      ReachStep(Reverse(edges), chain[|chain| - 1], chain[1], chain[0]);
    }
  }

  lemma {:induction false} ReachChain(edges: set<Edge>, path: seq<Path>, q: Path, p: Path) returns (chain: seq<Path>)
    requires PathFromTo(Reverse(edges), path, q, p)
    ensures |chain| > 0 && chain[0] == p && chain[|chain| - 1] == q
    ensures forall i :: 0 < i < |chain| ==> Edge(chain[i - 1], chain[i]) in edges
    decreases |path|
  {
    if |path| == 1 {
      chain := [p];
    } else {
      assert PathFromTo(Reverse(edges), path[1..], path[1], p);
      var later := ReachChain(edges, path[1..], path[1], p);
      chain := later + [q];
      Opposite(edges, path[1], q);
    }
  }

  lemma DependsIff(previous: Snapshot, current: Snapshot, p: Path, q: Path)
    ensures Reach(Reverse(AllEdges(previous, current)), q, p) <==> DependsOn(previous, current, p, q)
  {
    hide Reverse;
    var edges := AllEdges(previous, current);
    if Reach(Reverse(edges), q, p) {
      var path :| PathFromTo(Reverse(edges), path, q, p);
      var chain := ReachChain(edges, path, q, p);
    }
    hide Reach;
    if DependsOn(previous, current, p, q) {
      var chain: seq<Path> :| |chain| > 0 && chain[0] == p && chain[|chain| - 1] == q
        && forall i :: 0 < i < |chain| ==>
             Edge(chain[i - 1], chain[i]) in previous.edges || Edge(chain[i - 1], chain[i]) in current.edges;
      ChainReach(edges, chain);
    }
  }

  /** The four lists of a plan, in id order: paths only the current snapshot has, paths only the previous one has, paths
      whose records differ, and the current paths that depend, by either snapshot's edges, on any of these. */
  lemma PlanMeaning(previous: Snapshot, current: Snapshot, plan: Plan)
    requires DistinctNodes(previous.nodes) && DistinctNodes(current.nodes)
    requires var before, after := RecordsOf(previous.nodes), RecordsOf(current.nodes);
             && Lists(Added(before, after), plan.added) && Lists(Removed(before, after), plan.removed)
             && Lists(Changed(before, after), plan.changed)
             && Lists(Invalidated(previous, current), plan.invalidated)
    ensures forall p :: p in plan.added <==> HasPath(current.nodes, p) && !HasPath(previous.nodes, p)
    ensures forall p :: p in plan.removed <==> HasPath(previous.nodes, p) && !HasPath(current.nodes, p)
    ensures forall p :: p in plan.changed <==> Differs(previous.nodes, current.nodes, p)
    ensures forall p :: p in plan.invalidated <==>
              && HasPath(current.nodes, p)
              && exists q :: (q in plan.added || q in plan.removed || q in plan.changed)
                             && DependsOn(previous, current, p, q)
    ensures forall order: seq<Path> :: order in [plan.added, plan.removed, plan.changed, plan.invalidated] ==>
              forall i, j :: 0 <= i < j < |order| ==> order[i] != order[j] && StringLe(order[i].id, order[j].id)
  {
    hide RecordsOf, DistinctNodes, Has, HasPath, Differs, DependsOn, Reach, Reverse, StringLe, Lists;
    var before, after := RecordsOf(previous.nodes), RecordsOf(current.nodes);
    ListsAre(Added(before, after), plan.added);
    ListsAre(Removed(before, after), plan.removed);
    ListsAre(Changed(before, after), plan.changed);
    ListsAre(Invalidated(previous, current), plan.invalidated);
    forall p
      ensures (p in before <==> HasPath(previous.nodes, p)) && (p in after <==> HasPath(current.nodes, p))
              && (p in Changed(before, after) <==> Differs(previous.nodes, current.nodes, p))
    {
      PathIff(previous.nodes, current.nodes, p);
    }
    forall p, q ensures Reach(Reverse(AllEdges(previous, current)), q, p) <==> DependsOn(previous, current, p, q) {
      DependsIff(previous, current, p, q);
    }
  }

  lemma PathIff(a: seq<Contract>, b: seq<Contract>, p: Path)
    requires DistinctNodes(a) && DistinctNodes(b)
    ensures (p in RecordsOf(a) <==> HasPath(a, p)) && (p in RecordsOf(b) <==> HasPath(b, p))
    ensures p in Changed(RecordsOf(a), RecordsOf(b)) <==> Differs(a, b, p)
  {
    hide RecordsOf, DistinctNodes, Has, HasPath;
    forall r
      ensures p in RecordsOf(a) && RecordsOf(a)[p] == r <==> Has(a, p, r)
      ensures p in RecordsOf(b) && RecordsOf(b)[p] == r <==> Has(b, p, r)
    {
      RecordIff(a, p, r);
      RecordIff(b, p, r);
    }
    RecordIff(a, p, "");
    RecordIff(b, p, "");
    if p in RecordsOf(a) && p in RecordsOf(b) {
      assert Has(a, p, RecordsOf(a)[p]) && Has(b, p, RecordsOf(b)[p]);
    }
  }

  lemma ListsAre(s: set<Path>, order: seq<Path>)
    requires Lists(s, order)
    ensures forall p :: p in order <==> p in s
    ensures forall i, j :: 0 <= i < j < |order| ==> order[i] != order[j] && StringLe(order[i].id, order[j].id)
  {
    hide StringLe;
    forall p ensures p in order <==> p in Elements(order) {}
    forall i, j | 0 <= i < j < |order| ensures NodeLe(order[i], order[j]) {}
  }
}
