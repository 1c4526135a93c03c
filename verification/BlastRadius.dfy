/** The depth-bounded searches `blast_radius` and `call_hierarchy.expand`. */
module BlastRadius {
  import opened Ordering
  import opened Reachability
  import opened CodeGraph
  import opened Layers

  datatype Result<T> = Success(value: T) | KeyError(node: Node)

  const IMPACT_KINDS: set<string> := {"call", "import", "inherits"}
  const TARGET_LIMIT: nat := 20

  /** A negative depth behaves like zero: `distance >= depth` already holds at the seeds. */
  function Limit(depth: int): nat { if depth < 0 then 0 else depth }

  datatype Impact = Impact(minimumDepth: nat, symbols: set<string>, roots: set<Node>)

  /** What is known about the nodes expanded so far, grouped by path. */
  ghost predicate Summarises(cg: CodeGraph, g: Graph, seeds: set<Node>, dist: map<Node, nat>, expanded: set<Node>,
                             impacted: map<string, Impact>)
    requires expanded <= cg.symbols.Keys && expanded <= dist.Keys
  {
    && (forall v :: v in expanded ==> cg.symbols[v].path in impacted)
    && (forall path :: path in impacted ==> DescribesPath(cg, g, seeds, dist, expanded, path, impacted[path]))
  }

  ghost predicate At(cg: CodeGraph, v: Node, path: string) {
    v in cg.symbols && cg.symbols[v].path == path
  }

  /** The row for `path`: the smallest distance there, every symbol there, for each root a node there that it is
      nearest to, and for each node there a root that is nearest to it. */
  ghost predicate DescribesPath(cg: CodeGraph, g: Graph, seeds: set<Node>, dist: map<Node, nat>, nodes: set<Node>,
                                path: string, row: Impact)
    requires nodes <= cg.symbols.Keys && nodes <= dist.Keys
  {
    && NearestOf(cg, dist, nodes, path, row.minimumDepth)
    && SymbolsOf(cg, nodes, path, row.symbols)
    && row.roots != {} && row.roots <= seeds
    && RootsOf(cg, g, dist, nodes, path, row.roots)
  }

  ghost predicate NearestOf(cg: CodeGraph, dist: map<Node, nat>, nodes: set<Node>, path: string, depth: nat)
    requires nodes <= dist.Keys
  {
    && (exists v :: v in nodes && At(cg, v, path) && dist[v] == depth)
    && (forall v :: v in nodes && At(cg, v, path) ==> depth <= dist[v])
  }

  ghost predicate SymbolsOf(cg: CodeGraph, nodes: set<Node>, path: string, symbols: set<string>)
    requires nodes <= cg.symbols.Keys
  {
    && (forall v :: v in nodes && At(cg, v, path) ==> cg.symbols[v].qualifiedName in symbols)
    && (forall name :: name in symbols ==>
        exists v :: v in nodes && At(cg, v, path) && cg.symbols[v].qualifiedName == name)
  }

  ghost predicate RootsOf(cg: CodeGraph, g: Graph, dist: map<Node, nat>, nodes: set<Node>, path: string,
                          roots: set<Node>)
    requires nodes <= dist.Keys
  {
    && (forall r {:trigger NearestFor(cg, g, dist, nodes, path, r)} :: r in roots ==>
        NearestFor(cg, g, dist, nodes, path, r))
    && (forall v :: v in nodes && At(cg, v, path) ==> Rooted(g, roots, v, dist[v]))
  }

  /** The root lies as near to some node at the path as that node's distance says. */
  ghost predicate NearestFor(cg: CodeGraph, g: Graph, dist: map<Node, nat>, nodes: set<Node>, path: string, r: Node)
    requires nodes <= dist.Keys
  {
    exists v :: v in nodes && At(cg, v, path) && v in Layer(g, {r}, dist[v])
  }

  /** One of the roots lies within `d` edges of v. */
  ghost predicate Rooted(g: Graph, roots: set<Node>, v: Node, d: nat) {
    exists r :: r in roots && v in Layer(g, {r}, d)
  }

  lemma NearestMore(cg: CodeGraph, dist: map<Node, nat>, nodes: set<Node>, path: string, u: Node, before: nat,
                    isNew: bool)
    requires nodes <= dist.Keys && u in dist && At(cg, u, path)
    requires if isNew then forall v :: v in nodes ==> !At(cg, v, path) else NearestOf(cg, dist, nodes, path, before)
    ensures NearestOf(cg, dist, nodes + {u}, path, if isNew || dist[u] < before then dist[u] else before)
  {
    hide At;
  }

  lemma SymbolsMore(cg: CodeGraph, nodes: set<Node>, path: string, u: Node, before: set<string>)
    requires nodes <= cg.symbols.Keys && At(cg, u, path) && SymbolsOf(cg, nodes, path, before)
    ensures SymbolsOf(cg, nodes + {u}, path, before + {cg.symbols[u].qualifiedName})
  {
    forall name | name in before + {cg.symbols[u].qualifiedName}
      ensures exists v :: v in nodes + {u} && At(cg, v, path) && cg.symbols[v].qualifiedName == name {
      if name in before {
        var v :| v in nodes && At(cg, v, path) && cg.symbols[v].qualifiedName == name;
        assert v in nodes + {u};
      }
    }
  }

  lemma RootsMore(cg: CodeGraph, g: Graph, dist: map<Node, nat>, nodes: set<Node>, path: string, u: Node, root: Node,
                  before: set<Node>)
    requires nodes <= dist.Keys && u in dist && At(cg, u, path) && u in Layer(g, {root}, dist[u])
    requires RootsOf(cg, g, dist, nodes, path, before)
    ensures RootsOf(cg, g, dist, nodes + {u}, path, before + {root})
  {
    hide Layer, At, Rooted;
    forall r | r in before + {root} ensures NearestFor(cg, g, dist, nodes + {u}, path, r) {
      assert r in before ==> NearestFor(cg, g, dist, nodes, path, r);
    }
    assert Rooted(g, before + {root}, u, dist[u]) by { RootedMore(g, {root}, before + {root}, u, dist[u]); }
    forall v | v in nodes && At(cg, v, path) ensures Rooted(g, before + {root}, v, dist[v]) {
      RootedMore(g, before, before + {root}, v, dist[v]);
    }
  }

  lemma RootedMore(g: Graph, roots: set<Node>, roots': set<Node>, v: Node, d: nat)
    requires roots <= roots'
    ensures Rooted(g, roots, v, d) ==> Rooted(g, roots', v, d)
    ensures forall r :: r in roots && v in Layer(g, {r}, d) ==> Rooted(g, roots, v, d)
  {
    hide Layer;
  }

  lemma Expand(cg: CodeGraph, g: Graph, seeds: set<Node>, dist: map<Node, nat>, expanded: set<Node>,
               impacted: map<string, Impact>, u: Visit)
    requires expanded <= cg.symbols.Keys && expanded <= dist.Keys
    requires Summarises(cg, g, seeds, dist, expanded, impacted)
    requires u.node in cg.symbols && u.node in dist && dist[u.node] == u.distance
    requires u.node in Layer(g, {u.root}, u.distance) && u.root in seeds
    ensures Summarises(cg, g, seeds, dist, expanded + {u.node}, Absorb(cg, impacted, u))
  {
    hide DescribesPath, Layer;
    var path := cg.symbols[u.node].path;
    var impacted' := Absorb(cg, impacted, u);
    assert At(cg, u.node, path);
    forall p | p in impacted' ensures DescribesPath(cg, g, seeds, dist, expanded + {u.node}, p, impacted'[p]) {
      if p == path {
        ExpandRow(cg, g, seeds, dist, expanded, impacted, u);
      } else {
        assert DescribesPath(cg, g, seeds, dist, expanded, p, impacted[p]);
        OtherRow(cg, g, seeds, dist, expanded, u.node, p, impacted[p]);
      }
    }
  }

  lemma OtherRow(cg: CodeGraph, g: Graph, seeds: set<Node>, dist: map<Node, nat>, expanded: set<Node>, u: Node,
                 p: string, row: Impact)
    requires expanded <= cg.symbols.Keys && expanded <= dist.Keys
    requires u in cg.symbols && u in dist && !At(cg, u, p)
    requires DescribesPath(cg, g, seeds, dist, expanded, p, row)
    ensures DescribesPath(cg, g, seeds, dist, expanded + {u}, p, row)
  {
    RootsKept(cg, g, dist, dist, expanded, expanded + {u}, p, row.roots);
    hide RootsOf, At;
  }

  /** The roots depend on the nodes at the path and their distances alone. */
  lemma RootsKept(cg: CodeGraph, g: Graph, dist: map<Node, nat>, dist': map<Node, nat>, nodes: set<Node>,
                  nodes': set<Node>,
                  path: string, roots: set<Node>)
    requires nodes <= dist.Keys && nodes' <= dist'.Keys
    requires forall v :: At(cg, v, path) ==> (v in nodes <==> v in nodes') && (v in nodes ==> dist'[v] == dist[v])
    requires RootsOf(cg, g, dist, nodes, path, roots)
    ensures RootsOf(cg, g, dist', nodes', path, roots)
  {
    hide Layer, At, Rooted;
    forall r | r in roots ensures NearestFor(cg, g, dist', nodes', path, r) {
      assert NearestFor(cg, g, dist, nodes, path, r);
    }
  }

  lemma ExpandRow(cg: CodeGraph, g: Graph, seeds: set<Node>, dist: map<Node, nat>, expanded: set<Node>,
                  impacted: map<string, Impact>, u: Visit)
    requires expanded <= cg.symbols.Keys && expanded <= dist.Keys
    requires Summarises(cg, g, seeds, dist, expanded, impacted)
    requires u.node in cg.symbols && u.node in dist && dist[u.node] == u.distance
    requires u.node in Layer(g, {u.root}, u.distance) && u.root in seeds
    ensures var path := cg.symbols[u.node].path;
            DescribesPath(cg, g, seeds, dist, expanded + {u.node}, path, Absorb(cg, impacted, u)[path])
  {
    hide NearestOf, SymbolsOf, RootsOf, Layer;
    var path, known := cg.symbols[u.node].path, u.node;
    assert At(cg, known, path);
    if path in impacted {
      var row := impacted[path];
      assert DescribesPath(cg, g, seeds, dist, expanded, path, row);
      NearestMore(cg, dist, expanded, path, known, row.minimumDepth, false);
      SymbolsMore(cg, expanded, path, known, row.symbols);
      RootsMore(cg, g, dist, expanded, path, known, u.root, row.roots);
    } else {
      NothingAt(cg, g, dist, expanded, path);
      NearestMore(cg, dist, expanded, path, known, u.distance, true);
      SymbolsMore(cg, expanded, path, known, {});
      RootsMore(cg, g, dist, expanded, path, known, u.root, {});
    }
  }

  lemma NothingAt(cg: CodeGraph, g: Graph, dist: map<Node, nat>, nodes: set<Node>, path: string)
    requires nodes <= cg.symbols.Keys && nodes <= dist.Keys && forall v :: v in nodes ==> cg.symbols[v].path != path
    ensures (forall v :: v in nodes ==> !At(cg, v, path)) && SymbolsOf(cg, nodes, path, {})
    ensures RootsOf(cg, g, dist, nodes, path, {})
  {
  }

  /** `setdefault`, then minimum, symbol and root of the node just taken from the queue. */
  function Absorb(cg: CodeGraph, impacted: map<string, Impact>, u: Visit): map<string, Impact>
    requires u.node in cg.symbols
  {
    var item := cg.symbols[u.node];
    var current := if item.path in impacted then impacted[item.path] else Impact(u.distance, {}, {});
    impacted[item.path := Impact(if u.distance < current.minimumDepth then u.distance else current.minimumDepth,
                                 current.symbols + {item.qualifiedName}, current.roots + {u.root})]
  }

  /** The promised content: a row for exactly the paths holding a node within the depth, with exact distances. */
  ghost predicate IsBlastRadius(cg: CodeGraph, g: Graph, seeds: set<Node>, limit: nat, impacted: map<string, Impact>) {
    && Layer(g, seeds, limit) <= cg.symbols.Keys
    && (forall path :: path in impacted <==> exists v :: v in Layer(g, seeds, limit) && At(cg, v, path))
    && (forall path :: path in impacted ==> IsImpactRow(cg, g, seeds, limit, path, impacted[path]))
  }

  ghost predicate IsImpactRow(cg: CodeGraph, g: Graph, seeds: set<Node>, limit: nat, path: string, row: Impact) {
    && (exists v :: At(cg, v, path) && IsDistance(g, seeds, v, row.minimumDepth))
    && (forall v, k: nat :: k <= limit && v in Layer(g, seeds, k) && At(cg, v, path) ==> row.minimumDepth <= k)
    && (forall name :: name in row.symbols <==>
          exists v :: v in Layer(g, seeds, limit) && At(cg, v, path) && cg.symbols[v].qualifiedName == name)
    && row.roots != {} && row.roots <= seeds
    && (forall r {:trigger NearestRoot(cg, g, seeds, path, r)} :: r in row.roots ==> NearestRoot(cg, g, seeds, path, r))
    && (forall v, d: nat :: d <= limit && At(cg, v, path) && IsDistance(g, seeds, v, d) ==> Rooted(g, row.roots, v, d))
  }

  /** The root is at the distance of some node at the path. */
  ghost predicate NearestRoot(cg: CodeGraph, g: Graph, seeds: set<Node>, path: string, r: Node) {
    exists v, d: nat :: At(cg, v, path) && IsDistance(g, seeds, v, d) && v in Layer(g, {r}, d)
  }

  /** Once the queue is empty, the summary is the blast radius. */
  lemma SummaryIsExact(cg: CodeGraph, g: Graph, seeds: set<Node>, limit: nat, dist: map<Node, nat>, lo: nat,
                       impacted: map<string, Impact>)
    requires Searching(g, seeds, limit, [], dist, lo, {}) && dist.Keys <= cg.symbols.Keys
    requires Summarises(cg, g, seeds, dist, dist.Keys, impacted)
    ensures IsBlastRadius(cg, g, seeds, limit, impacted)
  {
    hide Searching, IsImpactRow, DescribesPath, IsDistance, Layer;
    Finished(g, seeds, limit, dist, lo);
    forall path | path in impacted ensures IsImpactRow(cg, g, seeds, limit, path, impacted[path]) {
      RowIsExact(cg, g, seeds, limit, dist, path, impacted[path]);
    }
    forall path | path in impacted ensures exists v :: v in Layer(g, seeds, limit) && At(cg, v, path) {
      RowNotEmpty(cg, g, seeds, dist, path, impacted[path]);
    }
  }

  lemma RowNotEmpty(cg: CodeGraph, g: Graph, seeds: set<Node>, dist: map<Node, nat>, path: string, row: Impact)
    requires dist.Keys <= cg.symbols.Keys && DescribesPath(cg, g, seeds, dist, dist.Keys, path, row)
    ensures exists v :: v in dist.Keys && At(cg, v, path)
  {
  }

  lemma RowIsExact(cg: CodeGraph, g: Graph, seeds: set<Node>, limit: nat, dist: map<Node, nat>, path: string,
                   row: Impact)
    requires dist.Keys == Layer(g, seeds, limit) && dist.Keys <= cg.symbols.Keys
    requires forall v :: v in dist ==> IsDistance(g, seeds, v, dist[v])
    requires DescribesPath(cg, g, seeds, dist, dist.Keys, path, row)
    ensures IsImpactRow(cg, g, seeds, limit, path, row)
  {
    forall v, k: nat | k <= limit && v in Layer(g, seeds, k) && At(cg, v, path) ensures row.minimumDepth <= k {
      LayerGrows(g, seeds, k, limit);
      assert IsDistance(g, seeds, v, dist[v]);
    }
    forall r | r in row.roots ensures NearestRoot(cg, g, seeds, path, r) {
      assert NearestFor(cg, g, dist, dist.Keys, path, r);
      var v :| v in dist && At(cg, v, path) && v in Layer(g, {r}, dist[v]);
      assert IsDistance(g, seeds, v, dist[v]);
    }
    forall v, d: nat | d <= limit && At(cg, v, path) && IsDistance(g, seeds, v, d) ensures Rooted(g, row.roots, v, d) {
      LayerGrows(g, seeds, d, limit);
      assert dist[v] == d;
    }
  }

  /** `for parent in sorted(...)`: queue the unseen neighbours of the node being expanded. */
  method ScanParents(g: Graph, queue: seq<Visit>, seen: set<Node>, u: Visit,
                     ghost seeds: set<Node>, ghost limit: nat, ghost dist: map<Node, nat>)
    returns (queue': seq<Visit>, seen': set<Node>, ghost dist': map<Node, nat>)
    requires Searching(g, seeds, limit, queue, dist, u.distance, {u.node}) && seen == dist.Keys
    requires EntriesOk(g, seeds, [u], dist) && u.distance < limit
    ensures Searching(g, seeds, limit, queue', dist', u.distance, {}) && seen' == dist'.Keys
    ensures seen <= seen' <= seen + Succ(g, u.node)
    ensures forall v :: v in dist ==> dist'[v] == dist[v]
    ensures forall v :: v in dist' ==> v in dist || Queued(queue', v)
    ensures |queue'| >= |queue| && queue'[..|queue|] == queue && (seen' == seen ==> queue' == queue)
  {
    hide Searching, Layer, LinearOrder, TotalOrder, EntriesOk, Queued;
    EntryFacts(g, seeds, [u], dist, 0);
    NodeLeIsLinear();
    LinearIsTotal(NodeLe);
    var parents := SortedElements(NodeLe, Succ(g, u.node));
    queue', seen', dist' := queue, seen, dist;
    for i := 0 to |parents|
      invariant Searching(g, seeds, limit, queue', dist', u.distance, {u.node}) && seen' == dist'.Keys
      invariant EntriesOk(g, seeds, [u], dist')
      invariant seen <= seen' <= seen + Succ(g, u.node)
      invariant forall j :: 0 <= j < i ==> parents[j] in seen'
      invariant forall v :: v in dist ==> dist'[v] == dist[v]
      invariant forall v :: v in dist' ==> v in dist || Queued(queue', v)
      invariant |queue'| >= |queue| && queue'[..|queue|] == queue && (seen' == seen ==> queue' == queue)
    {
      var parent := parents[i];
      assert parent in Elements(parents);
      if parent !in seen' {
        ghost var before := queue';
        Enqueue(g, seeds, limit, queue', dist', u, parent);
        EntryKept(g, seeds, u, dist', parent, u.distance + 1);
        seen' := seen' + {parent};
        queue' := queue' + [Visit(parent, u.distance + 1, u.root)];
        dist' := dist'[parent := u.distance + 1];
        QueuedMore(before, Visit(parent, u.distance + 1, u.root));
        assert parent !in seen;
      }
    }
    assert forall v :: v in Elements(parents) ==> v in seen';
    assert [u][0] == u;
    Close(g, seeds, limit, queue', dist', u.distance, u.node);
  }

  lemma EntryKept(g: Graph, seeds: set<Node>, u: Visit, dist: map<Node, nat>, w: Node, d: nat)
    requires EntriesOk(g, seeds, [u], dist) && w !in dist
    ensures EntriesOk(g, seeds, [u], dist[w := d])
  {
    assert [u][0] == u;
  }

  lemma QueuedMore(queue: seq<Visit>, u: Visit)
    ensures Queued(queue + [u], u.node)
    ensures forall v :: Queued(queue, v) ==> Queued(queue + [u], v)
  {
    var queue' := queue + [u];
    assert queue'[|queue|].node == u.node;
    forall v | Queued(queue, v) ensures Queued(queue', v) {
      var i :| 0 <= i < |queue| && queue[i].node == v;
      assert queue'[i].node == v;
    }
  }

  lemma QueuedPrefix(queue: seq<Visit>, queue': seq<Visit>, v: Node)
    requires |queue'| >= |queue| && queue'[..|queue|] == queue && Queued(queue, v)
    ensures Queued(queue', v)
  {
    var i :| 0 <= i < |queue| && queue[i].node == v;
    assert queue'[i] == queue[i];
  }

  function Roots(targets: seq<Node>): seq<Node> {
    if |targets| > TARGET_LIMIT then targets[..TARGET_LIMIT] else targets
  }

  /** The invariant of the outer loop: the search is sound, and the summary covers what has left the queue. */
  ghost predicate Exploring(cg: CodeGraph, g: Graph, seeds: set<Node>, limit: nat, frontier: seq<Visit>,
                            dist: map<Node, nat>,
                            lo: nat, open: set<Node>, expanded: set<Node>, impacted: map<string, Impact>)
  {
    && Searching(g, seeds, limit, frontier, dist, lo, open)
    && expanded <= cg.symbols.Keys && expanded <= dist.Keys
    && Summarises(cg, g, seeds, dist, expanded, impacted)
    && (forall v :: v in dist ==> v in expanded || Queued(frontier, v))
  }

  lemma TakeFront(cg: CodeGraph, g: Graph, seeds: set<Node>, limit: nat, frontier: seq<Visit>, dist: map<Node, nat>,
                  lo: nat, expanded: set<Node>, impacted: map<string, Impact>)
    requires Exploring(cg, g, seeds, limit, frontier, dist, lo, {}, expanded, impacted) && frontier != []
    ensures var u := frontier[0];
            && u.node in Layer(g, seeds, limit) && u.distance <= limit && EntriesOk(g, seeds, [u], dist)
            && (u.node in cg.symbols ==>
                  Exploring(cg, g, seeds, limit, frontier[1..], dist, u.distance, {u.node}, expanded + {u.node},
                            Absorb(cg, impacted, u)))
  {
    hide Summarises, Searching, EntriesOk, Layer;
    var u := frontier[0];
    FrontOk(g, seeds, limit, frontier, dist, lo);
    Dequeue(g, seeds, limit, frontier, dist, lo);
    if u.node in cg.symbols { Expand(cg, g, seeds, dist, expanded, impacted, u); }
    forall v | v in dist && v !in expanded + {u.node} ensures Queued(frontier[1..], v) { QueuedTail(frontier, v); }
  }

  lemma FrontOk(g: Graph, seeds: set<Node>, limit: nat, frontier: seq<Visit>, dist: map<Node, nat>, lo: nat)
    requires Searching(g, seeds, limit, frontier, dist, lo, {}) && frontier != []
    ensures var u := frontier[0];
            && EntriesOk(g, seeds, [u], dist) && u.distance <= limit && u.node in Layer(g, seeds, limit)
            && u.node in dist && dist[u.node] == u.distance && u.node in Layer(g, {u.root}, u.distance)
               && u.root in seeds
  {
    LayerGrows(g, seeds, frontier[0].distance, limit);
  }

  lemma ScanKeeps(cg: CodeGraph, g: Graph, seeds: set<Node>, limit: nat, frontier: seq<Visit>, frontier': seq<Visit>,
                  dist: map<Node, nat>, dist': map<Node, nat>, lo: nat, u: Node, expanded: set<Node>,
                      impacted: map<string, Impact>)
    requires Exploring(cg, g, seeds, limit, frontier, dist, lo, {u}, expanded, impacted)
    requires Searching(g, seeds, limit, frontier', dist', lo, {}) && |frontier'| >= |frontier|
    requires frontier'[..|frontier|] == frontier
    requires forall v :: v in dist ==> v in dist' && dist'[v] == dist[v]
    requires forall v :: v in dist' ==> v in dist || Queued(frontier', v)
    ensures Exploring(cg, g, seeds, limit, frontier', dist', lo, {}, expanded, impacted)
  {
    hide Searching, Summarises;
    SummaryKept(cg, g, seeds, dist, dist', expanded, impacted);
    forall v | v in dist' && v !in expanded ensures Queued(frontier', v) {
      if v in dist { QueuedPrefix(frontier, frontier', v); }
    }
  }

  lemma CloseAtLimit(cg: CodeGraph, g: Graph, seeds: set<Node>, limit: nat, frontier: seq<Visit>, dist: map<Node, nat>,
                     u: Visit, expanded: set<Node>, impacted: map<string, Impact>)
    requires Exploring(cg, g, seeds, limit, frontier, dist, u.distance, {u.node}, expanded, impacted)
    requires EntriesOk(g, seeds, [u], dist) && u.distance == limit
    ensures Exploring(cg, g, seeds, limit, frontier, dist, u.distance, {}, expanded, impacted)
  {
    hide Summarises;
    assert [u][0] == u;
    Close(g, seeds, limit, frontier, dist, u.distance, u.node);
  }

  lemma SearchDone(cg: CodeGraph, g: Graph, seeds: set<Node>, limit: nat, dist: map<Node, nat>,
                   lo: nat, expanded: set<Node>, impacted: map<string, Impact>)
    requires Exploring(cg, g, seeds, limit, [], dist, lo, {}, expanded, impacted)
    ensures IsBlastRadius(cg, g, seeds, limit, impacted)
  {
    hide Summarises, Searching;
    forall v ensures !Queued([], v) {}
    assert expanded == dist.Keys;
    SummaryIsExact(cg, g, seeds, limit, dist, lo, impacted);
  }

  /** The rows by path; a `KeyError` when a node within the depth is not a symbol. */
  method Impacted(cg: CodeGraph, targets: seq<Node>, depth: int) returns (r: Result<map<string, Impact>>)
    ensures var g := ReverseOf(cg, IMPACT_KINDS);
            var seeds := Elements(Roots(targets));
            if r.Success? then IsBlastRadius(cg, g, seeds, Limit(depth), r.value)
            else r.node in Layer(g, seeds, Limit(depth)) && r.node !in cg.symbols
  {
    hide Searching, Layer, Summarises, EntriesOk, IsBlastRadius, ReverseOf, Universe, Absorb, Roots;
    var reverse := Reverse(cg, IMPACT_KINDS);
    var roots := Roots(targets);
    ghost var seeds, limit := Elements(roots), Limit(depth);
    var impacted := map[];
    var frontier := seq(|roots|, i requires 0 <= i < |roots| => Visit(roots[i], 0, roots[i]));
    var seen := set v | v in roots;
    ghost var dist: map<Node, nat> := map v | v in seeds :: 0;
    ghost var expanded: set<Node>, lo: nat := {}, 0;
    StartSeeds(reverse, roots, limit, frontier);
    NothingSummarised(cg, reverse, seeds, dist);
    while frontier != []
      invariant Exploring(cg, reverse, seeds, limit, frontier, dist, lo, {}, expanded, impacted)
      invariant seen == dist.Keys && seen <= Universe(reverse) + seeds
      decreases Universe(reverse) + seeds - seen, |frontier|
    {
      hide Exploring, Universe;
      var u := frontier[0];
      TakeFront(cg, reverse, seeds, limit, frontier, dist, lo, expanded, impacted);
      if u.node !in cg.symbols {
        return KeyError(u.node);
      }
      frontier, lo := frontier[1..], u.distance;
      impacted, expanded := Absorb(cg, impacted, u), expanded + {u.node};
      if u.distance >= depth {
        CloseAtLimit(cg, reverse, seeds, limit, frontier, dist, u, expanded, impacted);
      } else {
        ghost var rest, known := frontier, dist;
        SearchPart(cg, reverse, seeds, limit, frontier, dist, lo, {u.node}, expanded, impacted);
        frontier, seen, dist := ScanParents(reverse, frontier, seen, u, seeds, limit, dist);
        SuccInUniverse(reverse, u.node);
        ScanKeeps(cg, reverse, seeds, limit, rest, frontier, known, dist, lo, u.node, expanded, impacted);
      }
    }
    SearchDone(cg, reverse, seeds, limit, dist, lo, expanded, impacted);
    r := Success(impacted);
  }

  lemma SearchPart(cg: CodeGraph, g: Graph, seeds: set<Node>, limit: nat, frontier: seq<Visit>, dist: map<Node, nat>,
                   lo: nat, open: set<Node>, expanded: set<Node>, impacted: map<string, Impact>)
    requires Exploring(cg, g, seeds, limit, frontier, dist, lo, open, expanded, impacted)
    ensures Searching(g, seeds, limit, frontier, dist, lo, open)
  {
  }

  lemma StartSeeds(g: Graph, roots: seq<Node>, limit: nat, frontier: seq<Visit>)
    requires |frontier| == |roots| && forall i :: 0 <= i < |roots| ==> frontier[i] == Visit(roots[i], 0, roots[i])
    ensures Searching(g, Elements(roots), limit, frontier, map v | v in Elements(roots) :: 0, 0, {})
    ensures forall v :: v in Elements(roots) ==> Queued(frontier, v)
  {
    forall v | v in Elements(roots) ensures Queued(frontier, v) {
      var i := IndexOf(roots, v);
      assert frontier[i].node == v;
    }
    Start(g, Elements(roots), limit, frontier);
  }

  lemma NothingSummarised(cg: CodeGraph, g: Graph, seeds: set<Node>, dist: map<Node, nat>)
    ensures Summarises(cg, g, seeds, dist, {}, map[])
  {
  }

  lemma SummaryKept(cg: CodeGraph, g: Graph, seeds: set<Node>, dist: map<Node, nat>, dist': map<Node, nat>,
                    expanded: set<Node>, impacted: map<string, Impact>)
    requires expanded <= cg.symbols.Keys && expanded <= dist.Keys
    requires Summarises(cg, g, seeds, dist, expanded, impacted)
    requires forall v :: v in dist ==> v in dist' && dist'[v] == dist[v]
    ensures Summarises(cg, g, seeds, dist', expanded, impacted)
  {
    forall path | path in impacted ensures DescribesPath(cg, g, seeds, dist', expanded, path, impacted[path]) {
      assert DescribesPath(cg, g, seeds, dist, expanded, path, impacted[path]);
      RootsKept(cg, g, dist, dist', expanded, expanded, path, impacted[path].roots);
      hide RootsOf, At;
    }
  }

  lemma QueuedTail(queue: seq<Visit>, v: Node)
    requires queue != []
    ensures Queued(queue, v) ==> v == queue[0].node || Queued(queue[1..], v)
  {
    if Queued(queue, v) && v != queue[0].node {
      var i :| 0 <= i < |queue| && queue[i].node == v;
      assert queue[1..][i - 1].node == v;
    }
  }

  datatype ImpactRow = ImpactRow(path: string, minimumDepth: nat, symbols: seq<string>, roots: seq<Node>)

  /** The sort key (minimum_depth, path). */
  predicate ImpactLe(a: ImpactRow, b: ImpactRow) {
    a.minimumDepth < b.minimumDepth || (a.minimumDepth == b.minimumDepth && StringLe(a.path, b.path))
  }

  ghost predicate Renders(impacted: map<string, Impact>, row: ImpactRow) {
    && row.path in impacted
    && row.minimumDepth == impacted[row.path].minimumDepth
    && SortedBy(StringLe, row.symbols) && NoDuplicates(row.symbols)
       && Elements(row.symbols) == impacted[row.path].symbols
    && SortedBy(NodeLe, row.roots) && NoDuplicates(row.roots) && Elements(row.roots) == impacted[row.path].roots
  }

  /** One row per impacted path, nearest paths first. */
  ghost predicate IsRendering(impacted: map<string, Impact>, rows: seq<ImpactRow>) {
    && (forall i :: 0 <= i < |rows| ==> Renders(impacted, rows[i]))
    && (forall path :: path in impacted ==> exists i :: 0 <= i < |rows| && rows[i].path == path)
    && (forall i, j :: 0 <= i < j < |rows| ==> rows[i].path != rows[j].path)
    && SortedBy(ImpactLe, rows)
  }

  lemma ImpactLeIsTotal()
    ensures TotalOrder(ImpactLe)
  {
    StringLeIsLinear();
    forall a: ImpactRow, b: ImpactRow ensures ImpactLe(a, b) || ImpactLe(b, a) {
      assert StringLe(a.path, b.path) || StringLe(b.path, a.path);
    }
    forall a: ImpactRow, b: ImpactRow, c: ImpactRow | ImpactLe(a, b) && ImpactLe(b, c) ensures ImpactLe(a, c) {
      assert StringLe(a.path, b.path) && StringLe(b.path, c.path) ==> StringLe(a.path, c.path);
    }
  }

  method Render(impacted: map<string, Impact>) returns (rows: seq<ImpactRow>)
    ensures IsRendering(impacted, rows)
  {
    hide LinearOrder, TotalOrder, SortedBy, StringLe, NodeLe;
    StringLeIsLinear();
    LinearIsTotal(StringLe);
    NodeLeIsLinear();
    LinearIsTotal(NodeLe);
    var paths := SortedElements(StringLe, impacted.Keys);
    rows := [];
    for i := 0 to |paths|
      invariant |rows| == i
      invariant forall j :: 0 <= j < i ==> rows[j].path == paths[j] && Renders(impacted, rows[j])
    {
      assert paths[i] in Elements(paths);
      var symbols := SortedElements(StringLe, impacted[paths[i]].symbols);
      var roots := SortedElements(NodeLe, impacted[paths[i]].roots);
      rows := rows + [ImpactRow(paths[i], impacted[paths[i]].minimumDepth, symbols, roots)];
    }
    RowsSorted(impacted, paths, rows);
    rows := Sort(ImpactLe, rows);
  }

  lemma RowsSorted(impacted: map<string, Impact>, paths: seq<string>, rows: seq<ImpactRow>)
    requires NoDuplicates(paths) && Elements(paths) == impacted.Keys && |rows| == |paths|
    requires forall j :: 0 <= j < |rows| ==> rows[j].path == paths[j] && Renders(impacted, rows[j])
    ensures IsRendering(impacted, Sort(ImpactLe, rows))
  {
    hide Renders, ImpactLe, Sort, TotalOrder;
    var sorted := Sort(ImpactLe, rows);
    ImpactLeIsTotal();
    SortIsSorted(ImpactLe, rows);
    forall row ensures row in sorted <==> row in rows { SortMember(ImpactLe, rows, row); }
    forall i, j | 0 <= i < j < |rows| ensures rows[i] != rows[j] { assert paths[i] != paths[j]; }
    SortKeepsNoDuplicates(ImpactLe, rows);
    hide SortedBy;
    SameRowsRender(impacted, paths, rows, sorted);
  }

  /** Rows in another order still render every path once. */
  lemma SameRowsRender(impacted: map<string, Impact>, paths: seq<string>, rows: seq<ImpactRow>, sorted: seq<ImpactRow>)
    requires NoDuplicates(paths) && Elements(paths) == impacted.Keys && |rows| == |paths| && NoDuplicates(sorted)
    requires forall j :: 0 <= j < |rows| ==> rows[j].path == paths[j] && Renders(impacted, rows[j])
    requires forall row :: row in sorted <==> row in rows
    ensures (forall i :: 0 <= i < |sorted| ==> Renders(impacted, sorted[i]))
    ensures (forall path :: path in impacted ==> exists i :: 0 <= i < |sorted| && sorted[i].path == path)
    ensures (forall i, j :: 0 <= i < j < |sorted| ==> sorted[i].path != sorted[j].path)
  {
    hide Renders;
    forall i | 0 <= i < |sorted| ensures Renders(impacted, sorted[i]) {
      var a := IndexOf(rows, sorted[i]);
    }
    forall i, j | 0 <= i < j < |sorted| ensures sorted[i].path != sorted[j].path {
      var a := IndexOf(rows, sorted[i]);
      var b := IndexOf(rows, sorted[j]);
      assert a < b || b < a;
      assert paths[a] != paths[b];
    }
    forall path | path in impacted ensures exists i :: 0 <= i < |sorted| && sorted[i].path == path {
      assert path in Elements(paths);
      var a := IndexOf(paths, path);
      var i := IndexOf(sorted, rows[a]);
    }
  }

  /** `blast_radius`: the impacted paths as sorted rows. */
  method BlastRadius(cg: CodeGraph, targets: seq<Node>, depth: int) returns (r: Result<seq<ImpactRow>>)
    ensures var g := ReverseOf(cg, IMPACT_KINDS);
            var seeds := Elements(Roots(targets));
            && (r.Success? <==> Layer(g, seeds, Limit(depth)) <= cg.symbols.Keys)
            && (r.Success? ==>
                exists impacted :: IsBlastRadius(cg, g, seeds, Limit(depth), impacted)
                    && IsRendering(impacted, r.value))
  {
    var impacted := Impacted(cg, targets, depth);
    if impacted.KeyError? {
      return KeyError(impacted.node);
    }
    var rows := Render(impacted.value);
    r := Success(rows);
  }
}
