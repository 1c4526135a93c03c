/** `call_hierarchy`'s inner search `expand`: callers or callees of one symbol, level by level. */
module CallHierarchy {
  import opened Ordering
  import opened Reachability
  import opened CodeGraph
  import opened Layers
  import opened BlastRadius

  datatype CallRow = CallRow(depth: nat, id: Node, name: string, path: string)

  ghost predicate Row(cg: CodeGraph, dist: map<Node, nat>, seed: Node, row: CallRow) {
    && row.id in dist && row.id != seed && row.depth == dist[row.id]
    && row.id in cg.symbols && row.name == cg.symbols[row.id].qualifiedName && row.path == cg.symbols[row.id].path
  }

  ghost predicate HasRow(rows: seq<CallRow>, v: Node) {
    exists i :: 0 <= i < |rows| && rows[i].id == v
  }

  /** One row for every recorded node but the seed, nearest first. */
  ghost predicate RowsMatch(cg: CodeGraph, dist: map<Node, nat>, seed: Node, rows: seq<CallRow>) {
    && (forall i :: 0 <= i < |rows| ==> Row(cg, dist, seed, rows[i]))
    && (forall v :: v in dist && v != seed ==> HasRow(rows, v))
    && (forall i, j :: 0 <= i < j < |rows| ==> rows[i].id != rows[j].id && rows[i].depth <= rows[j].depth)
  }

  /** The promised list: exactly the other nodes within the depth, each once, at its exact distance, nearest first. */
  ghost predicate IsHierarchy(cg: CodeGraph, g: Graph, seed: Node, limit: nat, rows: seq<CallRow>) {
    && (forall v :: HasRow(rows, v) <==> v in Layer(g, {seed}, limit) && v != seed)
    && (forall i :: 0 <= i < |rows| ==>
          && IsDistance(g, {seed}, rows[i].id, rows[i].depth)
          && rows[i].id in cg.symbols
          && rows[i].name == cg.symbols[rows[i].id].qualifiedName && rows[i].path == cg.symbols[rows[i].id].path)
    && (forall i, j :: 0 <= i < j < |rows| ==> rows[i].id != rows[j].id && rows[i].depth <= rows[j].depth)
  }

  lemma AddRow(cg: CodeGraph, dist: map<Node, nat>, seed: Node, rows: seq<CallRow>, lo: nat, w: Node)
    requires RowsMatch(cg, dist, seed, rows) && seed in dist && w !in dist && w in cg.symbols
    requires forall v :: v in dist ==> dist[v] <= lo + 1
    ensures RowsMatch(cg, dist[w := lo + 1], seed,
                      rows + [CallRow(lo + 1, w, cg.symbols[w].qualifiedName, cg.symbols[w].path)])
  {
    var rows' := rows + [CallRow(lo + 1, w, cg.symbols[w].qualifiedName, cg.symbols[w].path)];
    var dist' := dist[w := lo + 1];
    assert rows'[|rows|].id == w;
    forall v | v in dist' && v != seed ensures HasRow(rows', v) {
      if v != w {
        assert HasRow(rows, v);
        var i :| 0 <= i < |rows| && rows[i].id == v;
        assert rows'[i].id == v;
      }
    }
    forall i | 0 <= i < |rows'| ensures Row(cg, dist', seed, rows'[i]) {
      if i < |rows| { assert Row(cg, dist, seed, rows[i]); }
    }
    forall i, j | 0 <= i < j < |rows'| ensures rows'[i].id != rows'[j].id && rows'[i].depth <= rows'[j].depth {
      assert Row(cg, dist, seed, rows[i]);
    }
  }

  method ScanCalls(cg: CodeGraph, g: Graph, queue: seq<Visit>, seen: set<Node>, result: seq<CallRow>, u: Visit,
                   ghost seed: Node, ghost limit: nat, ghost dist: map<Node, nat>)
    returns (queue': seq<Visit>, seen': set<Node>, r: Result<seq<CallRow>>, ghost dist': map<Node, nat>)
    requires Searching(g, {seed}, limit, queue, dist, u.distance, {u.node}) && seen == dist.Keys
    requires EntriesOk(g, {seed}, [u], dist) && u.distance < limit && RowsMatch(cg, dist, seed, result)
    ensures r.KeyError? ==> r.node in Layer(g, {seed}, limit) && r.node != seed && r.node !in cg.symbols
    ensures r.Success? ==>
              && Searching(g, {seed}, limit, queue', dist', u.distance, {}) && seen' == dist'.Keys
              && RowsMatch(cg, dist', seed, r.value)
              && seen <= seen' <= seen + Succ(g, u.node)
              && (seen' == seen ==> queue' == queue)
  {
    hide Searching, Layer, LinearOrder, TotalOrder, RowsMatch, EntriesOk;
    EntryFacts(g, {seed}, [u], dist, 0);
    NodeLeIsLinear();
    LinearIsTotal(NodeLe);
    var neighbours := SortedElements(NodeLe, Succ(g, u.node));
    var rows := result;
    queue', seen', dist' := queue, seen, dist;
    for i := 0 to |neighbours|
      invariant Searching(g, {seed}, limit, queue', dist', u.distance, {u.node}) && seen' == dist'.Keys
      invariant EntriesOk(g, {seed}, [u], dist') && RowsMatch(cg, dist', seed, rows)
      invariant seen <= seen' <= seen + Succ(g, u.node)
      invariant forall j :: 0 <= j < i ==> neighbours[j] in seen'
      invariant seen' == seen ==> queue' == queue
    {
      var nxt := neighbours[i];
      assert nxt in Elements(neighbours);
      if nxt !in seen' {
        Bounds(g, seed, limit, queue', dist', u, nxt);
        Enqueue(g, {seed}, limit, queue', dist', u, nxt);
        EntryKept(g, {seed}, u, dist', nxt, u.distance + 1);
        seen' := seen' + {nxt};
        if nxt !in cg.symbols {
          r := KeyError(nxt);
          return;
        }
        AddRow(cg, dist', seed, rows, u.distance, nxt);
        rows := rows + [CallRow(u.distance + 1, nxt, cg.symbols[nxt].qualifiedName, cg.symbols[nxt].path)];
        queue' := queue' + [Visit(nxt, u.distance + 1, u.root)];
        dist' := dist'[nxt := u.distance + 1];
        assert nxt !in seen;
      }
    }
    assert forall v :: v in Elements(neighbours) ==> v in seen';
    EntryFacts(g, {seed}, [u], dist', 0);
    Close(g, {seed}, limit, queue', dist', u.distance, u.node);
    r := Success(rows);
  }

  lemma Bounds(g: Graph, seed: Node, limit: nat, queue: seq<Visit>, dist: map<Node, nat>, u: Visit, w: Node)
    requires Searching(g, {seed}, limit, queue, dist, u.distance, {u.node})
    requires EntriesOk(g, {seed}, [u], dist) && u.distance < limit && w in Succ(g, u.node)
    ensures seed in dist && (forall v :: v in dist ==> dist[v] <= u.distance + 1)
    ensures w in Layer(g, {seed}, limit)
  {
    hide Searching, Layer, EntriesOk;
    SearchFacts(g, seed, limit, queue, dist, u.distance, {u.node});
    EntryFacts(g, {seed}, [u], dist, 0);
    LayerStep(g, {seed}, u.distance, u.node, w);
    LayerGrows(g, {seed}, u.distance + 1, limit);
  }

  lemma SearchFacts(g: Graph, seed: Node, limit: nat, queue: seq<Visit>, dist: map<Node, nat>, lo: nat, open: set<Node>)
    requires Searching(g, {seed}, limit, queue, dist, lo, open)
    ensures seed in dist && (forall v :: v in dist ==> dist[v] <= lo + 1)
  {
    hide Layer, EntriesOk, Explored, Queued;
    assert seed in {seed};
  }

  /** `expand(seed, edges)`: a `KeyError` exactly when another node within the depth is not a symbol. */
  method ExpandCalls(cg: CodeGraph, g: Graph, seed: Node, depth: int) returns (r: Result<seq<CallRow>>)
    ensures r.Success? <==> Layer(g, {seed}, Limit(depth)) - {seed} <= cg.symbols.Keys
    ensures r.Success? ==> IsHierarchy(cg, g, seed, Limit(depth), r.value)
  {
    hide Searching, Layer, EntriesOk, RowsMatch, IsHierarchy;
    ghost var limit := Limit(depth);
    var result: seq<CallRow> := [];
    var frontier := [Visit(seed, 0, seed)];
    var seen := {seed};
    ghost var dist: map<Node, nat>, lo: nat := map[seed := 0], 0;
    Begin(cg, g, seed, limit);
    while frontier != []
      invariant Searching(g, {seed}, limit, frontier, dist, lo, {}) && seen == dist.Keys
      invariant RowsMatch(cg, dist, seed, result)
      invariant seen <= Universe(g) + {seed}
      decreases Universe(g) + {seed} - seen, |frontier|
    {
      hide Universe;
      var u := frontier[0];
      FrontOk(g, {seed}, limit, frontier, dist, lo);
      Dequeue(g, {seed}, limit, frontier, dist, lo);
      frontier, lo := frontier[1..], u.distance;
      if u.distance >= depth {
        Close(g, {seed}, limit, frontier, dist, lo, u.node);
      } else {
        SuccInUniverse(g, u.node);
        frontier, seen, r, dist := ScanCalls(cg, g, frontier, seen, result, u, seed, limit, dist);
        if r.KeyError? {
          return;
        }
        result := r.value;
      }
    }
    HierarchyDone(cg, g, seed, limit, dist, lo, result);
    r := Success(result);
  }

  lemma Begin(cg: CodeGraph, g: Graph, seed: Node, limit: nat)
    ensures Searching(g, {seed}, limit, [Visit(seed, 0, seed)], map[seed := 0], 0, {})
    ensures RowsMatch(cg, map[seed := 0], seed, [])
  {
    hide Searching;
    var frontier := [Visit(seed, 0, seed)];
    assert frontier[0].node == seed;
    Start(g, {seed}, limit, frontier);
    var seeds := {seed};
    assert (map v | v in seeds :: 0) == map[seed := 0];
    NoRows(cg, seed);
  }

  lemma NoRows(cg: CodeGraph, seed: Node)
    ensures RowsMatch(cg, map[seed := 0], seed, [])
  {
  }

  lemma HierarchyDone(cg: CodeGraph, g: Graph, seed: Node, limit: nat, dist: map<Node, nat>, lo: nat,
                      rows: seq<CallRow>)
    requires Searching(g, {seed}, limit, [], dist, lo, {}) && RowsMatch(cg, dist, seed, rows)
    ensures IsHierarchy(cg, g, seed, limit, rows)
    ensures Layer(g, {seed}, limit) - {seed} <= cg.symbols.Keys
  {
    Finished(g, {seed}, limit, dist, lo);
    hide Searching, Layer, IsDistance;
    forall v | HasRow(rows, v) ensures v in dist && v != seed {
      var i :| 0 <= i < |rows| && rows[i].id == v;
      assert Row(cg, dist, seed, rows[i]);
    }
    forall v | v in dist && v != seed ensures v in cg.symbols {
      var i :| 0 <= i < |rows| && rows[i].id == v;
      assert Row(cg, dist, seed, rows[i]);
    }
    forall i | 0 <= i < |rows| ensures IsDistance(g, {seed}, rows[i].id, rows[i].depth) {
      assert Row(cg, dist, seed, rows[i]);
    }
  }

  /** Callers of a match follow `call` edges backwards, callees forwards. */
  method Callers(cg: CodeGraph, seed: Node, depth: int) returns (r: Result<seq<CallRow>>)
    ensures r.Success? <==> Layer(ReverseOf(cg, {"call"}), {seed}, Limit(depth)) - {seed} <= cg.symbols.Keys
    ensures r.Success? ==> IsHierarchy(cg, ReverseOf(cg, {"call"}), seed, Limit(depth), r.value)
  {
    var reverse := Reverse(cg, {"call"});
    r := ExpandCalls(cg, reverse, seed, depth);
  }

  method Callees(cg: CodeGraph, seed: Node, depth: int) returns (r: Result<seq<CallRow>>)
    ensures r.Success? <==> Layer(AdjacencyOf(cg, {"call"}), {seed}, Limit(depth)) - {seed} <= cg.symbols.Keys
    ensures r.Success? ==> IsHierarchy(cg, AdjacencyOf(cg, {"call"}), seed, Limit(depth), r.value)
  {
    var adjacency := Adjacency(cg, {"call"});
    r := ExpandCalls(cg, adjacency, seed, depth);
  }
}
