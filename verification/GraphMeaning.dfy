/** What the graph queries answer, told from the edges of the code graph. */
module GraphMeaning {
  import opened Ordering
  import opened Reachability
  import opened CodeGraph
  import opened Layers
  import opened BlastRadius
  import C = CycleDetection
  import P = PageRank

  // ---- Walks ----

  /** A call, import or inheritance edge leads from u to v. */
  ghost predicate Linked(cg: CodeGraph, u: Node, v: Node) {
    exists e :: e in cg.edges && e.kind in {"call", "import", "inherits"} && e.source == u && e.target == v
  }

  ghost predicate Walk(cg: CodeGraph, p: seq<Node>) {
    forall i :: 0 < i < |p| ==> Linked(cg, p[i - 1], p[i])
  }

  ghost predicate Leads(cg: CodeGraph, u: Node, v: Node) {
    exists p :: |p| > 0 && p[0] == u && p[|p| - 1] == v && Walk(cg, p)
  }

  /** The three queries over all dependencies read the same edges, forwards or backwards. */
  lemma LinkedIff(cg: CodeGraph, u: Node, v: Node)
    ensures v in Succ(AdjacencyOf(cg, C.CYCLE_KINDS), u) <==> Linked(cg, u, v)
    ensures u in Succ(ReverseOf(cg, IMPACT_KINDS), v) <==> Linked(cg, u, v)
    ensures v in Succ(AdjacencyOf(cg, P.RANK_KINDS), u) <==> Linked(cg, u, v)
    ensures u in Succ(ReverseOf(cg, P.RANK_KINDS), v) <==> Linked(cg, u, v)
  {
    hide AdjacencyOf, ReverseOf;
    ReverseOfAdjacency(cg, C.CYCLE_KINDS, u, v);
    ReverseOfAdjacency(cg, IMPACT_KINDS, u, v);
    ReverseOfAdjacency(cg, P.RANK_KINDS, u, v);
  }

  // ---- Cycles ----

  lemma ReachIff(cg: CodeGraph, u: Node, v: Node)
    ensures Reach(AdjacencyOf(cg, C.CYCLE_KINDS), u, v) <==> Leads(cg, u, v)
  {
    hide AdjacencyOf, Linked, Succ;
    var g := AdjacencyOf(cg, C.CYCLE_KINDS);
    forall x, y ensures y in Succ(g, x) <==> Linked(cg, x, y) { LinkedIff(cg, x, y); }
    forall p: seq<Node> ensures IsPath(g, p) <==> Walk(cg, p) { SameSteps(cg, p); }
    if Reach(g, u, v) {
      var p :| PathFromTo(g, p, u, v);
      assert Walk(cg, p);
    }
    if Leads(cg, u, v) {
      var p :| |p| > 0 && p[0] == u && p[|p| - 1] == v && Walk(cg, p);
      assert PathFromTo(g, p, u, v);
    }
  }

  lemma SameSteps(cg: CodeGraph, p: seq<Node>)
    ensures IsPath(AdjacencyOf(cg, C.CYCLE_KINDS), p) <==> Walk(cg, p)
  {
    hide AdjacencyOf, Linked, Succ;
    var g := AdjacencyOf(cg, C.CYCLE_KINDS);
    forall x, y ensures y in Succ(g, x) <==> Linked(cg, x, y) { LinkedIff(cg, x, y); }
    if IsPath(g, p) {
      forall i | 0 < i < |p| ensures Linked(cg, p[i - 1], p[i]) { assert p[i - 1 + 1] in Succ(g, p[i - 1]); }
    }
    if Walk(cg, p) {
      forall i | 0 <= i < |p| - 1 ensures p[i + 1] in Succ(g, p[i]) { assert Linked(cg, p[i + 1 - 1], p[i + 1]); }
    }
  }

  ghost predicate InSomeRow(rows: seq<seq<Node>>, v: Node) { exists i :: 0 <= i < |rows| && v in rows[i] }

  /** An edge starts from v that a walk leads back from. */
  ghost predicate LeadsBack(cg: CodeGraph, v: Node) { exists s :: Linked(cg, v, s) && Leads(cg, s, v) }

  lemma OnCycleIff(cg: CodeGraph, v: Node)
    ensures OnCycle(AdjacencyOf(cg, C.CYCLE_KINDS), v) <==> LeadsBack(cg, v)
  {
    hide AdjacencyOf, Reach, Linked, Leads, Succ;
    var g := AdjacencyOf(cg, C.CYCLE_KINDS);
    forall s ensures s in Succ(g, v) && Reach(g, s, v) <==> Linked(cg, v, s) && Leads(cg, s, v) {
      LinkedIff(cg, v, s);
      ReachIff(cg, s, v);
    }
  }

  /** A cycle report lists the symbols that a walk of at least one edge leads back to. Two of them stand in one row
      exactly when walks lead both ways. Rows are sorted, longer ones come first, equally long ones by their first
      member. */
  lemma CyclesMeaning(cg: CodeGraph, rows: seq<seq<Node>>)
    requires C.IsCycleReport(AdjacencyOf(cg, C.CYCLE_KINDS), rows)
    ensures forall v :: InSomeRow(rows, v) <==> LeadsBack(cg, v)
    ensures forall i, u, w :: 0 <= i < |rows| && u in rows[i] ==>
              (w in rows[i] <==> Leads(cg, u, w) && Leads(cg, w, u))
    ensures forall i, j, k :: 0 <= i < |rows| && 0 <= j < k < |rows[i]| ==>
              rows[i][j] != rows[i][k] && StringLe(rows[i][j].id, rows[i][k].id)
    ensures forall i :: 0 <= i < |rows| ==> rows[i] != []
    ensures forall i, j :: 0 <= i < j < |rows| ==>
              || |rows[i]| > |rows[j]|
              || (|rows[i]| == |rows[j]| && rows[i][0] != rows[j][0] && StringLe(rows[i][0].id, rows[j][0].id))
  {
    hide C.IsCycleReport, C.ComponentRow, AdjacencyOf, Leads, LeadsBack, OnCycle, StringLe, InSomeRow;
    var g := AdjacencyOf(cg, C.CYCLE_KINDS);
    forall v ensures InSomeRow(rows, v) <==> LeadsBack(cg, v) {
      ListedIff(g, rows, v);
      OnCycleIff(cg, v);
    }
    forall i | 0 <= i < |rows| ensures C.ComponentRow(g, rows[i]) && rows[i] != [] { RowOf(g, rows, i); }
    forall i, u, w | 0 <= i < |rows| && u in rows[i]
      ensures w in rows[i] <==> Leads(cg, u, w) && Leads(cg, w, u)
    {
      Together(cg, rows[i], u, w);
    }
    forall i, j, k | 0 <= i < |rows| && 0 <= j < k < |rows[i]|
      ensures rows[i][j] != rows[i][k] && StringLe(rows[i][j].id, rows[i][k].id)
    {
      WithinRow(g, rows[i], j, k);
    }
    forall i, j | 0 <= i < j < |rows|
      ensures || |rows[i]| > |rows[j]|
              || (|rows[i]| == |rows[j]| && rows[i][0] != rows[j][0] && StringLe(rows[i][0].id, rows[j][0].id))
    {
      RowOrder(g, rows, i, j);
    }
  }

  lemma WithinRow(g: Graph, row: seq<Node>, j: nat, k: nat)
    requires C.ComponentRow(g, row) && j < k < |row|
    ensures row[j] != row[k] && StringLe(row[j].id, row[k].id)
  {
    hide IsScc, OnCycle, StringLe;
    assert NodeLe(row[j], row[k]);
  }

  lemma ListedIff(g: Graph, rows: seq<seq<Node>>, v: Node)
    requires C.IsCycleReport(g, rows)
    ensures InSomeRow(rows, v) <==> OnCycle(g, v)
  {
    hide IsScc, OnCycle, SortedBy;
    if i :| 0 <= i < |rows| && v in rows[i] {
      assert C.ComponentRow(g, rows[i]);
      assert v in Elements(rows[i]);
    }
    if OnCycle(g, v) {
      assert C.Listed(rows, v);
      var i :| 0 <= i < |rows| && v in Elements(rows[i]);
      assert v in rows[i];
    }
  }

  lemma RowOf(g: Graph, rows: seq<seq<Node>>, i: nat)
    requires C.IsCycleReport(g, rows) && i < |rows|
    ensures C.ComponentRow(g, rows[i]) && rows[i] != []
  {
    hide Reach, SortedBy;
    assert C.ComponentRow(g, rows[i]);
    assert Elements(rows[i]) != {};
  }

  lemma Together(cg: CodeGraph, row: seq<Node>, u: Node, w: Node)
    requires C.ComponentRow(AdjacencyOf(cg, C.CYCLE_KINDS), row) && u in row
    ensures w in row <==> Leads(cg, u, w) && Leads(cg, w, u)
  {
    hide Reach, SortedBy, AdjacencyOf, Leads;
    assert u in Elements(row);
    assert w in Elements(row) <==> w in row;
    ReachIff(cg, u, w);
    ReachIff(cg, w, u);
  }

  lemma RowOrder(g: Graph, rows: seq<seq<Node>>, i: nat, j: nat)
    requires C.IsCycleReport(g, rows) && i < j < |rows|
    requires rows[i] != [] && rows[j] != []
    ensures || |rows[i]| > |rows[j]|
            || (|rows[i]| == |rows[j]| && rows[i][0] != rows[j][0] && StringLe(rows[i][0].id, rows[j][0].id))
  {
    hide C.ComponentRow, StringLe;
    assert Elements(rows[i]) !! Elements(rows[j]);
    assert rows[i][0] in Elements(rows[i]) && rows[j][0] in Elements(rows[j]);
    assert C.RowLe(rows[i], rows[j]);
  }

  // ---- Impact ----

  /** A walk of at most `depth` edges from something that depends to one of the first twenty targets. */
  ghost predicate Impacts(cg: CodeGraph, targets: seq<Node>, depth: int, p: seq<Node>) {
    && |p| > 0 && (|p| == 1 || |p| - 1 <= depth) && Walk(cg, p)
    && exists k :: 0 <= k < |targets| && k < 20 && targets[k] == p[|p| - 1]
  }

  ghost function Backwards(p: seq<Node>): seq<Node> {
    seq(|p|, i requires 0 <= i < |p| => p[|p| - 1 - i])
  }

  lemma BackwardsPath(cg: CodeGraph, p: seq<Node>)
    ensures IsPath(ReverseOf(cg, IMPACT_KINDS), Backwards(p)) <==> Walk(cg, p)
  {
    hide ReverseOf, Linked, Succ;
    var g, q := ReverseOf(cg, IMPACT_KINDS), Backwards(p);
    forall x, y ensures x in Succ(g, y) <==> Linked(cg, x, y) { LinkedIff(cg, x, y); }
    if IsPath(g, q) {
      forall i | 0 < i < |p| ensures Linked(cg, p[i - 1], p[i]) {
        var j := |p| - 1 - i;
        assert q[j + 1] in Succ(g, q[j]);
      }
    }
    if Walk(cg, p) {
      forall j | 0 <= j < |q| - 1 ensures q[j + 1] in Succ(g, q[j]) {
        var i := |p| - 1 - j;
        assert Linked(cg, p[i - 1], p[i]);
      }
    }
  }

  lemma SeedIff(targets: seq<Node>, v: Node)
    ensures v in Elements(Roots(targets)) <==> exists k :: 0 <= k < |targets| && k < 20 && targets[k] == v
  {
    var roots := Roots(targets);
    if v in Elements(roots) {
      var k := IndexOf(roots, v);
      assert targets[k] == v;
    }
    if k :| 0 <= k < |targets| && k < 20 && targets[k] == v { assert roots[k] == v; }
  }

  /** The layers of the search hold exactly what the walks start from. */
  lemma LayerWalk(cg: CodeGraph, targets: seq<Node>, n: nat, v: Node) returns (p: seq<Node>)
    requires v in Layer(ReverseOf(cg, IMPACT_KINDS), Elements(Roots(targets)), n)
    ensures Impacts(cg, targets, n, p) && p[0] == v
  {
    hide ReverseOf, Layer, Roots, Linked;
    var g, seeds := ReverseOf(cg, IMPACT_KINDS), Elements(Roots(targets));
    LayerIsPaths(g, seeds, n, v);
    var q, s :| s in seeds && PathFromTo(g, q, s, v) && |q| <= n + 1;
    p := Backwards(q);
    assert Backwards(p) == q;
    BackwardsPath(cg, p);
    SeedIff(targets, s);
  }

  lemma WalkLayer(cg: CodeGraph, targets: seq<Node>, depth: int, p: seq<Node>)
    requires Impacts(cg, targets, depth, p)
    ensures |p| - 1 <= Limit(depth)
    ensures p[0] in Layer(ReverseOf(cg, IMPACT_KINDS), Elements(Roots(targets)), |p| - 1)
  {
    hide ReverseOf, Layer, Roots, Linked;
    var g, seeds := ReverseOf(cg, IMPACT_KINDS), Elements(Roots(targets));
    var q, s := Backwards(p), p[|p| - 1];
    BackwardsPath(cg, p);
    SeedIff(targets, s);
    assert PathFromTo(g, q, s, p[0]);
    LayerIsPaths(g, seeds, |p| - 1, p[0]);
  }

  /** A walk that starts at a symbol of this path. */
  ghost predicate ImpactsPath(cg: CodeGraph, targets: seq<Node>, depth: int, p: seq<Node>, path: string) {
    Impacts(cg, targets, depth, p) && p[0] in cg.symbols && cg.symbols[p[0]].path == path
  }

  ghost predicate HasRow(rows: seq<ImpactRow>, path: string) { exists i :: 0 <= i < |rows| && rows[i].path == path }

  /** The rows name exactly the paths that hold the start of a walk to a target, with the length of the shortest such
      walk and every symbol one starts from; nearer paths come first, equally near ones by name. */
  lemma ImpactMeaning(cg: CodeGraph, targets: seq<Node>, depth: int, impacted: map<string, Impact>,
                      rows: seq<ImpactRow>)
    requires IsBlastRadius(cg, ReverseOf(cg, IMPACT_KINDS), Elements(Roots(targets)), Limit(depth), impacted)
    requires IsRendering(impacted, rows)
    ensures forall path :: HasRow(rows, path) <==> exists p :: ImpactsPath(cg, targets, depth, p, path)
    ensures forall i :: 0 <= i < |rows| ==>
              && (exists p :: ImpactsPath(cg, targets, depth, p, rows[i].path) && |p| - 1 == rows[i].minimumDepth)
              && (forall p :: ImpactsPath(cg, targets, depth, p, rows[i].path) ==> rows[i].minimumDepth <= |p| - 1)
              && (forall name :: name in rows[i].symbols <==>
                    exists p :: ImpactsPath(cg, targets, depth, p, rows[i].path)
                                && cg.symbols[p[0]].qualifiedName == name)
    ensures forall i, j :: 0 <= i < j < |rows| ==>
              || rows[i].minimumDepth < rows[j].minimumDepth
              || (rows[i].minimumDepth == rows[j].minimumDepth && rows[i].path != rows[j].path
                  && StringLe(rows[i].path, rows[j].path))
  {
    hide ReverseOf, Layer, Roots, Impacts, Renders, IsImpactRow, StringLe;
    forall path ensures path in impacted <==> exists p :: ImpactsPath(cg, targets, depth, p, path) {
      PathIff(cg, targets, depth, impacted, path);
    }
    forall i | 0 <= i < |rows| ensures rows[i].path in impacted { RowRendered(impacted, rows, i); }
    forall path ensures HasRow(rows, path) <==> path in impacted {}
    forall i | 0 <= i < |rows|
      ensures && (exists p :: ImpactsPath(cg, targets, depth, p, rows[i].path) && |p| - 1 == rows[i].minimumDepth)
              && (forall p :: ImpactsPath(cg, targets, depth, p, rows[i].path) ==> rows[i].minimumDepth <= |p| - 1)
              && (forall name :: name in rows[i].symbols <==>
                    exists p :: ImpactsPath(cg, targets, depth, p, rows[i].path)
                                && cg.symbols[p[0]].qualifiedName == name)
    {
      RowRendered(impacted, rows, i);
      RowMeaning(cg, targets, depth, impacted, rows[i].path);
    }
    forall i, j | 0 <= i < j < |rows| ensures ImpactLe(rows[i], rows[j]) && rows[i].path != rows[j].path {}
  }

  lemma RowRendered(impacted: map<string, Impact>, rows: seq<ImpactRow>, i: nat)
    requires IsRendering(impacted, rows) && i < |rows|
    ensures rows[i].path in impacted && rows[i].minimumDepth == impacted[rows[i].path].minimumDepth
    ensures forall name :: name in rows[i].symbols <==> name in impacted[rows[i].path].symbols
  {
    hide NodeLe, StringLe, SortedBy, NoDuplicates;
    assert Renders(impacted, rows[i]);
    forall name ensures name in rows[i].symbols <==> name in impacted[rows[i].path].symbols {
      assert name in rows[i].symbols <==> name in Elements(rows[i].symbols);
    }
  }

  lemma PathIff(cg: CodeGraph, targets: seq<Node>, depth: int, impacted: map<string, Impact>, path: string)
    requires IsBlastRadius(cg, ReverseOf(cg, IMPACT_KINDS), Elements(Roots(targets)), Limit(depth), impacted)
    ensures path in impacted <==> exists p :: ImpactsPath(cg, targets, depth, p, path)
  {
    hide ReverseOf, Layer, Roots, Walk, IsImpactRow;
    var g, seeds, limit := ReverseOf(cg, IMPACT_KINDS), Elements(Roots(targets)), Limit(depth);
    if path in impacted {
      var v :| v in Layer(g, seeds, limit) && At(cg, v, path);
      var p := LayerWalk(cg, targets, limit, v);
      assert ImpactsPath(cg, targets, depth, p, path);
    }
    if p :| ImpactsPath(cg, targets, depth, p, path) {
      WalkLayer(cg, targets, depth, p);
      LayerGrows(g, seeds, |p| - 1, limit);
      assert At(cg, p[0], path);
    }
  }

  lemma RowMeaning(cg: CodeGraph, targets: seq<Node>, depth: int, impacted: map<string, Impact>, path: string)
    requires IsBlastRadius(cg, ReverseOf(cg, IMPACT_KINDS), Elements(Roots(targets)), Limit(depth), impacted)
    requires path in impacted
    ensures exists p :: ImpactsPath(cg, targets, depth, p, path) && |p| - 1 == impacted[path].minimumDepth
    ensures forall p :: ImpactsPath(cg, targets, depth, p, path) ==> impacted[path].minimumDepth <= |p| - 1
    ensures forall name :: name in impacted[path].symbols <==>
              exists p :: ImpactsPath(cg, targets, depth, p, path) && cg.symbols[p[0]].qualifiedName == name
  {
    hide ReverseOf, Layer, Roots, Walk, Rooted, NearestRoot;
    var g, seeds, limit := ReverseOf(cg, IMPACT_KINDS), Elements(Roots(targets)), Limit(depth);
    var row := impacted[path];
    assert IsImpactRow(cg, g, seeds, limit, path, row);
    forall p | ImpactsPath(cg, targets, depth, p, path)
      ensures row.minimumDepth <= |p| - 1 && cg.symbols[p[0]].qualifiedName in row.symbols
    {
      WalkLayer(cg, targets, depth, p);
      LayerGrows(g, seeds, |p| - 1, limit);
      assert At(cg, p[0], path);
    }
    forall name | name in row.symbols
      ensures exists p :: ImpactsPath(cg, targets, depth, p, path) && cg.symbols[p[0]].qualifiedName == name
    {
      var v :| v in Layer(g, seeds, limit) && At(cg, v, path) && cg.symbols[v].qualifiedName == name;
      var p := LayerWalk(cg, targets, limit, v);
      assert ImpactsPath(cg, targets, depth, p, path);
    }
    var v :| At(cg, v, path) && IsDistance(g, seeds, v, row.minimumDepth);
    var near :| near in Layer(g, seeds, limit) && At(cg, near, path);
    assert row.minimumDepth <= limit;
    var p := LayerWalk(cg, targets, row.minimumDepth, v);
    assert Impacts(cg, targets, depth, p);
    assert ImpactsPath(cg, targets, depth, p, path);
  }
}
