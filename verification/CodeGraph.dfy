/** The code graph: symbols, typed edges, and the adjacency maps built from them. */
module CodeGraph {
  import opened Reachability

  datatype Symbol = Symbol(id: Node, qualifiedName: string, path: string)
  datatype Edge = Edge(source: Node, target: Node, kind: string)
  datatype CodeGraph = CodeGraph(symbols: map<Node, Symbol>, edges: seq<Edge>)

  /** The edges of the wanted kinds, as a relation. */
  function Wanted(cg: CodeGraph, kinds: set<string>): set<Edge> {
    set e | e in cg.edges && e.kind in kinds
  }

  function Sources(wanted: set<Edge>): set<Node> { set e | e in wanted :: e.source }

  function TargetsOf(wanted: set<Edge>, v: Node): set<Node> { set e | e in wanted && e.source == v :: e.target }

  /** An entry for every symbol and every source of a wanted edge, listing the targets. */
  function AdjacencyOf(cg: CodeGraph, kinds: set<string>): Graph {
    var wanted := Wanted(cg, kinds);
    var keys := cg.symbols.Keys + Sources(wanted);
    map v | v in keys :: TargetsOf(wanted, v)
  }

  function Targets(wanted: set<Edge>): set<Node> { set e | e in wanted :: e.target }

  function SourcesOf(wanted: set<Edge>, v: Node): set<Node> { set e | e in wanted && e.target == v :: e.source }

  /** An entry for every symbol and every target of a wanted edge, listing the sources. */
  function ReverseOf(cg: CodeGraph, kinds: set<string>): Graph {
    var wanted := Wanted(cg, kinds);
    var keys := cg.symbols.Keys + Targets(wanted);
    map v | v in keys :: SourcesOf(wanted, v)
  }

  method Adjacency(cg: CodeGraph, kinds: set<string>) returns (g: Graph)
    ensures g == AdjacencyOf(cg, kinds)
  {
    g := map v | v in cg.symbols :: {};
    NoEdges(cg.(edges := []), kinds);
    for i := 0 to |cg.edges|
      invariant g == AdjacencyOf(cg.(edges := cg.edges[..i]), kinds)
    {
      AddEdge(cg.(edges := cg.edges[..i]), kinds, cg.edges[i]);
      assert cg.edges[..i + 1] == cg.edges[..i] + [cg.edges[i]];
      if cg.edges[i].kind in kinds {
        g := g[cg.edges[i].source := Succ(g, cg.edges[i].source) + {cg.edges[i].target}];
      }
    }
    assert cg.edges[..|cg.edges|] == cg.edges;
  }

  lemma AddEdge(cg: CodeGraph, kinds: set<string>, e: Edge)
    ensures AdjacencyOf(cg.(edges := cg.edges + [e]), kinds)
         == var g := AdjacencyOf(cg, kinds);
            if e.kind in kinds then g[e.source := Succ(g, e.source) + {e.target}] else g
  {
    AddWanted(cg, kinds, e);
    hide Wanted;
    if e.kind in kinds {
      var wanted := Wanted(cg, kinds);
      assert Sources(wanted + {e}) == Sources(wanted) + {e.source};
      assert TargetsOf(wanted + {e}, e.source) == TargetsOf(wanted, e.source) + {e.target};
      forall v | v != e.source ensures TargetsOf(wanted + {e}, v) == TargetsOf(wanted, v) {}
      if e.source !in cg.symbols.Keys + Sources(wanted) { assert TargetsOf(wanted, e.source) == {}; }
      hide Sources, TargetsOf;
    } else {
      assert Wanted(cg.(edges := cg.edges + [e]), kinds) == Wanted(cg, kinds);
    }
  }

  method Reverse(cg: CodeGraph, kinds: set<string>) returns (g: Graph)
    ensures g == ReverseOf(cg, kinds)
  {
    g := map v | v in cg.symbols :: {};
    NoEdges(cg.(edges := []), kinds);
    for i := 0 to |cg.edges|
      invariant g == ReverseOf(cg.(edges := cg.edges[..i]), kinds)
    {
      AddReverseEdge(cg.(edges := cg.edges[..i]), kinds, cg.edges[i]);
      assert cg.edges[..i + 1] == cg.edges[..i] + [cg.edges[i]];
      if cg.edges[i].kind in kinds {
        g := g[cg.edges[i].target := Succ(g, cg.edges[i].target) + {cg.edges[i].source}];
      }
    }
    assert cg.edges[..|cg.edges|] == cg.edges;
  }

  lemma AddReverseEdge(cg: CodeGraph, kinds: set<string>, e: Edge)
    ensures ReverseOf(cg.(edges := cg.edges + [e]), kinds)
         == var g := ReverseOf(cg, kinds);
            if e.kind in kinds then g[e.target := Succ(g, e.target) + {e.source}] else g
  {
    AddWanted(cg, kinds, e);
    hide Wanted;
    if e.kind in kinds {
      var wanted := Wanted(cg, kinds);
      assert Targets(wanted + {e}) == Targets(wanted) + {e.target};
      assert SourcesOf(wanted + {e}, e.target) == SourcesOf(wanted, e.target) + {e.source};
      forall v | v != e.target ensures SourcesOf(wanted + {e}, v) == SourcesOf(wanted, v) {}
      if e.target !in cg.symbols.Keys + Targets(wanted) { assert SourcesOf(wanted, e.target) == {}; }
      hide Targets, SourcesOf;
    } else {
      assert Wanted(cg.(edges := cg.edges + [e]), kinds) == Wanted(cg, kinds);
    }
  }

  lemma NoEdges(cg: CodeGraph, kinds: set<string>)
    requires cg.edges == []
    ensures AdjacencyOf(cg, kinds) == ReverseOf(cg, kinds) == map v | v in cg.symbols :: {}
  {
    assert Wanted(cg, kinds) == {};
    assert Sources({}) == {} && Targets({}) == {};
    assert forall v :: TargetsOf({}, v) == {} && SourcesOf({}, v) == {};
  }

  lemma AddWanted(cg: CodeGraph, kinds: set<string>, e: Edge)
    ensures Wanted(cg.(edges := cg.edges + [e]), kinds) == Wanted(cg, kinds) + (if e.kind in kinds then {e} else {})
  {
  }

  /** The two maps hold the same edges, read in opposite directions. */
  lemma ReverseOfAdjacency(cg: CodeGraph, kinds: set<string>, v: Node, w: Node)
    ensures w in Succ(AdjacencyOf(cg, kinds), v)
       <==> exists e :: e in cg.edges && e.kind in kinds && e.source == v && e.target == w
    ensures w in Succ(AdjacencyOf(cg, kinds), v) <==> v in Succ(ReverseOf(cg, kinds), w)
  {
    var wanted := Wanted(cg, kinds);
    assert w in Succ(AdjacencyOf(cg, kinds), v) <==> w in TargetsOf(wanted, v) by {
      if w in TargetsOf(wanted, v) { assert v in Sources(wanted); }
    }
    assert v in Succ(ReverseOf(cg, kinds), w) <==> v in SourcesOf(wanted, w) by {
      if v in SourcesOf(wanted, w) { assert w in Targets(wanted); }
    }
  }
}
