/** How rank follows the edges: what one iteration gives each symbol, and which symbols come out ahead. */
module RankFlow {
  import opened Ordering
  import opened Reachability
  import opened CodeGraph
  import opened Sums
  import opened PageRank

  /** A symbol's rank divided by the number of its targets. */
  ghost function Split(adjacency: Graph, ranks: Ranks): Node -> real {
    u => if u in ranks && Succ(adjacency, u) != {} then ranks[u] / |Succ(adjacency, u)| as real else 0.0
  }

  ghost function Held(ranks: Ranks): Node -> real { u => if u in ranks then ranks[u] else 0.0 }

  /** The symbols without targets. */
  ghost function Sinks(adjacency: Graph, nodes: set<Node>): set<Node> {
    set u | u in nodes && Succ(adjacency, u) == {}
  }

  lemma KeptIsSinks(adjacency: Graph, nodes: set<Node>, ranks: Ranks)
    ensures Sum(nodes, Kept(adjacency, ranks)) == Sum(Sinks(adjacency, nodes), Held(ranks))
  {
    hide Sum;
    SumRestrict(nodes, Sinks(adjacency, nodes), Held(ranks), Kept(adjacency, ranks));
    assert nodes * Sinks(adjacency, nodes) == Sinks(adjacency, nodes);
  }

  lemma SharesAreSplit(adjacency: Graph, reverse: Graph, ranks: Ranks, v: Node)
    requires Opposite(adjacency, reverse) && Succ(reverse, v) <= ranks.Keys
    ensures Received(adjacency, reverse, ranks)(v) == Sum(Succ(reverse, v), Split(adjacency, ranks))
  {
    hide Sum;
    forall u | u in Succ(reverse, v) ensures Shares(adjacency, ranks)(u) == Split(adjacency, ranks)(u) {
      assert v in Succ(adjacency, u);
      assert |Succ(adjacency, u)| > 0;
    }
    SumSame(Succ(reverse, v), Shares(adjacency, ranks), Split(adjacency, ranks));
  }

  /** One iteration gives a symbol its part of what is not damped, its part of what the symbols without targets hold,
      and from each symbol with an edge to it that one's rank divided by the number of its targets. */
  lemma RankFromEdges(adjacency: Graph, reverse: Graph, nodes: set<Node>, damping: real, ranks: Ranks, v: Node)
    requires Opposite(adjacency, reverse) && SourcesKnown(reverse, nodes) && ranks.Keys == nodes && v in nodes
    ensures var n := |nodes| as real;
            && n > 0.0
            && Iterate(adjacency, reverse, nodes, damping, ranks)[v]
                 == (1.0 - damping) / n + damping * Sum(Sinks(adjacency, nodes), Held(ranks)) / n
                    + damping * Sum(Succ(reverse, v), Split(adjacency, ranks))
  {
    hide Sum, Received, Kept, Opposite;
    assert nodes != {} && |nodes| > 0;
    KeptIsSinks(adjacency, nodes, ranks);
    SharesAreSplit(adjacency, reverse, ranks, v);
  }

  /** The ranks start out equal, and a symbol that nothing refers to never gets more than the common part. */
  lemma WithoutSources(adjacency: Graph, reverse: Graph, nodes: set<Node>, damping: real, k: nat, v: Node)
    requires Opposite(adjacency, reverse) && SourcesKnown(reverse, nodes) && v in nodes && Succ(reverse, v) == {}
    ensures var n := |nodes| as real;
            var ranks := RanksAfter(adjacency, reverse, nodes, damping, k);
            && n > 0.0 && RanksAfter(adjacency, reverse, nodes, damping, 0)[v] == 1.0 / n
            && RanksAfter(adjacency, reverse, nodes, damping, k + 1)[v]
                 == (1.0 - damping) / n + damping * Sum(Sinks(adjacency, nodes), Held(ranks)) / n
  {
    hide Iterate, Opposite, SourcesKnown, Sum, Split, Held, Sinks;
    assert nodes != {} && |nodes| > 0;
    var ranks := RanksAfter(adjacency, reverse, nodes, damping, k);
    RankedNodes(adjacency, reverse, nodes, damping, k);
    RankFromEdges(adjacency, reverse, nodes, damping, ranks, v);
    NoSum(Split(adjacency, ranks));
  }

  lemma NoSum(f: Node -> real)
    ensures Sum({}, f) == 0.0
  {
  }

  lemma RankedNodes(adjacency: Graph, reverse: Graph, nodes: set<Node>, damping: real, k: nat)
    requires nodes != {}
    ensures RanksAfter(adjacency, reverse, nodes, damping, k).Keys == nodes
  {
    hide NextRank;
  }

  /** Two symbols differ by the damped difference of what their edges bring. */
  lemma RankDifference(adjacency: Graph, reverse: Graph, nodes: set<Node>, damping: real, ranks: Ranks, v: Node,
                       w: Node)
    requires Opposite(adjacency, reverse) && SourcesKnown(reverse, nodes) && ranks.Keys == nodes
    requires v in nodes && w in nodes
    ensures var next := Iterate(adjacency, reverse, nodes, damping, ranks);
            next[v] - next[w] == damping * (Sum(Succ(reverse, v), Split(adjacency, ranks))
                                            - Sum(Succ(reverse, w), Split(adjacency, ranks)))
  {
    hide Sum, Iterate, Opposite, SourcesKnown, Split, Held;
    RankFromEdges(adjacency, reverse, nodes, damping, ranks, v);
    RankFromEdges(adjacency, reverse, nodes, damping, ranks, w);
    TimesDifference(damping, Sum(Succ(reverse, v), Split(adjacency, ranks)),
                    Sum(Succ(reverse, w), Split(adjacency, ranks)));
  }

  lemma TimesDifference(c: real, a: real, b: real)
    ensures c * (a - b) == c * a - c * b
  {
  }

  lemma MoreIsBrought(few: set<Node>, many: set<Node>, f: Node -> real)
    requires few <= many && forall u :: u in many ==> f(u) >= 0.0
    ensures Sum(many, f) >= Sum(few, f)
    ensures few < many && (forall u :: u in many ==> f(u) > 0.0) ==> Sum(many, f) > Sum(few, f)
  {
    hide Sum;
    var more := many - few;
    assert many == few + more;
    SumUnion(few, more, f);
    SumAtLeast(more, f);
    if few < many {
      var u :| u in more;
      assert Sum(more, f) >= f(u);
    }
  }

  /** Whoever refers to w refers to v as well: then v never ranks below w, and above it when something else refers to v
      and the damping is proper. */
  lemma MoreSourcesRankHigher(adjacency: Graph, reverse: Graph, nodes: set<Node>, damping: real, k: nat, v: Node,
                              w: Node)
    requires Opposite(adjacency, reverse) && SourcesKnown(reverse, nodes) && v in nodes && w in nodes
    requires 0.0 <= damping <= 1.0 && Succ(reverse, w) <= Succ(reverse, v)
    ensures var ranks := RanksAfter(adjacency, reverse, nodes, damping, k + 1);
            && {v, w} <= ranks.Keys && ranks[v] >= ranks[w]
            && (Succ(reverse, w) < Succ(reverse, v) && 0.0 < damping < 1.0 ==> ranks[v] > ranks[w])
  {
    hide Sum, Iterate, Opposite, SourcesKnown, Split, Succ, RanksAfter;
    var ranks := RanksAfter(adjacency, reverse, nodes, damping, k);
    RankedNodes(adjacency, reverse, nodes, damping, k);
    RankedNodes(adjacency, reverse, nodes, damping, k + 1);
    NextRanks(adjacency, reverse, nodes, damping, k);
    PositiveRanks(adjacency, reverse, nodes, damping, k);
    SplitAtLeast(adjacency, reverse, nodes, damping, ranks, v);
    MoreIsBrought(Succ(reverse, w), Succ(reverse, v), Split(adjacency, ranks));
    RankDifference(adjacency, reverse, nodes, damping, ranks, v, w);
    DampedSign(damping,
               Sum(Succ(reverse, v), Split(adjacency, ranks)) - Sum(Succ(reverse, w), Split(adjacency, ranks)));
  }

  lemma DampedSign(d: real, x: real)
    requires d >= 0.0 && x >= 0.0
    ensures d * x >= 0.0 && (d > 0.0 && x > 0.0 ==> d * x > 0.0)
  {
  }

  lemma PositiveRanks(adjacency: Graph, reverse: Graph, nodes: set<Node>, damping: real, k: nat)
    requires nodes != {} && 0.0 <= damping <= 1.0
    ensures var ranks := RanksAfter(adjacency, reverse, nodes, damping, k);
            && ranks.Keys == nodes && (forall u :: u in nodes ==> ranks[u] >= 0.0)
            && (damping < 1.0 ==> forall u :: u in nodes ==> ranks[u] > 0.0)
  {
    hide Iterate;
    RankFloor(adjacency, reverse, nodes, damping, k);
    SignOfQuotient(1.0, |nodes| as real);
    SignOfQuotient(1.0 - damping, |nodes| as real);
  }

  lemma SplitAtLeast(adjacency: Graph, reverse: Graph, nodes: set<Node>, damping: real, ranks: Ranks, v: Node)
    requires Opposite(adjacency, reverse) && SourcesKnown(reverse, nodes) && v in nodes && 0.0 <= damping <= 1.0
    requires ranks.Keys == nodes
    requires damping < 1.0 ==> forall u :: u in nodes ==> ranks[u] > 0.0
    requires forall u :: u in nodes ==> ranks[u] >= 0.0
    ensures forall u :: u in Succ(reverse, v) ==> Split(adjacency, ranks)(u) >= 0.0
    ensures damping < 1.0 ==> forall u :: u in Succ(reverse, v) ==> Split(adjacency, ranks)(u) > 0.0
  {
    forall u | u in Succ(reverse, v)
      ensures Split(adjacency, ranks)(u) >= 0.0 && (damping < 1.0 ==> Split(adjacency, ranks)(u) > 0.0)
    {
      assert v in Succ(adjacency, u);
      assert |Succ(adjacency, u)| > 0;
      SignOfQuotient(ranks[u], |Succ(adjacency, u)| as real);
    }
  }

  lemma SignOfQuotient(a: real, b: real)
    requires a >= 0.0 && b > 0.0
    ensures a / b >= 0.0 && (a > 0.0 ==> a / b > 0.0)
  {
    var q := a / b;
    assert q * b == a;
  }

  lemma RankingMember(ranks: Ranks, rows: seq<(Node, real)>, v: Node, x: real)
    requires IsRanking(ranks, rows) && (v, x) in rows
    ensures v in ranks && ranks[v] == x
  {
  }

  /** A ranking lists larger ranks first, and equal ranks by id. */
  lemma RankingOrder(ranks: Ranks, rows: seq<(Node, real)>)
    requires IsRanking(ranks, rows)
    ensures forall i :: 0 <= i < |rows| ==> rows[i].0 in ranks && rows[i].1 == ranks[rows[i].0]
    ensures forall i, j :: 0 <= i < j < |rows| ==>
              || rows[i].1 > rows[j].1
              || (rows[i].1 == rows[j].1 && rows[i].0 != rows[j].0 && NodeLe(rows[i].0, rows[j].0))
  {
    hide NodeLe;
    forall i | 0 <= i < |rows| ensures rows[i].0 in ranks && rows[i].1 == ranks[rows[i].0] {
      var row := rows[i];
      assert row == (row.0, row.1) && row in rows;
      RankingMember(ranks, rows, row.0, row.1);
    }
    forall i, j | 0 <= i < j < |rows| ensures RankLe(rows[i], rows[j]) && rows[i] != rows[j] {}
  }
}
