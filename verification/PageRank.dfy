/** `pagerank`: power iteration with redistribution of the rank held by sinks, over real numbers. */
module PageRank {
  import opened Ordering
  import opened Reachability
  import opened CodeGraph
  import opened Sums

  const RANK_KINDS: set<string> := {"call", "import", "inherits"}

  type Ranks = map<Node, real>

  function At(ranks: Ranks, v: Node): real { if v in ranks then ranks[v] else 0.0 }

  function Degree(adjacency: Graph, u: Node): nat { |Succ(adjacency, u)| }

  function MaxOne(n: nat): nat { if n < 1 then 1 else n }

  /** The share of u's rank that one of its successors receives, before damping. */
  function Share(adjacency: Graph, ranks: Ranks, u: Node): real {
    At(ranks, u) / MaxOne(Degree(adjacency, u)) as real
  }

  function KnownTargets(adjacency: Graph, nodes: set<Node>, u: Node): nat { |Succ(adjacency, u) * nodes| }

  function UnknownTargets(adjacency: Graph, nodes: set<Node>, u: Node): nat { |Succ(adjacency, u) - nodes| }

  /** What u contributes to the sink pool, sends to known targets, and sends to targets nobody ranks. */
  ghost function Kept(adjacency: Graph, ranks: Ranks): Node -> real {
    u => if Succ(adjacency, u) == {} then At(ranks, u) else 0.0
  }

  ghost function Sent(adjacency: Graph, nodes: set<Node>, ranks: Ranks): Node -> real {
    u => Share(adjacency, ranks, u) * KnownTargets(adjacency, nodes, u) as real
  }

  ghost function Lost(adjacency: Graph, nodes: set<Node>, ranks: Ranks): Node -> real {
    u => Share(adjacency, ranks, u) * UnknownTargets(adjacency, nodes, u) as real
  }

  ghost function Shares(adjacency: Graph, ranks: Ranks): Node -> real {
    u => Share(adjacency, ranks, u)
  }

  ghost function Received(adjacency: Graph, reverse: Graph, ranks: Ranks): Node -> real {
    v => Sum(Succ(reverse, v), Shares(adjacency, ranks))
  }

  ghost function RankOf(ranks: Ranks): Node -> real {
    v => At(ranks, v)
  }

  ghost function Total(nodes: set<Node>, ranks: Ranks): real { Sum(nodes, RankOf(ranks)) }

  ghost function Leak(adjacency: Graph, nodes: set<Node>, ranks: Ranks): real
  {
    Sum(nodes, Lost(adjacency, nodes, ranks))
  }

  /** What every node gets before its incoming edges are counted. */
  ghost function Base(adjacency: Graph, nodes: set<Node>, damping: real, ranks: Ranks): real
    requires nodes != {}
  {
    BaseRank(damping, Sum(nodes, Kept(adjacency, ranks)), |nodes|)
  }

  function BaseRank(damping: real, sink: real, count: nat): real
    requires count > 0
  {
    var n := count as real;
    (1.0 - damping) / n + damping * sink / n
  }

  /** The rank of v after one iteration. */
  ghost function NextRank(adjacency: Graph, reverse: Graph, nodes: set<Node>, damping: real, ranks: Ranks,
                          v: Node): real
    requires nodes != {}
  {
    Base(adjacency, nodes, damping, ranks) + Times(damping, Received(adjacency, reverse, ranks)(v))
  }

  ghost function Iterate(adjacency: Graph, reverse: Graph, nodes: set<Node>, damping: real, ranks: Ranks): Ranks
    requires nodes != {}
  {
    map v | v in nodes :: NextRank(adjacency, reverse, nodes, damping, ranks, v)
  }

  ghost function RanksAfter(adjacency: Graph, reverse: Graph, nodes: set<Node>, damping: real, k: nat): Ranks
    requires nodes != {}
  {
    if k == 0 then map v | v in nodes :: 1.0 / |nodes| as real
    else Iterate(adjacency, reverse, nodes, damping, RanksAfter(adjacency, reverse, nodes, damping, k - 1))
  }

  /** The two maps are opposite directions of the same edges. */
  ghost predicate Opposite(adjacency: Graph, reverse: Graph) {
    forall u, v :: u in Succ(reverse, v) <==> v in Succ(adjacency, u)
  }

  /** No edge into a symbol starts outside the symbols; otherwise looking up its rank is a KeyError. */
  ghost predicate SourcesKnown(reverse: Graph, nodes: set<Node>) {
    forall v :: v in nodes ==> Succ(reverse, v) <= nodes
  }

  ghost predicate NoDangling(adjacency: Graph, nodes: set<Node>) {
    forall u :: u in nodes ==> Succ(adjacency, u) <= nodes
  }

  /** What flows along one edge. */
  ghost function Flow(adjacency: Graph, ranks: Ranks): (Node, Node) -> real {
    (v, u) => if v in Succ(adjacency, u) then Share(adjacency, ranks, u) else 0.0
  }

  lemma ReceivedRow(adjacency: Graph, reverse: Graph, nodes: set<Node>, ranks: Ranks, v: Node)
    requires Opposite(adjacency, reverse) && SourcesKnown(reverse, nodes) && v in nodes
    ensures Received(adjacency, reverse, ranks)(v) == RowSums(Flow(adjacency, ranks), nodes)(v)
  {
    hide Share;
    SumRestrict(nodes, Succ(reverse, v), Shares(adjacency, ranks), Row(Flow(adjacency, ranks), v));
    assert nodes * Succ(reverse, v) == Succ(reverse, v);
  }

  lemma SentColumn(adjacency: Graph, nodes: set<Node>, ranks: Ranks, u: Node)
    ensures ColumnSums(Flow(adjacency, ranks), nodes)(u) == Sent(adjacency, nodes, ranks)(u)
  {
    hide Share, Sum, Flow, KnownTargets, Succ;
    var share := Share(adjacency, ranks, u);
    var s := Succ(adjacency, u) * nodes;
    ColumnOfFlow(adjacency, nodes, ranks, u);
    SumConstant(s, Constant(share), share);
    CountKnown(adjacency, nodes, u);
  }

  lemma CountKnown(adjacency: Graph, nodes: set<Node>, u: Node)
    ensures KnownTargets(adjacency, nodes, u) == |Succ(adjacency, u) * nodes|
  {
  }

  lemma ColumnOfFlow(adjacency: Graph, nodes: set<Node>, ranks: Ranks, u: Node)
    ensures Sum(nodes, Column(Flow(adjacency, ranks), u))
         == Sum(Succ(adjacency, u) * nodes, Constant(Share(adjacency, ranks, u)))
  {
    hide Share, Sum;
    SumRestrict(nodes, Succ(adjacency, u), Constant(Share(adjacency, ranks, u)), Column(Flow(adjacency, ranks), u));
    assert nodes * Succ(adjacency, u) == Succ(adjacency, u) * nodes;
  }

  /** Summing what every node receives is summing what every node sends to known targets. */
  lemma ReceivedIsSent(adjacency: Graph, reverse: Graph, nodes: set<Node>, ranks: Ranks)
    requires Opposite(adjacency, reverse) && SourcesKnown(reverse, nodes)
    ensures Sum(nodes, Received(adjacency, reverse, ranks)) == Sum(nodes, Sent(adjacency, nodes, ranks))
  {
    hide Received, Sent, Flow, Opposite, SourcesKnown, Sum, RowSums, ColumnSums;
    var a := Flow(adjacency, ranks);
    forall v | v in nodes ensures Received(adjacency, reverse, ranks)(v) == RowSums(a, nodes)(v) {
      ReceivedRow(adjacency, reverse, nodes, ranks, v);
    }
    SumSame(nodes, Received(adjacency, reverse, ranks), RowSums(a, nodes));
    SumExchange(nodes, nodes, a);
    forall u | u in nodes ensures ColumnSums(a, nodes)(u) == Sent(adjacency, nodes, ranks)(u) {
      SentColumn(adjacency, nodes, ranks, u);
    }
    SumSame(nodes, ColumnSums(a, nodes), Sent(adjacency, nodes, ranks));
  }

  lemma Quotient(a: real, b: real)
    requires b != 0.0
    ensures a / b * b == a
  {
  }

  lemma Distribute(a: real, m: nat, n: nat)
    ensures a * (m + n) as real == a * m as real + a * n as real
  {
  }

  lemma SplitShare(rank: real, degree: nat, known: nat, unknown: nat)
    requires degree == known + unknown && degree > 0
    ensures rank == rank / degree as real * known as real + rank / degree as real * unknown as real
  {
    Quotient(rank, degree as real);
    Distribute(rank / degree as real, known, unknown);
  }

  lemma SplitSet(s: set<Node>, nodes: set<Node>)
    ensures |s| == |s * nodes| + |s - nodes|
  {
    assert s == s * nodes + (s - nodes);
  }

  lemma TargetsSplit(adjacency: Graph, nodes: set<Node>, u: Node)
    ensures Degree(adjacency, u) == KnownTargets(adjacency, nodes, u) + UnknownTargets(adjacency, nodes, u)
    ensures Degree(adjacency, u) == 0 <==> Succ(adjacency, u) == {}
  {
    SplitSet(Succ(adjacency, u), nodes);
  }

  /** A node's rank is kept by the sink pool, sent to known targets, or lost. */
  lemma RankSplits(adjacency: Graph, nodes: set<Node>, ranks: Ranks, u: Node)
    ensures At(ranks, u) == Kept(adjacency, ranks)(u) + Sent(adjacency, nodes, ranks)(u)
        + Lost(adjacency, nodes, ranks)(u)
  {
    hide KnownTargets, UnknownTargets, Degree, Succ, At;
    TargetsSplit(adjacency, nodes, u);
    var degree := Degree(adjacency, u);
    if degree > 0 {
      SplitShare(At(ranks, u), degree, KnownTargets(adjacency, nodes, u), UnknownTargets(adjacency, nodes, u));
    }
  }

  lemma TotalSplits(adjacency: Graph, nodes: set<Node>, ranks: Ranks)
    ensures Total(nodes, ranks) == Sum(nodes, Kept(adjacency, ranks)) + Sum(nodes, Sent(adjacency, nodes, ranks))
                                 + Leak(adjacency, nodes, ranks)
  {
    hide Kept, Sent, Lost;
    var kept, sent, lost := Kept(adjacency, ranks), Sent(adjacency, nodes, ranks), Lost(adjacency, nodes, ranks);
    forall u | u in nodes ensures At(ranks, u) == kept(u) + sent(u) + lost(u) {
      RankSplits(adjacency, nodes, ranks, u);
    }
    var both := u => kept(u) + sent(u);
    SumAdd(nodes, kept, sent, both);
    SumAdd(nodes, both, lost, RankOf(ranks));
  }

  lemma NextSplits(adjacency: Graph, reverse: Graph, nodes: set<Node>, damping: real, ranks: Ranks)
    requires nodes != {}
    ensures Total(nodes, Iterate(adjacency, reverse, nodes, damping, ranks))
         == Base(adjacency, nodes, damping, ranks) * |nodes| as real
             + damping * Sum(nodes, Received(adjacency, reverse, ranks))
  {
    hide Base, Received, Sum;
    var next := Iterate(adjacency, reverse, nodes, damping, ranks);
    var base := Base(adjacency, nodes, damping, ranks);
    var received := Received(adjacency, reverse, ranks);
    var constant := Constant(base);
    var scaled := v => Times(damping, received(v));
    SumScale(nodes, received, damping, scaled);
    SumConstant(nodes, constant, base);
    forall v | v in nodes ensures RankOf(next)(v) == constant(v) + scaled(v) {}
    SumAdd(nodes, constant, scaled, RankOf(next));
  }

  /** The exact balance of one iteration, whatever the damping: only rank sent outside the symbols is missing. */
  lemma Balance(adjacency: Graph, reverse: Graph, nodes: set<Node>, damping: real, ranks: Ranks)
    requires nodes != {} && Opposite(adjacency, reverse) && SourcesKnown(reverse, nodes)
    ensures Total(nodes, Iterate(adjacency, reverse, nodes, damping, ranks))
         == (1.0 - damping) + damping * (Total(nodes, ranks) - Leak(adjacency, nodes, ranks))
  {
    hide Received, Sent, Kept, Sum, Iterate, Total, Leak;
    NextSplits(adjacency, reverse, nodes, damping, ranks);
    ReceivedIsSent(adjacency, reverse, nodes, ranks);
    TotalSplits(adjacency, nodes, ranks);
    var sink, sent := Sum(nodes, Kept(adjacency, ranks)), Sum(nodes, Sent(adjacency, nodes, ranks));
    BaseTimes(damping, sink, |nodes| as real);
    BalanceAlgebra(damping, sink, sent, Total(nodes, ranks), Leak(adjacency, nodes, ranks));
  }

  lemma BaseTimes(damping: real, sink: real, n: real)
    requires n != 0.0
    ensures ((1.0 - damping) / n + damping * sink / n) * n == (1.0 - damping) + damping * sink
  {
    Quotient(1.0 - damping, n);
    Quotient(damping * sink, n);
  }

  lemma BalanceAlgebra(d: real, sink: real, received: real, total: real, leak: real)
    requires total == sink + received + leak
    ensures (1.0 - d) + d * sink + d * received == (1.0 - d) + d * (total - leak)
  {
  }

  lemma StartTotal(adjacency: Graph, reverse: Graph, nodes: set<Node>, damping: real)
    requires nodes != {}
    ensures Total(nodes, RanksAfter(adjacency, reverse, nodes, damping, 0)) == 1.0
  {
    hide Sum;
    var n := |nodes| as real;
    var ranks := RanksAfter(adjacency, reverse, nodes, damping, 0);
    forall v | v in nodes ensures RankOf(ranks)(v) == 1.0 / n {}
    SumConstant(nodes, RankOf(ranks), 1.0 / n);
    Quotient(1.0, n);
  }

  lemma NoLeak(adjacency: Graph, nodes: set<Node>, ranks: Ranks)
    requires NoDangling(adjacency, nodes)
    ensures Leak(adjacency, nodes, ranks) == 0.0
  {
    hide Sum;
    forall u | u in nodes ensures Lost(adjacency, nodes, ranks)(u) == 0.0 {
      assert Succ(adjacency, u) - nodes == {};
      assert UnknownTargets(adjacency, nodes, u) == 0;
    }
    SumConstant(nodes, Lost(adjacency, nodes, ranks), 0.0);
  }

  /** With every edge endpoint a symbol, every iteration keeps the ranks summing to one, for any damping factor. */
  lemma {:induction false} Conserved(adjacency: Graph, reverse: Graph, nodes: set<Node>, damping: real, k: nat)
    requires nodes != {} && Opposite(adjacency, reverse) && SourcesKnown(reverse, nodes) && NoDangling(adjacency, nodes)
    ensures Total(nodes, RanksAfter(adjacency, reverse, nodes, damping, k)) == 1.0
  {
    hide Sum, Opposite, SourcesKnown, NoDangling, Iterate, Total, Leak;
    if k == 0 {
      StartTotal(adjacency, reverse, nodes, damping);
    } else {
      var ranks := RanksAfter(adjacency, reverse, nodes, damping, k - 1);
      Conserved(adjacency, reverse, nodes, damping, k - 1);
      NoLeak(adjacency, nodes, ranks);
      Balance(adjacency, reverse, nodes, damping, ranks);
    }
  }

  ghost predicate Nonnegative(ranks: Ranks) {
    forall v :: v in ranks ==> ranks[v] >= 0.0
  }

  lemma ShareNonnegative(adjacency: Graph, ranks: Ranks, u: Node)
    requires Nonnegative(ranks)
    ensures Share(adjacency, ranks, u) >= 0.0
    ensures UnknownTargets(adjacency, ranks.Keys, u) >= 0
  {
    QuotientNonnegative(At(ranks, u), MaxOne(Degree(adjacency, u)) as real);
  }

  lemma QuotientNonnegative(a: real, b: real)
    requires a >= 0.0 && b > 0.0
    ensures a / b >= 0.0
  {
  }

  lemma ProductNonnegative(a: real, b: real)
    requires a >= 0.0 && b >= 0.0
    ensures a * b >= 0.0
  {
  }

  lemma KeptNonnegative(adjacency: Graph, nodes: set<Node>, ranks: Ranks)
    requires Nonnegative(ranks)
    ensures Sum(nodes, Kept(adjacency, ranks)) >= 0.0
  {
    SumAtLeast(nodes, Kept(adjacency, ranks));
  }

  lemma ReceivedNonnegative(adjacency: Graph, reverse: Graph, ranks: Ranks, v: Node)
    requires Nonnegative(ranks)
    ensures Received(adjacency, reverse, ranks)(v) >= 0.0
  {
    hide Share;
    forall u ensures Shares(adjacency, ranks)(u) >= 0.0 { ShareNonnegative(adjacency, ranks, u); }
    SumAtLeast(Succ(reverse, v), Shares(adjacency, ranks));
  }

  lemma BaseFloor(adjacency: Graph, nodes: set<Node>, damping: real, ranks: Ranks)
    requires nodes != {} && 0.0 <= damping && Nonnegative(ranks)
    ensures Base(adjacency, nodes, damping, ranks) >= (1.0 - damping) / |nodes| as real
  {
    hide Sum, Kept;
    KeptNonnegative(adjacency, nodes, ranks);
    var sink := Sum(nodes, Kept(adjacency, ranks));
    ProductNonnegative(damping, sink);
    QuotientNonnegative(damping * sink, |nodes| as real);
  }

  /** One iteration from nonnegative ranks gives every node at least its (1 - damping) / n. */
  lemma StepFloor(adjacency: Graph, reverse: Graph, nodes: set<Node>, damping: real, ranks: Ranks, v: Node)
    requires nodes != {} && 0.0 <= damping <= 1.0 && Nonnegative(ranks)
    ensures NextRank(adjacency, reverse, nodes, damping, ranks, v) >= (1.0 - damping) / |nodes| as real
  {
    hide Base, Received;
    BaseFloor(adjacency, nodes, damping, ranks);
    ReceivedNonnegative(adjacency, reverse, ranks, v);
    ProductNonnegative(damping, Received(adjacency, reverse, ranks)(v));
  }

  lemma {:induction false} RankFloor(adjacency: Graph, reverse: Graph, nodes: set<Node>, damping: real, k: nat)
    requires nodes != {} && 0.0 <= damping <= 1.0
    ensures RanksAfter(adjacency, reverse, nodes, damping, k).Keys == nodes
    ensures Nonnegative(RanksAfter(adjacency, reverse, nodes, damping, k))
    ensures k >= 1 ==> forall v :: v in nodes ==>
              RanksAfter(adjacency, reverse, nodes, damping, k)[v] >= (1.0 - damping) / |nodes| as real
  {
    hide NextRank;
    var n := |nodes| as real;
    QuotientNonnegative(1.0, n);
    QuotientNonnegative(1.0 - damping, n);
    if k >= 1 {
      RankFloor(adjacency, reverse, nodes, damping, k - 1);
      forall v | v in nodes ensures RanksAfter(adjacency, reverse, nodes, damping, k)[v] >= (1.0 - damping) / n {
        StepFloor(adjacency, reverse, nodes, damping, RanksAfter(adjacency, reverse, nodes, damping, k - 1), v);
      }
    }
  }

  lemma LeakNonnegative(adjacency: Graph, nodes: set<Node>, ranks: Ranks)
    requires Nonnegative(ranks)
    ensures Leak(adjacency, nodes, ranks) >= 0.0
    ensures forall u :: u in nodes ==> Leak(adjacency, nodes, ranks) >= Lost(adjacency, nodes, ranks)(u)
  {
    hide Sum, Share, UnknownTargets;
    forall u | u in nodes ensures Lost(adjacency, nodes, ranks)(u) >= 0.0 {
      ShareNonnegative(adjacency, ranks, u);
      ProductNonnegative(Share(adjacency, ranks, u), UnknownTargets(adjacency, nodes, u) as real);
    }
    SumAtLeast(nodes, Lost(adjacency, nodes, ranks));
  }

  /** A target that is not a symbol drains rank in the very first iteration, when every rank is still positive. */
  lemma FirstLeak(adjacency: Graph, reverse: Graph, nodes: set<Node>, damping: real, u: Node)
    requires nodes != {} && 0.0 <= damping <= 1.0 && u in nodes && !(Succ(adjacency, u) <= nodes)
    ensures Leak(adjacency, nodes, RanksAfter(adjacency, reverse, nodes, damping, 0)) > 0.0
  {
    hide Leak, Share, UnknownTargets;
    var ranks := RanksAfter(adjacency, reverse, nodes, damping, 0);
    RankFloor(adjacency, reverse, nodes, damping, 0);
    LeakNonnegative(adjacency, nodes, ranks);
    FirstShare(adjacency, nodes, ranks, u);
    PositiveProduct(Share(adjacency, ranks, u), UnknownTargets(adjacency, nodes, u) as real);
  }

  lemma FirstShare(adjacency: Graph, nodes: set<Node>, ranks: Ranks, u: Node)
    requires nodes != {} && u in ranks && ranks[u] == 1.0 / |nodes| as real && !(Succ(adjacency, u) <= nodes)
    ensures Share(adjacency, ranks, u) > 0.0 && UnknownTargets(adjacency, nodes, u) > 0
  {
    var w :| w in Succ(adjacency, u) && w !in nodes;
    var unknown := Succ(adjacency, u) - nodes;
    assert unknown == (unknown - {w}) + {w};
    assert |unknown| == |unknown - {w}| + 1;
    PositiveQuotient(1.0, |nodes| as real);
    PositiveQuotient(At(ranks, u), MaxOne(Degree(adjacency, u)) as real);
  }

  lemma PositiveQuotient(a: real, b: real)
    requires a > 0.0 && b > 0.0
    ensures a / b > 0.0
  {
  }

  lemma PositiveProduct(a: real, b: real)
    requires a > 0.0 && b > 0.0
    ensures a * b > 0.0
  {
  }

  lemma DrainedStep(adjacency: Graph, reverse: Graph, nodes: set<Node>, damping: real, ranks: Ranks)
    requires nodes != {} && Opposite(adjacency, reverse) && SourcesKnown(reverse, nodes) && 0.0 < damping
    requires Total(nodes, ranks) - Leak(adjacency, nodes, ranks) < 1.0
    ensures Total(nodes, Iterate(adjacency, reverse, nodes, damping, ranks)) < 1.0
  {
    hide Opposite, SourcesKnown, Iterate, Total, Leak;
    Balance(adjacency, reverse, nodes, damping, ranks);
    var total, leak, next := Total(nodes, ranks), Leak(adjacency, nodes, ranks),
        Total(nodes, Iterate(adjacency, reverse, nodes, damping, ranks));
    DampedBelowOne(damping, total, leak, next);
  }

  lemma LeakAfter(adjacency: Graph, reverse: Graph, nodes: set<Node>, damping: real, k: nat)
    requires nodes != {} && 0.0 <= damping <= 1.0
    ensures Leak(adjacency, nodes, RanksAfter(adjacency, reverse, nodes, damping, k)) >= 0.0
  {
    hide RanksAfter, Leak, Lost;
    RankFloor(adjacency, reverse, nodes, damping, k);
    LeakNonnegative(adjacency, nodes, RanksAfter(adjacency, reverse, nodes, damping, k));
  }

  lemma {:induction false} Drained(adjacency: Graph, reverse: Graph, nodes: set<Node>, damping: real, k: nat, u: Node)
    requires nodes != {} && Opposite(adjacency, reverse) && SourcesKnown(reverse, nodes)
    requires 0.0 < damping <= 1.0 && k >= 1 && u in nodes && !(Succ(adjacency, u) <= nodes)
    ensures Total(nodes, RanksAfter(adjacency, reverse, nodes, damping, k)) < 1.0
  {
    hide Opposite, SourcesKnown, Iterate, Total, Leak;
    var ranks := RanksAfter(adjacency, reverse, nodes, damping, k - 1);
    LeakAfter(adjacency, reverse, nodes, damping, k - 1);
    if k == 1 {
      StartTotal(adjacency, reverse, nodes, damping);
      FirstLeak(adjacency, reverse, nodes, damping, u);
    } else {
      Drained(adjacency, reverse, nodes, damping, k - 1, u);
    }
    DrainedStep(adjacency, reverse, nodes, damping, ranks);
  }

  lemma DampedBelowOne(d: real, total: real, leak: real, next: real)
    requires 0.0 < d && total - leak < 1.0
    requires next == (1.0 - d) + d * (total - leak)
    ensures next < 1.0
  {
    PositiveProduct(d, 1.0 - (total - leak));
  }

  lemma {:induction false} UndampedTotal(adjacency: Graph, reverse: Graph, nodes: set<Node>, k: nat)
    requires nodes != {} && Opposite(adjacency, reverse) && SourcesKnown(reverse, nodes)
    ensures Total(nodes, RanksAfter(adjacency, reverse, nodes, 0.0, k)) == 1.0
  {
    hide Sum, Opposite, SourcesKnown, Iterate, Total, Leak;
    if k == 0 {
      StartTotal(adjacency, reverse, nodes, 0.0);
    } else {
      Balance(adjacency, reverse, nodes, 0.0, RanksAfter(adjacency, reverse, nodes, 0.0, k - 1));
    }
  }

  /** Exactly when the ranks still sum to one after at least one iteration: no edge leads outside the symbols, or the
      damping is zero. */
  lemma ConservedIff(adjacency: Graph, reverse: Graph, nodes: set<Node>, damping: real, k: nat)
    requires nodes != {} && Opposite(adjacency, reverse) && SourcesKnown(reverse, nodes)
    requires 0.0 <= damping <= 1.0 && k >= 1
    ensures Total(nodes, RanksAfter(adjacency, reverse, nodes, damping, k)) == 1.0
       <==> (NoDangling(adjacency, nodes) || damping == 0.0)
  {
    hide Sum, Opposite, SourcesKnown, Iterate, Total, Leak;
    if NoDangling(adjacency, nodes) {
      Conserved(adjacency, reverse, nodes, damping, k);
    } else if damping == 0.0 {
      UndampedTotal(adjacency, reverse, nodes, k);
    } else {
      var u :| u in nodes && !(Succ(adjacency, u) <= nodes);
      Drained(adjacency, reverse, nodes, damping, k, u);
    }
  }

  datatype Outcome = Ranked(rows: seq<(Node, real)>) | KeyError(node: Node)

  /** The sort key (-rank, node). */
  predicate RankLe(a: (Node, real), b: (Node, real)) {
    a.1 > b.1 || (a.1 == b.1 && NodeLe(a.0, b.0))
  }

  lemma RankLeIsTotal()
    ensures TotalOrder(RankLe)
  {
    NodeLeIsLinear();
    forall a: (Node, real), b: (Node, real) ensures RankLe(a, b) || RankLe(b, a) {
      assert NodeLe(a.0, b.0) || NodeLe(b.0, a.0);
    }
    forall a: (Node, real), b: (Node, real), c: (Node, real) | RankLe(a, b) && RankLe(b, c) ensures RankLe(a, c) {
      assert NodeLe(a.0, b.0) && NodeLe(b.0, c.0) ==> NodeLe(a.0, c.0);
    }
  }

  method SumRanks(nodes: seq<Node>, adjacency: Graph, ranks: Ranks) returns (sink: real)
    requires NoDuplicates(nodes) && ranks.Keys == Elements(nodes)
    ensures sink == Sum(Elements(nodes), Kept(adjacency, ranks))
  {
    hide Sum;
    sink := 0.0;
    NothingSummed(Kept(adjacency, ranks));
    for i := 0 to |nodes|
      invariant sink == Sum(Elements(nodes[..i]), Kept(adjacency, ranks))
    {
      NextElement(nodes, i);
      SumRemove(Elements(nodes[..i + 1]), Kept(adjacency, ranks), nodes[i]);
      assert nodes[i] in Elements(nodes);
      if Succ(adjacency, nodes[i]) == {} {
        sink := sink + ranks[nodes[i]];
      }
    }
    assert nodes[..|nodes|] == nodes;
  }

  lemma NothingSummed(f: Node -> real)
    ensures Sum(Elements([]), f) == 0.0
  {
    assert Elements<Node>([]) == {};
  }

  lemma NextElement(nodes: seq<Node>, i: nat)
    requires NoDuplicates(nodes) && i < |nodes|
    ensures nodes[i] in Elements(nodes[..i + 1]) && Elements(nodes[..i + 1]) - {nodes[i]} == Elements(nodes[..i])
  {
    assert nodes[..i + 1] == nodes[..i] + [nodes[i]];
    ElementsConcat(nodes[..i], [nodes[i]]);
    assert Elements([nodes[i]]) == {nodes[i]};
    assert nodes[i] !in nodes[..i];
  }

  datatype Inflow = Inflow(value: real) | Missing(source: Node)

  /** `for source in reverse.get(node, ())`, in whatever order the set yields its members. */
  method AddIncoming(adjacency: Graph, sources: set<Node>, ranks: Ranks, damping: real, start: real) returns (r: Inflow)
    ensures r.Inflow? <==> sources <= ranks.Keys
    ensures r.Inflow? ==> r.value == start + Times(damping, Sum(sources, Shares(adjacency, ranks)))
    ensures r.Missing? ==> r.source in sources && r.source !in ranks
  {
    hide Share, Times, Sum;
    var rest := sources;
    var value := start;
    while rest != {}
      invariant rest <= sources && sources - rest <= ranks.Keys
      invariant value + Times(damping, Sum(rest, Shares(adjacency, ranks)))
           == start + Times(damping, Sum(sources, Shares(adjacency, ranks)))
      decreases rest
    {
      var source :| source in rest;
      if source !in ranks {
        return Missing(source);
      }
      SumRemove(rest, Shares(adjacency, ranks), source);
      OneShare(adjacency, ranks, source, damping, Sum(rest - {source}, Shares(adjacency, ranks)));
      value := value + ShareOut(damping, ranks[source], Degree(adjacency, source));
      rest := rest - {source};
    }
    NothingShared(damping, Shares(adjacency, ranks));
    r := Inflow(value);
  }

  function ShareOut(damping: real, rank: real, degree: nat): real {
    damping * rank / MaxOne(degree) as real
  }

  lemma OneShare(adjacency: Graph, ranks: Ranks, u: Node, damping: real, tail: real)
    requires u in ranks
    ensures ShareOut(damping, ranks[u], Degree(adjacency, u)) + Times(damping, tail)
         == Times(damping, Shares(adjacency, ranks)(u) + tail)
  {
    hide Times;
    var d := MaxOne(Degree(adjacency, u)) as real;
    var share := ranks[u] / d;
    assert Shares(adjacency, ranks)(u) == share;
    ScaleQuotient(damping, ranks[u], d, share);
    TimesSum(damping, share, tail);
  }

  lemma ScaleQuotient(c: real, a: real, d: real, q: real)
    requires d != 0.0 && q == a / d
    ensures c * a / d == c * q
  {
    assert a == q * d;
    assert c * a == (c * q) * d;
    QuotientOf(c * a, d, c * q);
  }

  lemma QuotientOf(x: real, d: real, y: real)
    requires d != 0.0 && x == y * d
    ensures x / d == y
  {
  }

  lemma TimesSum(c: real, a: real, tail: real)
    ensures c * a + Times(c, tail) == Times(c, a + tail)
  {
  }

  lemma NothingShared(damping: real, f: Node -> real)
    ensures Times(damping, Sum({}, f)) == 0.0
  {
    hide Times;
    assert Sum({}, f) == 0.0;
    TimesZero(damping);
  }

  lemma TimesZero(c: real)
    ensures Times(c, 0.0) == 0.0
  {
  }

  /** One iteration; a KeyError when a symbol has an edge from something that is not a symbol. */
  method Step(nodes: seq<Node>, adjacency: Graph, reverse: Graph, damping: real, ranks: Ranks)
    returns (next: Ranks, missing: set<Node>)
    requires NoDuplicates(nodes) && nodes != [] && Elements(nodes) != {} && ranks.Keys == Elements(nodes)
    ensures missing == {} <==> SourcesKnown(reverse, Elements(nodes))
    ensures missing == {} ==> next == Iterate(adjacency, reverse, Elements(nodes), damping, ranks)
    ensures forall u :: u in missing ==> u !in Elements(nodes)
  {
    hide Sum, Kept, Share, NextRank, NoDuplicates;
    CountElements(nodes);
    var sink := SumRanks(nodes, adjacency, ranks);
    next, missing := map[], {};
    for i := 0 to |nodes|
      invariant forall j :: 0 <= j < i ==> Succ(reverse, nodes[j]) <= Elements(nodes)
      invariant next.Keys == Elements(nodes[..i])
      invariant forall v :: v in next ==> next[v] == NextRank(adjacency, reverse, Elements(nodes), damping, ranks, v)
    {
      assert nodes[i] in Elements(nodes);
      var value, lost := NextFor(nodes, adjacency, reverse, damping, ranks, sink, nodes[i]);
      if lost != {} {
        missing := lost;
        return;
      }
      assert nodes[..i + 1] == nodes[..i] + [nodes[i]];
      ElementsConcat(nodes[..i], [nodes[i]]);
      next := next[nodes[i] := value];
    }
    assert nodes[..|nodes|] == nodes;
    forall v | v in Elements(nodes) ensures Succ(reverse, v) <= Elements(nodes) {
      var i := IndexOf(nodes, v);
    }
  }

  /** The new rank of one node: its base, then the share of every source in turn. */
  method NextFor(nodes: seq<Node>, adjacency: Graph, reverse: Graph, damping: real, ranks: Ranks, sink: real,
                 node: Node)
    returns (value: real, missing: set<Node>)
    requires |Elements(nodes)| == |nodes| && nodes != [] && Elements(nodes) != {} && ranks.Keys == Elements(nodes)
    requires sink == Sum(Elements(nodes), Kept(adjacency, ranks))
    ensures missing == {} <==> Succ(reverse, node) <= Elements(nodes)
    ensures missing == {} ==> value == NextRank(adjacency, reverse, Elements(nodes), damping, ranks, node)
    ensures forall u :: u in missing ==> u in Succ(reverse, node) && u !in Elements(nodes)
  {
    hide Sum, Kept, Share, BaseRank, Times;
    value, missing := BaseRank(damping, sink, |nodes|), {};
    var inflow := AddIncoming(adjacency, Succ(reverse, node), ranks, damping, value);
    if inflow.Missing? {
      missing := {inflow.source};
    } else {
      value := inflow.value;
    }
  }

  lemma {:induction false} CountElements(nodes: seq<Node>)
    requires NoDuplicates(nodes)
    ensures |Elements(nodes)| == |nodes|
  {
    if nodes == [] {
      assert Elements(nodes) == {};
    } else {
      var i := |nodes| - 1;
      NextElement(nodes, i);
      assert nodes[..i + 1] == nodes;
      CountElements(nodes[..i]);
      assert Elements(nodes) == Elements(nodes[..i]) + {nodes[i]};
    }
  }

  /** Every node starts with an equal share. */
  method Uniform(nodes: seq<Node>, ghost adjacency: Graph, ghost reverse: Graph, ghost damping: real)
    returns (ranks: Ranks)
    requires NoDuplicates(nodes) && nodes != [] && Elements(nodes) != {}
    ensures ranks == RanksAfter(adjacency, reverse, Elements(nodes), damping, 0) && ranks.Keys == Elements(nodes)
  {
    hide RanksAfter, NoDuplicates;
    CountElements(nodes);
    assert forall v :: v in nodes <==> v in Elements(nodes);
    ranks := map v | v in nodes :: 1.0 / |nodes| as real;
    FirstRanks(adjacency, reverse, Elements(nodes), damping, |nodes|);
  }

  /** `for _ in range(iterations)`: the ranks after all iterations, or the sources missing from the symbols. */
  method Iterations(nodes: seq<Node>, adjacency: Graph, reverse: Graph, damping: real, iterations: int)
    returns (ranks: Ranks, missing: set<Node>)
    requires NoDuplicates(nodes) && nodes != [] && Elements(nodes) != {}
    ensures missing == {} <==> iterations <= 0 || SourcesKnown(reverse, Elements(nodes))
    ensures missing == {} ==>
              && ranks == RanksAfter(adjacency, reverse, Elements(nodes), damping, if iterations < 0 then 0
                                     else iterations)
              && ranks.Keys == Elements(nodes)
  {
    hide RanksAfter, SourcesKnown, NoDuplicates, Iterate, Elements, Succ;
    ghost var symbols := Elements(nodes);
    ranks := Uniform(nodes, adjacency, reverse, damping);
    missing := {};
    var i := 0;
    while i < iterations
      invariant 0 <= i && (i <= iterations || i == 0)
      invariant ranks == RanksAfter(adjacency, reverse, symbols, damping, i) && ranks.Keys == symbols
      invariant missing == {} && (i > 0 ==> SourcesKnown(reverse, symbols))
    {
      var next;
      next, missing := Step(nodes, adjacency, reverse, damping, ranks);
      if missing != {} {
        return;
      }
      NextRanks(adjacency, reverse, symbols, damping, i);
      ranks := next;
      i := i + 1;
    }
  }

  /** `pagerank`: the ranks after the requested iterations, largest first. */
  method PageRank(cg: CodeGraph, iterations: int, damping: real) returns (r: Outcome)
    ensures var nodes := cg.symbols.Keys;
            var adjacency, reverse := AdjacencyOf(cg, RANK_KINDS), ReverseOf(cg, RANK_KINDS);
            && (r.Ranked? <==> nodes == {} || iterations <= 0 || SourcesKnown(reverse, nodes))
            && (r.Ranked? && nodes == {} ==> r.rows == [])
            && (r.Ranked? && nodes != {} ==>
                  IsRanking(RanksAfter(adjacency, reverse, nodes, damping, if iterations < 0 then 0 else iterations),
                            r.rows))
  {
    hide RanksAfter, SourcesKnown, IsRanking, AdjacencyOf, ReverseOf, LinearOrder, TotalOrder, SortedBy, NoDuplicates;
    var adjacency := Adjacency(cg, RANK_KINDS);
    NodeLeIsLinear();
    LinearIsTotal(NodeLe);
    var nodes := SortedElements(NodeLe, cg.symbols.Keys);
    if nodes == [] {
      assert Elements(nodes) == {};
      return Ranked([]);
    }
    assert nodes[0] in Elements(nodes);
    var reverse := Reverse(cg, RANK_KINDS);
    var ranks, missing := Iterations(nodes, adjacency, reverse, damping, iterations);
    if missing != {} {
      var source :| source in missing;
      return KeyError(source);
    }
    var rows := RankRows(nodes, ranks);
    r := Ranked(rows);
  }

  lemma FirstRanks(adjacency: Graph, reverse: Graph, nodes: set<Node>, damping: real, n: nat)
    requires nodes != {} && n == |nodes|
    ensures RanksAfter(adjacency, reverse, nodes, damping, 0) == map v | v in nodes :: 1.0 / n as real
  {
  }

  lemma NextRanks(adjacency: Graph, reverse: Graph, nodes: set<Node>, damping: real, k: nat)
    requires nodes != {}
    ensures RanksAfter(adjacency, reverse, nodes, damping, k + 1)
         == Iterate(adjacency, reverse, nodes, damping, RanksAfter(adjacency, reverse, nodes, damping, k))
    ensures RanksAfter(adjacency, reverse, nodes, damping, k + 1).Keys == nodes
  {
    hide NextRank;
  }

  /** Every ranked node once, with its rank, in descending rank order. */
  ghost predicate IsRanking(ranks: Ranks, rows: seq<(Node, real)>) {
    && SortedBy(RankLe, rows) && NoDuplicates(rows)
    && (forall v, x :: (v, x) in rows <==> v in ranks && ranks[v] == x)
  }

  method RankRows(nodes: seq<Node>, ranks: Ranks) returns (rows: seq<(Node, real)>)
    requires NoDuplicates(nodes) && Elements(nodes) == ranks.Keys
    ensures IsRanking(ranks, rows)
  {
    assert forall i :: 0 <= i < |nodes| ==> nodes[i] in Elements(nodes);
    var listed := seq(|nodes|, i requires 0 <= i < |nodes| => (nodes[i], ranks[nodes[i]]));
    rows := Sort(RankLe, listed);
    RankLeIsTotal();
    SortIsSorted(RankLe, listed);
    SortKeepsNoDuplicates(RankLe, listed);
    forall v, x ensures (v, x) in rows <==> v in ranks && ranks[v] == x {
      SortMember(RankLe, listed, (v, x));
      if v in ranks {
        assert v in Elements(nodes);
        var i := IndexOf(nodes, v);
        assert listed[i] == (v, ranks[v]);
      }
    }
  }

  lemma GraphsAreOpposite(cg: CodeGraph)
    ensures Opposite(AdjacencyOf(cg, RANK_KINDS), ReverseOf(cg, RANK_KINDS))
  {
    hide AdjacencyOf, ReverseOf;
    forall u, v ensures u in Succ(ReverseOf(cg, RANK_KINDS), v) <==> v in Succ(AdjacencyOf(cg, RANK_KINDS), u) {
      ReverseOfAdjacency(cg, RANK_KINDS, u, v);
    }
  }

  lemma DanglingEdges(cg: CodeGraph)
    ensures NoDangling(AdjacencyOf(cg, RANK_KINDS), cg.symbols.Keys)
       <==> forall e :: e in cg.edges && e.kind in RANK_KINDS && e.source in cg.symbols ==> e.target in cg.symbols
  {
    hide AdjacencyOf, ReverseOf;
    forall u, v ensures v in Succ(AdjacencyOf(cg, RANK_KINDS), u)
                   <==> exists e :: e in cg.edges && e.kind in RANK_KINDS && e.source == u && e.target == v {
      ReverseOfAdjacency(cg, RANK_KINDS, u, v);
    }
  }

  /** In terms of the code graph: after at least one iteration the ranks of a run without KeyError sum to one
      exactly when no ranked edge leaves the symbols, or the damping factor is zero; and none is below its floor. */
  lemma RanksOfGraph(cg: CodeGraph, damping: real, k: nat)
    requires cg.symbols.Keys != {} && SourcesKnown(ReverseOf(cg, RANK_KINDS), cg.symbols.Keys)
    requires 0.0 <= damping <= 1.0 && k >= 1
    ensures var ranks := RanksAfter(AdjacencyOf(cg, RANK_KINDS), ReverseOf(cg, RANK_KINDS), cg.symbols.Keys, damping,
                                    k);
            && ranks.Keys == cg.symbols.Keys
            && (forall v :: v in ranks ==> ranks[v] >= (1.0 - damping) / |cg.symbols.Keys| as real)
            && (Total(cg.symbols.Keys, ranks) == 1.0 <==>
                  damping == 0.0 || forall e :: e in cg.edges && e.kind in RANK_KINDS && e.source in cg.symbols ==>
                      e.target in cg.symbols)
  {
    hide AdjacencyOf, ReverseOf, RanksAfter, Total, NoDangling, Opposite, SourcesKnown;
    GraphsAreOpposite(cg);
    DanglingEdges(cg);
    RankFloor(AdjacencyOf(cg, RANK_KINDS), ReverseOf(cg, RANK_KINDS), cg.symbols.Keys, damping, k);
    ConservedIff(AdjacencyOf(cg, RANK_KINDS), ReverseOf(cg, RANK_KINDS), cg.symbols.Keys, damping, k);
  }
}
