/** Directed graphs as adjacency maps, paths, reachability and strongly connected components. */
module Reachability {
  import opened Ordering

  datatype Node = Node(id: string)
  type Graph = map<Node, set<Node>>

  predicate NodeLe(a: Node, b: Node) { StringLe(a.id, b.id) }

  lemma NodeLeIsLinear()
    ensures LinearOrder(NodeLe)
  {
    StringLeIsLinear();
    forall a: Node, b: Node ensures NodeLe(a, b) || NodeLe(b, a) {
      assert StringLe(a.id, b.id) || StringLe(b.id, a.id);
    }
    forall a: Node, b: Node, c: Node | NodeLe(a, b) && NodeLe(b, c) ensures NodeLe(a, c) {
      assert StringLe(a.id, b.id) && StringLe(b.id, c.id);
    }
    forall a: Node, b: Node | NodeLe(a, b) && NodeLe(b, a) ensures a == b {
      assert StringLe(a.id, b.id) && StringLe(b.id, a.id);
    }
  }

  /** `adjacency.get(node, ())`: a node without an entry has no successors. */
  function Succ(g: Graph, v: Node): set<Node> {
    if v in g then g[v] else {}
  }

  ghost predicate IsPath(g: Graph, p: seq<Node>) {
    forall i :: 0 <= i < |p| - 1 ==> p[i + 1] in Succ(g, p[i])
  }

  ghost predicate PathFromTo(g: Graph, p: seq<Node>, u: Node, v: Node) {
    |p| > 0 && p[0] == u && p[|p| - 1] == v && IsPath(g, p)
  }

  ghost predicate Reach(g: Graph, u: Node, v: Node) {
    exists p :: PathFromTo(g, p, u, v)
  }

  ghost predicate Closed(g: Graph, s: set<Node>) {
    forall v :: v in s ==> Succ(g, v) <= s
  }

  /** A strongly connected component: nonempty, and exactly the nodes each member can reach and return from. */
  ghost predicate IsScc(g: Graph, c: set<Node>) {
    c != {} && forall u, w :: u in c ==> (w in c <==> Reach(g, u, w) && Reach(g, w, u))
  }

  /** A node lies on a cycle when one of its successors leads back to it; a self edge counts. */
  ghost predicate OnCycle(g: Graph, v: Node) {
    exists s :: s in Succ(g, v) && Reach(g, s, v)
  }

  /** Every node with an entry, and everything an entry points at. */
  ghost function Universe(g: Graph): set<Node> {
    g.Keys + set v, w | v in g && w in g[v] :: w
  }

  lemma SuccInUniverse(g: Graph, v: Node)
    ensures Succ(g, v) <= Universe(g)
  {
  }

  lemma ReachSelf(g: Graph, u: Node)
    ensures Reach(g, u, u)
  {
    assert PathFromTo(g, [u], u, u);
  }

  lemma ReachStep(g: Graph, u: Node, v: Node, w: Node)
    requires Reach(g, u, v) && w in Succ(g, v)
    ensures Reach(g, u, w)
  {
    var p :| PathFromTo(g, p, u, v);
    assert PathFromTo(g, p + [w], u, w);
  }

  lemma ReachEdge(g: Graph, v: Node, w: Node)
    requires w in Succ(g, v)
    ensures Reach(g, v, w)
  {
    ReachSelf(g, v);
    ReachStep(g, v, v, w);
  }

  lemma ReachTransitive(g: Graph, u: Node, v: Node, w: Node)
    requires Reach(g, u, v) && Reach(g, v, w)
    ensures Reach(g, u, w)
  {
    var p :| PathFromTo(g, p, u, v);
    var q :| PathFromTo(g, q, v, w);
    var r := p + q[1..];
    forall i | 0 <= i < |r| - 1 ensures r[i + 1] in Succ(g, r[i]) {
      if i >= |p| - 1 { assert q[i - |p| + 2] in Succ(g, q[i - |p| + 1]); }
    }
    assert PathFromTo(g, r, u, w);
  }

  /** A path that leaves `s` does so over some edge. */
  lemma {:induction false} ExitEdge(g: Graph, s: set<Node>, p: seq<Node>, u: Node, v: Node) returns (a: Node, b: Node)
    requires PathFromTo(g, p, u, v) && u in s && v !in s
    ensures a in s && b !in s && b in Succ(g, a) && Reach(g, u, a) && Reach(g, b, v)
  {
    if p[1] !in s {
      a, b := p[0], p[1];
      ReachSelf(g, a);
      assert PathFromTo(g, p[1..], b, v);
    } else {
      assert PathFromTo(g, p[1..], p[1], v);
      a, b := ExitEdge(g, s, p[1..], p[1], v);
      ReachEdge(g, u, p[1]);
      ReachTransitive(g, u, p[1], a);
    }
  }

  lemma ClosedKeepsReach(g: Graph, s: set<Node>, u: Node, v: Node)
    requires Closed(g, s) && u in s && Reach(g, u, v)
    ensures v in s
  {
    if v !in s {
      var p :| PathFromTo(g, p, u, v);
      var a, b := ExitEdge(g, s, p, u, v);
    }
  }

  /** Everything a nontrivial path visits after its first node is reached from a successor. */
  lemma FirstStep(g: Graph, u: Node, v: Node) returns (s: Node)
    requires Reach(g, u, v) && u != v
    ensures s in Succ(g, u) && Reach(g, s, v)
  {
    var p :| PathFromTo(g, p, u, v);
    s := p[1];
    assert PathFromTo(g, p[1..], s, v);
  }

  /** A component with two members, or one with a self edge, consists of cycle nodes; no other does. */
  lemma CycleNodes(g: Graph, c: set<Node>, v: Node)
    requires IsScc(g, c) && v in c
    ensures OnCycle(g, v) <==> (c != {v} || v in Succ(g, v))
  {
    if c != {v} {
      var w :| w in c && w != v;
      var s := FirstStep(g, v, w);
      ReachTransitive(g, s, w, v);
    }
    if v in Succ(g, v) { ReachSelf(g, v); }
    if OnCycle(g, v) {
      var s :| s in Succ(g, v) && Reach(g, s, v);
      ReachEdge(g, v, s);
    }
  }

  lemma SccsDisjointOrEqual(g: Graph, c: set<Node>, d: set<Node>, v: Node)
    requires IsScc(g, c) && IsScc(g, d) && v in c && v in d
    ensures c == d
  {
    assert forall w :: w in c <==> w in d;
  }
}
