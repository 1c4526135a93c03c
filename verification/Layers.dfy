/** Breadth-first layers: the nodes within n edges of a seed set, and exact distances. */
module Layers {
  import opened Reachability

  ghost function NextNodes(g: Graph, s: set<Node>): set<Node> {
    set u, v | u in s && v in Succ(g, u) :: v
  }

  /** The nodes within n edges of a seed. */
  ghost function Layer(g: Graph, seeds: set<Node>, n: nat): set<Node> {
    if n == 0 then seeds else Layer(g, seeds, n - 1) + NextNodes(g, Layer(g, seeds, n - 1))
  }

  ghost predicate IsDistance(g: Graph, seeds: set<Node>, v: Node, d: nat) {
    v in Layer(g, seeds, d) && forall k: nat :: v in Layer(g, seeds, k) ==> d <= k
  }

  lemma LayerStep(g: Graph, seeds: set<Node>, n: nat, u: Node, v: Node)
    requires u in Layer(g, seeds, n) && v in Succ(g, u)
    ensures v in Layer(g, seeds, n + 1)
  {
    assert v in NextNodes(g, Layer(g, seeds, n));
  }

  lemma {:induction false} LayerGrows(g: Graph, seeds: set<Node>, m: nat, n: nat)
    requires m <= n
    ensures Layer(g, seeds, m) <= Layer(g, seeds, n)
  {
    if m < n { LayerGrows(g, seeds, m, n - 1); }
  }

  /** The layers are what paths say: v is in layer n exactly when a path of at most n edges leads to it from a seed. */
  lemma {:induction false} LayerIsPaths(g: Graph, seeds: set<Node>, n: nat, v: Node)
    ensures v in Layer(g, seeds, n) <==> exists p, s :: s in seeds && PathFromTo(g, p, s, v) && |p| <= n + 1
  {
    if v in Layer(g, seeds, n) {
      var p, s := LayerPath(g, seeds, n, v);
    }
    if p, s :| s in seeds && PathFromTo(g, p, s, v) && |p| <= n + 1 {
      PathLayer(g, seeds, p, s, v);
      LayerGrows(g, seeds, |p| - 1, n);
    }
  }

  lemma {:induction false} LayerPath(g: Graph, seeds: set<Node>, n: nat, v: Node) returns (p: seq<Node>, s: Node)
    requires v in Layer(g, seeds, n)
    ensures s in seeds && PathFromTo(g, p, s, v) && |p| <= n + 1
  {
    if n == 0 {
      p, s := [v], v;
    } else if v in Layer(g, seeds, n - 1) {
      p, s := LayerPath(g, seeds, n - 1, v);
    } else {
      var u :| u in Layer(g, seeds, n - 1) && v in Succ(g, u);
      p, s := LayerPath(g, seeds, n - 1, u);
      p := p + [v];
    }
  }

  lemma {:induction false} PathLayer(g: Graph, seeds: set<Node>, p: seq<Node>, s: Node, v: Node)
    requires s in seeds && PathFromTo(g, p, s, v)
    ensures v in Layer(g, seeds, |p| - 1)
  {
    if |p| > 1 {
      var q := p[..|p| - 1];
      assert PathFromTo(g, q, s, q[|q| - 1]);
      PathLayer(g, seeds, q, s, q[|q| - 1]);
      LayerStep(g, seeds, |q| - 1, q[|q| - 1], v);
    }
  }

  /** An entry of the search queue: a node, its recorded distance and the seed it was found from. */
  datatype Visit = Visit(node: Node, distance: nat, root: Node)

  ghost predicate Queued(queue: seq<Visit>, v: Node) {
    exists i :: 0 <= i < |queue| && queue[i].node == v
  }

  /** Every successor of u is already recorded, no more than one step further out. */
  ghost predicate Explored(g: Graph, dist: map<Node, nat>, u: Node) {
    u in dist && forall w :: w in Succ(g, u) ==> w in dist && dist[w] <= dist[u] + 1
  }

  ghost predicate EntriesOk(g: Graph, seeds: set<Node>, queue: seq<Visit>, dist: map<Node, nat>) {
    forall i :: 0 <= i < |queue| ==>
      && queue[i].node in dist && dist[queue[i].node] == queue[i].distance
      && queue[i].root in seeds && queue[i].node in Layer(g, {queue[i].root}, queue[i].distance)
  }

  /** The queue is in distance order, and nothing recorded lies more than one step beyond `lo`. */
  ghost predicate InOrder(queue: seq<Visit>, dist: map<Node, nat>, lo: nat) {
    && (forall i :: 0 <= i < |queue| ==> lo <= queue[i].distance)
    && (forall i, j :: 0 <= i < j < |queue| ==> queue[i].distance <= queue[j].distance)
    && (forall v :: v in dist ==> dist[v] <= lo + 1)
  }

  /** The search invariant; `open` is the node being expanded, whose successors may still be missing. */
  ghost predicate Searching(g: Graph, seeds: set<Node>, limit: nat, queue: seq<Visit>, dist: map<Node, nat>, lo: nat,
                            open: set<Node>) {
    && (forall v :: v in seeds ==> v in dist && dist[v] == 0)
    && (forall v :: v in dist ==> v in Layer(g, seeds, dist[v]) && dist[v] <= limit)
    && EntriesOk(g, seeds, queue, dist)
    && InOrder(queue, dist, lo)
    && (forall u :: u in dist ==> u in open || Queued(queue, u) || dist[u] == limit || Explored(g, dist, u))
  }

  lemma Start(g: Graph, seeds: set<Node>, limit: nat, queue: seq<Visit>)
    requires forall i :: 0 <= i < |queue| ==>
              queue[i] == Visit(queue[i].node, 0, queue[i].node) && queue[i].node in seeds
    requires forall v :: v in seeds ==> Queued(queue, v)
    ensures Searching(g, seeds, limit, queue, map v | v in seeds :: 0, 0, {})
  {
  }

  lemma Dequeue(g: Graph, seeds: set<Node>, limit: nat, queue: seq<Visit>, dist: map<Node, nat>, lo: nat)
    requires Searching(g, seeds, limit, queue, dist, lo, {}) && queue != []
    ensures Searching(g, seeds, limit, queue[1..], dist, queue[0].distance, {queue[0].node})
  {
    forall u | Queued(queue, u) && u != queue[0].node ensures Queued(queue[1..], u) {
      var i :| 0 <= i < |queue| && queue[i].node == u;
      assert queue[1..][i - 1].node == u;
    }
  }

  lemma QueuedLonger(queue: seq<Visit>, x: Visit, v: Node)
    ensures Queued(queue + [x], v) <==> Queued(queue, v) || v == x.node
  {
    var queue' := queue + [x];
    if Queued(queue, v) {
      var i :| 0 <= i < |queue| && queue[i].node == v;
      assert queue'[i].node == v;
    }
    assert queue'[|queue|].node == x.node;
  }

  lemma ExploredLonger(g: Graph, dist: map<Node, nat>, w: Node, d: nat, u: Node)
    requires Explored(g, dist, u) && w !in dist
    ensures Explored(g, dist[w := d], u)
  {
  }

  lemma EntriesLonger(g: Graph, seeds: set<Node>, queue: seq<Visit>, dist: map<Node, nat>, x: Visit)
    requires EntriesOk(g, seeds, queue, dist) && x.node !in dist
    requires x.root in seeds && x.node in Layer(g, {x.root}, x.distance)
    ensures EntriesOk(g, seeds, queue + [x], dist[x.node := x.distance])
  {
    hide Layer;
  }

  lemma OrderLonger(queue: seq<Visit>, dist: map<Node, nat>, lo: nat, x: Visit)
    requires InOrder(queue, dist, lo) && x.distance == lo + 1
    requires forall i :: 0 <= i < |queue| ==> queue[i].node in dist && dist[queue[i].node] == queue[i].distance
    ensures InOrder(queue + [x], dist[x.node := lo + 1], lo)
  {
  }

  lemma Enqueue(g: Graph, seeds: set<Node>, limit: nat, queue: seq<Visit>, dist: map<Node, nat>, u: Visit, w: Node)
    requires Searching(g, seeds, limit, queue, dist, u.distance, {u.node})
    requires EntriesOk(g, seeds, [u], dist) && u.distance < limit
    requires w in Succ(g, u.node) && w !in dist
    ensures Searching(g, seeds, limit, queue + [Visit(w, u.distance + 1, u.root)], dist[w := u.distance + 1],
                      u.distance, {u.node})
  {
    hide EntriesOk, InOrder, Explored, Queued, Layer;
    var x := Visit(w, u.distance + 1, u.root);
    var dist' := dist[w := u.distance + 1];
    EntryFacts(g, seeds, [u], dist, 0);
    LayerStep(g, seeds, u.distance, u.node, w);
    LayerStep(g, {u.root}, u.distance, u.node, w);
    EntriesLonger(g, seeds, queue, dist, x);
    forall i | 0 <= i < |queue| ensures queue[i].node in dist && dist[queue[i].node] == queue[i].distance {
      EntryFacts(g, seeds, queue, dist, i);
    }
    OrderLonger(queue, dist, u.distance, x);
    forall v | v in dist' && v != u.node ensures Queued(queue + [x], v) || dist'[v] == limit || Explored(g, dist', v) {
      QueuedLonger(queue, x, v);
      if v in dist && Explored(g, dist, v) { ExploredLonger(g, dist, w, u.distance + 1, v); }
    }
  }

  lemma EntryFacts(g: Graph, seeds: set<Node>, queue: seq<Visit>, dist: map<Node, nat>, i: nat)
    requires EntriesOk(g, seeds, queue, dist) && i < |queue|
    ensures queue[i].node in dist && dist[queue[i].node] == queue[i].distance
    ensures queue[i].root in seeds && queue[i].node in Layer(g, {queue[i].root}, queue[i].distance)
  {
  }

  lemma Close(g: Graph, seeds: set<Node>, limit: nat, queue: seq<Visit>, dist: map<Node, nat>, lo: nat, u: Node)
    requires Searching(g, seeds, limit, queue, dist, lo, {u}) && u in dist
    requires dist[u] == limit || (dist[u] == lo && forall w :: w in Succ(g, u) ==> w in dist)
    ensures Searching(g, seeds, limit, queue, dist, lo, {})
  {
  }

  /** When the queue is empty, exactly the nodes within the limit are recorded, each at its true distance. */
  lemma Finished(g: Graph, seeds: set<Node>, limit: nat, dist: map<Node, nat>, lo: nat)
    requires Searching(g, seeds, limit, [], dist, lo, {})
    ensures dist.Keys == Layer(g, seeds, limit)
    ensures forall v :: v in dist ==> IsDistance(g, seeds, v, dist[v])
  {
    forall v | v in dist ensures v in Layer(g, seeds, limit) && IsDistance(g, seeds, v, dist[v]) {
      LayerGrows(g, seeds, dist[v], limit);
      forall k: nat | v in Layer(g, seeds, k) ensures dist[v] <= k {
        if k < dist[v] { Covered(g, seeds, limit, dist, lo, k, v); }
      }
    }
    forall v | v in Layer(g, seeds, limit) ensures v in dist { Covered(g, seeds, limit, dist, lo, limit, v); }
  }

  lemma {:induction false} Covered(g: Graph, seeds: set<Node>, limit: nat, dist: map<Node, nat>, lo: nat, n: nat,
                                   v: Node)
    requires Searching(g, seeds, limit, [], dist, lo, {}) && n <= limit && v in Layer(g, seeds, n)
    ensures v in dist && dist[v] <= n
  {
    if n > 0 {
      if v in Layer(g, seeds, n - 1) {
        Covered(g, seeds, limit, dist, lo, n - 1, v);
      } else {
        var u :| u in Layer(g, seeds, n - 1) && v in Succ(g, u);
        Covered(g, seeds, limit, dist, lo, n - 1, u);
        assert !Queued([], u);
      }
    }
  }
}
