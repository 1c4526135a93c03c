/** Tarjan's component search, as `CodeIntelligenceIndex.cycles` runs it. */
module CycleDetection {
  import opened Ordering
  import opened Reachability
  import opened CodeGraph

  /** What the search has established: the discovery order, the open stack and the nodes already assigned. */
  datatype Search = Search(indices: map<Node, nat>, stack: seq<Node>, done: set<Node>)

  ghost predicate Ordered(d: Search, next: nat) {
    && (forall v :: v in d.indices ==> d.indices[v] < next)
    && (forall v :: v in d.stack ==> v in d.indices)
    && (forall i, j :: 0 <= i < j < |d.stack| ==> d.indices[d.stack[i]] < d.indices[d.stack[j]])
  }

  ghost predicate Coloured(g: Graph, d: Search, gray: set<Node>) {
    && d.indices.Keys == Elements(d.stack) + d.done
    && Elements(d.stack) !! d.done
    && gray <= Elements(d.stack)
    && Closed(g, d.done)
    && (forall v :: v in d.indices && v !in gray ==> Succ(g, v) <= d.indices.Keys)
  }

  ghost predicate StackLinked(g: Graph, d: Search) {
    forall i, j {:trigger Reach(g, d.stack[i], d.stack[j])} :: 0 <= i <= j < |d.stack| ==>
        Reach(g, d.stack[i], d.stack[j])
  }

  /** v leads back to an unfinished node that was discovered no later than v. */
  ghost predicate Anchored(g: Graph, d: Search, gray: set<Node>, v: Node) {
    v in d.indices && exists u :: u in gray && u in d.indices && d.indices[u] <= d.indices[v] && Reach(g, v, u)
  }

  ghost predicate Inv(g: Graph, d: Search, gray: set<Node>, next: nat) {
    && Ordered(d, next)
    && Coloured(g, d, gray)
    && StackLinked(g, d)
    && (forall v {:trigger Anchored(g, d, gray, v)} :: v in d.stack ==> Anchored(g, d, gray, v))
  }

  lemma InvParts(g: Graph, d: Search, gray: set<Node>, next: nat)
    requires Inv(g, d, gray, next)
    ensures Ordered(d, next) && gray <= Elements(d.stack)
  {
  }

  /** low[x] is the index of some stack node x reaches. */
  ghost predicate LowReached(g: Graph, d: Search, x: Node, low: int) {
    exists y :: y in d.stack && y in d.indices && d.indices[y] == low && Reach(g, x, y)
  }

  /** No edge leads from the stack at and above k to a stack node below k whose index is under low, except from x
      along `pending`. */
  ghost predicate LowCovers(g: Graph, d: Search, k: nat, x: Node, pending: set<Node>, low: int)
    requires k <= |d.stack|
  {
    forall v, y :: v in d.stack[k..] && y in Succ(g, v) && y in d.stack[..k] && !(v == x && y in pending)
      ==> y in d.indices && low <= d.indices[y]
  }

  lemma StackPositions(d: Search, next: nat, i: nat, v: Node)
    requires Ordered(d, next) && i < |d.stack| && v in d.stack && v in d.indices
    ensures d.indices[v] >= d.indices[d.stack[i]] <==> v in d.stack[i..]
    ensures d.indices[v] < d.indices[d.stack[i]] <==> v in d.stack[..i]
  {
    var j :| 0 <= j < |d.stack| && d.stack[j] == v;
    if v in d.stack[i..] {
      var a :| 0 <= a < |d.stack[i..]| && d.stack[i..][a] == v;
      assert d.stack[i + a] == v;
    }
    if v in d.stack[..i] {
      var a :| 0 <= a < i && d.stack[a] == v;
    }
    if j >= i { assert d.stack[i..][j - i] == v; } else { assert d.stack[..i][j] == v; }
  }

  lemma Discover(g: Graph, d: Search, gray: set<Node>, next: nat, x: Node)
    requires Inv(g, d, gray, next) && x !in d.indices
    requires forall u :: u in gray ==> Reach(g, u, x)
    ensures Inv(g, Search(d.indices[x := next], d.stack + [x], d.done), gray + {x}, next + 1)
  {
    var e := Search(d.indices[x := next], d.stack + [x], d.done);
    assert Elements(e.stack) == Elements(d.stack) + {x};
    assert e.indices.Keys == d.indices.Keys + {x};
    DiscoverLinked(g, d, gray, next, x);
    forall v {:trigger Anchored(g, e, gray + {x}, v)} | v in e.stack ensures Anchored(g, e, gray + {x}, v) {
      if v == x { ReachSelf(g, x); } else { AnchorKept(g, d, e, gray, gray + {x}, v); }
    }
  }

  lemma DiscoverLinked(g: Graph, d: Search, gray: set<Node>, next: nat, x: Node)
    requires Inv(g, d, gray, next)
    requires forall u :: u in gray ==> Reach(g, u, x)
    ensures StackLinked(g, Search(d.indices[x := next], d.stack + [x], d.done))
  {
    var s := d.stack + [x];
    forall i, j | 0 <= i <= j < |s| ensures Reach(g, s[i], s[j]) {
      if j < |d.stack| {
        assert Reach(g, d.stack[i], d.stack[j]);
      } else if i == j {
        ReachSelf(g, x);
      } else {
        ReachesThroughAnchor(g, d, gray, d.stack[i], x);
      }
    }
  }

  lemma ReachesThroughAnchor(g: Graph, d: Search, gray: set<Node>, v: Node, x: Node)
    requires Anchored(g, d, gray, v)
    requires forall u :: u in gray ==> Reach(g, u, x)
    ensures Reach(g, v, x)
  {
    var u :| u in gray && u in d.indices && Reach(g, v, u);
    ReachTransitive(g, v, u, x);
  }

  lemma AnchorKept(g: Graph, d: Search, e: Search, gray: set<Node>, gray': set<Node>, v: Node)
    requires Anchored(g, d, gray, v) && gray <= gray'
    requires forall u :: u in d.indices ==> u in e.indices && e.indices[u] == d.indices[u]
    ensures Anchored(g, e, gray', v)
  {
  }

  /** x reaches below itself, so every node anchored at x is anchored at an older gray node. */
  lemma AnchorMoves(g: Graph, d: Search, gray: set<Node>, x: Node, w: Node, v: Node)
    requires Anchored(g, d, gray + {x}, v) && x in d.indices
    requires w in gray && w in d.indices && d.indices[w] < d.indices[x] && Reach(g, x, w)
    ensures Anchored(g, d, gray, v)
  {
    var u :| u in gray + {x} && u in d.indices && d.indices[u] <= d.indices[v] && Reach(g, v, u);
    if u == x { ReachTransitive(g, v, x, w); }
  }

  lemma OlderAnchor(g: Graph, d: Search, gray: set<Node>, x: Node, low: int) returns (w: Node)
    requires x in d.indices && LowReached(g, d, x, low) && low < d.indices[x]
    requires forall v {:trigger Anchored(g, d, gray + {x}, v)} :: v in d.stack ==> Anchored(g, d, gray + {x}, v)
    ensures w in gray && w in d.indices && d.indices[w] < d.indices[x] && Reach(g, x, w)
  {
    var y :| y in d.stack && y in d.indices && d.indices[y] == low && Reach(g, x, y);
    assert Anchored(g, d, gray + {x}, y);
    w :| w in gray + {x} && w in d.indices && d.indices[w] <= d.indices[y] && Reach(g, y, w);
    ReachTransitive(g, x, y, w);
  }

  /** x finishes but reaches below itself: it stays open, no longer gray. */
  lemma Finish(g: Graph, d: Search, gray: set<Node>, next: nat, x: Node, low: int)
    requires Inv(g, d, gray + {x}, next) && x in d.indices
    requires Succ(g, x) <= d.indices.Keys
    requires LowReached(g, d, x, low) && low < d.indices[x]
    ensures Inv(g, d, gray, next)
  {
    var w := OlderAnchor(g, d, gray, x, low);
    forall v {:trigger Anchored(g, d, gray, v)} | v in d.stack ensures Anchored(g, d, gray, v) {
      AnchorMoves(g, d, gray, x, w, v);
    }
  }

  /** The situation in which the component of x is popped: x is the root and everything open above it is finished. */
  ghost predicate AtRoot(g: Graph, d: Search, gray: set<Node>, next: nat, x: Node, k: nat) {
    && Inv(g, d, gray + {x}, next)
    && k < |d.stack| && d.stack[k] == x
    && gray <= Elements(d.stack[..k])
    && Succ(g, x) <= d.indices.Keys
    && x in d.indices && LowCovers(g, d, k, x, {}, d.indices[x])
  }

  /** x finishes as the root of its component: the stack from x upward is that component. */
  lemma Pop(g: Graph, d: Search, gray: set<Node>, next: nat, x: Node, k: nat)
    requires AtRoot(g, d, gray, next, x, k)
    ensures IsScc(g, Elements(d.stack[k..]))
    ensures Elements(d.stack[k..]) !! d.done
    ensures Inv(g, Search(d.indices, d.stack[..k], d.done + Elements(d.stack[k..])), gray, next)
  {
    var c := Elements(d.stack[k..]);
    PopClosed(g, d, gray, next, x, k);
    PopScc(g, d, gray, next, x, k);
    var e := Search(d.indices, d.stack[..k], d.done + c);
    PopSplit(d, gray, next, k);
    forall v {:trigger Anchored(g, e, gray, v)} | v in e.stack ensures Anchored(g, e, gray, v) {
      PopAnchored(g, d, gray, next, x, k, v);
    }
    forall i, j | 0 <= i <= j < k ensures Reach(g, e.stack[i], e.stack[j]) {
      assert Reach(g, d.stack[i], d.stack[j]);
    }
  }

  lemma PopSplit(d: Search, gray: set<Node>, next: nat, k: nat)
    requires Ordered(d, next) && k <= |d.stack|
    ensures Elements(d.stack) == Elements(d.stack[..k]) + Elements(d.stack[k..])
    ensures Elements(d.stack[..k]) !! Elements(d.stack[k..])
  {
    assert d.stack == d.stack[..k] + d.stack[k..];
    forall v | v in d.stack[..k] ensures v !in d.stack[k..] {
      if k < |d.stack| { StackPositions(d, next, k, v); }
    }
  }

  lemma PopAnchored(g: Graph, d: Search, gray: set<Node>, next: nat, x: Node, k: nat, v: Node)
    requires AtRoot(g, d, gray, next, x, k) && v in d.stack[..k]
    ensures Anchored(g, Search(d.indices, d.stack[..k], d.done + Elements(d.stack[k..])), gray, v)
  {
    assert v in d.stack;
    assert Anchored(g, d, gray + {x}, v);
    StackPositions(d, next, k, v);
  }

  /** Nothing above the root is gray. */
  lemma AboveRootFinished(g: Graph, d: Search, gray: set<Node>, next: nat, x: Node, k: nat, v: Node)
    requires AtRoot(g, d, gray, next, x, k) && v in d.stack[k..]
    ensures v in d.indices && v !in gray && d.indices[v] >= d.indices[x]
  {
    assert v in d.stack;
    StackPositions(d, next, k, v);
  }

  lemma PopClosed(g: Graph, d: Search, gray: set<Node>, next: nat, x: Node, k: nat)
    requires AtRoot(g, d, gray, next, x, k)
    ensures Closed(g, d.done + Elements(d.stack[k..]))
  {
    var c := Elements(d.stack[k..]);
    PopSplit(d, gray, next, k);
    forall v, y | v in c && y in Succ(g, v) ensures y in d.done + c {
      AboveRootFinished(g, d, gray, next, x, k, v);
      assert y in d.indices.Keys;
      if y in d.stack[..k] { StackPositions(d, next, k, y); }
    }
  }

  /** Above the root, everything reaches the root: an anchor below it would need an edge out of the closed part. */
  lemma ReachesRoot(g: Graph, d: Search, gray: set<Node>, next: nat, x: Node, k: nat, v: Node)
    requires AtRoot(g, d, gray, next, x, k) && Closed(g, d.done + Elements(d.stack[k..]))
    requires v in d.stack[k..]
    ensures Reach(g, x, v) && Reach(g, v, x)
  {
    var a :| 0 <= a < |d.stack[k..]| && d.stack[k..][a] == v;
    assert d.stack[k + a] == v && v in d.stack;
    assert Reach(g, d.stack[k], d.stack[k + a]);
    assert Anchored(g, d, gray + {x}, v);
    var u :| u in gray + {x} && u in d.indices && d.indices[u] <= d.indices[v] && Reach(g, v, u);
    ClosedKeepsReach(g, d.done + Elements(d.stack[k..]), v, u);
    PopSplit(d, gray, next, k);
  }

  lemma PopScc(g: Graph, d: Search, gray: set<Node>, next: nat, x: Node, k: nat)
    requires AtRoot(g, d, gray, next, x, k) && Closed(g, d.done + Elements(d.stack[k..]))
    ensures IsScc(g, Elements(d.stack[k..]))
  {
    var c := Elements(d.stack[k..]);
    assert x == d.stack[k..][0];
    PopSplit(d, gray, next, k);
    forall u, w | u in c ensures w in c <==> Reach(g, u, w) && Reach(g, w, u) {
      ReachesRoot(g, d, gray, next, x, k, u);
      if w in c {
        ReachesRoot(g, d, gray, next, x, k, w);
        ReachTransitive(g, u, x, w);
        ReachTransitive(g, w, x, u);
      } else if Reach(g, u, w) && Reach(g, w, u) {
        ClosedKeepsReach(g, d.done + c, u, w);
        ClosedKeepsReach(g, d.done, w, u);
      }
    }
  }

  ghost predicate Grown(d: Search, e: Search) {
    && (forall v :: v in d.indices ==> v in e.indices && e.indices[v] == d.indices[v])
    && d.done <= e.done
    && |d.stack| <= |e.stack| && e.stack[..|d.stack|] == d.stack
  }

  /** What one call of `visit(x)` leaves behind. Either x's component was popped, or x stays open with a low link
      below its own index. */
  ghost predicate Visited(g: Graph, d: Search, e: Search, x: Node, index: nat, low: int) {
    && Grown(d, e)
    && x in e.indices && e.indices[x] == index
    && (|e.stack| == |d.stack| ==> low == index)
    && (|e.stack| > |d.stack| ==>
          && low < index
          && e.stack[|d.stack|] == x
          && LowReached(g, e, x, low)
          && LowCovers(g, e, |d.stack|, x, {}, low))
  }

  /** Between two successors of x: `remaining` are still to be looked at. */
  ghost predicate Visiting(g: Graph, d: Search, e: Search, x: Node, index: nat, remaining: set<Node>, low: int) {
    && Grown(d, e)
    && x in e.indices && e.indices[x] == index
    && |e.stack| > |d.stack| && e.stack[|d.stack|] == x
    && low <= index
    && LowReached(g, e, x, low)
    && Succ(g, x) - remaining <= e.indices.Keys
    && LowCovers(g, e, |d.stack|, x, remaining, low)
  }

  lemma StartVisiting(g: Graph, d: Search, x: Node, index: nat)
    requires Ordered(d, index) && x !in d.indices
    ensures Visiting(g, d, Search(d.indices[x := index], d.stack + [x], d.done), x, index, Succ(g, x), index)
  {
    var e := Search(d.indices[x := index], d.stack + [x], d.done);
    assert e.stack[|d.stack|..] == [x];
    ReachSelf(g, x);
    assert x in e.stack;
  }

  lemma SeenSuccessor(g: Graph, d: Search, e: Search, x: Node, index: nat, remaining: set<Node>, low: int, y: Node)
    requires Visiting(g, d, e, x, index, remaining, low) && y in remaining && y in Succ(g, x) && y in e.indices
    ensures y in e.stack ==>
              Visiting(g, d, e, x, index, remaining - {y}, if e.indices[y] < low then e.indices[y] else low)
    ensures y !in e.stack ==> Visiting(g, d, e, x, index, remaining - {y}, low)
  {
    if y in e.stack { ReachEdge(g, x, y); }
    forall z | z in e.stack[..|d.stack|] ensures z in e.stack {}
  }

  lemma NewSuccessor(g: Graph, d: Search, e: Search, f: Search, x: Node, index: nat, next: nat, next': nat,
                     remaining: set<Node>, low: int, y: Node, lowY: int)
    requires Visiting(g, d, e, x, index, remaining, low) && y in remaining && y in Succ(g, x)
    requires Ordered(e, next) && Ordered(f, next') && low <= index < next
    requires Visited(g, e, f, y, next, lowY)
    ensures Visiting(g, d, f, x, index, remaining - {y}, if lowY < low then lowY else low)
  {
    var k := |d.stack|;
    var low' := if lowY < low then lowY else low;
    assert f.stack[..k] == e.stack[..k] && f.stack[k] == e.stack[k];
    NewSuccessorReached(g, e, f, x, low, next, y, lowY);
    forall v, z | v in f.stack[k..] && z in Succ(g, v) && z in f.stack[..k] && !(v == x && z in remaining - {y})
      ensures z in f.indices && low' <= f.indices[z]
    {
      NewSuccessorCovers(g, e, f, x, k, remaining, low, y, next, lowY, v, z);
    }
  }

  lemma NewSuccessorCovers(g: Graph, e: Search, f: Search, x: Node, k: nat, remaining: set<Node>, low: int,
                           y: Node, next: nat, lowY: int, v: Node, z: Node)
    requires k < |e.stack| && LowCovers(g, e, k, x, remaining, low) && low <= next
    requires forall u :: u in e.stack ==> u in e.indices && e.indices[u] < next
    requires Visited(g, e, f, y, next, lowY)
    requires v in f.stack[k..] && z in Succ(g, v) && z in f.stack[..k] && !(v == x && z in remaining - {y})
    ensures z in f.indices && (lowY <= f.indices[z] || low <= f.indices[z])
  {
    assert f.stack[..k] == e.stack[..k];
    assert z in e.stack[..k] && z in e.stack;
    if v in e.stack[k..] {
      assert z != y;
    } else {
      assert f.stack[k..] == e.stack[k..] + f.stack[|e.stack|..];
      assert v in f.stack[|e.stack|..];
      assert z in f.stack[..|e.stack|];
    }
  }

  lemma NewSuccessorReached(g: Graph, e: Search, f: Search, x: Node, low: int, next: nat, y: Node, lowY: int)
    requires LowReached(g, e, x, low) && low < next && y in Succ(g, x)
    requires Visited(g, e, f, y, next, lowY)
    ensures LowReached(g, f, x, if lowY < low then lowY else low)
  {
    if lowY < low {
      var w :| w in f.stack && w in f.indices && f.indices[w] == lowY && Reach(g, y, w);
      ReachEdge(g, x, y);
      ReachTransitive(g, x, y, w);
    } else {
      var w :| w in e.stack && w in e.indices && e.indices[w] == low && Reach(g, x, w);
      assert w in f.stack[..|e.stack|];
    }
  }

  ghost predicate ComponentRow(g: Graph, row: seq<Node>) {
    IsScc(g, Elements(row)) && SortedBy(NodeLe, row) && NoDuplicates(row) && forall v :: v in Elements(row) ==>
        OnCycle(g, v)
  }

  ghost predicate Listed(rows: seq<seq<Node>>, v: Node) {
    exists i :: 0 <= i < |rows| && v in Elements(rows[i])
  }

  ghost predicate RowsDisjoint(rows: seq<seq<Node>>) {
    forall i, j :: 0 <= i < j < |rows| ==> Elements(rows[i]) !! Elements(rows[j])
  }

  /** Every row is a component of cycle nodes in ascending order, the rows are disjoint, and together they hold the
      cycle nodes of `done`. */
  ghost predicate RowsFor(g: Graph, done: set<Node>, rows: seq<seq<Node>>) {
    && (forall i :: 0 <= i < |rows| ==> ComponentRow(g, rows[i]) && Elements(rows[i]) <= done)
    && RowsDisjoint(rows)
    && (forall v :: v in done && OnCycle(g, v) ==> Listed(rows, v))
  }

  lemma SortComponent(g: Graph, component: seq<Node>)
    requires NoDuplicates(component)
    ensures SortedBy(NodeLe, Sort(NodeLe, component)) && NoDuplicates(Sort(NodeLe, component))
    ensures Elements(Sort(NodeLe, component)) == Elements(component)
  {
    NodeLeIsLinear();
    SortIsSorted(NodeLe, component);
    SortMembers(NodeLe, component);
    SortKeepsNoDuplicates(NodeLe, component);
  }

  lemma SingletonByLength(c: seq<Node>, x: Node)
    requires NoDuplicates(c) && x in c
    ensures |c| > 1 <==> Elements(c) != {x}
  {
    if |c| > 1 {
      assert c[0] in Elements(c) && c[1] in Elements(c) && c[0] != c[1];
    } else {
      assert c == [x];
    }
  }

  lemma ComponentOnCycle(g: Graph, component: seq<Node>, x: Node, v: Node)
    requires IsScc(g, Elements(component)) && NoDuplicates(component) && x in component && v in component
    ensures OnCycle(g, v) <==> (|component| > 1 || x in Succ(g, x))
  {
    var c := Elements(component);
    SingletonByLength(component, x);
    assert v in c;
    CycleNodes(g, c, v);
    assert x in c;
    if c == {v} || c == {x} { assert v == x; }
  }

  lemma ReportComponent(g: Graph, done: set<Node>, rows: seq<seq<Node>>, component: seq<Node>, x: Node)
    requires RowsFor(g, done, rows) && IsScc(g, Elements(component)) && Elements(component) !! done
    requires NoDuplicates(component) && x in component
    ensures RowsFor(g, done + Elements(component),
                    if |component| > 1 || x in Succ(g, x) then rows + [Sort(NodeLe, component)] else rows)
  {
    hide IsScc, OnCycle;
    var c := Elements(component);
    forall v | v in c ensures OnCycle(g, v) <==> (|component| > 1 || x in Succ(g, x)) {
      ComponentOnCycle(g, component, x, v);
    }
    if |component| > 1 || x in Succ(g, x) {
      AddRow(g, done, rows, component);
    }
  }

  lemma AddRow(g: Graph, done: set<Node>, rows: seq<seq<Node>>, component: seq<Node>)
    requires RowsFor(g, done, rows) && IsScc(g, Elements(component)) && Elements(component) !! done
    requires NoDuplicates(component) && forall v :: v in Elements(component) ==> OnCycle(g, v)
    ensures RowsFor(g, done + Elements(component), rows + [Sort(NodeLe, component)])
  {
    hide Elements, IsScc, OnCycle, SortedBy, NoDuplicates, ComponentRow, Listed, Sort;
    SortComponent(g, component);
    var row := Sort(NodeLe, component);
    SortedRow(g, component);
    forall v | v in done + Elements(component) && OnCycle(g, v) ensures Listed(rows + [row], v) {
      ListedMore(rows, row, v);
    }
  }

  lemma SortedRow(g: Graph, component: seq<Node>)
    requires IsScc(g, Elements(component)) && NoDuplicates(component)
    requires forall v :: v in Elements(component) ==> OnCycle(g, v)
    ensures ComponentRow(g, Sort(NodeLe, component))
  {
    SortComponent(g, component);
  }

  lemma ListedMore(rows: seq<seq<Node>>, row: seq<Node>, v: Node)
    ensures Listed(rows + [row], v) <==> Listed(rows, v) || v in Elements(row)
  {
    var rows' := rows + [row];
    assert rows'[|rows|] == row;
    if Listed(rows, v) {
      var i :| 0 <= i < |rows| && v in Elements(rows[i]);
      assert rows'[i] == rows[i];
    }
  }

  class CycleFinder {
    const g: Graph
    var index: nat
    var stack: seq<Node>
    var indices: map<Node, nat>
    var low: map<Node, int>
    var on: set<Node>
    var result: seq<seq<Node>>
    ghost var done: set<Node>

    constructor (g: Graph)
      ensures this.g == g && Valid({}) && indices == map[] && done == {} && stack == []
    {
      this.g := g;
      index, stack, indices, low, on, result := 0, [], map[], map[], {}, [];
      done := {};
    }

    ghost function View(): Search
      reads this
    {
      Search(indices, stack, done)
    }

    ghost predicate Valid(gray: set<Node>)
      reads this
    {
      && Inv(g, View(), gray, index)
      && low.Keys == indices.Keys
      && on == Elements(stack)
      && RowsFor(g, done, result)
    }

    /** The inner loop: unwinds the stack down to and including `node`. */
    method PopComponent(node: Node, ghost k: nat) returns (component: seq<Node>)
      requires k < |stack| && stack[k] == node && NoDuplicates(stack) && on == Elements(stack)
      modifies this`stack, this`on
      ensures stack == old(stack)[..k] && on == Elements(stack)
      ensures Elements(component) == Elements(old(stack)[k..]) && NoDuplicates(component)
    {
      component := [];
      var item := stack[|stack| - 1];
      stack, on, component := stack[..|stack| - 1], on - {item}, component + [item];
      PopOne(old(stack), |stack|, []);
      while item != node
        invariant k <= |stack| < |old(stack)| && stack == old(stack)[..|stack|]
        invariant item == old(stack)[|stack|]
        invariant on == Elements(stack)
        invariant Elements(component) == Elements(old(stack)[|stack|..]) && NoDuplicates(component)
        decreases |stack|
      {
        item := stack[|stack| - 1];
        stack, on, component := stack[..|stack| - 1], on - {item}, component + [item];
        PopOne(old(stack), |stack|, component[..|component| - 1]);
      }
      assert |stack| == k;
    }

    method Visit(node: Node, ghost gray: set<Node>, ghost universe: set<Node>)
      requires Valid(gray) && node !in indices
      requires forall u :: u in gray ==> Reach(g, u, node)
      requires Closed(g, universe) && node in universe && indices.Keys <= universe
      modifies this
      ensures Valid(gray) && indices.Keys <= universe
      ensures node in low && Visited(g, old(View()), View(), node, old(index), low[node])
      ensures forall v :: v in old(low) ==> v in low && low[v] == old(low[v])
      decreases universe - indices.Keys, 1
    {
      hide Inv, RowsFor, LowReached, LowCovers, Reach;
      ghost var d := View();
      InvParts(g, d, gray, index);
      Enter(node, gray);
      var remaining := Succ(g, node);
      while remaining != {}
        invariant remaining <= Succ(g, node)
        invariant Valid(gray + {node}) && indices.Keys <= universe
        invariant node in low && Visiting(g, d, View(), node, old(index), remaining, low[node])
        invariant forall v :: v in d.indices ==> v in low && low[v] == old(low)[v]
        decreases remaining
      {
        var nxt :| nxt in remaining;
        Look(node, nxt, gray, universe, d, old(index), remaining);
        remaining := remaining - {nxt};
      }
      Leave(node, gray, d, old(index));
    }

    /** indices[node] = low[node] = index; push the node. */
    method Enter(node: Node, ghost gray: set<Node>)
      requires Valid(gray) && node !in indices
      requires forall u :: u in gray ==> Reach(g, u, node)
      modifies this
      ensures Valid(gray + {node}) && indices == old(indices)[node := old(index)] && low == old(low)[node := old(index)]
      ensures Visiting(g, old(View()), View(), node, old(index), Succ(g, node), old(index))
    {
      hide Coloured, StackLinked, Anchored, RowsFor, Reach, LowReached, LowCovers, Visiting;
      Discover(g, View(), gray, index, node);
      StartVisiting(g, View(), node, index);
      ElementsConcat(stack, [node]);
      indices, low := indices[node := index], low[node := index];
      index, stack, on := index + 1, stack + [node], on + {node};
    }

    /** One successor: recurse into it when it is new, or take its index when it is still open. */
    method Look(node: Node, nxt: Node, ghost gray: set<Node>, ghost universe: set<Node>,
                ghost d: Search, ghost i0: nat, ghost remaining: set<Node>)
      requires Valid(gray + {node}) && indices.Keys <= universe && Closed(g, universe) && node in universe
      requires forall u :: u in gray ==> Reach(g, u, node)
      requires remaining <= Succ(g, node) && nxt in remaining
      requires node in low && Visiting(g, d, View(), node, i0, remaining, low[node])
      modifies this
      ensures Valid(gray + {node}) && indices.Keys <= universe
      ensures node in low && Visiting(g, d, View(), node, i0, remaining - {nxt}, low[node])
      ensures forall v :: v in old(low) && v != node ==> v in low && low[v] == old(low[v])
      decreases universe - indices.Keys, 2
    {
      hide RowsFor, LowReached, LowCovers, Reach, Coloured, StackLinked, Anchored;
      ghost var e := View();
      ghost var next := index;
      ghost var l := low[node];
      if nxt !in indices {
        GrayReaches(g, gray, node, nxt);
        Visit(nxt, gray + {node}, universe);
        NewSuccessor(g, d, e, View(), node, i0, next, index, remaining, l, nxt, low[nxt]);
        low := low[node := if low[nxt] < low[node] then low[nxt] else low[node]];
      } else {
        SeenSuccessor(g, d, e, node, i0, remaining, l, nxt);
        if nxt in on {
          low := low[node := if indices[nxt] < low[node] then indices[nxt] else low[node]];
        }
      }
    }

    /** After the loop: pop and report the component when node is its root. */
    method Leave(node: Node, ghost gray: set<Node>, ghost d: Search, ghost i0: nat)
      requires Valid(gray + {node}) && Ordered(d, i0) && gray <= Elements(d.stack)
      requires node in low && Visiting(g, d, View(), node, i0, {}, low[node])
      modifies this
      ensures Valid(gray) && indices == old(indices) && low == old(low)
      ensures Visited(g, d, View(), node, i0, low[node])
    {
      hide Inv, RowsFor, LowReached, LowCovers, Reach;
      ghost var e := View();
      if low[node] == indices[node] {
        AtRootNow(g, d, e, gray, index, node, i0);
        Pop(g, e, gray, index, node, |d.stack|);
        var component := PopComponent(node, |d.stack|);
        Report(component, node);
      } else {
        Finish(g, e, gray, index, node, low[node]);
      }
    }

    /** Appends the sorted component when it has several members or its root a self edge. */
    method Report(component: seq<Node>, node: Node)
      requires RowsFor(g, done, result) && IsScc(g, Elements(component)) && Elements(component) !! done
      requires NoDuplicates(component) && node in component
      modifies this`result, this`done
      ensures RowsFor(g, done, result) && done == old(done) + Elements(component)
    {
      ReportComponent(g, done, result, component, node);
      if |component| > 1 || node in Succ(g, node) {
        result := result + [Sort(NodeLe, component)];
      }
      done := done + Elements(component);
    }

    /** The top-level loop's step: search from `node` unless it was reached before. */
    method VisitFrom(node: Node)
      requires Valid({}) && node in g && indices.Keys <= Universe(g)
      modifies this
      ensures Valid({}) && indices.Keys <= Universe(g)
      ensures node in indices && old(indices.Keys) <= indices.Keys
    {
      hide Inv, RowsFor;
      if node !in indices {
        Visit(node, {}, Universe(g));
      }
    }
  }

  lemma AtRootNow(g: Graph, d: Search, e: Search, gray: set<Node>, next: nat, x: Node, i0: nat)
    requires Inv(g, e, gray + {x}, next) && gray <= Elements(d.stack)
    requires Visiting(g, d, e, x, i0, {}, i0)
    ensures AtRoot(g, e, gray, next, x, |d.stack|)
    ensures NoDuplicates(e.stack) && x in Elements(e.stack[|d.stack|..])
  {
    StackDistinct(e, next);
    assert e.stack[|d.stack|..][0] == x;
  }

  lemma GrayReaches(g: Graph, gray: set<Node>, x: Node, y: Node)
    requires forall u :: u in gray ==> Reach(g, u, x)
    requires y in Succ(g, x)
    ensures forall u :: u in gray + {x} ==> Reach(g, u, y)
  {
    forall u | u in gray + {x} ensures Reach(g, u, y) {
      if u == x { ReachEdge(g, x, y); } else { ReachStep(g, u, x, y); }
    }
  }

  lemma StackDistinct(d: Search, next: nat)
    requires Ordered(d, next)
    ensures NoDuplicates(d.stack)
  {
    forall i, j | 0 <= i < j < |d.stack| ensures d.stack[i] != d.stack[j] {
      assert d.indices[d.stack[i]] < d.indices[d.stack[j]];
    }
  }

  lemma PopOne(s: seq<Node>, n: nat, component: seq<Node>)
    requires n < |s| && NoDuplicates(s)
    requires Elements(component) == Elements(s[n + 1..]) && NoDuplicates(component)
    ensures Elements(s[..n]) == Elements(s[..n + 1]) - {s[n]}
    ensures Elements(component + [s[n]]) == Elements(s[n..]) && NoDuplicates(component + [s[n]])
  {
    assert s[..n + 1] == s[..n] + [s[n]];
    assert s[n..] == [s[n]] + s[n + 1..];
    ElementsConcat(s[..n], [s[n]]);
    ElementsConcat([s[n]], s[n + 1..]);
    ElementsConcat(component, [s[n]]);
    assert Elements([s[n]]) == {s[n]};
    assert s[n] !in s[..n];
    assert s[n] !in s[n + 1..];
    assert s[n] !in Elements(component);
    DistinctConcat(component, [s[n]]);
  }

  const CYCLE_KINDS: set<string> := {"call", "import", "inherits"}

  predicate ListLe(a: seq<Node>, b: seq<Node>) { SeqLe(NodeLe, a, b) }

  /** The sort key (-len(row), row): longer rows first, equal lengths in list order. */
  predicate RowLe(a: seq<Node>, b: seq<Node>) {
    |a| > |b| || (|a| == |b| && ListLe(a, b))
  }

  lemma RowLeIsLinear()
    ensures LinearOrder(RowLe)
  {
    NodeLeIsLinear();
    forall a, b ensures RowLe(a, b) || RowLe(b, a) { SeqLeTotal(NodeLe, a, b); }
    forall a, b, c | RowLe(a, b) && RowLe(b, c) ensures RowLe(a, c) {
      if |a| == |b| == |c| { SeqLeTransitive(NodeLe, a, b, c); }
    }
    forall a, b | RowLe(a, b) && RowLe(b, a) ensures a == b { SeqLeAntisymmetric(NodeLe, a, b); }
  }

  /** What `cycles` promises: the strongly connected components that carry a cycle, each once, in the stated order. */
  ghost predicate IsCycleReport(g: Graph, rows: seq<seq<Node>>) {
    && (forall i :: 0 <= i < |rows| ==> ComponentRow(g, rows[i]))
    && RowsDisjoint(rows)
    && (forall v :: OnCycle(g, v) ==> Listed(rows, v))
    && SortedBy(RowLe, rows)
  }

  method CyclesOf(g: Graph) returns (rows: seq<seq<Node>>)
    ensures IsCycleReport(g, rows)
  {
    hide IsCycleReport, RowsFor;
    NodeLeIsLinear();
    var nodes := SortedElements(NodeLe, g.Keys);
    ghost var done;
    rows, done := SearchFrom(g, nodes);
    FinalReport(g, done, rows);
    rows := Sort(RowLe, rows);
  }

  method SearchFrom(g: Graph, nodes: seq<Node>) returns (rows: seq<seq<Node>>, ghost done: set<Node>)
    requires Elements(nodes) == g.Keys
    ensures RowsFor(g, done, rows) && g.Keys <= done
  {
    hide Inv, RowsFor;
    var finder := new CycleFinder(g);
    for i := 0 to |nodes|
      invariant finder.g == g && finder.Valid({})
      invariant finder.indices.Keys <= Universe(g)
      invariant forall j :: 0 <= j < i ==> nodes[j] in finder.indices
    {
      assert nodes[i] in Elements(nodes);
      finder.VisitFrom(nodes[i]);
    }
    NothingOpen(g, finder.View(), finder.index);
    rows, done := finder.result, finder.done;
    assert forall v :: v in Elements(nodes) ==> v in finder.indices;
  }

  /** With no gray node left the stack is empty: everything indexed is assigned. */
  lemma NothingOpen(g: Graph, d: Search, next: nat)
    requires Inv(g, d, {}, next)
    ensures d.stack == [] && d.done == d.indices.Keys
  {
    forall v ensures v !in d.stack { NoAnchor(g, d, v); }
    NoMembers(d.stack);
  }

  lemma NoAnchor(g: Graph, d: Search, v: Node)
    ensures !Anchored(g, d, {}, v)
  {
  }

  lemma RowsAreDistinct(g: Graph, done: set<Node>, rows: seq<seq<Node>>)
    requires RowsFor(g, done, rows)
    ensures NoDuplicates(rows)
  {
    forall i, j | 0 <= i < j < |rows| ensures rows[i] != rows[j] {
      assert ComponentRow(g, rows[i]);
      assert Elements(rows[i]) != {};
    }
  }

  lemma FinalReport(g: Graph, done: set<Node>, rows: seq<seq<Node>>)
    requires RowsFor(g, done, rows) && g.Keys <= done
    ensures IsCycleReport(g, Sort(RowLe, rows))
  {
    var sorted := Sort(RowLe, rows);
    RowLeIsLinear();
    SortIsSorted(RowLe, rows);
    RowsAreDistinct(g, done, rows);
    SortKeepsNoDuplicates(RowLe, rows);
    forall row ensures row in sorted <==> row in rows { SortMember(RowLe, rows, row); }
    FinalRows(g, done, rows, sorted);
  }

  lemma FinalRows(g: Graph, done: set<Node>, rows: seq<seq<Node>>, sorted: seq<seq<Node>>)
    requires RowsFor(g, done, rows) && g.Keys <= done
    requires NoDuplicates(sorted) && forall row :: row in sorted <==> row in rows
    ensures forall i :: 0 <= i < |sorted| ==> ComponentRow(g, sorted[i])
    ensures RowsDisjoint(sorted)
    ensures forall v :: OnCycle(g, v) ==> Listed(sorted, v)
  {
    hide ComponentRow, Elements, OnCycle;
    forall i | 0 <= i < |sorted| ensures ComponentRow(g, sorted[i]) {
      var a := IndexOf(rows, sorted[i]);
    }
    forall i, j | 0 <= i < j < |sorted| ensures Elements(sorted[i]) !! Elements(sorted[j]) {
      var a := IndexOf(rows, sorted[i]);
      var b := IndexOf(rows, sorted[j]);
      assert a < b || b < a;
    }
    forall v | OnCycle(g, v) ensures Listed(sorted, v) {
      OnCycleHasEntry(g, v);
      var a :| 0 <= a < |rows| && v in Elements(rows[a]);
      assert rows[a] in rows;
      var i := IndexOf(sorted, rows[a]);
    }
  }

  lemma OnCycleHasEntry(g: Graph, v: Node)
    requires OnCycle(g, v)
    ensures v in g
  {
  }

  /** The report is determined by the graph alone. */
  lemma CycleReportUnique(g: Graph, a: seq<seq<Node>>, b: seq<seq<Node>>)
    requires IsCycleReport(g, a) && IsCycleReport(g, b)
    ensures a == b
  {
    RowLeIsLinear();
    ReportDistinct(g, a);
    ReportDistinct(g, b);
    forall row ensures row in a <==> row in b {
      if row in a { RowTransfers(g, a, b, row); }
      if row in b { RowTransfers(g, b, a, row); }
    }
    SortedUnique(RowLe, a, b);
  }

  lemma ReportDistinct(g: Graph, rows: seq<seq<Node>>)
    requires IsCycleReport(g, rows)
    ensures NoDuplicates(rows)
  {
    forall i, j | 0 <= i < j < |rows| ensures rows[i] != rows[j] {
      assert ComponentRow(g, rows[i]);
      assert Elements(rows[i]) != {};
    }
  }

  lemma RowTransfers(g: Graph, a: seq<seq<Node>>, b: seq<seq<Node>>, row: seq<Node>)
    requires IsCycleReport(g, a) && IsCycleReport(g, b) && row in a
    ensures row in b
  {
    var i :| 0 <= i < |a| && a[i] == row;
    assert ComponentRow(g, row);
    var v :| v in Elements(row);
    assert Listed(b, v);
    var j :| 0 <= j < |b| && v in Elements(b[j]);
    assert ComponentRow(g, b[j]);
    SccsDisjointOrEqual(g, Elements(row), Elements(b[j]), v);
    NodeLeIsLinear();
    forall w ensures w in row <==> w in b[j] {
      assert w in row <==> w in Elements(row);
      assert w in b[j] <==> w in Elements(b[j]);
    }
    SortedUnique(NodeLe, row, b[j]);
  }

  /** `cycles()`: the report for the adjacency of call, import and inheritance edges. */
  method Cycles(cg: CodeGraph) returns (rows: seq<seq<Node>>)
    ensures IsCycleReport(AdjacencyOf(cg, CYCLE_KINDS), rows)
  {
    var adjacency := Adjacency(cg, CYCLE_KINDS);
    rows := CyclesOf(adjacency);
  }
}
