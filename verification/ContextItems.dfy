/** Context items, their dependency closures and the sums the packer works with. */
module ContextItems {
  import opened Ordering
  import opened Reachability
  import opened Sums

  type Id = Node

  datatype Item = Item(id: Id, role: string, tokens: int, utility: real, confidence: real,
                       mandatory: bool, stable: bool, dependencies: seq<Id>, text: string)

  type Catalog = map<Id, Item>

  /** The catalog files every item under its own id. */
  ghost predicate Consistent(items: Catalog) {
    forall v :: v in items ==> items[v].id == v
  }

  function Needs(items: Catalog, v: Id): set<Id> {
    if v in items then Elements(items[v].dependencies) else {}
  }

  /** Every dependency of every item names an item. */
  ghost predicate Resolved(items: Catalog) {
    forall v :: v in items ==> Needs(items, v) <= items.Keys
  }

  ghost predicate DependencyClosed(items: Catalog, s: set<Id>) {
    forall v :: v in s ==> Needs(items, v) <= s
  }

  /** The dependencies still to be brought in when `selected` is already there. */
  ghost function Open(items: Catalog, selected: set<Id>): Graph {
    map v | v in items && v !in selected :: Needs(items, v) - selected
  }

  /** Everything `v` needs and does not have yet, itself included. */
  ghost function ClosureOf(items: Catalog, selected: set<Id>, v: Id): set<Id> {
    if v in selected then {} else set w | w in items && Reach(Open(items, selected), v, w)
  }

  ghost predicate MissingFrom(items: Catalog, selected: set<Id>, v: Id, w: Id) {
    v !in selected && w !in items && Reach(Open(items, selected), v, w)
  }

  datatype Found = Closure(required: set<Id>) | KeyError(missing: Id)

  /** `_closure`: depth first over the dependencies. */
  method FindClosure(items: Catalog, selected: set<Id>, v: Id) returns (r: Found)
    ensures r.Closure? ==> r.required == ClosureOf(items, selected, v) && r.required !! selected
    ensures r.Closure? ==> forall w :: !MissingFrom(items, selected, v, w)
    ensures r.KeyError? ==> MissingFrom(items, selected, v, r.missing) && r.missing !in items
  {
    hide Reach;
    ghost var g := Open(items, selected);
    var required: set<Id> := {};
    var stack := [v];
    ReachSelf(g, v);
    while stack != []
      invariant required <= items.Keys && required !! selected
      invariant forall w :: w in required || w in stack ==> v in selected || w in selected || Reach(g, v, w)
      invariant forall w, x :: w in required && x in Needs(items, w) ==> x in required || x in selected || x in stack
      invariant v in required || v in stack || v in selected
      invariant v in selected ==> required == {} && (stack == [] || stack == [v])
      decreases items.Keys - required, |stack|
    {
      ghost var before := stack;
      var current := stack[|stack| - 1];
      stack := stack[..|stack| - 1];
      assert before == stack + [current];
      if current in selected || current in required {
        continue;
      }
      if current !in items {
        return KeyError(current);
      }
      forall x | x in items[current].dependencies ensures x in selected || Reach(g, v, x) {
        if x !in selected {
          assert x in Succ(g, current);
          ReachStep(g, v, current, x);
        }
      }
      required := required + {current};
      stack := stack + items[current].dependencies;
    }
    ClosureComplete(items, selected, v, required);
    r := Closure(required);
  }

  lemma ClosureComplete(items: Catalog, selected: set<Id>, v: Id, required: set<Id>)
    requires required <= items.Keys && required !! selected
    requires forall w :: w in required ==> v in selected || Reach(Open(items, selected), v, w)
    requires forall w, x :: w in required && x in Needs(items, w) ==> x in required || x in selected
    requires v in required || v in selected
    requires v in selected ==> required == {}
    ensures required == ClosureOf(items, selected, v)
    ensures forall w :: !MissingFrom(items, selected, v, w)
  {
    hide Reach;
    var g := Open(items, selected);
    if v !in selected {
      assert Closed(g, required);
      forall w | Reach(g, v, w) ensures w in required { ClosedKeepsReach(g, required, v, w); }
    }
  }

  /** The closure is the least way to add v: it completes the selection, and any completing set contains it. */
  lemma ClosureIsLeast(items: Catalog, selected: set<Id>, v: Id, s: set<Id>)
    requires DependencyClosed(items, s) && selected <= s && v in s
    ensures ClosureOf(items, selected, v) <= s
  {
    hide Reach;
    var g := Open(items, selected);
    assert Closed(g, s);
    forall w | w in ClosureOf(items, selected, v) ensures w in s { ClosedKeepsReach(g, s, v, w); }
  }

  lemma ClosureCloses(items: Catalog, selected: set<Id>, v: Id)
    requires v in items && forall w :: !MissingFrom(items, selected, v, w)
    ensures forall w :: w in ClosureOf(items, selected, v) ==>
              Needs(items, w) <= ClosureOf(items, selected, v) + selected
    ensures v in ClosureOf(items, selected, v) + selected
    ensures ClosureOf(items, selected, v) !! selected
    ensures DependencyClosed(items, selected) ==> DependencyClosed(items, selected + ClosureOf(items, selected, v))
  {
    hide Reach;
    var g := Open(items, selected);
    var c := ClosureOf(items, selected, v);
    ReachSelf(g, v);
    NotThroughSelected(items, selected, v);
    forall w, x | w in c && x in Needs(items, w) ensures x in c + selected {
      if x !in selected {
        assert x in Succ(g, w);
        ReachStep(g, v, w, x);
        assert !MissingFrom(items, selected, v, x);
      }
    }
  }

  lemma NotThroughSelected(items: Catalog, selected: set<Id>, v: Id)
    ensures ClosureOf(items, selected, v) !! selected
  {
    hide Reach;
    var g := Open(items, selected);
    if v !in selected {
      var s := Universe(g) + {v} - selected;
      assert Closed(g, s);
      forall w | w in ClosureOf(items, selected, v) ensures w !in selected { ClosedKeepsReach(g, s, v, w); }
    }
  }

  function MaxZero(n: int): int { if n < 0 then 0 else n }

  function Clamp(x: real): real { if x < 0.0 then 0.0 else if x > 1.0 then 1.0 else x }

  /** What an item counts against the budget. */
  ghost function CostOf(items: Catalog): Id -> int {
    v => if v in items then MaxZero(items[v].tokens) else 0
  }

  /** What an item contributes to the score of a candidate. */
  ghost function WorthOf(items: Catalog): Id -> real {
    v => if v in items then (if items[v].utility < 0.0 then 0.0 else items[v].utility) * Clamp(items[v].confidence)
        else 0.0
  }

  function ItemValue(item: Item): real { item.utility * item.confidence }

  /** What an item contributes to the reported utility of a pack. */
  ghost function ValueOf(items: Catalog): Id -> real {
    v => if v in items then ItemValue(items[v]) else 0.0
  }

  ghost function Cost(items: Catalog, s: set<Id>): int { IntSum(s, CostOf(items)) }

  ghost function Worth(items: Catalog, s: set<Id>): real { Sum(s, WorthOf(items)) }

  ghost function Value(items: Catalog, s: set<Id>): real { Sum(s, ValueOf(items)) }

  /** With utilities at least zero and confidences between zero and one, worth and value are the same thing. */
  ghost predicate Sensible(items: Catalog) {
    forall v :: v in items ==> items[v].utility >= 0.0 && 0.0 <= items[v].confidence <= 1.0
  }

  lemma WorthIsValue(items: Catalog, s: set<Id>)
    requires Sensible(items)
    ensures Worth(items, s) == Value(items, s)
  {
    SumSame(s, WorthOf(items), ValueOf(items));
  }

  /** Summing over a set in whatever order it yields its members. */
  method SumCost(items: Catalog, s: set<Id>) returns (cost: int)
    requires s <= items.Keys
    ensures cost == Cost(items, s)
  {
    hide IntSum;
    cost := 0;
    var rest := s;
    while rest != {}
      invariant rest <= s && cost + IntSum(rest, CostOf(items)) == Cost(items, s)
      decreases rest
    {
      var v :| v in rest;
      IntSumRemove(rest, CostOf(items), v);
      cost := cost + MaxZero(items[v].tokens);
      rest := rest - {v};
    }
    EmptySums(items);
  }

  method SumWorth(items: Catalog, s: set<Id>) returns (worth: real)
    requires s <= items.Keys
    ensures worth == Worth(items, s)
  {
    hide Sum, Clamp;
    worth := 0.0;
    var rest := s;
    while rest != {}
      invariant rest <= s && worth + Sum(rest, WorthOf(items)) == Worth(items, s)
      decreases rest
    {
      var v :| v in rest;
      SumRemove(rest, WorthOf(items), v);
      worth := worth + (if items[v].utility < 0.0 then 0.0 else items[v].utility) * Clamp(items[v].confidence);
      rest := rest - {v};
    }
    EmptySums(items);
  }

  lemma EmptySums(items: Catalog)
    ensures IntSum({}, CostOf(items)) == 0 && Sum({}, WorthOf(items)) == 0.0 && Sum({}, ValueOf(items)) == 0.0
  {
  }
}
