/** What the packer picks, in which orders it works and what it replaces, said without its scores and keys. */
module ContextChoices {
  import opened Ordering
  import opened Reachability
  import opened Sums
  import opened ContextItems
  import opened ContextGovernor
  import opened ContextPacking

  // ---- What sets of items count ----

  /** A further item adds its tokens to the cost, its clipped utility times its clipped confidence to the worth, and its
      utility times its confidence to the value. */
  lemma SumsGrow(items: Catalog, s: set<Id>, v: Id)
    requires v in items && v !in s
    ensures Cost(items, {}) == 0 && Worth(items, {}) == 0.0 && Value(items, {}) == 0.0
    ensures Cost(items, s + {v}) == Cost(items, s) + if items[v].tokens < 0 then 0 else items[v].tokens
    ensures Value(items, s + {v}) == Value(items, s) + items[v].utility * items[v].confidence
    ensures var utility := if items[v].utility < 0.0 then 0.0 else items[v].utility;
            var confidence := if items[v].confidence < 0.0 then 0.0
                              else if items[v].confidence > 1.0 then 1.0 else items[v].confidence;
            Worth(items, s + {v}) == Worth(items, s) + utility * confidence
  {
    hide Sum, IntSum;
    EmptySums(items);
    assert s + {v} - {v} == s;
    IntSumRemove(s + {v}, CostOf(items), v);
    SumRemove(s + {v}, WorthOf(items), v);
    SumRemove(s + {v}, ValueOf(items), v);
  }

  // ---- The greedy picks ----

  /** The selection after some picks, each of which brings in what it still lacks. */
  ghost function After(items: Catalog, from: set<Id>, picks: seq<Id>): set<Id>
    decreases |picks|
  {
    if picks == [] then from else After(items, from + ClosureOf(items, from, picks[0]), picks[1..])
  }

  lemma DenserIs(w: real, c: int, w': real, c': int)
    requires c >= 1 && c' >= 1
    ensures w / c as real > w' / c' as real <==> w * c' as real > w' * c as real
    ensures w / c as real == w' / c' as real <==> w * c' as real == w' * c as real
  {
    var d, d' := c as real, c' as real;
    var x, x' := w / d, w' / d';
    assert w == x * d && w' == x' * d';
    CrossMultiplied(x, d, x', d');
  }

  lemma CrossMultiplied(x: real, d: real, x': real, d': real)
    requires d > 0.0 && d' > 0.0
    ensures x > x' <==> x * d * d' > x' * d' * d
    ensures x == x' <==> x * d * d' == x' * d' * d
  {
    var p := d * d';
    assert p > 0.0 && x * d * d' == x * p && x' * d' * d == x' * p;
    if x > x' { LargerTimes(x, x', p); }
    if x < x' { LargerTimes(x', x, p); }
  }

  lemma LargerTimes(x: real, y: real, p: real)
    requires x > y && p > 0.0
    ensures x * p > y * p
  {
  }

  /** The best fit is worth more per token than any other candidate that fits, both closures counted with at least one
      token. Ties go to more worth, then to fewer tokens, then to the smaller id. */
  lemma BestFitIff(items: Catalog, selected: set<Id>, room: int, v: Id)
    ensures BestFit(items, selected, room, v)
       <==> (&& v in items && v !in selected && Cost(items, ClosureOf(items, selected, v)) <= room
             && forall u :: u in items && u !in selected && Cost(items, ClosureOf(items, selected, u)) <= room ==>
                  var worth, other := Worth(items, ClosureOf(items, selected, v)),
                                      Worth(items, ClosureOf(items, selected, u));
                  var cost, cost' := Cost(items, ClosureOf(items, selected, v)),
                                     Cost(items, ClosureOf(items, selected, u));
                  var left, right := worth * (if cost' < 1 then 1 else cost') as real,
                                     other * (if cost < 1 then 1 else cost) as real;
                  || left > right
                  || (left == right
                      && (worth > other || (worth == other
                      && (cost < cost' || (cost == cost' && NodeLe(v, u)))))))
  {
    hide ClosureOf, Worth, Cost, NodeLe;
    forall u ensures ScoreLe(ScoreOf(items, selected, v), ScoreOf(items, selected, u)) <==>
                     var worth, other := Worth(items, ClosureOf(items, selected, v)),
                                         Worth(items, ClosureOf(items, selected, u));
                     var cost, cost' := Cost(items, ClosureOf(items, selected, v)),
                                        Cost(items, ClosureOf(items, selected, u));
                     var left, right := worth * (if cost' < 1 then 1 else cost') as real,
                                        other * (if cost < 1 then 1 else cost) as real;
                     || left > right
                     || (left == right
                         && (worth > other || (worth == other
                         && (cost < cost' || (cost == cost' && NodeLe(v, u)))))) {
      DenserIs(Worth(items, ClosureOf(items, selected, v)), AtLeastOne(Cost(items, ClosureOf(items, selected, v))),
               Worth(items, ClosureOf(items, selected, u)), AtLeastOne(Cost(items, ClosureOf(items, selected, u))));
    }
  }

  /** Every pick of a run is the best fit for the room there is at its turn, and the picks make up the result. */
  lemma {:induction false} EveryPick(items: Catalog, budget: int, from: set<Id>, picks: seq<Id>, to: set<Id>, k: nat)
    requires GreedyRun(items, budget, from, picks, to) && k < |picks|
    ensures var now := After(items, from, picks[..k]);
            BestFit(items, now, budget - Cost(items, now), picks[k])
    ensures After(items, from, picks) == to
    decreases |picks|
  {
    hide BestFit, ClosureOf, Cost;
    if k > 0 {
      EveryPick(items, budget, from + ClosureOf(items, from, picks[0]), picks[1..], to, k - 1);
      assert picks[..k][1..] == picks[1..][..k - 1];
    } else if |picks| > 1 {
      EveryPick(items, budget, from + ClosureOf(items, from, picks[0]), picks[1..], to, 0);
    }
  }

  // ---- The orders ----

  /** Evictions are tried from the least value per token upwards, replacements from the most valuable downwards; a pack
      lists stable items first, then by role, then by id, with their texts. */
  lemma OrdersAre(digest: Digest, items: Catalog, roles: set<string>, budget: int, s: Story, pack: Pack)
    requires IsPack(digest, items, roles, budget, s, pack)
    ensures Elements(s.optional) == s.greedy - s.mandatory && Elements(s.incoming) == items.Keys - s.greedy
    ensures Elements(pack.selected) == s.final.selected
    ensures Elements(s.optional) + Elements(s.incoming) + Elements(pack.selected) <= items.Keys
    ensures forall i, j :: 0 <= i < j < |s.optional| ==>
              var x, y := items[s.optional[i]], items[s.optional[j]];
              var left, right := x.utility * x.confidence / (if x.tokens < 1 then 1 else x.tokens) as real,
                                 y.utility * y.confidence / (if y.tokens < 1 then 1 else y.tokens) as real;
              left < right || (left == right && NodeLe(s.optional[i], s.optional[j]))
    ensures forall i, j :: 0 <= i < j < |s.incoming| ==>
              var x, y := items[s.incoming[i]], items[s.incoming[j]];
              || x.utility * x.confidence > y.utility * y.confidence
              || (x.utility * x.confidence == y.utility * y.confidence && NodeLe(s.incoming[i], s.incoming[j]))
    ensures forall i, j :: 0 <= i < j < |pack.selected| ==>
              var x, y := items[pack.selected[i]], items[pack.selected[j]];
              || (x.stable && !y.stable)
              || (x.stable == y.stable && x.role != y.role && StringLe(x.role, y.role))
              || (x.stable == y.stable && x.role == y.role && NodeLe(pack.selected[i], pack.selected[j]))
    ensures |pack.sections| == |pack.selected|
    ensures forall i :: 0 <= i < |pack.selected| ==>
              pack.sections[i] == Section(pack.selected[i], items[pack.selected[i]].text)
  {
    FinalIsRun(items, roles, budget, s);
    OptionalIs(items, s.greedy - s.mandatory, s.optional);
    IncomingIs(items, items.Keys - s.greedy, s.incoming);
    SelectedOrderIs(items, s.final.selected, pack.selected);
    hide LeastClosed, GreedyRun, GreedyOutcome, SwapRun, Pass, Cost, NodeLe, StringLe, SortedBy, NoDuplicates,
      PrefixHash;
    forall i | 0 <= i < |pack.selected| ensures pack.selected[i] in items { assert pack.selected[i] in pack.selected; }
  }

  lemma OptionalIs(items: Catalog, s: set<Id>, order: seq<Id>)
    requires s <= items.Keys && InOrder(ByKey(DensityKey(items)), s, order)
    ensures forall i :: 0 <= i < |order| ==> order[i] in items
    ensures forall i, j :: 0 <= i < j < |order| ==>
              var x, y := items[order[i]], items[order[j]];
              var left, right := x.utility * x.confidence / (if x.tokens < 1 then 1 else x.tokens) as real,
                                 y.utility * y.confidence / (if y.tokens < 1 then 1 else y.tokens) as real;
              left < right || (left == right && NodeLe(order[i], order[j]))
  {
    hide NodeLe;
    forall i | 0 <= i < |order| ensures order[i] in items { assert order[i] in Elements(order); }
    forall i, j | 0 <= i < j < |order| ensures ByKey(DensityKey(items))(order[i], order[j]) {}
  }

  lemma IncomingIs(items: Catalog, s: set<Id>, order: seq<Id>)
    requires s <= items.Keys && InOrder(ByKey(ValueKey(items)), s, order)
    ensures forall i :: 0 <= i < |order| ==> order[i] in items
    ensures forall i, j :: 0 <= i < j < |order| ==>
              var x, y := items[order[i]], items[order[j]];
              || x.utility * x.confidence > y.utility * y.confidence
              || (x.utility * x.confidence == y.utility * y.confidence && NodeLe(order[i], order[j]))
  {
    hide NodeLe;
    forall i | 0 <= i < |order| ensures order[i] in items { assert order[i] in Elements(order); }
    forall i, j | 0 <= i < j < |order|
      ensures var x, y := items[order[i]], items[order[j]];
              || x.utility * x.confidence > y.utility * y.confidence
              || (x.utility * x.confidence == y.utility * y.confidence && NodeLe(order[i], order[j]))
    {
      assert ByKey(ValueKey(items))(order[i], order[j]);
      Negated(items[order[i]].utility, items[order[i]].confidence);
      Negated(items[order[j]].utility, items[order[j]].confidence);
    }
  }

  lemma Negated(a: real, b: real)
    ensures -a * b == -(a * b)
  {
  }

  lemma SelectedOrderIs(items: Catalog, s: set<Id>, order: seq<Id>)
    requires s <= items.Keys && InOrder(ByPlace(items), s, order)
    ensures forall i :: 0 <= i < |order| ==> order[i] in items
    ensures forall i, j :: 0 <= i < j < |order| ==>
              var x, y := items[order[i]], items[order[j]];
              || (x.stable && !y.stable)
              || (x.stable == y.stable && x.role != y.role && StringLe(x.role, y.role))
              || (x.stable == y.stable && x.role == y.role && NodeLe(order[i], order[j]))
  {
    hide NodeLe, StringLe;
    forall i | 0 <= i < |order| ensures order[i] in items { assert order[i] in Elements(order); }
    forall i, j | 0 <= i < j < |order| ensures ByPlace(items)(order[i], order[j]) {}
  }

  /** Text is ordered by its first difference, a proper beginning coming first. */
  lemma {:induction false} TextOrder(a: string, b: string)
    ensures StringLe(a, b)
       <==> (a <= b || exists k :: 0 <= k < |a| && k < |b| && a[..k] == b[..k] && a[k] < b[k])
  {
    if a != [] && b != [] {
      if a[0] == b[0] {
        TextOrder(a[1..], b[1..]);
        FirstDifference(a, b);
        assert a <= b <==> a[1..] <= b[1..];
      } else if a[0] < b[0] {
        assert a[..0] == b[..0];
      }
    }
  }

  lemma FirstDifference(a: string, b: string)
    requires a != [] && b != [] && a[0] == b[0]
    ensures (exists k :: 0 <= k < |a| && k < |b| && a[..k] == b[..k] && a[k] < b[k])
       <==> (exists k :: 0 <= k < |a[1..]| && k < |b[1..]| && a[1..][..k] == b[1..][..k] && a[1..][k] < b[1..][k])
  {
    if k :| 0 <= k < |a| && k < |b| && a[..k] == b[..k] && a[k] < b[k] {
      assert k > 0 && a[1..][..k - 1] == a[..k][1..] && b[1..][..k - 1] == b[..k][1..];
      assert a[1..][k - 1] < b[1..][k - 1];
    }
    if k :| 0 <= k < |a[1..]| && k < |b[1..]| && a[1..][..k] == b[1..][..k] && a[1..][k] < b[1..][k] {
      assert a[..k + 1] == [a[0]] + a[1..][..k] && b[..k + 1] == [b[0]] + b[1..][..k];
      assert a[k + 1] < b[k + 1];
    }
  }

  // ---- The replacement pass ----

  /** An item of the selection may go for a closure that is worth more than it, fits once it is gone, and that no other
      selected item depends on. */
  ghost predicate MayGo(items: Catalog, budget: int, now: Selection, closure: set<Id>, v: Id) {
    && v in items && v in now.selected
    && Worth(items, closure) > items[v].utility * items[v].confidence
    && Cost(items, closure) <= budget - now.used + items[v].tokens
    && (forall w :: w in now.selected && w in items && v in items[w].dependencies ==> w == v)
  }

  /** One turn: the first item that may go is replaced by what the incoming one brings; otherwise nothing changes. */
  ghost predicate Replaces(items: Catalog, budget: int, optional: seq<Id>, incoming: Id, now: Selection,
                           next: Selection) {
    var closure := ClosureOf(items, now.selected, incoming);
    || (next == now && forall k :: 0 <= k < |optional| ==> !MayGo(items, budget, now, closure, optional[k]))
    || (exists k ::
          && 0 <= k < |optional| && MayGo(items, budget, now, closure, optional[k])
          && (forall j :: 0 <= j < k ==> !MayGo(items, budget, now, closure, optional[j]))
          && next == Selection(now.selected - {optional[k]} + closure,
                               now.used - items[optional[k]].tokens + Cost(items, closure),
                               now.swaps + [Swap(incoming, optional[k])]))
  }

  lemma MayGoIff(items: Catalog, budget: int, now: Selection, incoming: Id, v: Id)
    requires v in items
    ensures CanReplace(items, budget, now.selected, now.used, incoming, v)
       <==> MayGo(items, budget, now, ClosureOf(items, now.selected, incoming), v)
  {
    hide Worth, Cost, ClosureOf;
    forall w ensures v in Needs(items, w) <==> w in items && v in items[w].dependencies {}
  }

  lemma {:induction false} FirstIs(items: Catalog, budget: int, optional: seq<Id>, now: Selection, incoming: Id)
    returns (k: nat)
    ensures forall j :: 0 <= j < k && j < |optional| ==>
              !CanReplace(items, budget, now.selected, now.used, incoming, optional[j])
    ensures k <= |optional|
    ensures k < |optional| ==> CanReplace(items, budget, now.selected, now.used, incoming, optional[k])
    ensures FirstReplaceable(items, budget, optional, now.selected, now.used, incoming)
         == if k < |optional| then Evicted(optional[k]) else Kept
  {
    hide CanReplace;
    k := 0;
    if optional != [] && !CanReplace(items, budget, now.selected, now.used, incoming, optional[0]) {
      var later := FirstIs(items, budget, optional[1..], now, incoming);
      k := later + 1;
      forall j | 0 <= j < k && j < |optional|
        ensures !CanReplace(items, budget, now.selected, now.used, incoming, optional[j])
      {
        if j > 0 { assert optional[j] == optional[1..][j - 1]; }
      }
    }
  }

  lemma TurnIs(items: Catalog, budget: int, optional: seq<Id>, incoming: Id, now: Selection)
    requires forall v :: v in optional ==> v in items
    ensures Replaces(items, budget, optional, incoming, now, Turn(items, budget, optional, incoming, now))
  {
    hide CanReplace, MayGo, FirstReplaceable, ClosureOf, Cost;
    var k := FirstIs(items, budget, optional, now, incoming);
    forall j | 0 <= j < |optional|
      ensures CanReplace(items, budget, now.selected, now.used, incoming, optional[j])
         <==> MayGo(items, budget, now, ClosureOf(items, now.selected, incoming), optional[j])
    {
      assert optional[j] in optional;
      MayGoIff(items, budget, now, incoming, optional[j]);
    }
  }

  /** A pass takes the dropped items in their order, each from where the one before it left off. */
  lemma {:induction false} PassIs(items: Catalog, budget: int, optional: seq<Id>, dropped: seq<Id>, selected: set<Id>,
                                  used: int)
    returns (states: seq<Selection>)
    requires forall v :: v in optional ==> v in items
    ensures |states| == |dropped| + 1 && states[0] == Selection(selected, used, [])
    ensures forall k :: 0 <= k < |dropped| ==>
              Replaces(items, budget, optional, dropped[k], states[k], states[k + 1])
    ensures Pass(items, budget, optional, dropped, selected, used) == states[|dropped|]
  {
    hide Replaces, Turn;
    var n := |dropped| - 1;
    if n < 0 {
      states := [Selection(selected, used, [])];
    } else {
      var before := PassIs(items, budget, optional, dropped[..n], selected, used);
      states := before + [Turn(items, budget, optional, dropped[n], before[n])];
      TurnIs(items, budget, optional, dropped[n], before[n]);
    }
  }

  // ---- Reports ----

  /** A refusal selects nothing, drops every item by id and names the cost; the missing roles it names, in order, are
      the mandatory ones that no item has. */
  lemma RefusalIs(digest: Digest, items: Catalog, roles: set<string>, budget: int, mandatory: set<Id>, pack: Pack)
    requires LeastClosed(items, Required(items, roles), mandatory)
    requires Refused(digest, items, roles, budget, mandatory, pack)
    ensures pack.selected == [] && pack.used == 0 && pack.sections == [] && pack.prefixHash == digest([])
    ensures !pack.mandatorySatisfied && pack.utility == 0.0 && pack.budget == budget
    ensures (forall v :: v in pack.dropped <==> v in items)
            && forall i, j :: 0 <= i < j < |pack.dropped| ==>
                 pack.dropped[i] != pack.dropped[j] && NodeLe(pack.dropped[i], pack.dropped[j])
    ensures if forall r :: r in roles ==> exists v :: v in items && items[v].role == r
            then pack.reasons == [MandatoryOverBudget(Cost(items, mandatory), budget)]
            else |pack.reasons| == 2 && pack.reasons[0] == MandatoryOverBudget(Cost(items, mandatory), budget)
                 && pack.reasons[1].MissingRoles?
                 && (forall r :: r in pack.reasons[1].roles <==>
                       r in roles && forall v :: v in items ==> items[v].role != r)
                 && forall i, j :: 0 <= i < j < |pack.reasons[1].roles| ==>
                      pack.reasons[1].roles[i] != pack.reasons[1].roles[j]
                      && StringLe(pack.reasons[1].roles[i], pack.reasons[1].roles[j])
  {
    hide NodeLe, StringLe, Cost, DependencyClosed;
    forall v ensures v in pack.dropped <==> v in items { assert v in Elements(pack.dropped) <==> v in pack.dropped; }
    forall r | r in roles ensures r in RolesOf(items, mandatory) <==> exists v :: v in items && items[v].role == r {
      if v :| v in items && items[v].role == r { assert v in Required(items, roles); }
    }
    var missing: seq<string> :| SortedBy(StringLe, missing) && NoDuplicates(missing)
      && Elements(missing) == roles - RolesOf(items, mandatory)
      && pack.reasons == [MandatoryOverBudget(Cost(items, mandatory), budget)] + if missing == [] then []
          else [MissingRoles(missing)];
    hide RolesOf, Required, LeastClosed;
    forall r ensures r in missing <==> r in roles && r !in RolesOf(items, mandatory) {
      assert r in missing <==> r in Elements(missing);
    }
    if missing != [] { assert missing[0] in missing; }
  }

  /** The prefix hash is stable: it depends on the ids and texts of the selected items alone, not on their roles, their
      stability or anything outside the selection. */
  lemma PrefixHashStable(digest: Digest, items: Catalog, items': Catalog, selected: set<Id>, hash: string,
                         hash': string)
    requires PrefixHash(digest, items, selected, hash) && PrefixHash(digest, items', selected, hash')
    requires forall v :: v in selected ==> Text(items, v) == Text(items', v)
    ensures hash == hash'
  {
    hide NodeLe, LinearOrder, Text, InOrder;
    var a :| PrefixSections(items, selected, a) && hash == digest(a);
    var b :| PrefixSections(items', selected, b) && hash' == digest(b);
    var order :| InOrder(NodeLe, selected, order) && a == SectionsOf(items, order);
    var order' :| InOrder(NodeLe, selected, order') && b == SectionsOf(items', order');
    NodeLeIsLinear();
    InOrderUnique(NodeLe, selected, order, order');
    forall i | 0 <= i < |order| ensures order[i] in selected { MemberOf(selected, order, i); }
    assert a == b;
  }

  lemma MemberOf(selected: set<Id>, order: seq<Id>, i: nat)
    requires InOrder(NodeLe, selected, order) && i < |order|
    ensures order[i] in selected
  {
    hide NodeLe;
    assert order[i] in Elements(order);
  }
}
