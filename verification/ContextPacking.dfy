/** `pack_context` as a whole: what a pack is, that there is only one, and the method that computes it. */
module ContextPacking {
  import opened Ordering
  import opened Reachability
  import opened Sums
  import opened ContextItems
  import opened ContextGovernor

  // ---- The mandatory closure ----

  ghost function Required(items: Catalog, roles: set<string>): set<Id> {
    set v | v in items && (items[v].mandatory || items[v].role in roles)
  }

  /** The smallest complete set of items that holds everything in `required`. */
  ghost predicate LeastClosed(items: Catalog, required: set<Id>, m: set<Id>) {
    && required <= m <= items.Keys
    && DependencyClosed(items, m)
    && forall s {:trigger DependencyClosed(items, s)} :: DependencyClosed(items, s) && required <= s ==> m <= s
  }

  /** Some complete set of existing items holds everything in `required`. */
  ghost predicate Closable(items: Catalog, required: set<Id>) {
    exists s :: s <= items.Keys && required <= s && DependencyClosed(items, s)
  }

  lemma MissingBlocks(items: Catalog, required: set<Id>, expanded: set<Id>, v: Id, w: Id)
    requires v in required && MissingFrom(items, expanded, v, w)
    requires forall s {:trigger DependencyClosed(items, s)} :: DependencyClosed(items, s) && required <= s ==>
              expanded <= s
    ensures !Closable(items, required)
  {
    hide Reach;
    if Closable(items, required) {
      var s :| s <= items.Keys && required <= s && DependencyClosed(items, s);
      assert Closed(Open(items, expanded), s);
      ClosedKeepsReach(Open(items, expanded), s, v, w);
    }
  }

  /** The required items in order, each bringing in what it still lacks. */
  method MandatoryClosure(items: Catalog, required: set<Id>) returns (r: Found)
    requires required <= items.Keys
    ensures r.Closure? <==> Closable(items, required)
    ensures r.Closure? ==> LeastClosed(items, required, r.required)
    ensures r.KeyError? ==> r.missing !in items
  {
    hide ClosureOf, MissingFrom, DependencyClosed, LinearOrder;
    NodeLeIsLinear();
    LinearIsTotal(NodeLe);
    var order := SortedElements(NodeLe, required);
    var expanded: set<Id> := {};
    EmptyIsClosed(items);
    for i := 0 to |order|
      invariant expanded <= items.Keys && DependencyClosed(items, expanded)
      invariant forall j :: 0 <= j < i ==> order[j] in expanded
      invariant forall s {:trigger DependencyClosed(items, s)} :: DependencyClosed(items, s) && required <= s ==>
                expanded <= s
    {
      assert order[i] in Elements(order);
      var found := FindClosure(items, expanded, order[i]);
      if found.KeyError? {
        MissingBlocks(items, required, expanded, order[i], found.missing);
        return found;
      }
      ClosureCloses(items, expanded, order[i]);
      ClosureInItems(items, expanded, order[i]);
      forall s | DependencyClosed(items, s) && required <= s ensures expanded + found.required <= s {
        ClosureIsLeast(items, expanded, order[i], s);
      }
      expanded := expanded + found.required;
    }
    forall v | v in required ensures v in expanded {
      assert v in Elements(order);
      var i := IndexOf(order, v);
    }
    r := Closure(expanded);
  }

  lemma EmptyIsClosed(items: Catalog)
    ensures DependencyClosed(items, {})
  {
  }

  // ---- The orders of the pass and of the result ----

  /** Ascending by key, ties broken by id. */
  function ByKey(key: Id -> real): (Id, Id) -> bool {
    (a, b) => key(a) < key(b) || (key(a) == key(b) && NodeLe(a, b))
  }

  /** Optional items are tried for eviction from the least value per token upwards. */
  function DensityKey(items: Catalog): Id -> real {
    v => if v in items then ItemValue(items[v]) / AtLeastOne(items[v].tokens) as real else 0.0
  }

  /** Dropped items are tried from the most valuable downwards. */
  function ValueKey(items: Catalog): Id -> real {
    v => if v in items then -items[v].utility * items[v].confidence else 0.0
  }

  /** The order of a pack: stable items first, then by role, then by id. */
  function ByPlace(items: Catalog): (Id, Id) -> bool {
    (a, b) => PlaceLe(Late(items, a), Role(items, a), a, Late(items, b), Role(items, b), b)
  }

  function Late(items: Catalog, v: Id): bool { v in items && !items[v].stable }

  function Role(items: Catalog, v: Id): string { if v in items then items[v].role else "" }

  predicate PlaceLe(late: bool, role: string, a: Id, late': bool, role': string, b: Id) {
    (!late && late') || (late == late' && (if role == role' then NodeLe(a, b) else StringLe(role, role')))
  }

  lemma ByKeyIsLinear(key: Id -> real)
    ensures LinearOrder(ByKey(key))
  {
    hide NodeLe;
    NodeLeIsLinear();
    var le := ByKey(key);
    forall a, b ensures le(a, b) || le(b, a) { assert NodeLe(a, b) || NodeLe(b, a); }
    forall a, b, c | le(a, b) && le(b, c) ensures le(a, c) { assert NodeLe(a, b) && NodeLe(b, c) ==> NodeLe(a, c); }
    forall a, b | le(a, b) && le(b, a) ensures a == b { assert NodeLe(a, b) && NodeLe(b, a) ==> a == b; }
  }

  lemma ByPlaceIsLinear(items: Catalog)
    ensures LinearOrder(ByPlace(items))
  {
    hide NodeLe, StringLe, PlaceLe;
    var le := ByPlace(items);
    forall a, b ensures le(a, b) || le(b, a) {
      PlaceTotal(Late(items, a), Role(items, a), a, Late(items, b), Role(items, b), b);
    }
    forall a, b, c | le(a, b) && le(b, c) ensures le(a, c) {
      PlaceTransitive(Late(items, a), Role(items, a), a, Late(items, b), Role(items, b), b, Late(items, c),
                      Role(items, c), c);
    }
    forall a, b | le(a, b) && le(b, a) ensures a == b {
      PlaceAntisymmetric(Late(items, a), Role(items, a), a, Late(items, b), Role(items, b), b);
    }
  }

  lemma PlaceTotal(l: bool, r: string, a: Id, l': bool, r': string, b: Id)
    ensures PlaceLe(l, r, a, l', r', b) || PlaceLe(l', r', b, l, r, a)
  {
    hide NodeLe, StringLe;
    NodeLeIsLinear();
    StringLeIsLinear();
    assert NodeLe(a, b) || NodeLe(b, a);
    assert StringLe(r, r') || StringLe(r', r);
  }

  lemma PlaceTransitive(l: bool, r: string, a: Id, l': bool, r': string, b: Id, l'': bool, r'': string, c: Id)
    requires PlaceLe(l, r, a, l', r', b) && PlaceLe(l', r', b, l'', r'', c)
    ensures PlaceLe(l, r, a, l'', r'', c)
  {
    hide NodeLe, StringLe;
    NodeLeIsLinear();
    StringLeIsLinear();
    assert NodeLe(a, b) && NodeLe(b, c) ==> NodeLe(a, c);
    assert StringLe(r, r') && StringLe(r', r'') ==> StringLe(r, r'');
    assert StringLe(r, r') && StringLe(r', r) ==> r == r';
  }

  lemma PlaceAntisymmetric(l: bool, r: string, a: Id, l': bool, r': string, b: Id)
    requires PlaceLe(l, r, a, l', r', b) && PlaceLe(l', r', b, l, r, a)
    ensures a == b
  {
    hide NodeLe, StringLe;
    NodeLeIsLinear();
    StringLeIsLinear();
    assert NodeLe(a, b) && NodeLe(b, a) ==> a == b;
    assert StringLe(r, r') && StringLe(r', r) ==> r == r';
  }

  /** `order` lists the members of s, each once, in the order `le`. */
  ghost predicate InOrder(le: (Id, Id) -> bool, s: set<Id>, order: seq<Id>) {
    SortedBy(le, order) && NoDuplicates(order) && Elements(order) == s
  }

  lemma InOrderUnique(le: (Id, Id) -> bool, s: set<Id>, a: seq<Id>, b: seq<Id>)
    requires LinearOrder(le) && InOrder(le, s, a) && InOrder(le, s, b)
    ensures a == b
  {
    forall x ensures x in a <==> x in b { assert x in Elements(a) <==> x in Elements(b); }
    SortedUnique(le, a, b);
  }

  // ---- What a pack is ----

  datatype Reason = MandatoryOverBudget(cost: int, budget: int) | MissingRoles(roles: seq<string>)

  /** The id and the text of a selected item. */
  datatype Section = Section(id: Id, text: string)

  datatype Pack = Pack(budget: int, used: int, selected: seq<Id>, dropped: seq<Id>, prefixHash: string,
                       mandatorySatisfied: bool,
                       utility: real, sections: seq<Section>, reasons: seq<Reason>)

  /** The canonical JSON of a list of sections and its SHA-256, as a function the code calls. */
  type Digest = seq<Section> -> string

  function Text(items: Catalog, v: Id): string { if v in items then items[v].text else "" }

  function SectionsOf(items: Catalog, order: seq<Id>): seq<Section> {
    seq(|order|, i requires 0 <= i < |order| => Section(order[i], Text(items, order[i])))
  }

  /** The sections of a selection in id order. */
  ghost predicate PrefixSections(items: Catalog, selected: set<Id>, sections: seq<Section>) {
    exists order :: InOrder(NodeLe, selected, order) && sections == SectionsOf(items, order)
  }

  /** `stable_prefix_hash`: the digest of these sections. */
  ghost predicate PrefixHash(digest: Digest, items: Catalog, selected: set<Id>, hash: string) {
    exists sections :: PrefixSections(items, selected, sections) && hash == digest(sections)
  }

  ghost function RolesOf(items: Catalog, s: set<Id>): set<string> {
    set v | v in s && v in items :: items[v].role
  }

  /** How a pack came about: the mandatory closure, the greedy picks, the two orders of the replacement pass and its
      result. */
  datatype Story = Story(mandatory: set<Id>, picks: seq<Id>, greedy: set<Id>, optional: seq<Id>, incoming: seq<Id>,
                         final: Selection)

  ghost predicate IsStory(items: Catalog, roles: set<string>, budget: int, s: Story) {
    && LeastClosed(items, Required(items, roles), s.mandatory)
    && GreedyRun(items, budget, s.mandatory, s.picks, s.greedy)
    && GreedyOutcome(items, s.mandatory, budget, s.greedy)
    && InOrder(ByKey(DensityKey(items)), s.greedy - s.mandatory, s.optional)
    && InOrder(ByKey(ValueKey(items)), items.Keys - s.greedy, s.incoming)
    && s.final == Pass(items, budget, s.optional, s.incoming, s.greedy, Cost(items, s.greedy))
  }

  /** The context pack that a final selection is reported as. */
  ghost predicate Reports(digest: Digest, items: Catalog, roles: set<string>, budget: int, mandatory: set<Id>,
                          final: Selection, pack: Pack) {
    && pack.budget == budget && pack.used == final.used && pack.reasons == []
    && InOrder(ByPlace(items), final.selected, pack.selected)
    && InOrder(NodeLe, items.Keys - final.selected, pack.dropped)
    && pack.utility == Value(items, final.selected)
    && pack.sections == SectionsOf(items, pack.selected)
    && PrefixHash(digest, items, final.selected, pack.prefixHash)
    && (pack.mandatorySatisfied <==> roles <= RolesOf(items, final.selected) && mandatory <= final.selected)
  }

  /** When the mandatory closure alone is too expensive nothing is selected. */
  ghost predicate Refused(digest: Digest, items: Catalog, roles: set<string>, budget: int, mandatory: set<Id>,
                          pack: Pack) {
    && pack.budget == budget && pack.used == 0 && pack.selected == [] && pack.utility == 0.0 && !pack.mandatorySatisfied
    && InOrder(NodeLe, items.Keys, pack.dropped) && pack.sections == [] && pack.prefixHash == digest([])
    && (exists missing: seq<string> ::
          && SortedBy(StringLe, missing) && NoDuplicates(missing)
             && Elements(missing) == roles - RolesOf(items, mandatory)
          && pack.reasons == [MandatoryOverBudget(Cost(items, mandatory), budget)] + if missing == [] then []
             else [MissingRoles(missing)])
  }

  ghost predicate IsPack(digest: Digest, items: Catalog, roles: set<string>, budget: int, s: Story, pack: Pack) {
    IsStory(items, roles, budget, s) && Reports(digest, items, roles, budget, s.mandatory, s.final, pack)
  }

  // ---- What holds of every pack ----

  lemma LeastClosedUnique(items: Catalog, required: set<Id>, a: set<Id>, b: set<Id>)
    requires LeastClosed(items, required, a) && LeastClosed(items, required, b)
    ensures a == b
  {
    hide DependencyClosed;
  }

  lemma StoryUnique(items: Catalog, roles: set<string>, budget: int, s: Story, t: Story)
    requires IsStory(items, roles, budget, s) && IsStory(items, roles, budget, t)
    ensures s.mandatory == t.mandatory && s.final == t.final
  {
    hide LeastClosed, GreedyRun, GreedyOutcome, InOrder, LinearOrder, Pass, Cost, NextPick;
    LeastClosedUnique(items, Required(items, roles), s.mandatory, t.mandatory);
    forall v ensures !NextPick(items, budget, s.greedy, v) { OutcomeIsFinal(items, s.mandatory, budget, s.greedy, v); }
    forall v ensures !NextPick(items, budget, t.greedy, v) { OutcomeIsFinal(items, t.mandatory, budget, t.greedy, v); }
    GreedyDeterministic(items, budget, s.mandatory, s.picks, s.greedy, t.picks, t.greedy);
    ByKeyIsLinear(DensityKey(items));
    ByKeyIsLinear(ValueKey(items));
    InOrderUnique(ByKey(DensityKey(items)), s.greedy - s.mandatory, s.optional, t.optional);
    InOrderUnique(ByKey(ValueKey(items)), items.Keys - s.greedy, s.incoming, t.incoming);
  }

  /** Packing is deterministic: the catalog, the roles and the budget leave one possible pack, whatever order the
      items came in. */
  lemma PackUnique(digest: Digest, items: Catalog, roles: set<string>, budget: int, s: Story, p: Pack, t: Story,
                   q: Pack)
    requires IsPack(digest, items, roles, budget, s, p) && IsPack(digest, items, roles, budget, t, q)
    ensures p == q
  {
    StoryUnique(items, roles, budget, s, t);
    hide InOrder, LinearOrder, IsStory, NodeLe;
    ByPlaceIsLinear(items);
    NodeLeIsLinear();
    InOrderUnique(ByPlace(items), s.final.selected, p.selected, q.selected);
    InOrderUnique(NodeLe, items.Keys - s.final.selected, p.dropped, q.dropped);
    PrefixHashUnique(digest, items, s.final.selected, p.prefixHash, q.prefixHash);
  }

  lemma PrefixHashUnique(digest: Digest, items: Catalog, selected: set<Id>, h: string, h': string)
    requires PrefixHash(digest, items, selected, h) && PrefixHash(digest, items, selected, h')
    ensures h == h'
  {
    hide InOrder, LinearOrder, NodeLe;
    var a :| PrefixSections(items, selected, a) && h == digest(a);
    var b :| PrefixSections(items, selected, b) && h' == digest(b);
    var order :| InOrder(NodeLe, selected, order) && a == SectionsOf(items, order);
    var order' :| InOrder(NodeLe, selected, order') && b == SectionsOf(items, order');
    NodeLeIsLinear();
    InOrderUnique(NodeLe, selected, order, order');
  }

  /** Packs with one prefix hash give the same items with the same texts, whatever catalogs, stability or roles they
      come from, or else the sections that the two hashes were taken over collide. */
  lemma PrefixHashCommits(digest: Digest, items: Catalog, selected: set<Id>, items': Catalog, selected': set<Id>,
                          hash: string)
    returns (a: seq<Section>, b: seq<Section>)
    requires PrefixHash(digest, items, selected, hash) && PrefixHash(digest, items', selected', hash)
    ensures PrefixSections(items, selected, a) && PrefixSections(items', selected', b)
    ensures (selected == selected' && forall v :: v in selected ==> Text(items, v) == Text(items', v))
            || (a != b && digest(a) == digest(b))
  {
    hide NodeLe;
    a :| PrefixSections(items, selected, a) && hash == digest(a);
    b :| PrefixSections(items', selected', b) && hash == digest(b);
    var order :| InOrder(NodeLe, selected, order) && a == SectionsOf(items, order);
    var order' :| InOrder(NodeLe, selected', order') && b == SectionsOf(items', order');
    if a == b {
      SectionsReveal(items, order, items', order');
      forall v | v in selected ensures Text(items, v) == Text(items', v) {
        assert v in Elements(order);
        var i := IndexOf(order, v);
        assert a[i] == b[i];
      }
    }
  }

  lemma SectionsReveal(items: Catalog, order: seq<Id>, items': Catalog, order': seq<Id>)
    requires SectionsOf(items, order) == SectionsOf(items', order')
    ensures order == order'
  {
    var a, b := SectionsOf(items, order), SectionsOf(items', order');
    assert |a| == |b|;
    forall i | 0 <= i < |order| ensures order[i] == order'[i] { assert a[i] == b[i]; }
  }

  lemma FinalIsRun(items: Catalog, roles: set<string>, budget: int, s: Story)
    requires IsStory(items, roles, budget, s)
    ensures s.mandatory <= s.final.selected <= items.Keys && s.mandatory <= s.greedy && Cost(items, s.greedy) <= budget
    ensures SwapRun(items, budget, s.greedy, Cost(items, s.greedy), s.final.swaps, s.final.selected, s.final.used)
  {
    hide LeastClosed, GreedyRun, Pass, Cost, SwapRun, ClosureOf, SortedBy, NoDuplicates;
    forall v | v in s.optional ensures v !in s.mandatory { assert v in Elements(s.optional); }
    PassIsSwapRun(items, budget, s.mandatory, s.optional, s.incoming, s.greedy, Cost(items, s.greedy));
  }

  /** Every pack keeps the mandatory closure and the budget. `used` never understates the selection, and is exact when
      no token count is negative. With sensible scores the replacement pass can only have raised the value. */
  lemma PackKeeps(digest: Digest, items: Catalog, roles: set<string>, budget: int, s: Story, pack: Pack)
    requires IsPack(digest, items, roles, budget, s, pack)
    ensures s.mandatory <= Elements(pack.selected) <= items.Keys
    ensures Cost(items, Elements(pack.selected)) <= pack.used <= budget
    ensures (forall v :: v in items ==> items[v].tokens >= 0) ==> pack.used == Cost(items, Elements(pack.selected))
    ensures Sensible(items) ==> pack.utility >= Value(items, s.greedy)
    ensures Sensible(items) && s.final.swaps != [] ==> pack.utility > Value(items, s.greedy)
    ensures Elements(pack.selected) !! Elements(pack.dropped)
    ensures Elements(pack.selected) + Elements(pack.dropped) == items.Keys
  {
    FinalIsRun(items, roles, budget, s);
    hide IsStory, SwapRun, Cost, Value;
    SwapRunKeeps(items, budget, s.greedy, Cost(items, s.greedy), s.final.swaps, s.final.selected, s.final.used);
  }

  /** A context pack reports its mandatory roles satisfied exactly when every one of them is the role of some item
      given. */
  lemma SatisfiedIff(digest: Digest, items: Catalog, roles: set<string>, budget: int, s: Story, pack: Pack)
    requires IsPack(digest, items, roles, budget, s, pack)
    ensures pack.mandatorySatisfied <==> roles <= RolesOf(items, items.Keys)
  {
    FinalIsRun(items, roles, budget, s);
    hide GreedyRun, GreedyOutcome, SwapRun, Pass, Cost, InOrder, DependencyClosed, PrefixHash;
    if roles <= RolesOf(items, items.Keys) {
      forall r | r in roles ensures r in RolesOf(items, s.final.selected) {
        var v :| v in items && items[v].role == r;
        assert v in Required(items, roles);
      }
    }
  }

  // ---- When a pack is complete ----

  /** The only dependencies a pack can lack are on items that its replacement pass evicted: it is complete exactly when
      nothing it selects depends on one of those that did not come back. */
  lemma PackClosedIff(digest: Digest, items: Catalog, roles: set<string>, budget: int, s: Story, pack: Pack)
    requires IsPack(digest, items, roles, budget, s, pack) && Resolved(items)
    ensures DependencyClosed(items, Elements(pack.selected))
       <==> forall w, x :: w in pack.selected && x in Needs(items, w) && x in EvictedBy(s.final.swaps) ==>
           x in pack.selected
  {
    hide IsStory, Reports, Needs, EvictedBy, Resolved, GapsWithin, SwapRun, Cost;
    FinalIsRun(items, roles, budget, s);
    GreedyHasNoGaps(items, roles, budget, s);
    SwapRunGaps(items, budget, s.greedy, Cost(items, s.greedy), s.final.swaps, s.final.selected, s.final.used, {});
    SelectedIs(digest, items, roles, budget, s, pack);
    ClosedIffNoGaps(items, pack.selected, EvictedBy(s.final.swaps));
  }

  lemma GreedyHasNoGaps(items: Catalog, roles: set<string>, budget: int, s: Story)
    requires IsStory(items, roles, budget, s)
    ensures GapsWithin(items, s.greedy, {})
  {
    hide LeastClosed, Pass, Cost, InOrder, GreedyRun, Needs;
  }

  lemma ClosedIffNoGaps(items: Catalog, selected: seq<Id>, gone: set<Id>)
    requires GapsWithin(items, Elements(selected), {} + gone)
    ensures DependencyClosed(items, Elements(selected))
       <==> forall w, x :: w in selected && x in Needs(items, w) && x in gone ==> x in selected
  {
    hide Needs;
    forall v ensures v in Elements(selected) <==> v in selected {}
  }

  lemma SelectedIs(digest: Digest, items: Catalog, roles: set<string>, budget: int, s: Story, pack: Pack)
    requires IsPack(digest, items, roles, budget, s, pack)
    ensures Elements(pack.selected) == s.final.selected
  {
    hide IsStory, PrefixHash;
  }

  /** A pack is complete when no item outside the greedy selection depends on an optional item of it, and when nothing
      was replaced. */
  lemma PackClosed(digest: Digest, items: Catalog, roles: set<string>, budget: int, s: Story, pack: Pack)
    requires IsPack(digest, items, roles, budget, s, pack) && Resolved(items)
    requires NothingLeansOn(items, s.mandatory, s.greedy) || s.final.swaps == []
    ensures DependencyClosed(items, Elements(pack.selected))
  {
    FinalIsRun(items, roles, budget, s);
    SelectedIs(digest, items, roles, budget, s, pack);
    if s.final.swaps != [] {
      PassSwaps(items, budget, s.optional, s.incoming, s.greedy, Cost(items, s.greedy));
      hide LeastClosed, Pass, Cost, GreedyRun, SwapRun, SortedBy, NoDuplicates, DependencyClosed, NothingLeansOn;
      forall v | v in s.optional ensures v in s.greedy - s.mandatory { assert v in Elements(s.optional); }
      forall v | v in s.incoming ensures v in items && v !in s.greedy { assert v in Elements(s.incoming); }
      SwapRunKeepsClosed(items, budget, s.mandatory, s.greedy, s.greedy, Cost(items, s.greedy),
                         s.final.swaps, s.final.selected, s.final.used);
    }
  }

  ghost function BreakingStory(): Story {
    Story({}, [CHEAP], {CHEAP}, [CHEAP], [DEAR], Selection({DEAR}, 10, [Swap(DEAR, CHEAP)]))
  }

  lemma BreakingIsStory()
    ensures IsStory(BreakingCatalog(), {}, 10, BreakingStory())
  {
    hide LeastClosed, GreedyRun, GreedyOutcome, Pass, Cost, InOrder, BreakingCatalog, Resolved, Consistent, Sensible,
        DependencyClosed,
      CanReplace, AfterSwap, NodeLe, Required, Needs, ClosureOf, DensityKey, ValueKey;
    var items, selected, incoming, outgoing := ReplacementCanBreakClosure();
    BreakingNeeds();
    BreakingSums();
    NothingRequired(items);
    BreakingGreedy();
    BreakingPass();
    OneInOrder(ByKey(DensityKey(items)), CHEAP);
    OneInOrder(ByKey(ValueKey(items)), DEAR);
    assert {CHEAP} - {} == {CHEAP} && items.Keys - {CHEAP} == {DEAR};
  }

  ghost function BreakingPack(digest: Digest): Pack {
    var sections := SectionsOf(BreakingCatalog(), [DEAR]);
    Pack(10, 10, [DEAR], [CHEAP], digest(sections), true, 5.0, sections, [])
  }

  lemma BreakingReports(digest: Digest)
    ensures Reports(digest, BreakingCatalog(), {}, 10, {}, BreakingStory().final, BreakingPack(digest))
  {
    hide Cost, Value, Worth, InOrder, BreakingCatalog, Resolved, Consistent, Sensible, DependencyClosed, SectionsOf,
        NodeLe, Needs;
    var items := BreakingCatalog();
    BreakingNeeds();
    BreakingSums();
    OneInOrder(ByPlace(items), DEAR);
    OneInOrder(NodeLe, DEAR);
    OneInOrder(NodeLe, CHEAP);
    assert items.Keys - {DEAR} == {CHEAP};
    assert PrefixSections(items, {DEAR}, SectionsOf(items, [DEAR]));
    assert PrefixHash(digest, items, {DEAR}, digest(SectionsOf(items, [DEAR])));
  }

  /** A pack that gives an item without the item it depends on, although its greedy selection was complete. */
  lemma PackCanLackDependency(digest: Digest) returns (items: Catalog, s: Story, pack: Pack)
    ensures Resolved(items) && Consistent(items) && Sensible(items) && IsPack(digest, items, {}, 10, s, pack)
    ensures DependencyClosed(items, s.greedy) && !DependencyClosed(items, Elements(pack.selected))
  {
    hide IsStory, Reports, BreakingCatalog, Resolved, Consistent, Sensible, DependencyClosed, Needs;
    items, s, pack := BreakingCatalog(), BreakingStory(), BreakingPack(digest);
    BreakingNeeds();
    BreakingIsStory();
    BreakingReports(digest);
    assert Elements(pack.selected) == {DEAR};
  }

  lemma NothingRequired(items: Catalog)
    requires items == BreakingCatalog()
    ensures LeastClosed(items, Required(items, {}), {})
  {
    assert Required(items, {}) == {};
  }

  lemma OneInOrder(le: (Id, Id) -> bool, v: Id)
    ensures InOrder(le, {v}, [v])
  {
  }

  lemma BreakingGreedy()
    ensures GreedyRun(BreakingCatalog(), 10, {}, [CHEAP], {CHEAP})
  {
    hide BreakingCatalog, Cost, Worth, ClosureOf, NodeLe;
    var items := BreakingCatalog();
    BreakingNeeds();
    BreakingClosures();
    BreakingSums();
    ScoreLeIsTotal();
    assert {} + {CHEAP} == {CHEAP};
    assert NextPick(items, 10, {}, CHEAP);
    assert [CHEAP][1..] == [];
    assert GreedyRun(items, 10, {CHEAP}, [], {CHEAP});
  }

  lemma BreakingPass()
    ensures Pass(BreakingCatalog(), 10, [CHEAP], [DEAR], {CHEAP}, 10) == Selection({DEAR}, 10, [Swap(DEAR, CHEAP)])
  {
    hide BreakingCatalog, Cost, CanReplace, ClosureOf, AfterSwap;
    var items, selected, incoming, outgoing := ReplacementCanBreakClosure();
    BreakingClosures();
    BreakingSums();
    BreakingTokens();
    var start := Selection({CHEAP}, 10, []);
    assert [DEAR][..0] == [];
    assert Pass(items, 10, [CHEAP], [], {CHEAP}, 10) == start;
    assert FirstReplaceable(items, 10, [CHEAP], {CHEAP}, 10, DEAR) == Evicted(CHEAP);
    hide Pass, FirstReplaceable, Needs, Resolved, Consistent, Sensible, GreedyOutcome, DependencyClosed;
    BreakingTurn(start);
    LastTurn(items, start);
  }

  lemma LastTurn(items: Catalog, start: Selection)
    requires Pass(items, 10, [CHEAP], [], {CHEAP}, 10) == start && [DEAR][..0] == []
    ensures Pass(items, 10, [CHEAP], [DEAR], {CHEAP}, 10) == Turn(items, 10, [CHEAP], DEAR, start)
  {
    hide Turn;
  }

  lemma BreakingTurn(start: Selection)
    requires start == Selection({CHEAP}, 10, [])
    requires FirstReplaceable(BreakingCatalog(), 10, [CHEAP], {CHEAP}, 10, DEAR) == Evicted(CHEAP)
    ensures Turn(BreakingCatalog(), 10, [CHEAP], DEAR, start) == Selection({DEAR}, 10, [Swap(DEAR, CHEAP)])
  {
    hide BreakingCatalog, Cost, ClosureOf, FirstReplaceable;
    var items := BreakingCatalog();
    BreakingClosures();
    BreakingSums();
    BreakingTokens();
    assert Turn(items, 10, [CHEAP], DEAR, start) == Selection({DEAR}, 10, [] + [Swap(DEAR, CHEAP)]);
  }

  // ---- The operation ----

  datatype Outcome = BudgetNotPositive | DuplicateIds | MissingDependency(missing: Id) | Packed(pack: Pack)

  ghost predicate DistinctIds(rows: seq<Item>) {
    forall i, j :: 0 <= i < j < |rows| ==> rows[i].id != rows[j].id
  }

  ghost function Ids(rows: seq<Item>): set<Id> {
    set x | x in rows :: x.id
  }

  /** The catalog of the rows: each under its id, and nothing else. */
  ghost predicate CatalogOf(rows: seq<Item>, items: Catalog) {
    items.Keys == Ids(rows) && forall x :: x in rows ==> x.id in items && items[x.id] == x
  }

  /** A catalog filled row by row: shorter than the rows exactly when an id is repeated. */
  ghost predicate Filed(rows: seq<Item>, items: Catalog) {
    && items.Keys == Ids(rows) && |items| <= |rows|
    && (|items| == |rows| <==> DistinctIds(rows))
    && (DistinctIds(rows) ==> CatalogOf(rows, items))
  }

  lemma IdsAnother(rows: seq<Item>, x: Item)
    ensures Ids(rows + [x]) == Ids(rows) + {x.id}
  {
    var next := rows + [x];
    forall v | v in Ids(rows) + {x.id} ensures v in Ids(next) {
      if v in Ids(rows) { var y :| y in rows && y.id == v; assert y in next; } else { assert x in next; }
    }
  }

  lemma FiledSize(items: Catalog, x: Item)
    ensures |items[x.id := x]| == if x.id in items then |items| else |items| + 1
    ensures items[x.id := x].Keys == items.Keys + {x.id}
  {
    var filed := items[x.id := x];
    assert filed.Keys == items.Keys + {x.id};
    assert |filed| == |filed.Keys| && |items| == |items.Keys|;
    if x.id in items { assert filed.Keys == items.Keys; }
  }

  lemma FiledAnother(rows: seq<Item>, items: Catalog, x: Item)
    requires Filed(rows, items)
    ensures Filed(rows + [x], items[x.id := x])
  {
    hide DistinctIds, Ids;
    IdsAnother(rows, x);
    DistinctAnother(rows, x);
    FiledSize(items, x);
    if DistinctIds(rows + [x]) { CatalogAnother(rows, items, x); }
  }

  lemma CatalogAnother(rows: seq<Item>, items: Catalog, x: Item)
    requires CatalogOf(rows, items) && x.id !in Ids(rows)
    ensures CatalogOf(rows + [x], items[x.id := x])
  {
    IdsAnother(rows, x);
    forall y | y in rows + [x] ensures y.id in items[x.id := x] && items[x.id := x][y.id] == y {
      if y in rows { assert y.id in Ids(rows); }
    }
  }

  lemma DistinctAnother(rows: seq<Item>, x: Item)
    ensures DistinctIds(rows + [x]) <==> DistinctIds(rows) && x.id !in Ids(rows)
  {
    var next := rows + [x];
    if DistinctIds(next) {
      forall i, j | 0 <= i < j < |rows| ensures rows[i].id != rows[j].id { assert next[i].id != next[j].id; }
      forall i | 0 <= i < |rows| ensures rows[i].id != x.id { assert next[i].id != next[|rows|].id; }
    }
    if DistinctIds(rows) && x.id !in Ids(rows) {
      forall i, j | 0 <= i < j < |next| ensures next[i].id != next[j].id { assert rows[i] in rows; }
    }
  }

  method BuildCatalog(rows: seq<Item>) returns (items: Catalog, ids: seq<Id>)
    ensures Filed(rows, items)
    ensures Elements(ids) == items.Keys
  {
    hide Filed, Elements;
    items, ids := map[], [];
    NothingFiled();
    for i := 0 to |rows|
      invariant Filed(rows[..i], items)
      invariant Elements(ids) == items.Keys
    {
      assert rows[..i + 1] == rows[..i] + [rows[i]];
      FiledAnother(rows[..i], items, rows[i]);
      ListedAnother(ids, rows[i].id);
      items := items[rows[i].id := rows[i]];
      ids := ids + [rows[i].id];
    }
    assert rows[..|rows|] == rows;
  }

  lemma NothingFiled()
    ensures Filed([], map[]) && Elements<Id>([]) == {}
  {
  }

  lemma ListedAnother(ids: seq<Id>, v: Id)
    ensures Elements(ids + [v]) == Elements(ids) + {v}
  {
    ElementsConcat(ids, [v]);
  }

  /** The mandatory items can all be had, and within the budget. */
  ghost predicate Affordable(items: Catalog, roles: set<string>, budget: int) {
    exists m :: LeastClosed(items, Required(items, roles), m) && Cost(items, m) <= budget
  }

  method RequiredIds(items: Catalog, roles: set<string>) returns (required: set<Id>)
    ensures required == Required(items, roles)
  {
    required := set v | v in items && (items[v].mandatory || items[v].role in roles);
  }

  method RolesIn(items: Catalog, s: set<Id>) returns (roles: set<string>)
    ensures roles == RolesOf(items, s)
  {
    roles := set v | v in s && v in items :: items[v].role;
  }

  /** The refusal: nothing selected, with the reasons. */
  method Refuse(digest: Digest, items: Catalog, roles: set<string>, budget: int, mandatory: set<Id>, cost: int)
    returns (pack: Pack)
    requires cost == Cost(items, mandatory)
    ensures Refused(digest, items, roles, budget, mandatory, pack)
  {
    hide Cost, NodeLe, StringLe, LinearOrder;
    StringLeIsLinear();
    LinearIsTotal(StringLe);
    NodeLeIsLinear();
    LinearIsTotal(NodeLe);
    var present := RolesIn(items, mandatory);
    var missing := SortedElements(StringLe, roles - present);
    var dropped := SortedElements(NodeLe, items.Keys);
    pack := Pack(budget, 0, [], dropped, digest([]), false, 0.0, [],
                 [MandatoryOverBudget(cost, budget)] + if missing == [] then [] else [MissingRoles(missing)]);
  }

  method SumValue(items: Catalog, s: set<Id>) returns (value: real)
    requires s <= items.Keys
    ensures value == Value(items, s)
  {
    hide Sum;
    value := 0.0;
    var rest := s;
    while rest != {}
      invariant rest <= s && value + Sum(rest, ValueOf(items)) == Value(items, s)
      decreases rest
    {
      var v :| v in rest;
      SumRemove(rest, ValueOf(items), v);
      value := value + items[v].utility * items[v].confidence;
      rest := rest - {v};
    }
    EmptySums(items);
  }

  /** `stable_prefix_hash` sorts what it is given by id. */
  method StablePrefixHash(digest: Digest, items: Catalog, selected: seq<Id>) returns (hash: string)
    ensures PrefixHash(digest, items, Elements(selected), hash)
  {
    hide NodeLe, LinearOrder, InOrder;
    NodeLeIsLinear();
    LinearIsTotal(NodeLe);
    var members := set v | v in selected;
    assert members == Elements(selected);
    var order := SortedElements(NodeLe, members);
    assert InOrder(NodeLe, members, order) by { InOrderIs(NodeLe, members, order); }
    var sections := SectionsOf(items, order);
    assert PrefixSections(items, members, sections);
    hash := digest(sections);
  }

  lemma InOrderIs(le: (Id, Id) -> bool, s: set<Id>, order: seq<Id>)
    ensures InOrder(le, s, order) <==> SortedBy(le, order) && NoDuplicates(order) && Elements(order) == s
  {
  }

  method Report(digest: Digest, items: Catalog, roles: set<string>, budget: int, mandatory: set<Id>, final: Selection)
    returns (pack: Pack)
    requires final.selected <= items.Keys
    ensures Reports(digest, items, roles, budget, mandatory, final, pack)
  {
    hide Value, NodeLe, LinearOrder;
    ByPlaceIsLinear(items);
    LinearIsTotal(ByPlace(items));
    NodeLeIsLinear();
    LinearIsTotal(NodeLe);
    var selected := SortedElements(ByPlace(items), final.selected);
    var dropped := SortedElements(NodeLe, items.Keys - final.selected);
    var present := RolesIn(items, final.selected);
    var utility := SumValue(items, final.selected);
    var hash := StablePrefixHash(digest, items, selected);
    pack := Pack(budget, final.used, selected, dropped, hash, roles <= present && mandatory <= final.selected, utility,
                 SectionsOf(items, selected), []);
  }

  /** The replacement pass over a greedy selection, in the two orders. */
  method Replace(items: Catalog, budget: int, mandatory: set<Id>, greedy: set<Id>, used: int)
    returns (final: Selection, optional: seq<Id>, incoming: seq<Id>)
    requires Resolved(items) && greedy <= items.Keys
    ensures InOrder(ByKey(DensityKey(items)), greedy - mandatory, optional)
    ensures InOrder(ByKey(ValueKey(items)), items.Keys - greedy, incoming)
    ensures final == Pass(items, budget, optional, incoming, greedy, used) && final.selected <= items.Keys
  {
    hide NodeLe, Pass, LinearOrder;
    ByKeyIsLinear(DensityKey(items));
    LinearIsTotal(ByKey(DensityKey(items)));
    ByKeyIsLinear(ValueKey(items));
    LinearIsTotal(ByKey(ValueKey(items)));
    optional := SortedElements(ByKey(DensityKey(items)), greedy - mandatory);
    incoming := SortedElements(ByKey(ValueKey(items)), items.Keys - greedy);
    forall v | v in optional ensures v in items { assert v in Elements(optional); }
    forall v | v in incoming ensures v in items { assert v in Elements(incoming); }
    final := ReplaceAll(items, budget, optional, incoming, greedy, used);
  }

  /** `pack_context`: which error, refusal or pack comes out, for every input. */
  method PackContext(digest: Digest, rows: seq<Item>, budget: int, roles: set<string>)
    returns (r: Outcome, ghost items: Catalog, ghost mandatory: set<Id>, ghost story: Story)
    ensures r.BudgetNotPositive? <==> budget <= 0
    ensures r.DuplicateIds? <==> budget > 0 && !DistinctIds(rows)
    ensures budget > 0 && DistinctIds(rows) ==> CatalogOf(rows, items)
    ensures r.MissingDependency?
       <==> (budget > 0 && DistinctIds(rows)
             && (!Closable(items, Required(items, roles)) || (Affordable(items, roles, budget) && !Resolved(items))))
    ensures r.MissingDependency? ==> r.missing !in items
    ensures r.Packed? ==> LeastClosed(items, Required(items, roles), mandatory)
    ensures r.Packed? && Cost(items, mandatory) > budget ==> Refused(digest, items, roles, budget, mandatory, r.pack)
    ensures r.Packed? && Cost(items, mandatory) <= budget ==>
              story.mandatory == mandatory && IsPack(digest, items, roles, budget, story, r.pack)
  {
    hide LeastClosed, Closable, GreedyRun, GreedyOutcome, InOrder, Pass, Cost, Refused, Reports, DependencyClosed,
        DistinctIds, CatalogOf;
    items, mandatory := map[], {};
    story := Story({}, [], {}, [], [], Selection({}, 0, []));
    if budget <= 0 {
      return BudgetNotPositive, items, mandatory, story;
    }
    var byId, ids := BuildCatalog(rows);
    items := byId;
    if |byId| != |rows| {
      return DuplicateIds, items, mandatory, story;
    }
    var required := RequiredIds(byId, roles);
    var expanded := MandatoryClosure(byId, required);
    if expanded.KeyError? {
      return MissingDependency(expanded.missing), items, mandatory, story;
    }
    mandatory := expanded.required;
    LeastClosedParts(byId, required, expanded.required);
    AffordableIff(byId, roles, budget, expanded.required);
    var requiredCost := SumCost(byId, expanded.required);
    if requiredCost > budget {
      var pack := Refuse(digest, byId, roles, budget, expanded.required, requiredCost);
      return Packed(pack), items, mandatory, story;
    }
    var greedy, picks := SelectGreedily(byId, ids, expanded.required, budget);
    if greedy.GreedyKeyError? {
      return MissingDependency(greedy.missing), items, mandatory, story;
    }
    GreedyParts(byId, expanded.required, budget, greedy.selected);
    var final, optional, incoming := Replace(byId, budget, expanded.required, greedy.selected, greedy.used);
    var pack := Report(digest, byId, roles, budget, expanded.required, final);
    story := Story(expanded.required, picks, greedy.selected, optional, incoming, final);
    r := Packed(pack);
  }

  lemma LeastClosedParts(items: Catalog, required: set<Id>, m: set<Id>)
    requires LeastClosed(items, required, m)
    ensures m <= items.Keys && DependencyClosed(items, m) && Closable(items, required)
  {
  }

  lemma AffordableIff(items: Catalog, roles: set<string>, budget: int, m: set<Id>)
    requires LeastClosed(items, Required(items, roles), m)
    ensures Affordable(items, roles, budget) <==> Cost(items, m) <= budget
  {
    hide LeastClosed, Required, Cost;
    forall n | LeastClosed(items, Required(items, roles), n) ensures n == m {
      LeastClosedUnique(items, Required(items, roles), m, n);
    }
  }

  lemma GreedyParts(items: Catalog, mandatory: set<Id>, budget: int, selected: set<Id>)
    requires GreedyOutcome(items, mandatory, budget, selected)
    ensures selected <= items.Keys
  {
  }
}
