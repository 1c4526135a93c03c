/** Stage one of tool discovery: which families of tools a query matches, computed afresh from the catalog. */
module DiscoveryAnswer {
  import opened Ordering

  datatype Row = Row(name: string, description: string, schema: string)

  datatype HealthState = Healthy | Degraded | Unavailable
  datatype Health = Health(state: HealthState, compatible: bool, reason: string)
  type HealthMap = map<string, Health>

  datatype Host = Host(identity: string, maxTools: int, schemaBudget: int, allowedRisks: seq<string>,
                       prefixes: seq<string>,
                       compactSchema: bool, protocolVersion: string)

  datatype Request = Request(catalog: seq<Row>, query: string, host: Host, familyLimit: int)

  /** The text analysis, the tables and the hashes that the engine is given. */
  datatype Lexicon = Lexicon(
    tokens: string -> set<string>,                 // lower-case words of a text
    family: string -> string,                      // family of a tool name
    risk: string -> string,                        // risk class of a tool name
    exposes: string -> bool,                       // does the active profile expose the name
    noTool: string -> Option<string>,              // reason why a query needs no tool
    tidy: string -> string,                        // a description with its white space collapsed
    capability: (string, string, string, string, string) -> string,
    familyPrint: seq<string> -> string,
    catalogHash: seq<Row> -> string,
    hostHash: Host -> string,
    keyHash: KeyBasis -> string,
    receiptHash: ReceiptBasis -> string
  )

  datatype Option<T> = None | Some(value: T)

  /** What the cache key covers. */
  datatype KeyBasis = KeyBasis(query: string, catalog: string, host: string, health: HealthMap, familyLimit: int)

  datatype Status = Matched | NoToolNeeded(reason: string) | Unknown | Ambiguous

  datatype ReceiptBasis = ReceiptBasis(query: string, catalog: string, host: string, status: Status,
                                       families: seq<string>)

  datatype Descriptor = Descriptor(name: string, family: string, description: string, risk: string, capability: string,
                                   state: HealthState, compatible: bool)

  datatype FamilyRow = FamilyRow(family: string, score: int, tools: seq<string>, risks: seq<string>,
                                 fingerprint: string)

  datatype Answer = Answer(status: Status, families: seq<FamilyRow>, tree: seq<(string, string)>, catalogHash: string,
                           hostHash: string, receiptHash: string)

  // ---- The visible tools ----

  predicate RowLe(a: Row, b: Row) { StringLe(a.name, b.name) }

  /** The catalog by name; rows of the same name keep their order. */
  function Stable(catalog: seq<Row>): seq<Row> { Sort(RowLe, catalog) }

  function HealthOf(health: HealthMap, name: string): Health
  {
    if name in health then health[name] else Health(Healthy, true, "")
  }

  function Describe(lex: Lexicon, health: HealthMap, r: Row): Descriptor {
    var family, risk, description, h := lex.family(r.name), lex.risk(r.name), lex.tidy(r.description),
        HealthOf(health, r.name);
    Descriptor(r.name, family, description, risk, lex.capability(r.name, family, description, risk, r.schema),
               h.state, h.compatible)
  }

  predicate UnderPrefix(name: string, prefix: string) { name == prefix || prefix + "." <= name }

  predicate NamespaceAllowed(name: string, host: Host)
  {
    exists i :: 0 <= i < |host.prefixes| && UnderPrefix(name, host.prefixes[i])
  }

  /** A tool the host may be shown. */
  predicate Usable(lex: Lexicon, host: Host, exposed: set<string>, d: Descriptor) {
    && d.name != "" && d.name in exposed && d.risk in host.allowedRisks && NamespaceAllowed(d.name, host)
    && d.state != Unavailable && d.compatible
  }

  /** The names of the catalog that the profile exposes. */
  function Exposed(lex: Lexicon, catalog: seq<Row>): set<string> {
    set r | r in catalog && lex.exposes(r.name) :: r.name
  }

  function Visible(lex: Lexicon, health: HealthMap, host: Host, exposed: set<string>, rows: seq<Row>): seq<Descriptor> {
    if rows == [] then []
    else
      var d := Describe(lex, health, rows[|rows| - 1]);
      Visible(lex, health, host, exposed, rows[..|rows| - 1]) + if Usable(lex, host, exposed, d) then [d] else []
  }

  // ---- Scores and families ----

  function Score(lex: Lexicon, query: set<string>, d: Descriptor): int {
    if query == {} then 0
    else 5 * |query * lex.tokens(d.family)| + 3 * |query * lex.tokens(d.name)| + |query * lex.tokens(d.description)|
  }

  function Matching(lex: Lexicon, query: set<string>, ds: seq<Descriptor>): seq<Descriptor> {
    if ds == [] then []
    else
      var d := ds[|ds| - 1];
      Matching(lex, query, ds[..|ds| - 1]) + if Score(lex, query, d) > 0 then [d] else []
  }

  function OfFamily(family: string, ds: seq<Descriptor>): seq<Descriptor> {
    if ds == [] then []
    else OfFamily(family, ds[..|ds| - 1]) + if ds[|ds| - 1].family == family then [ds[|ds| - 1]] else []
  }

  function TopScore(lex: Lexicon, query: set<string>, ds: seq<Descriptor>): int {
    if ds == [] then 0
    else
      var rest, s := TopScore(lex, query, ds[..|ds| - 1]), Score(lex, query, ds[|ds| - 1]);
      if rest < s then s else rest
  }

  function Names(ds: seq<Descriptor>): seq<string> { seq(|ds|, i requires 0 <= i < |ds| => ds[i].name) }

  function Capabilities(ds: seq<Descriptor>): seq<string> { seq(|ds|, i requires 0 <= i < |ds| => ds[i].capability) }

  predicate DescriptorLe(a: Descriptor, b: Descriptor) { StringLe(a.name, b.name) }

  /** One family row. The members arrive in name order, so sorting them again by name changes nothing but is what the
      code does. */
  function FamilyRowOf(lex: Lexicon, query: set<string>, family: string, members: seq<Descriptor>): FamilyRow {
    var ordered := Sort(DescriptorLe, members);
    FamilyRow(family, TopScore(lex, query, members), Names(ordered), Sort(StringLe, Deduped(RiskList(members))),
              lex.familyPrint(Capabilities(ordered)))
  }

  function RiskList(ds: seq<Descriptor>): seq<string> { seq(|ds|, i requires 0 <= i < |ds| => ds[i].risk) }

  function FamiliesOf(ds: seq<Descriptor>): set<string> { set d | d in ds :: d.family }

  /** The key (-score, family). */
  datatype Rank = Rank(score: int, family: string)

  predicate RankLe(a: Rank, b: Rank) { a.score > b.score || (a.score == b.score && StringLe(a.family, b.family)) }

  lemma RankLeIsLinear()
    ensures LinearOrder(RankLe)
  {
    hide StringLe;
    StringLeIsLinear();
    forall a: Rank, b: Rank ensures RankLe(a, b) || RankLe(b, a) {
      assert StringLe(a.family, b.family) || StringLe(b.family, a.family);
    }
    forall a: Rank, b: Rank, c: Rank | RankLe(a, b) && RankLe(b, c) ensures RankLe(a, c) {
      assert StringLe(a.family, b.family) && StringLe(b.family, c.family) ==> StringLe(a.family, c.family);
    }
    forall a: Rank, b: Rank | RankLe(a, b) && RankLe(b, a) ensures a == b {
      assert StringLe(a.family, b.family) && StringLe(b.family, a.family);
    }
  }

  function RankOf(lex: Lexicon, query: set<string>, ds: seq<Descriptor>, family: string): Rank {
    Rank(TopScore(lex, query, OfFamily(family, ds)), family)
  }

  /** The ranks of all families that match. */
  function Ranks(lex: Lexicon, query: set<string>, ds: seq<Descriptor>): set<Rank> {
    set family | family in FamiliesOf(ds) :: RankOf(lex, query, ds, family)
  }

  ghost predicate Ranked(s: set<Rank>, order: seq<Rank>)
  {
    SortedBy(RankLe, order) && NoDuplicates(order) && Elements(order) == s
  }

  function RowsFor(lex: Lexicon, query: set<string>, ds: seq<Descriptor>, order: seq<Rank>): seq<FamilyRow> {
    seq(|order|, i requires 0 <= i < |order| => FamilyRowOf(lex, query, order[i].family, OfFamily(order[i].family, ds)))
  }

  /** The ranks that share the first one's score. */
  function Tied(order: seq<Rank>): seq<Rank> {
    if order == [] then [] else WithScore(order[0].score, order)
  }

  function WithScore(score: int, order: seq<Rank>): seq<Rank> {
    if order == [] then [] else (if order[0].score == score then [order[0]] else []) + WithScore(score, order[1..])
  }

  function Limit<T>(n: int, s: seq<T>): seq<T> {
    var k := if n < 1 then 1 else n;
    if |s| <= k then s else s[..k]
  }

  // ---- The answer ----

  function Finish(lex: Lexicon, req: Request, status: Status, families: seq<FamilyRow>, ds: seq<Descriptor>): Answer {
    var catalog, host := lex.catalogHash(Stable(req.catalog)), lex.hostHash(req.host);
    var names := seq(|families|, i requires 0 <= i < |families| => families[i].family);
    Answer(status, families, seq(|ds|, i requires 0 <= i < |ds| => (ds[i].name, ds[i].capability)), catalog, host,
           lex.receiptHash(ReceiptBasis(req.query, catalog, host, status, names)))
  }

  function VisibleTo(lex: Lexicon, health: HealthMap, req: Request): seq<Descriptor> {
    Visible(lex, health, req.host, Exposed(lex, req.catalog), Stable(req.catalog))
  }

  /** What stage one answers, given the ranking of the families. */
  function AnswerWith(lex: Lexicon, health: HealthMap, req: Request, order: seq<Rank>): Answer {
    var ds := VisibleTo(lex, health, req);
    if lex.noTool(req.query).Some? then Finish(lex, req, NoToolNeeded(lex.noTool(req.query).value), [], ds)
    else
      var query := lex.tokens(req.query);
      var matching := Matching(lex, query, ds);
      if order == [] then Finish(lex, req, Unknown, [], ds)
      else if |Tied(order)| > 1 then
        Finish(lex, req, Ambiguous, Limit(req.familyLimit, RowsFor(lex, query, matching, Tied(order))), ds)
      else Finish(lex, req, Matched, Limit(req.familyLimit, RowsFor(lex, query, matching, order)), ds)
  }

  ghost predicate IsAnswer(lex: Lexicon, health: HealthMap, req: Request, a: Answer) {
    exists order :: Ranked(Ranks(lex, lex.tokens(req.query),
                                 Matching(lex, lex.tokens(req.query), VisibleTo(lex, health, req))), order)
                    && a == AnswerWith(lex, health, req, order)
  }

  /** There is one answer. */
  lemma AnswerUnique(lex: Lexicon, health: HealthMap, req: Request, a: Answer, b: Answer)
    requires IsAnswer(lex, health, req, a) && IsAnswer(lex, health, req, b)
    ensures a == b
  {
    hide AnswerWith, Ranks, Matching, VisibleTo, RankLe, LinearOrder;
    var s := Ranks(lex, lex.tokens(req.query), Matching(lex, lex.tokens(req.query), VisibleTo(lex, health, req)));
    var p :| Ranked(s, p) && a == AnswerWith(lex, health, req, p);
    var q :| Ranked(s, q) && b == AnswerWith(lex, health, req, q);
    RankLeIsLinear();
    forall x ensures x in p <==> x in q { assert x in Elements(p) <==> x in Elements(q); }
    SortedUnique(RankLe, p, q);
  }

  // ---- The answer depends on the catalog only through its stable order ----

  lemma ExposedStable(lex: Lexicon, catalog: seq<Row>)
    ensures Exposed(lex, Stable(catalog)) == Exposed(lex, catalog)
  {
    hide RowLe;
    SortMembers(RowLe, catalog);
    forall r ensures r in Stable(catalog) <==> r in catalog {
      assert r in Elements(Stable(catalog)) <==> r in Elements(catalog);
    }
  }

  /** Two requests that differ only in the order of differently named catalog rows get the same answer. */
  lemma SameStableSameAnswer(lex: Lexicon, health: HealthMap, req: Request, other: Request, order: seq<Rank>)
    requires Stable(req.catalog) == Stable(other.catalog) && req.query == other.query && req.host == other.host
    requires req.familyLimit == other.familyLimit
    ensures VisibleTo(lex, health, req) == VisibleTo(lex, health, other)
    ensures AnswerWith(lex, health, req, order) == AnswerWith(lex, health, other, order)
  {
    ExposedStable(lex, req.catalog);
    ExposedStable(lex, other.catalog);
  }

  // ---- Only usable tools are ever named ----

  lemma {:induction false} VisibleUsable(lex: Lexicon, health: HealthMap, host: Host, exposed: set<string>,
                                         rows: seq<Row>)
    ensures forall d :: d in Visible(lex, health, host, exposed, rows) ==>
              Usable(lex, host, exposed, d) && d.state == HealthOf(health, d.name).state
                  && d.compatible == HealthOf(health, d.name).compatible
  {
    if rows != [] { VisibleUsable(lex, health, host, exposed, rows[..|rows| - 1]); }
  }

  lemma {:induction false} MatchingVisible(lex: Lexicon, query: set<string>, ds: seq<Descriptor>)
    ensures forall d :: d in Matching(lex, query, ds) <==> d in ds && Score(lex, query, d) > 0
  {
    if ds != [] {
      var n := |ds| - 1;
      assert ds == ds[..n] + [ds[n]];
      MatchingVisible(lex, query, ds[..n]);
    }
  }

  lemma {:induction false} OfFamilyMembers(family: string, ds: seq<Descriptor>)
    ensures forall d :: d in OfFamily(family, ds) <==> d in ds && d.family == family
  {
    if ds != [] {
      var n := |ds| - 1;
      assert ds == ds[..n] + [ds[n]];
      OfFamilyMembers(family, ds[..n]);
    }
  }

  /** A tool named in an answer is exposed by the profile, permitted by the host, and neither unavailable nor
      incompatible according to the health in force. */
  lemma NamedToolsUsable(lex: Lexicon, health: HealthMap, req: Request, a: Answer, i: nat, k: nat)
    requires IsAnswer(lex, health, req, a) && i < |a.families| && k < |a.families[i].tools|
    ensures var name := a.families[i].tools[k];
            && name in Exposed(lex, req.catalog) && lex.risk(name) in req.host.allowedRisks
               && NamespaceAllowed(name, req.host)
            && HealthOf(health, name).state != Unavailable && HealthOf(health, name).compatible
            && lex.family(name) == a.families[i].family
  {
    hide FamilyRowOf, OfFamily, Matching, AnswerWith, IsAnswer, Score, Exposed, Visible;
    var query, ds := lex.tokens(req.query), VisibleTo(lex, health, req);
    var matching := Matching(lex, query, ds);
    var family := ListedFamily(lex, health, req, a, i);
    var d := NamedTool(lex, query, family, OfFamily(family, matching), k);
    OfFamilyMembers(family, matching);
    MatchingVisible(lex, query, ds);
    VisibleUsable(lex, health, req.host, Exposed(lex, req.catalog), Stable(req.catalog));
    VisibleDescribed(lex, health, req.host, Exposed(lex, req.catalog), Stable(req.catalog));
  }

  /** A listed row is made from all matching tools of its family. */
  lemma ListedFamily(lex: Lexicon, health: HealthMap, req: Request, a: Answer, i: nat) returns (family: string)
    requires IsAnswer(lex, health, req, a) && i < |a.families|
    ensures var query := lex.tokens(req.query);
            a.families[i] == FamilyRowOf(lex, query, family,
                                         OfFamily(family, Matching(lex, query, VisibleTo(lex, health, req))))
  {
    hide Ranked, Ranks, VisibleTo, Matching, OfFamily, FamilyRowOf, WithScore;
    var query := lex.tokens(req.query);
    var matching := Matching(lex, query, VisibleTo(lex, health, req));
    var order :| Ranked(Ranks(lex, query, matching), order) && a == AnswerWith(lex, health, req, order);
    var listed := if |Tied(order)| > 1 then Tied(order) else order;
    assert a.families == Limit(req.familyLimit, RowsFor(lex, query, matching, listed));
    family := listed[i].family;
  }

  /** A name in a row is that of one of the row's members. */
  lemma NamedTool(lex: Lexicon, query: set<string>, family: string, members: seq<Descriptor>, k: nat)
    returns (d: Descriptor)
    requires k < |FamilyRowOf(lex, query, family, members).tools|
    ensures d in members && d.name == FamilyRowOf(lex, query, family, members).tools[k]
    ensures FamilyRowOf(lex, query, family, members).family == family
  {
    hide TopScore, Deduped, StringLe, Capabilities;
    d := Sort(DescriptorLe, members)[k];
    SortMember(DescriptorLe, members, d);
  }

  lemma {:induction false} VisibleDescribed(lex: Lexicon, health: HealthMap, host: Host, exposed: set<string>,
                                            rows: seq<Row>)
    ensures forall d :: d in Visible(lex, health, host, exposed, rows) ==>
              d.risk == lex.risk(d.name) && d.family == lex.family(d.name)
  {
    if rows != [] { VisibleDescribed(lex, health, host, exposed, rows[..|rows| - 1]); }
  }

  // ---- When the answer is ambiguous, unknown or a match ----

  lemma {:induction false} WithScoreCounts(score: int, order: seq<Rank>)
    requires NoDuplicates(order)
    ensures forall x :: x in WithScore(score, order) <==> x in order && x.score == score
    ensures NoDuplicates(WithScore(score, order))
  {
    if order != [] {
      assert order == [order[0]] + order[1..];
      assert order[0] !in order[1..];
      WithScoreCounts(score, order[1..]);
      if order[0].score == score {
        assert Elements([order[0]]) == {order[0]};
        DistinctConcat([order[0]], WithScore(score, order[1..]));
      }
    }
  }

  /** No family scores higher than this one. */
  ghost predicate Best(lex: Lexicon, query: set<string>, ds: seq<Descriptor>, family: string) {
    && family in FamiliesOf(ds)
    && forall other :: other in FamiliesOf(ds) ==>
        RankOf(lex, query, ds, other).score <= RankOf(lex, query, ds, family).score
  }

  /** The status says how many families score best: none, exactly one, or several. */
  lemma StatusMeaning(lex: Lexicon, health: HealthMap, req: Request, a: Answer)
    requires IsAnswer(lex, health, req, a) && lex.noTool(req.query).None?
    ensures var query := lex.tokens(req.query);
            var ds := Matching(lex, query, VisibleTo(lex, health, req));
            && (a.status == Unknown <==> FamiliesOf(ds) == {})
            && (a.status == Ambiguous <==> exists f, g :: f != g && Best(lex, query, ds, f) && Best(lex, query, ds, g))
            && a.status in {Unknown, Ambiguous, Matched}
  {
    hide VisibleTo, Matching, TopScore, RowsFor, Limit, FamiliesOf, SortedBy, Tied, StringLe;
    var query := lex.tokens(req.query);
    var ds := Matching(lex, query, VisibleTo(lex, health, req));
    var order :| Ranked(Ranks(lex, query, ds), order) && a == AnswerWith(lex, health, req, order);
    RanksEmpty(lex, query, ds, order);
    if order != [] { TiedMeaning(lex, query, ds, order); }
    if FamiliesOf(ds) == {} { NoneBest(lex, query, ds); }
  }

  lemma NoneBest(lex: Lexicon, query: set<string>, ds: seq<Descriptor>)
    requires FamiliesOf(ds) == {}
    ensures forall f :: !Best(lex, query, ds, f)
  {
  }

  lemma RankListed(lex: Lexicon, query: set<string>, ds: seq<Descriptor>, f: string)
    ensures f in FamiliesOf(ds) ==> RankOf(lex, query, ds, f) in Ranks(lex, query, ds)
  {
  }

  lemma RanksEmpty(lex: Lexicon, query: set<string>, ds: seq<Descriptor>, order: seq<Rank>)
    requires Ranked(Ranks(lex, query, ds), order)
    ensures order == [] <==> FamiliesOf(ds) == {}
  {
    hide FamiliesOf, TopScore;
    if order == [] {
      assert Elements(order) == {};
      forall f ensures f !in FamiliesOf(ds) { RankListed(lex, query, ds, f); }
    } else {
      assert order[0] in Elements(order);
    }
  }

  lemma BestIsFirst(lex: Lexicon, query: set<string>, ds: seq<Descriptor>, order: seq<Rank>, family: string)
    requires Ranked(Ranks(lex, query, ds), order) && order != []
    ensures Best(lex, query, ds, family)
       <==> RankOf(lex, query, ds, family) in order && RankOf(lex, query, ds, family).score == order[0].score
  {
    hide FamiliesOf, TopScore, StringLe;
    assert order[0] in Elements(order);
    var top: string :| top in FamiliesOf(ds) && RankOf(lex, query, ds, top) == order[0];
    forall f | f in FamiliesOf(ds)
        ensures RankOf(lex, query, ds, f) in order && RankOf(lex, query, ds, f).score <= order[0].score {
      assert RankOf(lex, query, ds, f) in Elements(order);
      var i := IndexOf(order, RankOf(lex, query, ds, f));
      if i > 0 { assert RankLe(order[0], order[i]); }
    }
    if RankOf(lex, query, ds, family) in order {
      assert RankOf(lex, query, ds, family) in Elements(order);
      var f: string :| f in FamiliesOf(ds) && RankOf(lex, query, ds, f) == RankOf(lex, query, ds, family);
    }
  }

  lemma TiedMeaning(lex: Lexicon, query: set<string>, ds: seq<Descriptor>, order: seq<Rank>)
    requires Ranked(Ranks(lex, query, ds), order) && order != []
    ensures |Tied(order)| > 1 <==> exists f, g :: f != g && Best(lex, query, ds, f) && Best(lex, query, ds, g)
  {
    hide Best, FamiliesOf, TopScore, RankLe, WithScore;
    var tied := Tied(order);
    WithScoreCounts(order[0].score, order);
    if |tied| > 1 {
      assert tied[0] in tied && tied[1] in tied && tied[0] != tied[1];
      assert tied[0] in Elements(order) && tied[1] in Elements(order);
      var f: string :| f in FamiliesOf(ds) && RankOf(lex, query, ds, f) == tied[0];
      var g: string :| g in FamiliesOf(ds) && RankOf(lex, query, ds, g) == tied[1];
      BestIsFirst(lex, query, ds, order, f);
      BestIsFirst(lex, query, ds, order, g);
    }
    if f, g :| f != g && Best(lex, query, ds, f) && Best(lex, query, ds, g) {
      BestIsFirst(lex, query, ds, order, f);
      BestIsFirst(lex, query, ds, order, g);
      var i := IndexOf(tied, RankOf(lex, query, ds, f));
      var j := IndexOf(tied, RankOf(lex, query, ds, g));
    }
  }

  // ---- The loops of stage one ----

  method VisibleDescriptors(lex: Lexicon, health: HealthMap, req: Request) returns (ds: seq<Descriptor>)
    ensures ds == VisibleTo(lex, health, req)
  {
    hide Usable, Exposed, Stable, Describe;
    var exposed, rows := Exposed(lex, req.catalog), Stable(req.catalog);
    ds := [];
    for i := 0 to |rows|
      invariant ds == Visible(lex, health, req.host, exposed, rows[..i])
    {
      assert rows[..i + 1][..i] == rows[..i];
      var d := Describe(lex, health, rows[i]);
      if Usable(lex, req.host, exposed, d) {
        ds := ds + [d];
      }
    }
    assert rows[..|rows|] == rows;
  }

  /** The matching tools by family: `by_family.setdefault(descriptor.family, []).append(...)` */
  method GroupByFamily(lex: Lexicon, query: set<string>, ds: seq<Descriptor>)
    returns (groups: map<string, seq<Descriptor>>)
    ensures groups.Keys == FamiliesOf(Matching(lex, query, ds))
    ensures forall f :: f in groups ==> groups[f] == OfFamily(f, Matching(lex, query, ds))
  {
    hide Score, FamiliesOf, OfFamily, Matching;
    groups := map[];
    assert ds[..0] == [] && Matching(lex, query, []) == [] by { NothingMatches(lex, query); }
    NoFamilies();
    for i := 0 to |ds|
      invariant groups.Keys == FamiliesOf(Matching(lex, query, ds[..i]))
      invariant forall f :: f in groups ==> groups[f] == OfFamily(f, Matching(lex, query, ds[..i]))
    {
      assert ds[..i + 1][..i] == ds[..i];
      var d := ds[i];
      ghost var before := Matching(lex, query, ds[..i]);
      MatchingStep(lex, query, ds[..i], d);
      assert ds[..i + 1] == ds[..i] + [d];
      if Score(lex, query, d) > 0 {
        OneMoreFamily(before, d);
        groups := groups[d.family := (if d.family in groups then groups[d.family] else []) + [d]];
      }
    }
    assert ds[..|ds|] == ds;
  }

  lemma NothingMatches(lex: Lexicon, query: set<string>)
    ensures Matching(lex, query, []) == []
  {
  }

  lemma MatchingStep(lex: Lexicon, query: set<string>, ds: seq<Descriptor>, d: Descriptor)
    ensures Matching(lex, query, ds + [d]) == if Score(lex, query, d) > 0 then Matching(lex, query, ds) + [d]
        else Matching(lex, query, ds)
  {
    assert (ds + [d])[..|ds|] == ds;
  }

  lemma NoFamilies()
    ensures FamiliesOf([]) == {}
  {
  }

  lemma OneMoreFamily(ds: seq<Descriptor>, d: Descriptor)
    ensures FamiliesOf(ds + [d]) == FamiliesOf(ds) + {d.family}
    ensures forall f :: OfFamily(f, ds + [d]) == if f == d.family then OfFamily(f, ds) + [d] else OfFamily(f, ds)
    ensures d.family !in FamiliesOf(ds) ==> OfFamily(d.family, ds) == []
  {
    assert (ds + [d])[..|ds|] == ds;
    forall f | f in FamiliesOf(ds) + {d.family} ensures f in FamiliesOf(ds + [d]) {
      if f in FamiliesOf(ds) { var e :| e in ds && e.family == f; assert e in ds + [d]; } else { assert d in ds + [d]; }
    }
    if d.family !in FamiliesOf(ds) {
      OfFamilyMembers(d.family, ds);
      NoMembers(OfFamily(d.family, ds));
    }
  }

  /** The rank of every family, then all of them in order. */
  method RankFamilies(lex: Lexicon, query: set<string>, ds: seq<Descriptor>, groups: map<string, seq<Descriptor>>)
    returns (order: seq<Rank>)
    requires groups.Keys == FamiliesOf(ds) && forall f :: f in groups ==> groups[f] == OfFamily(f, ds)
    ensures Ranked(Ranks(lex, query, ds), order)
  {
    hide TopScore, LinearOrder, StringLe, FamiliesOf, OfFamily;
    var rest, ranks: set<Rank> := groups.Keys, {};
    while rest != {}
      invariant rest <= groups.Keys
      invariant ranks == set f | f in groups.Keys - rest :: RankOf(lex, query, ds, f)
      decreases rest
    {
      var family :| family in rest;
      var top := ComputeTop(lex, query, groups[family]);
      assert groups.Keys - (rest - {family}) == groups.Keys - rest + {family};
      ranks := ranks + {Rank(top, family)};
      rest := rest - {family};
    }
    RankLeIsLinear();
    LinearIsTotal(RankLe);
    order := SortedElements(RankLe, ranks);
  }

  method ComputeTop(lex: Lexicon, query: set<string>, ds: seq<Descriptor>) returns (top: int)
    ensures top == TopScore(lex, query, ds)
  {
    hide Score;
    top := 0;
    for i := 0 to |ds|
      invariant top == TopScore(lex, query, ds[..i])
    {
      assert ds[..i + 1][..i] == ds[..i];
      var s := Score(lex, query, ds[i]);
      if top < s {
        top := s;
      }
    }
    assert ds[..|ds|] == ds;
  }

  /** Stage one without the cache. */
  method ComputeAnswer(lex: Lexicon, health: HealthMap, req: Request) returns (a: Answer)
    ensures IsAnswer(lex, health, req, a)
  {
    hide VisibleTo, Matching, Ranks, Ranked, FamiliesOf, OfFamily, AnswerWith;
    var ds := VisibleDescriptors(lex, health, req);
    var query := lex.tokens(req.query);
    var groups := GroupByFamily(lex, query, ds);
    var order := RankFamilies(lex, query, Matching(lex, query, ds), groups);
    a := AnswerWith(lex, health, req, order);
  }
}
