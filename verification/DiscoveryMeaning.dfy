/** Which tools and families an answer lists, told from the catalog rows themselves. */
module DiscoveryMeaning {
  import opened Ordering
  import opened DiscoveryAnswer

  // ---- Rows that count ----

  /** The name stands under a prefix: it is the prefix, or goes on after it with a dot. */
  ghost predicate Under(name: string, prefix: string) {
    name == prefix || (|name| > |prefix| && name[..|prefix|] == prefix && name[|prefix|] == '.')
  }

  /** A catalog row the host is shown: exposed, of a permitted risk, in an allowed namespace, and as far as is known
      neither unavailable nor incompatible. */
  ghost predicate Shown(lex: Lexicon, health: HealthMap, req: Request, r: Row) {
    && r in req.catalog && r.name != "" && lex.exposes(r.name) && lex.risk(r.name) in req.host.allowedRisks
    && (exists i :: 0 <= i < |req.host.prefixes| && Under(r.name, req.host.prefixes[i]))
    && (r.name in health ==> health[r.name].state != Unavailable && health[r.name].compatible)
  }

  /** A word of the family counts five, one of the name three and one of the description one. */
  ghost function Weight(lex: Lexicon, query: set<string>, r: Row): int {
    5 * |query * lex.tokens(lex.family(r.name))| + 3 * |query * lex.tokens(r.name)|
    + |query * lex.tokens(lex.tidy(r.description))|
  }

  /** A row shown to the host that shares a word with the query. */
  ghost predicate Hit(lex: Lexicon, health: HealthMap, req: Request, r: Row) {
    && Shown(lex, health, req, r)
    && exists w :: w in lex.tokens(req.query)
                   && (w in lex.tokens(lex.family(r.name)) || w in lex.tokens(r.name)
                       || w in lex.tokens(lex.tidy(r.description)))
  }

  ghost function Hits(lex: Lexicon, health: HealthMap, req: Request): seq<Descriptor> {
    Matching(lex, lex.tokens(req.query), VisibleTo(lex, health, req))
  }

  lemma {:induction false} VisibleRows(lex: Lexicon, health: HealthMap, host: Host, exposed: set<string>,
                                       rows: seq<Row>)
    ensures forall d :: d in Visible(lex, health, host, exposed, rows) <==>
              exists r :: r in rows && d == Describe(lex, health, r) && Usable(lex, host, exposed, d)
  {
    hide Describe, Usable;
    if rows != [] {
      var n := |rows| - 1;
      VisibleRows(lex, health, host, exposed, rows[..n]);
      assert rows == rows[..n] + [rows[n]];
    }
  }

  lemma UsableIff(lex: Lexicon, health: HealthMap, req: Request, r: Row)
    requires r in req.catalog
    ensures Usable(lex, req.host, Exposed(lex, req.catalog), Describe(lex, health, r))
       <==> Shown(lex, health, req, r)
  {
    ExposedIff(lex, req.catalog, r);
    NamespaceIff(r.name, req.host);
    hide Exposed, NamespaceAllowed, Under;
  }

  lemma ExposedIff(lex: Lexicon, catalog: seq<Row>, r: Row)
    requires r in catalog
    ensures r.name in Exposed(lex, catalog) <==> lex.exposes(r.name)
  {
  }

  lemma NamespaceIff(name: string, host: Host)
    ensures NamespaceAllowed(name, host)
       <==> exists i :: 0 <= i < |host.prefixes| && Under(name, host.prefixes[i])
  {
    forall i | 0 <= i < |host.prefixes|
      ensures UnderPrefix(name, host.prefixes[i]) <==> Under(name, host.prefixes[i])
    {
      PrefixIff(name, host.prefixes[i]);
    }
  }

  lemma PrefixIff(name: string, prefix: string)
    ensures UnderPrefix(name, prefix) <==> Under(name, prefix)
  {
    if |name| > |prefix| {
      assert name[..|prefix| + 1] == name[..|prefix|] + [name[|prefix|]];
      if prefix + "." <= name { assert name[..|prefix| + 1] == prefix + "."; }
    }
  }

  lemma ScoreIs(lex: Lexicon, health: HealthMap, query: set<string>, r: Row)
    ensures Score(lex, query, Describe(lex, health, r)) == Weight(lex, query, r)
    ensures Weight(lex, query, r) > 0
       <==> exists w :: w in query && (w in lex.tokens(lex.family(r.name)) || w in lex.tokens(r.name)
                                       || w in lex.tokens(lex.tidy(r.description)))
  {
    SomeShared(query, lex.tokens(lex.family(r.name)), lex.tokens(r.name), lex.tokens(lex.tidy(r.description)));
  }

  lemma SomeShared(query: set<string>, a: set<string>, b: set<string>, c: set<string>)
    ensures 5 * |query * a| + 3 * |query * b| + |query * c| > 0
       <==> exists w :: w in query && (w in a || w in b || w in c)
    ensures query == {} ==> 5 * |query * a| + 3 * |query * b| + |query * c| == 0
  {
    SharedCount(query, a);
    SharedCount(query, b);
    SharedCount(query, c);
  }

  lemma SharedCount(query: set<string>, a: set<string>)
    ensures |query * a| > 0 <==> exists w :: w in query && w in a
  {
    if w :| w in query && w in a {
      assert w in query * a;
    } else {
      assert query * a == {};
    }
  }

  /** What matches are exactly the descriptions of the rows that hit. */
  lemma HitsAre(lex: Lexicon, health: HealthMap, req: Request)
    ensures forall d :: d in Hits(lex, health, req) <==>
              exists r :: Hit(lex, health, req, r) && d == Describe(lex, health, r)
  {
    hide Describe, Usable, Exposed, Score, Shown, Weight, RowLe;
    var query, exposed := lex.tokens(req.query), Exposed(lex, req.catalog);
    VisibleRows(lex, health, req.host, exposed, Stable(req.catalog));
    MatchingVisible(lex, query, VisibleTo(lex, health, req));
    SortMembers(RowLe, req.catalog);
    forall r ensures r in Stable(req.catalog) <==> r in req.catalog { SortMember(RowLe, req.catalog, r); }
    forall r | r in req.catalog
      ensures Usable(lex, req.host, exposed, Describe(lex, health, r))
              && Score(lex, query, Describe(lex, health, r)) > 0
         <==> Hit(lex, health, req, r)
    {
      UsableIff(lex, health, req, r);
      ScoreIs(lex, health, query, r);
    }
    forall r | Hit(lex, health, req, r) ensures r in req.catalog { ShownListed(lex, health, req, r); }
  }

  lemma ShownListed(lex: Lexicon, health: HealthMap, req: Request, r: Row)
    requires Shown(lex, health, req, r)
    ensures r in req.catalog
  {
  }

  // ---- What a listed family says ----

  /** A row of the family that hits. */
  ghost predicate HitOf(lex: Lexicon, health: HealthMap, req: Request, family: string, r: Row) {
    Hit(lex, health, req, r) && lex.family(r.name) == family
  }

  lemma MembersAre(lex: Lexicon, health: HealthMap, req: Request, family: string)
    ensures forall d :: d in OfFamily(family, Hits(lex, health, req)) <==>
              exists r :: HitOf(lex, health, req, family, r) && d == Describe(lex, health, r)
  {
    hide Hit, Hits, OfFamily;
    HitsAre(lex, health, req);
    OfFamilyMembers(family, Hits(lex, health, req));
    forall d ensures d in OfFamily(family, Hits(lex, health, req)) <==>
                     exists r :: HitOf(lex, health, req, family, r) && d == Describe(lex, health, r) {
      if d in Hits(lex, health, req) && d.family == family {
        var r :| Hit(lex, health, req, r) && d == Describe(lex, health, r);
        assert HitOf(lex, health, req, family, r);
      }
    }
  }

  ghost predicate IsNamed(ds: seq<Descriptor>, name: string) { exists d :: d in ds && d.name == name }

  ghost predicate HasRisk(ds: seq<Descriptor>, risk: string) { exists d :: d in ds && d.risk == risk }

  /** What a row is made of, in terms of its members. */
  lemma RowParts(lex: Lexicon, query: set<string>, family: string, members: seq<Descriptor>)
    ensures var row := FamilyRowOf(lex, query, family, members);
            && row.family == family && row.score == TopScore(lex, query, members)
            && (forall name :: name in row.tools <==> IsNamed(members, name))
            && (forall j, k :: 0 <= j < k < |row.tools| ==> StringLe(row.tools[j], row.tools[k]))
            && (forall risk :: risk in row.risks <==> HasRisk(members, risk))
            && SortedBy(StringLe, row.risks) && NoDuplicates(row.risks)
  {
    hide StringLe, TopScore, Capabilities, Sort, Deduped, DescriptorLe, LinearOrder, TotalOrder;
    var row := FamilyRowOf(lex, query, family, members);
    var ordered := Sort(DescriptorLe, members);
    StringLeIsLinear();
    LinearIsTotal(StringLe);
    DescriptorLeIsTotal();
    SortIsSorted(DescriptorLe, members);
    NamesAre(ordered);
    forall d ensures d in ordered <==> d in members { SortMember(DescriptorLe, members, d); }
    var risks := Deduped(RiskList(members));
    SortIsSorted(StringLe, risks);
    SortKeepsNoDuplicates(StringLe, risks);
    RisksAre(members);
    forall name ensures name in row.tools <==> IsNamed(members, name) {
      assert name in row.tools <==> IsNamed(ordered, name);
    }
    forall risk ensures risk in row.risks <==> HasRisk(members, risk) {
      SortMember(StringLe, risks, risk);
      assert risk in risks <==> risk in Elements(risks);
      assert risk in RiskList(members) <==> risk in Elements(RiskList(members));
    }
    forall j, k | 0 <= j < k < |row.tools| ensures StringLe(row.tools[j], row.tools[k]) {
      assert DescriptorLe(ordered[j], ordered[k]);
      ByName(ordered[j], ordered[k]);
    }
  }

  lemma ByName(a: Descriptor, b: Descriptor)
    ensures DescriptorLe(a, b) <==> StringLe(a.name, b.name)
  {
  }

  lemma DescriptorLeIsTotal()
    ensures TotalOrder(DescriptorLe)
  {
    hide StringLe;
    StringLeIsLinear();
    forall a: Descriptor, b: Descriptor ensures DescriptorLe(a, b) || DescriptorLe(b, a) {
      assert StringLe(a.name, b.name) || StringLe(b.name, a.name);
    }
    forall a: Descriptor, b: Descriptor, c: Descriptor | DescriptorLe(a, b) && DescriptorLe(b, c)
      ensures DescriptorLe(a, c)
    {
      assert StringLe(a.name, b.name) && StringLe(b.name, c.name);
    }
  }

  lemma NamesAre(ds: seq<Descriptor>)
    ensures forall name :: name in Names(ds) <==> IsNamed(ds, name)
  {
    forall name ensures name in Names(ds) <==> IsNamed(ds, name) {
      if name in Names(ds) {
        var i := IndexOf(Names(ds), name);
        assert ds[i] in ds;
      }
      if d :| d in ds && d.name == name {
        var i := IndexOf(ds, d);
        assert Names(ds)[i] == name;
      }
    }
  }

  lemma RisksAre(ds: seq<Descriptor>)
    ensures forall risk :: risk in RiskList(ds) <==> HasRisk(ds, risk)
  {
    forall risk ensures risk in RiskList(ds) <==> HasRisk(ds, risk) {
      if risk in RiskList(ds) {
        var i := IndexOf(RiskList(ds), risk);
        assert ds[i] in ds;
      }
      if d :| d in ds && d.risk == risk {
        var i := IndexOf(ds, d);
        assert RiskList(ds)[i] == risk;
      }
    }
  }

  lemma {:induction false} TopIs(lex: Lexicon, query: set<string>, ds: seq<Descriptor>)
    ensures forall d :: d in ds ==> Score(lex, query, d) <= TopScore(lex, query, ds)
    ensures TopScore(lex, query, ds) > 0 ==> exists d :: d in ds && Score(lex, query, d) == TopScore(lex, query, ds)
  {
    hide Score;
    if ds != [] {
      var n := |ds| - 1;
      TopIs(lex, query, ds[..n]);
      assert ds == ds[..n] + [ds[n]];
      if TopScore(lex, query, ds[..n]) > 0 {
        var d :| d in ds[..n] && Score(lex, query, d) == TopScore(lex, query, ds[..n]);
        assert d in ds;
      }
    }
  }

  /** The highest weight among the hits of a family. */
  ghost predicate IsTop(lex: Lexicon, health: HealthMap, req: Request, family: string, score: int) {
    && (forall r :: HitOf(lex, health, req, family, r) ==> Weight(lex, lex.tokens(req.query), r) <= score)
    && (exists r :: HitOf(lex, health, req, family, r) && Weight(lex, lex.tokens(req.query), r) == score)
  }

  lemma FamilyTop(lex: Lexicon, health: HealthMap, req: Request, family: string)
    requires family in FamiliesOf(Hits(lex, health, req))
    ensures IsTop(lex, health, req, family,
                  TopScore(lex, lex.tokens(req.query), OfFamily(family, Hits(lex, health, req))))
  {
    hide Hit, Hits, OfFamily, Score, Weight, TopScore, Describe;
    var query, members := lex.tokens(req.query), OfFamily(family, Hits(lex, health, req));
    MembersAre(lex, health, req, family);
    OfFamilyMembers(family, Hits(lex, health, req));
    TopIs(lex, query, members);
    var top := TopScore(lex, query, members);
    forall r | HitOf(lex, health, req, family, r) ensures 0 < Weight(lex, query, r) <= top {
      HitWeighs(lex, health, req, r);
      ScoreIs(lex, health, query, r);
      assert Describe(lex, health, r) in members;
    }
    var e :| e in Hits(lex, health, req) && e.family == family;
    var r :| HitOf(lex, health, req, family, r) && e == Describe(lex, health, r);
    var d :| d in members && Score(lex, query, d) == top;
    var best :| HitOf(lex, health, req, family, best) && d == Describe(lex, health, best);
    ScoreIs(lex, health, query, best);
  }

  lemma HitWeighs(lex: Lexicon, health: HealthMap, req: Request, r: Row)
    requires Hit(lex, health, req, r)
    ensures Weight(lex, lex.tokens(req.query), r) > 0
  {
    hide Weight, Shown;
    ScoreIs(lex, health, lex.tokens(req.query), r);
  }

  lemma HitFamily(lex: Lexicon, health: HealthMap, req: Request, family: string, r: Row)
    requires HitOf(lex, health, req, family, r)
    ensures family in FamiliesOf(Hits(lex, health, req))
  {
    hide Hit, Hits;
    HitsAre(lex, health, req);
    assert Describe(lex, health, r) in Hits(lex, health, req);
  }

  /** The ranking behind an answer, and the part of it that is listed. */
  lemma Listing(lex: Lexicon, health: HealthMap, req: Request, a: Answer) returns (order: seq<Rank>, listed: seq<Rank>)
    requires IsAnswer(lex, health, req, a) && lex.noTool(req.query).None?
    ensures Ranked(Ranks(lex, lex.tokens(req.query), Hits(lex, health, req)), order)
    ensures order == [] ==> a.families == [] && listed == [] && a.status != Ambiguous
    ensures a.status == Ambiguous ==> listed != []
    ensures order != [] ==>
              && a.families == Limit(req.familyLimit,
                                     RowsFor(lex, lex.tokens(req.query), Hits(lex, health, req), listed))
              && (if a.status == Ambiguous then listed == WithScore(order[0].score, order) else listed == order)
  {
    hide Ranked, Ranks, VisibleTo, Matching, WithScore, RowsFor, Limit;
    order :| Ranked(Ranks(lex, lex.tokens(req.query), Hits(lex, health, req)), order)
             && a == AnswerWith(lex, health, req, order);
    listed := if |Tied(order)| > 1 then Tied(order) else order;
  }

  lemma {:induction false} WithScoreSorted(score: int, order: seq<Rank>)
    requires SortedBy(RankLe, order)
    ensures SortedBy(RankLe, WithScore(score, order))
    ensures forall x :: x in WithScore(score, order) ==> x in order && x.score == score
    ensures forall x :: x in order && x.score == score ==> x in WithScore(score, order)
  {
    hide RankLe;
    if order != [] {
      WithScoreSorted(score, order[1..]);
      assert order == [order[0]] + order[1..];
      var rest := WithScore(score, order[1..]);
      forall x | x in rest ensures RankLe(order[0], x) { var i := IndexOf(order[1..], x); }
    }
  }

  /** What is known of a listing: a sorted part of the ranking. */
  ghost predicate IsListing(lex: Lexicon, health: HealthMap, req: Request, a: Answer, listed: seq<Rank>) {
    && (a.status == Ambiguous ==> listed != [] && forall x :: x in listed ==> x.score == listed[0].score)
    && SortedBy(RankLe, listed) && NoDuplicates(listed)
    && (forall x :: x in listed ==> x in Ranks(lex, lex.tokens(req.query), Hits(lex, health, req)))
    && (forall x :: x in Ranks(lex, lex.tokens(req.query), Hits(lex, health, req)) ==>
          x in listed || (a.status == Ambiguous && forall y :: y in listed ==> x.score < y.score))
    && a.families == Limit(req.familyLimit, RowsFor(lex, lex.tokens(req.query), Hits(lex, health, req), listed))
  }

  lemma Listed(lex: Lexicon, health: HealthMap, req: Request, a: Answer) returns (listed: seq<Rank>)
    requires IsAnswer(lex, health, req, a) && lex.noTool(req.query).None?
    ensures IsListing(lex, health, req, a, listed)
  {
    hide IsAnswer, Ranks, Hits, WithScore, RankLe;
    var order;
    order, listed := Listing(lex, health, req, a);
    var ranks := Ranks(lex, lex.tokens(req.query), Hits(lex, health, req));
    forall x ensures x in order <==> x in ranks { assert x in Elements(order) <==> x in order; }
    if order != [] && a.status == Ambiguous {
      WithScoreSorted(order[0].score, order);
      WithScoreCounts(order[0].score, order);
      forall x | x in order && x !in listed ensures forall y :: y in listed ==> x.score < y.score {
        var i := IndexOf(order, x);
        assert i > 0 && RankLe(order[0], order[i]);
        Falling(order[0], x);
      }
    }
  }

  lemma Falling(a: Rank, b: Rank)
    requires RankLe(a, b)
    ensures b.score < a.score || (b.score == a.score && StringLe(a.family, b.family))
  {
    hide StringLe;
  }

  /** A listed family names exactly the tools of its rows that hit, by name, with the risks among them; its score is the
      highest weight. */
  lemma FamilyRowMeaning(lex: Lexicon, health: HealthMap, req: Request, a: Answer, i: nat)
    requires IsAnswer(lex, health, req, a) && i < |a.families|
    ensures var row := a.families[i];
            && (forall name :: name in row.tools <==>
                  exists r :: HitOf(lex, health, req, row.family, r) && r.name == name)
            && (forall j, k :: 0 <= j < k < |row.tools| ==> StringLe(row.tools[j], row.tools[k]))
            && (forall risk :: risk in row.risks <==>
                  exists r :: HitOf(lex, health, req, row.family, r) && lex.risk(r.name) == risk)
            && (forall j, k :: 0 <= j < k < |row.risks| ==>
                  row.risks[j] != row.risks[k] && StringLe(row.risks[j], row.risks[k]))
            && IsTop(lex, health, req, row.family, row.score)
  {
    hide Hit, Hits, OfFamily, StringLe, FamilyRowOf, RankLe, TopScore, SortedBy, NoDuplicates;
    SomeListed(lex, health, req, a, i);
    var query := lex.tokens(req.query);
    var listed := Listed(lex, health, req, a);
    var family := listed[i].family;
    var members := OfFamily(family, Hits(lex, health, req));
    assert a.families[i] == FamilyRowOf(lex, query, family, members);
    RowParts(lex, query, family, members);
    MembersAre(lex, health, req, family);
    assert listed[i] in listed;
    RankFamily(lex, query, Hits(lex, health, req), listed[i]);
    FamilyTop(lex, health, req, family);
    hide IsListing, IsTop, IsAnswer;
    MemberNames(lex, health, req, family, members);
    var row := a.families[i];
    forall j, k | 0 <= j < k < |row.risks|
      ensures row.risks[j] != row.risks[k] && StringLe(row.risks[j], row.risks[k])
    {
      PairOf(row.risks, j, k);
    }
  }

  lemma PairOf(s: seq<string>, j: nat, k: nat)
    requires SortedBy(StringLe, s) && NoDuplicates(s) && j < k < |s|
    ensures s[j] != s[k] && StringLe(s[j], s[k])
  {
    hide StringLe;
  }

  lemma MemberNames(lex: Lexicon, health: HealthMap, req: Request, family: string, members: seq<Descriptor>)
    requires forall d :: d in members <==>
               exists r :: HitOf(lex, health, req, family, r) && d == Describe(lex, health, r)
    ensures forall name :: IsNamed(members, name) <==>
              exists r :: HitOf(lex, health, req, family, r) && r.name == name
    ensures forall risk :: HasRisk(members, risk) <==>
              exists r :: HitOf(lex, health, req, family, r) && lex.risk(r.name) == risk
  {
    hide HitOf;
    forall r | HitOf(lex, health, req, family, r)
      ensures Describe(lex, health, r) in members && Describe(lex, health, r).name == r.name
              && Describe(lex, health, r).risk == lex.risk(r.name) {}
  }

  lemma SomeListed(lex: Lexicon, health: HealthMap, req: Request, a: Answer, i: nat)
    requires IsAnswer(lex, health, req, a) && i < |a.families|
    ensures lex.noTool(req.query).None?
  {
    hide Ranked, Ranks, VisibleTo, Matching, Tied, RowsFor, Limit;
  }

  lemma RankFamily(lex: Lexicon, query: set<string>, ds: seq<Descriptor>, x: Rank)
    requires x in Ranks(lex, query, ds)
    ensures x.family in FamiliesOf(ds) && x.score == TopScore(lex, query, OfFamily(x.family, ds))
  {
    hide FamiliesOf, TopScore, OfFamily;
  }

  // ---- Which families are listed ----

  /** How a family with this hit comes to be left out: it comes after all that are listed, and either the list is full
      or the answer is ambiguous and lists only the best. */
  ghost predicate LeftOut(lex: Lexicon, req: Request, a: Answer, family: string, r: Row) {
    && a.families != []
    && (forall i :: 0 <= i < |a.families| ==>
          || Weight(lex, lex.tokens(req.query), r) < a.families[i].score
          || (Weight(lex, lex.tokens(req.query), r) == a.families[i].score && StringLe(a.families[i].family, family)))
    && (|a.families| == (if req.familyLimit < 1 then 1 else req.familyLimit)
        || (a.status == Ambiguous && Weight(lex, lex.tokens(req.query), r) < a.families[0].score))
  }

  /** Families come by falling score, equal ones by name, no more of them than asked for, but at least one; and no
      family with a hit is missing without cause. */
  lemma FamiliesMeaning(lex: Lexicon, health: HealthMap, req: Request, a: Answer)
    requires IsAnswer(lex, health, req, a) && lex.noTool(req.query).None?
    ensures |a.families| <= if req.familyLimit < 1 then 1 else req.familyLimit
    ensures forall i, j :: 0 <= i < j < |a.families| ==>
              var x, y := a.families[i], a.families[j];
              x.score > y.score || (x.score == y.score && x.family != y.family && StringLe(x.family, y.family))
    ensures a.status == Ambiguous ==> forall i :: 0 <= i < |a.families| ==> a.families[i].score == a.families[0].score
    ensures forall family, r :: HitOf(lex, health, req, family, r) ==>
              (exists i :: 0 <= i < |a.families| && a.families[i].family == family) || LeftOut(lex, req, a, family, r)
  {
    hide IsAnswer, Hit, Hits, StringLe, OfFamily, TopScore, Weight, LeftOut, HitOf;
    var query := lex.tokens(req.query);
    var listed := Listed(lex, health, req, a);
    FamiliesListed(lex, health, req, a, listed);
    forall i, j | 0 <= i < j < |a.families|
      ensures listed[i].family != listed[j].family && RankLe(listed[i], listed[j])
    {
      assert listed[i] != listed[j] && listed[i] in listed && listed[j] in listed;
      RankFamily(lex, query, Hits(lex, health, req), listed[i]);
      RankFamily(lex, query, Hits(lex, health, req), listed[j]);
    }
    hide RankLe, IsListing;
    forall i, j | 0 <= i < j < |a.families|
      ensures var x, y := a.families[i], a.families[j];
              x.score > y.score || (x.score == y.score && x.family != y.family && StringLe(x.family, y.family))
    {
      Falling(listed[i], listed[j]);
    }
    forall family, r | HitOf(lex, health, req, family, r)
      ensures (exists i :: 0 <= i < |a.families| && a.families[i].family == family) || LeftOut(lex, req, a, family, r)
    {
      if forall i :: 0 <= i < |a.families| ==> a.families[i].family != family {
        FamilyLeftOut(lex, health, req, a, listed, family, r);
      }
    }
  }

  lemma FamiliesListed(lex: Lexicon, health: HealthMap, req: Request, a: Answer, listed: seq<Rank>)
    requires IsListing(lex, health, req, a, listed)
    ensures |a.families| <= |listed| && |a.families| <= if req.familyLimit < 1 then 1 else req.familyLimit
    ensures a.status == Ambiguous ==> forall i :: 0 <= i < |a.families| ==> a.families[i].score == a.families[0].score
    ensures forall i :: 0 <= i < |a.families| ==>
              a.families[i].family == listed[i].family && a.families[i].score == listed[i].score
  {
    hide Hits, OfFamily, TopScore, RankLe, SortedBy, NoDuplicates;
    forall i | 0 <= i < |a.families|
      ensures a.families[i].family == listed[i].family && a.families[i].score == listed[i].score
    {
      assert listed[i] in listed;
      RankFamily(lex, lex.tokens(req.query), Hits(lex, health, req), listed[i]);
    }
  }

  lemma FamilyLeftOut(lex: Lexicon, health: HealthMap, req: Request, a: Answer, listed: seq<Rank>, family: string,
                      r: Row)
    requires IsListing(lex, health, req, a, listed) && HitOf(lex, health, req, family, r)
    requires |a.families| <= |listed|
    requires forall i :: 0 <= i < |a.families| ==>
               a.families[i].family == listed[i].family && a.families[i].score == listed[i].score
    requires forall i :: 0 <= i < |a.families| ==> a.families[i].family != family
    ensures LeftOut(lex, req, a, family, r)
  {
    hide Hit, Hits, StringLe, OfFamily, TopScore, Weight, RankLe, Ranks, FamilyRowOf;
    var query := lex.tokens(req.query);
    HitFamily(lex, health, req, family, r);
    FamilyTop(lex, health, req, family);
    RankListed(lex, query, Hits(lex, health, req), family);
    var x := RankOf(lex, query, Hits(lex, health, req), family);
    assert Weight(lex, query, r) <= x.score;
    if x in listed {
      var m := IndexOf(listed, x);
      forall i | 0 <= i < |a.families|
        ensures x.score < listed[i].score || (x.score == listed[i].score && StringLe(listed[i].family, family))
      {
        assert i < m && RankLe(listed[i], listed[m]);
        Falling(listed[i], x);
      }
    } else {
      assert listed[0] in listed;
      forall i | 0 <= i < |a.families| ensures x.score < listed[i].score { assert listed[i] in listed; }
    }
  }

  // ---- The rest of an answer ----

  lemma {:induction false} VisibleSorted(lex: Lexicon, health: HealthMap, host: Host, exposed: set<string>,
                                         rows: seq<Row>)
    requires SortedBy(RowLe, rows)
    ensures SortedBy(DescriptorLe, Visible(lex, health, host, exposed, rows))
  {
    hide Usable, StringLe;
    if rows != [] {
      var n := |rows| - 1;
      VisibleSorted(lex, health, host, exposed, rows[..n]);
      VisibleRows(lex, health, host, exposed, rows[..n]);
      var before := Visible(lex, health, host, exposed, rows[..n]);
      forall i | 0 <= i < |before| ensures DescriptorLe(before[i], Describe(lex, health, rows[n])) {
        assert before[i] in before;
        var r :| r in rows[..n] && before[i] == Describe(lex, health, r);
        var k := IndexOf(rows[..n], r);
        assert RowLe(rows[k], rows[n]);
      }
    }
  }

  lemma RowLeIsTotal()
    ensures TotalOrder(RowLe)
  {
    hide StringLe;
    StringLeIsLinear();
    forall a: Row, b: Row ensures RowLe(a, b) || RowLe(b, a) {
      assert StringLe(a.name, b.name) || StringLe(b.name, a.name);
    }
    forall a: Row, b: Row, c: Row | RowLe(a, b) && RowLe(b, c) ensures RowLe(a, c) {
      assert StringLe(a.name, b.name) && StringLe(b.name, c.name);
    }
  }

  /** The tree lists every row the host is shown, by name, with its capability hash, whatever the query; the receipt
      covers the query, both hashes, the status and the families in order. */
  lemma AnswerParts(lex: Lexicon, health: HealthMap, req: Request, a: Answer)
    requires IsAnswer(lex, health, req, a)
    ensures forall name, capability :: (name, capability) in a.tree <==>
              exists r :: Shown(lex, health, req, r) && r.name == name
                          && capability == lex.capability(r.name, lex.family(r.name), lex.tidy(r.description),
                                                          lex.risk(r.name), r.schema)
    ensures forall i, j :: 0 <= i < j < |a.tree| ==> StringLe(a.tree[i].0, a.tree[j].0)
    ensures lex.noTool(req.query).Some? ==> a.status == NoToolNeeded(lex.noTool(req.query).value) && a.families == []
    ensures exists rows :: SortedBy(RowLe, rows) && multiset(rows) == multiset(req.catalog)
                           && a.catalogHash == lex.catalogHash(rows)
    ensures a.hostHash == lex.hostHash(req.host)
    ensures exists names: seq<string> ::
              && |names| == |a.families| && (forall i :: 0 <= i < |names| ==> names[i] == a.families[i].family)
              && a.receiptHash == lex.receiptHash(ReceiptBasis(req.query, a.catalogHash, a.hostHash, a.status, names))
  {
    hide StringLe, Shown, Usable, Exposed, Ranked, Ranks, Matching, RowsFor, Tied, Limit, Visible;
    var ds := VisibleTo(lex, health, req);
    var exposed, rows := Exposed(lex, req.catalog), Stable(req.catalog);
    RowLeIsTotal();
    SortIsSorted(RowLe, req.catalog);
    VisibleRows(lex, health, req.host, exposed, rows);
    VisibleSorted(lex, health, req.host, exposed, rows);
    var order :| a == AnswerWith(lex, health, req, order);
    assert a.tree == seq(|ds|, i requires 0 <= i < |ds| => (ds[i].name, ds[i].capability));
    var names := seq(|a.families|, i requires 0 <= i < |a.families| => a.families[i].family);
    assert a == Finish(lex, req, a.status, a.families, ds);
    FinishReceipt(lex, req, a.status, a.families, ds, names);
    hide AnswerWith, IsAnswer, VisibleTo, RowLe;
    forall r ensures r in rows && Usable(lex, req.host, exposed, Describe(lex, health, r)) <==>
                     Shown(lex, health, req, r) {
      SortMember(RowLe, req.catalog, r);
      if r in req.catalog { UsableIff(lex, health, req, r); }
      if Shown(lex, health, req, r) { ShownListed(lex, health, req, r); }
    }
    forall i, j | 0 <= i < j < |a.tree| ensures StringLe(a.tree[i].0, a.tree[j].0) {
      assert DescriptorLe(ds[i], ds[j]);
    }
    TreeOf(ds, a.tree);
  }

  lemma FinishReceipt(lex: Lexicon, req: Request, status: Status, families: seq<FamilyRow>, ds: seq<Descriptor>,
                      names: seq<string>)
    requires names == seq(|families|, i requires 0 <= i < |families| => families[i].family)
    ensures var a := Finish(lex, req, status, families, ds);
            a.receiptHash == lex.receiptHash(ReceiptBasis(req.query, a.catalogHash, a.hostHash, status, names))
  {
    assert names == seq(|families|, i requires 0 <= i < |families| => families[i].family);
  }

  lemma TreeOf(ds: seq<Descriptor>, tree: seq<(string, string)>)
    requires tree == seq(|ds|, i requires 0 <= i < |ds| => (ds[i].name, ds[i].capability))
    ensures forall name, capability :: (name, capability) in tree <==>
              exists d :: d in ds && d.name == name && d.capability == capability
  {
    forall name, capability ensures (name, capability) in tree <==>
                                    exists d :: d in ds && d.name == name && d.capability == capability {
      if (name, capability) in tree {
        var i := IndexOf(tree, (name, capability));
        assert ds[i] in ds;
      }
      if d :| d in ds && d.name == name && d.capability == capability {
        var i := IndexOf(ds, d);
        assert tree[i] == (name, capability);
      }
    }
  }
}
