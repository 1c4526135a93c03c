/** The adaptive context policy: per-item actions, the budget ladder and the session decision. */
module AdaptivePolicy {
  import opened Ordering
  import opened Reachability

  type Id = Node

  datatype Option<T> = None | Some(value: T)

  datatype Action = Keep | Summarize | Compress | Externalize | Abstain

  datatype Reason = SecurityDeny | TaintedExactRequired | ExactRequired | HighRiskReferenceOnly
                  | HighRiskNotExternalizable
                  | HighUtility | MediumUtility | LowerUtilityCompressible | LowUtilityRecoverable
                  | LowUtilityCompressible
                  | LowUtilitySummarizable | NoSafeTransform | BudgetPressure

  datatype Signal = Signal(identity: Id, tokens: nat, relevance: real, trust: real, freshness: real, recoverable: bool,
                           exactRequired: bool, tainted: bool, securityDenied: bool,
                           summarizable: bool, compressible: bool, externalizable: bool)

  datatype Config = Config(budget: int, targetUtilization: real, resetThreshold: real, branchThreshold: real,
                           keepThreshold: real, summarizeThreshold: real, compressThreshold: real, referenceTokens: int)

  predicate Unit(x: real) { 0.0 <= x <= 1.0 }

  /** What the constructor of the configuration insists on. */
  predicate ValidConfig(c: Config) {
    && c.budget >= 256 && c.referenceTokens >= 1
    && Unit(c.targetUtilization) && Unit(c.resetThreshold) && Unit(c.branchThreshold)
    && Unit(c.keepThreshold) && Unit(c.summarizeThreshold) && Unit(c.compressThreshold)
    && c.targetUtilization <= c.resetThreshold && c.keepThreshold >= c.summarizeThreshold >= c.compressThreshold
  }

  datatype Row = Row(identity: Id, recommended: Action, effective: Action, utility: real, risk: real, input: int,
                     visible: int, reasons: seq<Reason>)

  // ---- Tokens and the ladder ----

  function Min(a: int, b: int): int { if a < b then a else b }

  function Max(a: int, b: int): int { if a < b then b else a }

  /** The ceiling of n percent. */
  function PercentUp(tokens: int, n: int): int { (n * tokens + 99) / 100 }

  function Visible(c: Config, s: Signal, a: Action): int {
    match a
    case Keep => s.tokens
    case Summarize => Min(s.tokens, Max(24, PercentUp(s.tokens, 34)))
    case Compress => Min(s.tokens, Max(16, PercentUp(s.tokens, 18)))
    case Externalize => Min(s.tokens, c.referenceTokens)
    case Abstain => 0
  }

  function Rank(a: Action): int {
    match a
    case Keep => -1
    case Summarize => 0
    case Compress => 1
    case Externalize => 2
    case Abstain => 2
  }

  /** The transformations that the item itself permits. */
  predicate Allows(s: Signal, a: Action) {
    match a
    case Keep => true
    case Summarize => s.summarizable
    case Compress => s.compressible
    case Externalize => s.externalizable && s.recoverable
    case Abstain => true
  }

  /** The first allowed step of the ladder above the current one. */
  function NextAction(s: Signal, a: Action): (r: Option<Action>)
    ensures r.Some? ==> Rank(r.value) > Rank(a) && Allows(s, r.value) && r.value in {Summarize, Compress, Externalize}
    ensures r.Some? ==> !s.exactRequired && !s.securityDenied
    ensures r.Some? ==> forall b :: b in {Summarize, Compress, Externalize} && Allows(s, b) && Rank(a) < Rank(b) ==>
              Rank(r.value) <= Rank(b)
    ensures (r.None? && !s.exactRequired && !s.securityDenied)
              ==> forall b :: b in {Summarize, Compress, Externalize} && Allows(s, b) ==> Rank(b) <= Rank(a)
  {
    if s.exactRequired || s.securityDenied then None
    else if s.summarizable && Rank(Summarize) > Rank(a) then Some(Summarize)
    else if s.compressible && Rank(Compress) > Rank(a) then Some(Compress)
    else if s.externalizable && s.recoverable && Rank(Externalize) > Rank(a) then Some(Externalize)
    else None
  }

  /** By how much externalizing can at most raise the visible count of an item that is already summarized or
      compressed. */
  function Excess(c: Config): int { Max(0, c.referenceTokens - 16) }

  /** Only the step to EXTERNALIZE can make an item more visible, and only by the excess. */
  lemma StepCost(c: Config, s: Signal, a: Action, next: Action)
    requires NextAction(s, a) == Some(next)
    ensures next != Externalize ==> Visible(c, s, next) <= Visible(c, s, a)
    ensures next == Externalize ==> Visible(c, s, next) <= Visible(c, s, a) + Excess(c)
  {
  }

  // ---- The budget pass ----

  datatype State = State(rows: seq<Row>, projected: int)

  type Signals = map<Id, Signal>

  /** `max(1, int(math.floor(budget * target_utilization)))` */
  function Target(c: Config): int { Max(1, (c.budget as real * c.targetUtilization).Floor) }

  lemma TargetWithinBudget(c: Config)
    requires ValidConfig(c)
    ensures 1 <= Target(c) <= c.budget
  {
    ScaledDown(c.budget as real, c.targetUtilization);
    FloorBelow(c.budget as real * c.targetUtilization, c.budget);
  }

  lemma FloorBelow(x: real, n: int)
    requires x <= n as real
    ensures x.Floor <= n
  {
  }

  lemma ScaledDown(b: real, u: real)
    requires b >= 0.0 && u <= 1.0
    ensures b * u <= b
  {
    assert b * (1.0 - u) >= 0.0;
    assert b * (1.0 - u) == b - b * u;
  }

  function TotalVisible(rows: seq<Row>): int {
    if rows == [] then 0 else TotalVisible(rows[..|rows| - 1]) + rows[|rows| - 1].visible
  }

  lemma {:induction false} TotalAfterUpdate(rows: seq<Row>, i: nat, r: Row)
    requires i < |rows|
    ensures TotalVisible(rows[i := r]) == TotalVisible(rows) - rows[i].visible + r.visible
  {
    var n := |rows| - 1;
    if i < n {
      TotalAfterUpdate(rows[..n], i, r);
      assert rows[i := r][..n] == rows[..n][i := r];
    } else {
      assert rows[i := r][..n] == rows[..n];
    }
  }

  /** A row that agrees with its signal: the token counts match and the action is one the item permits. */
  ghost predicate RowAgrees(c: Config, signals: Signals, r: Row) {
    && r.identity in signals && r.input == signals[r.identity].tokens
    && r.visible == Visible(c, signals[r.identity], r.recommended) && Allows(signals[r.identity], r.recommended)
  }

  ghost predicate RowsAgree(c: Config, signals: Signals, rows: seq<Row>) {
    forall i :: 0 <= i < |rows| ==> RowAgrees(c, signals, rows[i])
  }

  function WithPressure(reasons: seq<Reason>): seq<Reason> { Deduped(reasons + [BudgetPressure]) }

  function StepRow(c: Config, s: Signal, r: Row, next: Action): Row {
    r.(recommended := next, visible := Visible(c, s, next), reasons := WithPressure(r.reasons))
  }

  function NextOf(signals: Signals, r: Row): Option<Action> {
    if r.identity in signals then NextAction(signals[r.identity], r.recommended) else None
  }

  /** One step down the ladder for row i, and what the projection makes of it. */
  ghost function StepDown(c: Config, signals: Signals, s: State, i: nat): State
    requires i < |s.rows| && NextOf(signals, s.rows[i]).Some?
  {
    var r := s.rows[i];
    var stepped := StepRow(c, signals[r.identity], r, NextOf(signals, r).value);
    State(s.rows[i := stepped], s.projected - Max(0, r.visible - stepped.visible))
  }

  /** Steps down the ladder for row i while the projection is above the target. */
  ghost function Degrade(c: Config, signals: Signals, s: State, i: nat): State
    requires i < |s.rows|
    decreases 2 - Rank(s.rows[i].recommended)
  {
    if s.projected <= Target(c) || NextOf(signals, s.rows[i]).None? then s
    else Degrade(c, signals, StepDown(c, signals, s, i), i)
  }

  /** The gap between the true total and the projection. */
  ghost function Gap(current: int, s: State): int { current + TotalVisible(s.rows) - s.projected }

  ghost function ExcessIf(c: Config, before: Row, after: Row): int {
    if after.recommended == Externalize && before.recommended != Externalize then Excess(c) else 0
  }

  /** The parts of a row that no budget pressure touches, and the direction in which its action may move. */
  ghost predicate SameItem(before: Row, after: Row) {
    && after.identity == before.identity && after.utility == before.utility && after.risk == before.risk
    && after.input == before.input && after.effective == before.effective
    && Rank(before.recommended) <= Rank(after.recommended)
    && (after.recommended == Abstain <==> before.recommended == Abstain)
  }

  lemma StepDownKeeps(c: Config, signals: Signals, current: int, s: State, i: nat)
    requires RowsAgree(c, signals, s.rows) && i < |s.rows| && NextOf(signals, s.rows[i]).Some?
    requires s.rows[i].recommended != Abstain
    ensures var t := StepDown(c, signals, s, i);
            && RowsAgree(c, signals, t.rows) && SameItem(s.rows[i], t.rows[i])
            && Gap(current, s) <= Gap(current, t) <= Gap(current, s) + ExcessIf(c, s.rows[i], t.rows[i])
  {
    hide Visible, Excess, PercentUp;
    var r := s.rows[i];
    var t := StepDown(c, signals, s, i);
    StepCost(c, signals[r.identity], r.recommended, t.rows[i].recommended);
    TotalAfterUpdate(s.rows, i, t.rows[i]);
    ExcessNonnegative(c);
  }

  lemma ExcessNonnegative(c: Config)
    ensures Excess(c) >= 0
  {
  }

  lemma {:induction false} DegradeKeeps(c: Config, signals: Signals, current: int, s: State, i: nat)
    requires RowsAgree(c, signals, s.rows) && i < |s.rows| && s.rows[i].recommended != Abstain
    ensures var t := Degrade(c, signals, s, i);
            && RowsAgree(c, signals, t.rows) && |t.rows| == |s.rows| && t.rows == s.rows[i := t.rows[i]]
               && SameItem(s.rows[i], t.rows[i])
            && Gap(current, s) <= Gap(current, t) <= Gap(current, s) + ExcessIf(c, s.rows[i], t.rows[i])
            && (t.projected <= Target(c) || NextOf(signals, t.rows[i]).None?)
            && (s.projected <= Target(c) ==> t == s) && t.projected <= s.projected
    decreases 2 - Rank(s.rows[i].recommended)
  {
    hide RowsAgree, Gap, Target, Excess;
    ExcessNonnegative(c);
    if s.projected > Target(c) && NextOf(signals, s.rows[i]).Some? {
      StepDownKeeps(c, signals, current, s, i);
      DegradeKeeps(c, signals, current, StepDown(c, signals, s, i), i);
    }
  }

  ghost predicate InRange(order: seq<nat>, n: nat) {
    forall k :: 0 <= k < |order| ==> order[k] < n
  }

  /** The whole pass over the candidates in order. */
  ghost function DegradeAll(c: Config, signals: Signals, s: State, order: seq<nat>): (t: State)
    requires InRange(order, |s.rows|)
    ensures |t.rows| == |s.rows|
  {
    if order == [] then s
    else
      var t := DegradeAll(c, signals, s, order[..|order| - 1]);
      KeepsLength(c, signals, t, order[|order| - 1]);
      Degrade(c, signals, t, order[|order| - 1])
  }

  lemma {:induction false} KeepsLength(c: Config, signals: Signals, s: State, i: nat)
    requires i < |s.rows|
    ensures |Degrade(c, signals, s, i).rows| == |s.rows|
    decreases 2 - Rank(s.rows[i].recommended)
  {
    if s.projected > Target(c) && NextOf(signals, s.rows[i]).Some? {
      KeepsLength(c, signals, StepDown(c, signals, s, i), i);
    }
  }

  /** How many of the rows listed are externalized. */
  ghost function Externalized(rows: seq<Row>, order: seq<nat>): nat
    requires InRange(order, |rows|)
  {
    if order == [] then 0
    else Externalized(rows, order[..|order| - 1]) + if rows[order[|order| - 1]].recommended == Externalize then 1 else 0
  }

  lemma {:induction false} ExternalizedFrame(rows: seq<Row>, order: seq<nat>, k: nat, r: Row)
    requires InRange(order, |rows|) && k < |rows| && k !in order
    ensures Externalized(rows[k := r], order) == Externalized(rows, order)
  {
    if order != [] {
      assert order[|order| - 1] in order;
      ExternalizedFrame(rows, order[..|order| - 1], k, r);
    }
  }

  /** Candidates: rows that are neither abstained from nor already externalized. */
  ghost predicate Candidates(rows: seq<Row>, order: seq<nat>) {
    && NoDuplicates(order) && InRange(order, |rows|)
    && forall k :: 0 <= k < |order| ==> rows[order[k]].recommended !in {Abstain, Externalize}
  }

  /** Everything listed has taken every step it is allowed. */
  ghost predicate Exhausted(signals: Signals, rows: seq<Row>, order: seq<nat>)
    requires InRange(order, |rows|)
  {
    forall k :: 0 <= k < |order| ==> NextOf(signals, rows[order[k]]).None?
  }

  /** The candidates before position k are exhausted if the k-th has changed at all. */
  ghost predicate InTurn(signals: Signals, before: seq<Row>, rows: seq<Row>, order: seq<nat>, k: nat)
    requires |rows| == |before| && InRange(order, |rows|) && k < |order|
  {
    rows[order[k]] != before[order[k]] ==> Exhausted(signals, rows, order[..k])
  }

  /** What the pass has done after some candidates: rows outside are untouched, an earlier candidate is exhausted
      before a later one changes, and everything is exhausted if the target is still missed. */
  ghost predicate PassState(c: Config, signals: Signals, before: seq<Row>, order: seq<nat>, t: State)
    requires InRange(order, |before|)
  {
    && |t.rows| == |before|
    && (forall i :: 0 <= i < |before| ==> SameItem(before[i], t.rows[i]))
    && (forall i :: 0 <= i < |before| && i !in order ==> t.rows[i] == before[i])
    && (forall k :: 0 <= k < |order| ==> InTurn(signals, before, t.rows, order, k))
    && (t.projected > Target(c) ==> Exhausted(signals, t.rows, order))
  }

  lemma ExhaustedFrame(signals: Signals, rows: seq<Row>, order: seq<nat>, k: nat, r: Row)
    requires InRange(order, |rows|) && k < |rows| && k !in order
    ensures Exhausted(signals, rows[k := r], order) <==> Exhausted(signals, rows, order)
  {
    forall j | 0 <= j < |order| ensures rows[k := r][order[j]] == rows[order[j]] { assert order[j] in order; }
  }

  lemma InTurnFrame(signals: Signals, before: seq<Row>, rows: seq<Row>, order: seq<nat>, k: nat, i: nat, r: Row)
    requires |rows| == |before| && InRange(order, |rows|) && k < |order| && i < |rows| && i !in order
    requires InTurn(signals, before, rows, order, k)
    ensures InTurn(signals, before, rows[i := r], order, k)
  {
    assert order[k] in order;
    ExhaustedFrame(signals, rows, order[..k], i, r);
  }

  /** Adding one candidate to the pass. */
  lemma PassStateStep(c: Config, signals: Signals, before: seq<Row>, order: seq<nat>, s: State, i: nat, t: State)
    requires InRange(order, |before|) && i < |before| && i !in order && PassState(c, signals, before, order, s)
    requires |t.rows| == |s.rows| && t.rows == s.rows[i := t.rows[i]] && SameItem(s.rows[i], t.rows[i])
    requires (t.projected <= Target(c) || NextOf(signals, t.rows[i]).None?) && (s.projected <= Target(c) ==> t == s)
    requires t.projected <= s.projected
    ensures PassState(c, signals, before, order + [i], t)
  {
    hide NextOf, Target, InTurn, Exhausted;
    var longer := order + [i];
    assert InRange(longer, |before|);
    forall k | 0 <= k < |longer| ensures InTurn(signals, before, t.rows, longer, k) {
      LongerInTurn(c, signals, before, order, s, i, t, k);
    }
    if t.projected > Target(c) {
      ExhaustedFrame(signals, s.rows, order, i, t.rows[i]);
      LongerExhausted(signals, t.rows, order, i);
    }
  }

  lemma LongerExhausted(signals: Signals, rows: seq<Row>, order: seq<nat>, i: nat)
    requires InRange(order, |rows|) && i < |rows| && Exhausted(signals, rows, order) && NextOf(signals, rows[i]).None?
    ensures InRange(order + [i], |rows|) && Exhausted(signals, rows, order + [i])
  {
  }

  lemma LongerInTurn(c: Config, signals: Signals, before: seq<Row>, order: seq<nat>, s: State, i: nat, t: State, k: nat)
    requires InRange(order, |before|) && i < |before| && i !in order && PassState(c, signals, before, order, s)
    requires |t.rows| == |s.rows| && t.rows == s.rows[i := t.rows[i]] && (s.projected <= Target(c) ==> t == s)
    requires InRange(order + [i], |before|) && k < |order + [i]|
    ensures InTurn(signals, before, t.rows, order + [i], k)
  {
    hide NextOf, Target, SameItem;
    var longer := order + [i];
    assert longer[..k] == order[..k];
    if k < |order| {
      InTurnFrame(signals, before, s.rows, order, k, i, t.rows[i]);
    } else {
      assert s.rows[i] == before[i];
      if t.rows[i] != before[i] { ExhaustedFrame(signals, s.rows, order, i, t.rows[i]); }
    }
  }

  /** The accounting of the pass: the projection never exceeds the true total and misses at most one excess for every
      row it externalized. */
  ghost predicate Accounted(c: Config, signals: Signals, current: int, s: State, order: seq<nat>, t: State)
    requires InRange(order, |t.rows|)
  {
    RowsAgree(c, signals, t.rows)
        && Gap(current, s) <= Gap(current, t) <= Gap(current, s) + Excess(c) * Externalized(t.rows, order)
  }

  lemma {:induction false} PassKeeps(c: Config, signals: Signals, current: int, s: State, order: seq<nat>)
    requires RowsAgree(c, signals, s.rows) && Candidates(s.rows, order)
    ensures var t := DegradeAll(c, signals, s, order);
            PassState(c, signals, s.rows, order, t) && Accounted(c, signals, current, s, order, t)
  {
    if order == [] {
      StartOfPass(c, signals, s);
    } else {
      hide RowsAgree, Accounted, Degrade, PassState;
      var init, i := order[..|order| - 1], order[|order| - 1];
      assert order == init + [i];
      PassKeeps(c, signals, current, s, init);
      PassStep(c, signals, current, s, init, i, DegradeAll(c, signals, s, init));
    }
  }

  lemma PassStep(c: Config, signals: Signals, current: int, s: State, init: seq<nat>, i: nat, m: State)
    requires Candidates(s.rows, init + [i]) && InRange(init, |s.rows|) && |m.rows| == |s.rows| && i < |m.rows|
    requires PassState(c, signals, s.rows, init, m) && Accounted(c, signals, current, s, init, m)
    ensures var t := Degrade(c, signals, m, i);
            |t.rows| == |s.rows| && PassState(c, signals, s.rows, init + [i], t)
                && Accounted(c, signals, current, s, init + [i], t)
  {
    hide RowsAgree, Gap, Excess, Degrade, SameItem, NextOf, Target, PassState;
    assert (init + [i])[|init|] == i && i !in init by {
      forall k | 0 <= k < |init| ensures init[k] != i { assert (init + [i])[k] != (init + [i])[|init|]; }
    }
    Untouched(c, signals, s.rows, init, m, i);
    DegradeKeeps(c, signals, current, m, i);
    var t := Degrade(c, signals, m, i);
    PassStateStep(c, signals, s.rows, init, m, i, t);
    AccountStep(c, signals, current, s, init, m, i, t);
  }

  lemma AccountStep(c: Config, signals: Signals, current: int, s: State, init: seq<nat>, m: State, i: nat, t: State)
    requires InRange(init, |m.rows|) && i < |m.rows| && i !in init && Accounted(c, signals, current, s, init, m)
    requires |t.rows| == |m.rows| && t.rows == m.rows[i := t.rows[i]] && m.rows[i].recommended != Externalize
    requires RowsAgree(c, signals, t.rows)
    requires Gap(current, m) <= Gap(current, t) <= Gap(current, m) + ExcessIf(c, m.rows[i], t.rows[i])
    ensures InRange(init + [i], |t.rows|) && Accounted(c, signals, current, s, init + [i], t)
  {
    hide RowsAgree, Gap, Excess;
    ExternalizedFrame(m.rows, init, i, t.rows[i]);
    var one := if t.rows[i].recommended == Externalize then 1 else 0;
    OneMore(Excess(c), Externalized(t.rows, init), ExcessIf(c, m.rows[i], t.rows[i]), one);
    assert (init + [i])[..|init|] == init;
    assert Externalized(t.rows, init + [i]) == Externalized(t.rows, init) + one;
  }

  lemma Untouched(c: Config, signals: Signals, before: seq<Row>, order: seq<nat>, m: State, i: nat)
    requires InRange(order, |before|) && PassState(c, signals, before, order, m) && i < |before| && i !in order
    ensures m.rows[i] == before[i]
  {
  }

  lemma StartOfPass(c: Config, signals: Signals, s: State)
    ensures PassState(c, signals, s.rows, [], s)
  {
  }

  lemma OneMore(excess: int, count: nat, extra: int, one: nat)
    requires extra == excess * one
    ensures excess * (count + one) == excess * count + extra
  {
  }

  // ---- The order of the candidates ----

  datatype Candidate = Candidate(utility: real, input: int, identity: Id, index: nat)

  /** The key (utility, -input_tokens, identity). */
  predicate CandidateLe(a: Candidate, b: Candidate) {
    a.utility < b.utility || (a.utility == b.utility
                              && (a.input > b.input || (a.input == b.input && NodeLe(a.identity, b.identity))))
  }

  lemma CandidateLeIsTotal()
    ensures TotalOrder(CandidateLe)
  {
    hide NodeLe;
    NodeLeIsLinear();
    forall a: Candidate, b: Candidate ensures CandidateLe(a, b) || CandidateLe(b, a) {
      assert NodeLe(a.identity, b.identity) || NodeLe(b.identity, a.identity);
    }
    forall a: Candidate, b: Candidate, d: Candidate | CandidateLe(a, b) && CandidateLe(b, d) ensures CandidateLe(a, d) {
      assert NodeLe(a.identity, b.identity) && NodeLe(b.identity, d.identity) ==> NodeLe(a.identity, d.identity);
    }
  }

  predicate Eligible(signals: Signals, r: Row) {
    r.identity in signals && r.recommended !in {Abstain, Externalize} && !signals[r.identity].exactRequired
  }

  function CandidateAt(r: Row, i: nat): Candidate { Candidate(r.utility, r.input, r.identity, i) }

  function Listed(signals: Signals, rows: seq<Row>): seq<Candidate> {
    if rows == [] then []
    else
      var n := |rows| - 1;
      Listed(signals, rows[..n]) + if Eligible(signals, rows[n]) then [CandidateAt(rows[n], n)] else []
  }

  function Indices(s: seq<Candidate>): (r: seq<nat>)
    ensures |r| == |s| && forall k :: 0 <= k < |s| ==> r[k] == s[k].index
  {
    if s == [] then [] else [s[0].index] + Indices(s[1..])
  }

  /** The eligible rows, cheapest to give up first. */
  function Order(signals: Signals, rows: seq<Row>): seq<nat> { Indices(Sort(CandidateLe, Listed(signals, rows))) }

  lemma {:induction false} ListedRows(signals: Signals, rows: seq<Row>)
    ensures forall x :: x in Listed(signals, rows) <==>
              x.index < |rows| && Eligible(signals, rows[x.index]) && x == CandidateAt(rows[x.index], x.index)
    ensures NoDuplicates(Listed(signals, rows))
  {
    if rows != [] {
      var n := |rows| - 1;
      ListedRows(signals, rows[..n]);
      if Eligible(signals, rows[n]) {
        assert CandidateAt(rows[n], n) !in Listed(signals, rows[..n]);
        assert Elements([CandidateAt(rows[n], n)]) == {CandidateAt(rows[n], n)};
        DistinctConcat(Listed(signals, rows[..n]), [CandidateAt(rows[n], n)]);
      }
    }
  }

  /** The order lists exactly the eligible rows, each once, by utility, then larger inputs first, then identity. */
  lemma OrderSound(signals: Signals, rows: seq<Row>)
    ensures var order := Order(signals, rows);
            && Candidates(rows, order)
            && (forall i :: 0 <= i < |rows| ==> (i in order <==> Eligible(signals, rows[i])))
            && (forall j, k :: 0 <= j < k < |order|
                  ==> CandidateLe(CandidateAt(rows[order[j]], order[j]), CandidateAt(rows[order[k]], order[k])))
  {
    hide NodeLe, Eligible, TotalOrder, Sort, CandidateLe;
    var listed := Listed(signals, rows);
    var sorted := Sort(CandidateLe, listed);
    var order := Order(signals, rows);
    ListedRows(signals, rows);
    CandidateLeIsTotal();
    SortIsSorted(CandidateLe, listed);
    SortKeepsNoDuplicates(CandidateLe, listed);
    forall k | 0 <= k < |order|
        ensures order[k] < |rows| && Eligible(signals, rows[order[k]])
                && sorted[k] == CandidateAt(rows[order[k]], order[k]) {
      SortMember(CandidateLe, listed, sorted[k]);
    }
    forall j, k | 0 <= j < k < |order| ensures order[j] != order[k] { assert sorted[j] != sorted[k]; }
    forall i | 0 <= i < |rows| ensures i in order <==> Eligible(signals, rows[i]) {
      if Eligible(signals, rows[i]) {
        SortMember(CandidateLe, listed, CandidateAt(rows[i], i));
        var k := IndexOf(sorted, CandidateAt(rows[i], i));
        assert order[k] == i;
      } else if i in order {
        var k := IndexOf(order, i);
      }
    }
    forall k | 0 <= k < |order| ensures rows[order[k]].recommended !in {Abstain, Externalize} {
      EligibleAction(signals, rows[order[k]]);
    }
  }

  lemma EligibleAction(signals: Signals, r: Row)
    requires Eligible(signals, r)
    ensures r.recommended !in {Abstain, Externalize} && r.identity in signals && !signals[r.identity].exactRequired
  {
  }

  // ---- The budget pass as a whole ----

  /** What the pass makes of the rows and the projection it ends with. */
  ghost function Fit(c: Config, signals: Signals, rows: seq<Row>, current: int): (t: State)
    ensures |t.rows| == |rows|
  {
    OrderSound(signals, rows);
    DegradeAll(c, signals, State(rows, current + TotalVisible(rows)), Order(signals, rows))
  }

  lemma FitKeeps(c: Config, signals: Signals, rows: seq<Row>, current: int)
    requires RowsAgree(c, signals, rows)
    ensures var t, order := Fit(c, signals, rows, current), Order(signals, rows);
            && InRange(order, |rows|) && PassState(c, signals, rows, order, t) && RowsAgree(c, signals, t.rows)
            && t.projected <= current + TotalVisible(t.rows) <= t.projected + Excess(c) * Externalized(t.rows, order)
  {
    hide RowsAgree, PassState, Excess;
    OrderSound(signals, rows);
    PassKeeps(c, signals, current, State(rows, current + TotalVisible(rows)), Order(signals, rows));
  }

  /** A pass that reports a fit leaves a total within the budget, up to one excess for every row it externalized. */
  lemma FitMeansWithinBudget(c: Config, signals: Signals, rows: seq<Row>, current: int)
    requires ValidConfig(c) && RowsAgree(c, signals, rows) && Fit(c, signals, rows, current).projected <= c.budget
    ensures var t, order := Fit(c, signals, rows, current), Order(signals, rows);
            InRange(order, |rows|)
                && current + TotalVisible(t.rows) <= c.budget + Excess(c) * Externalized(t.rows, order)
  {
    hide RowsAgree, Excess, Fit, Order, Externalized;
    FitKeeps(c, signals, rows, current);
  }

  /** A pass that reports no fit has left every eligible row at the cheapest action the item permits, and the total is
      indeed above the budget. */
  lemma NoFitMeansExhausted(c: Config, signals: Signals, rows: seq<Row>, current: int)
    requires ValidConfig(c) && RowsAgree(c, signals, rows) && Fit(c, signals, rows, current).projected > c.budget
    ensures var t := Fit(c, signals, rows, current);
            && current + TotalVisible(t.rows) > c.budget
            && (forall i :: 0 <= i < |rows| && Eligible(signals, rows[i]) ==> NextOf(signals, t.rows[i]).None?)
  {
    hide RowsAgree, Excess, Fit, Order, Externalized, Eligible, NextOf, Target;
    FitKeeps(c, signals, rows, current);
    OrderSound(signals, rows);
    TargetWithinBudget(c);
    var t, order := Fit(c, signals, rows, current), Order(signals, rows);
    forall i | 0 <= i < |rows| && Eligible(signals, rows[i]) ensures NextOf(signals, t.rows[i]).None? {
      var k := IndexOf(order, i);
    }
  }

  /** A row the pass changed had its turn: every eligible row before it in the order has nothing left to give. */
  lemma EarlierFirst(c: Config, signals: Signals, rows: seq<Row>, current: int, j: nat, k: nat)
    requires RowsAgree(c, signals, rows) && j < k < |Order(signals, rows)|
    ensures var t, order := Fit(c, signals, rows, current), Order(signals, rows);
            && InRange(order, |rows|)
            && (t.rows[order[k]] != rows[order[k]] ==> NextOf(signals, t.rows[order[j]]).None?)
  {
    hide RowsAgree, Excess, Fit, Order, Externalized, NextOf, Target;
    FitKeeps(c, signals, rows, current);
    var t, order := Fit(c, signals, rows, current), Order(signals, rows);
    if t.rows[order[k]] != rows[order[k]] {
      assert InTurn(signals, rows, t.rows, order, k);
      assert order[..k][j] == order[j];
    }
  }

  /** Rows that must stay exact, and rows already abstained from or externalized, come through unchanged. */
  lemma IneligibleUntouched(c: Config, signals: Signals, rows: seq<Row>, current: int, i: nat)
    requires RowsAgree(c, signals, rows) && i < |rows| && !Eligible(signals, rows[i])
    ensures Fit(c, signals, rows, current).rows[i] == rows[i]
  {
    hide RowsAgree, Excess, Fit, Order, Externalized, NextOf, Target, Eligible;
    FitKeeps(c, signals, rows, current);
    OrderSound(signals, rows);
  }

  /** The projection is exact on these inputs. */
  ghost predicate ExactOn(c: Config, signals: Signals, rows: seq<Row>, current: int) {
    RowsAgree(c, signals, rows) ==>
        Fit(c, signals, rows, current).projected == current + TotalVisible(Fit(c, signals, rows, current).rows)
  }

  /** The projection is exact for every input exactly when a reference is configured to take at most 16 tokens. */
  lemma ProjectionExactIff(c: Config)
    requires ValidConfig(c)
    ensures c.referenceTokens <= 16 <==> forall signals, rows, current :: ExactOn(c, signals, rows, current)
  {
    hide RowsAgree, Fit, Order, Externalized;
    if c.referenceTokens <= 16 {
      forall signals, rows, current ensures ExactOn(c, signals, rows, current) {
        if RowsAgree(c, signals, rows) {
          FitKeeps(c, signals, rows, current);
          assert Excess(c) == 0;
        }
      }
    } else {
      HiddenIncrease(c);
      assert !ExactOn(c, OneSignal(), OneRow(), c.budget);
    }
  }

  /** An item of 17 tokens compressed to 16, which may still be externalized. */
  function OneSignal(): Signals {
    map[Node("a") := Signal(Node("a"), 17, 0.0, 1.0, 1.0, true, false, false, false, false, true, true)]
  }

  function OneRow(): seq<Row> { [Row(Node("a"), Compress, Compress, 0.0, 0.0, 17, 16, [LowUtilityCompressible])] }

  lemma HiddenIncrease(c: Config)
    requires ValidConfig(c) && c.referenceTokens > 16
    ensures RowsAgree(c, OneSignal(), OneRow())
    ensures !ExactOn(c, OneSignal(), OneRow(), c.budget)
  {
    hide Target;
    TargetWithinBudget(c);
    OneOrder();
    OneFit(c, c.budget);
  }

  lemma OneOrder()
    ensures Order(OneSignal(), OneRow()) == [0]
  {
    var row := OneRow()[0];
    assert OneRow()[..0] == [];
    assert Listed(OneSignal(), OneRow()[..0]) == [];
    assert Listed(OneSignal(), OneRow()) == [CandidateAt(row, 0)];
    var listed := [CandidateAt(row, 0)];
    assert listed[1..] == [];
    assert Sort(CandidateLe, listed[1..]) == [];
    assert Sort(CandidateLe, listed) == [CandidateAt(row, 0)];
  }

  /** With a reference longer than 16 tokens the step makes the item more visible, and the projection does not move. */
  lemma OneFit(c: Config, current: int)
    requires ValidConfig(c) && c.referenceTokens > 16 && Order(OneSignal(), OneRow()) == [0] && current + 16 > Target(c)
    ensures var t := Fit(c, OneSignal(), OneRow(), current); t.projected == current + 16 && TotalVisible(t.rows) == 17
    ensures RowsAgree(c, OneSignal(), OneRow()) && TotalVisible(OneRow()) == 16
  {
    hide Target, Order, Sort;
    var s := State(OneRow(), current + 16);
    assert OneRow()[..0] == [];
    assert TotalVisible(OneRow()[..0]) == 0;
    var t := StepDown(c, OneSignal(), s, 0);
    assert t.rows[..0] == [] && TotalVisible(t.rows[..0]) == 0;
    assert t.rows[0].visible == 17 && TotalVisible(t.rows) == 17;
    assert Degrade(c, OneSignal(), t, 0) == t;
    assert Degrade(c, OneSignal(), s, 0) == t;
    assert [0][..0] == [];
    assert DegradeAll(c, OneSignal(), s, [0]) == t;
  }
}
