/** `evaluate`: initial actions, the in-place budget pass and the session decision. */
module AdaptiveEvaluation {
  import opened Ordering
  import opened Reachability
  import opened AdaptivePolicy

  // ---- Scores and initial actions ----

  /** `round(x, 6)`: to the nearest millionth, halves to the even neighbour. */
  function Millionths(x: real): real {
    var y := x * 1000000.0;
    var below := y.Floor;
    var part := y - below as real;
    var nearest := if part < 0.5 || (part == 0.5 && below % 2 == 0) then below else below + 1;
    nearest as real / 1000000.0
  }

  function Clamp(x: real): real { if x < 0.0 then 0.0 else if x > 1.0 then 1.0 else x }

  function Bonus(b: bool): real { if b then 1.0 else 0.0 }

  function Utility(s: Signal): real {
    Millionths(Clamp(0.42 * s.relevance + 0.24 * s.trust + 0.14 * s.freshness + 0.12 * Bonus(s.exactRequired)
                     + 0.08 * Bonus(s.recoverable)))
  }

  function Risk(s: Signal): real {
    if s.securityDenied then 1.0
    else Millionths(Clamp(0.75 * Bonus(s.tainted) + (1.0 - s.trust) * 0.18 + (1.0 - s.freshness) * 0.07))
  }

  function InitialAction(c: Config, s: Signal, utility: real, risk: real): (r: (Action, Reason))
    ensures Allows(s, r.0)
    ensures s.securityDenied || (s.tainted && s.exactRequired) ==> r.0 == Abstain
    ensures s.exactRequired && r.0 != Abstain ==> r.0 == Keep
    ensures risk >= 0.75 && !s.exactRequired ==> r.0 in {Abstain, Externalize}
  {
    if s.securityDenied then (Abstain, SecurityDeny)
    else if s.tainted && s.exactRequired then (Abstain, TaintedExactRequired)
    else if s.exactRequired then (Keep, ExactRequired)
    else if risk >= 0.75 then
      if s.externalizable && s.recoverable then (Externalize, HighRiskReferenceOnly)
      else (Abstain, HighRiskNotExternalizable)
    else if utility >= c.keepThreshold then (Keep, HighUtility)
    else if utility >= c.summarizeThreshold && s.summarizable then (Summarize, MediumUtility)
    else if utility >= c.compressThreshold && s.compressible then (Compress, LowerUtilityCompressible)
    else if s.externalizable && s.recoverable then (Externalize, LowUtilityRecoverable)
    else if s.compressible then (Compress, LowUtilityCompressible)
    else if s.summarizable then (Summarize, LowUtilitySummarizable)
    else (Keep, NoSafeTransform)
  }

  function InitialRow(c: Config, s: Signal): Row {
    var a := InitialAction(c, s, Utility(s), Risk(s));
    Row(s.identity, a.0, a.0, Utility(s), Risk(s), s.tokens, Visible(c, s, a.0), [a.1])
  }

  /** A tainted item is never shown as it is: with sound scores its risk alone forces a reference or an abstention. */
  lemma TaintedNeverShown(c: Config, s: Signal)
    requires Unit(s.relevance) && Unit(s.trust) && Unit(s.freshness) && s.tainted
    ensures InitialRow(c, s).recommended in {Abstain, Externalize}
  {
    if !s.securityDenied {
      var x := Clamp(0.75 * Bonus(s.tainted) + (1.0 - s.trust) * 0.18 + (1.0 - s.freshness) * 0.07);
      MillionthsKeepsThreshold(x);
    }
  }

  lemma MillionthsKeepsThreshold(x: real)
    requires x >= 0.75
    ensures Millionths(x) >= 0.75
  {
    var y := x * 1000000.0;
    assert y.Floor >= 750000;
  }

  // ---- The budget pass in place ----

  method SumVisible(rows: array<Row>) returns (total: int)
    ensures total == TotalVisible(rows[..])
  {
    total := 0;
    for i := 0 to rows.Length
      invariant total == TotalVisible(rows[..i])
    {
      assert rows[..i + 1][..i] == rows[..i];
      total := total + rows[i].visible;
    }
    assert rows[..] == rows[..rows.Length];
  }

  /** The steps for one candidate row, written back into the list. */
  method DegradeRow(c: Config, signals: Signals, rows: array<Row>, i: nat, projected: int) returns (projected': int)
    requires i < rows.Length && rows[i].identity in signals
    modifies rows
    ensures State(rows[..], projected') == Degrade(c, signals, State(old(rows[..]), projected), i)
    ensures rows[i].identity == old(rows[i].identity)
    ensures forall k :: 0 <= k < rows.Length && k != i ==> rows[k] == old(rows[k])
  {
    hide Visible, Excess;
    projected' := projected;
    while projected' > Target(c)
      invariant Degrade(c, signals, State(rows[..], projected'), i)
           == Degrade(c, signals, State(old(rows[..]), projected), i)
      invariant rows[i].identity == old(rows[i].identity)
      invariant forall k :: 0 <= k < rows.Length && k != i ==> rows[k] == old(rows[k])
      decreases 2 - Rank(rows[i].recommended)
    {
      var signal := signals[rows[i].identity];
      var next := NextAction(signal, rows[i].recommended);
      if next.None? {
        break;
      }
      ghost var s := State(rows[..], projected');
      var previous := rows[i].visible;
      rows[i] := StepRow(c, signal, rows[i], next.value);
      projected' := projected' - Max(0, previous - rows[i].visible);
      assert State(rows[..], projected') == StepDown(c, signals, s, i);
    }
  }

  /** The candidates in order, until the projection meets the target. */
  method DegradeInOrder(c: Config, signals: Signals, rows: array<Row>, order: seq<nat>, projected: int)
    returns (projected': int)
    requires InRange(order, rows.Length) && forall i :: 0 <= i < rows.Length ==> rows[i].identity in signals
    modifies rows
    ensures State(rows[..], projected') == DegradeAll(c, signals, State(old(rows[..]), projected), order)
  {
    hide Degrade, Target, Visible;
    projected' := projected;
    ghost var start := State(rows[..], projected);
    for k := 0 to |order|
      invariant State(rows[..], projected') == DegradeAll(c, signals, start, order[..k])
      invariant forall i :: 0 <= i < rows.Length ==> rows[i].identity in signals
    {
      assert order[..k + 1][..k] == order[..k];
      projected' := DegradeRow(c, signals, rows, order[k], projected');
      if projected' <= Target(c) {
        RestUntouched(c, signals, start, order, k + 1);
        return;
      }
    }
    assert order[..|order|] == order;
  }

  /** `_fit_budget`: degrades the candidate rows in order until the projection is within the target. */
  method FitBudget(c: Config, signals: Signals, rows: array<Row>, current: int) returns (fit: bool)
    requires ValidConfig(c) && forall i :: 0 <= i < rows.Length ==> rows[i].identity in signals
    modifies rows
    ensures rows[..] == Fit(c, signals, old(rows[..]), current).rows
    ensures fit <==> Fit(c, signals, old(rows[..]), current).projected <= c.budget
  {
    hide Order, Target, NoDuplicates, Eligible, CandidateLe, TotalVisible, DegradeAll, Exhausted, InTurn;
    TargetWithinBudget(c);
    var visible := SumVisible(rows);
    var projected := current + visible;
    var order := Order(signals, rows[..]);
    OrderSound(signals, rows[..]);
    if projected <= Target(c) {
      NothingToDo(c, signals, State(rows[..], projected), order);
      return true;
    }
    projected := DegradeInOrder(c, signals, rows, order, projected);
    fit := projected <= c.budget;
  }

  lemma {:induction false} NothingToDo(c: Config, signals: Signals, s: State, order: seq<nat>)
    requires InRange(order, |s.rows|) && s.projected <= Target(c)
    ensures DegradeAll(c, signals, s, order) == s
  {
    hide Target;
    if order != [] { NothingToDo(c, signals, s, order[..|order| - 1]); }
  }

  /** Once the target is met the remaining candidates are left alone. */
  lemma {:induction false} RestUntouched(c: Config, signals: Signals, s: State, order: seq<nat>, k: nat)
    requires InRange(order, |s.rows|) && k <= |order|
    requires DegradeAll(c, signals, s, order[..k]).projected <= Target(c)
    ensures DegradeAll(c, signals, s, order) == DegradeAll(c, signals, s, order[..k])
  {
    hide Target;
    if k < |order| {
      var init := order[..|order| - 1];
      assert init[..k] == order[..k];
      RestUntouched(c, signals, s, init, k);
    } else {
      assert order[..k] == order;
    }
  }

  // ---- The session decision ----

  datatype SessionAction = KeepSession | ResetSession | BranchSession | AbstainSession

  datatype PolicyState = PolicyState(currentTokens: nat, unresolved: nat, irreversiblePending: bool, taskDrift: real,
                                     branchAllowed: bool, resetAllowed: bool, shadowMode: bool)

  predicate AnyDenied(signals: seq<Signal>) { exists i :: 0 <= i < |signals| && signals[i].securityDenied }

  predicate AnyTainted(signals: seq<Signal>) { exists i :: 0 <= i < |signals| && signals[i].tainted }

  predicate AnyAbstained(rows: seq<Row>) { exists i :: 0 <= i < |rows| && rows[i].recommended == Abstain }

  predicate ResetSafe(signals: seq<Signal>) {
    forall i :: 0 <= i < |signals| && !signals[i].securityDenied ==> signals[i].recoverable || signals[i].tokens == 0
  }

  datatype SessionReason =
    | SecurityDenyPresent | IrreversibleUnresolvedRisk | ItemPolicyAbstain | TaskDrift | TaskDriftBranchForbidden
    | PressureRecoverable | ResetWouldLoseContext | ContinuitySafe | BudgetNotSatisfiable

  datatype SessionDecision = SessionDecision(action: SessionAction, reason: SessionReason)

  /** `_session_action` */
  function SessionOf(c: Config, signals: seq<Signal>, rows: seq<Row>, state: PolicyState): SessionDecision
    requires ValidConfig(c)
  {
    if AnyDenied(signals) then SessionDecision(AbstainSession, SecurityDenyPresent)
    else if state.irreversiblePending && (state.unresolved > 0 || AnyTainted(signals)) then
      SessionDecision(AbstainSession, IrreversibleUnresolvedRisk)
    else if AnyAbstained(rows) then SessionDecision(AbstainSession, ItemPolicyAbstain)
    else if state.taskDrift >= c.branchThreshold then
      if state.branchAllowed then SessionDecision(BranchSession, TaskDrift)
      else SessionDecision(AbstainSession, TaskDriftBranchForbidden)
    else
      var visible := state.currentTokens + TotalVisible(rows);
      var pressure := visible as real / Max(1, c.budget) as real;
      if pressure >= c.resetThreshold && state.resetAllowed && ResetSafe(signals) then
        SessionDecision(ResetSession, PressureRecoverable)
      else if pressure >= c.resetThreshold && !ResetSafe(signals) then
        SessionDecision(AbstainSession, ResetWouldLoseContext)
      else SessionDecision(KeepSession, ContinuitySafe)
  }

  // ---- Evaluation ----

  predicate SignalLe(a: Signal, b: Signal) { NodeLe(a.identity, b.identity) }

  lemma SignalLeIsTotal()
    ensures TotalOrder(SignalLe)
  {
    hide NodeLe;
    NodeLeIsLinear();
    forall a: Signal, b: Signal ensures SignalLe(a, b) || SignalLe(b, a) {
      assert NodeLe(a.identity, b.identity) || NodeLe(b.identity, a.identity);
    }
    forall a: Signal, b: Signal, d: Signal | SignalLe(a, b) && SignalLe(b, d) ensures SignalLe(a, d) {
      assert NodeLe(a.identity, b.identity) && NodeLe(b.identity, d.identity);
    }
  }

  predicate DistinctIdentities(signals: seq<Signal>) {
    forall i, j :: 0 <= i < j < |signals| ==> signals[i].identity != signals[j].identity
  }

  /** `{signal.identity: signal for signal in signals}` */
  function ByIdentity(signals: seq<Signal>): Signals {
    if signals == [] then map[]
    else ByIdentity(signals[..|signals| - 1])[signals[|signals| - 1].identity := signals[|signals| - 1]]
  }

  lemma {:induction false} ByIdentityFinds(signals: seq<Signal>)
    requires DistinctIdentities(signals)
    ensures forall i :: 0 <= i < |signals| ==>
              signals[i].identity in ByIdentity(signals) && ByIdentity(signals)[signals[i].identity] == signals[i]
  {
    if signals != [] { ByIdentityFinds(signals[..|signals| - 1]); }
  }

  function InitialRows(c: Config, signals: seq<Signal>): seq<Row> {
    seq(|signals|, i requires 0 <= i < |signals| => InitialRow(c, signals[i]))
  }

  lemma InitialRowsAgree(c: Config, signals: seq<Signal>)
    requires DistinctIdentities(signals)
    ensures RowsAgree(c, ByIdentity(signals), InitialRows(c, signals))
  {
    hide Visible, Allows, Utility, Risk, DistinctIdentities;
    ByIdentityFinds(signals);
  }

  /** The tokens that exact items will take, denied ones apart. */
  function ExactTokens(signals: seq<Signal>): int {
    if signals == [] then 0
    else
      var s := signals[|signals| - 1];
      ExactTokens(signals[..|signals| - 1]) + if s.exactRequired && !s.securityDenied then s.tokens else 0
  }

  datatype Evaluation = EmptyTask | DuplicateIdentities
                      | Evaluated(rows: seq<Row>, fit: bool, session: SessionAction, reason: SessionReason,
                                  effectiveSession: SessionAction)

  function Shadowed(shadow: bool, rows: seq<Row>): seq<Row> {
    if shadow then seq(|rows|, i requires 0 <= i < |rows| => rows[i].(effective := Keep)) else rows
  }

  /** The outcome for signals already in order. */
  ghost function Decision(c: Config, ordered: seq<Signal>, state: PolicyState): Evaluation
    requires ValidConfig(c)
  {
    var t := Fit(c, ByIdentity(ordered), InitialRows(c, ordered), state.currentTokens);
    var fit := t.projected <= c.budget && state.currentTokens + ExactTokens(ordered) <= c.budget;
    var safe := SessionOf(c, ordered, t.rows, state);
    var session := if fit || safe.action == AbstainSession then safe
        else SessionDecision(AbstainSession, BudgetNotSatisfiable);
    Evaluated(Shadowed(state.shadowMode, t.rows), fit, session.action, session.reason,
              if state.shadowMode then KeepSession else session.action)
  }

  method SumExact(signals: seq<Signal>) returns (total: int)
    ensures total == ExactTokens(signals)
  {
    total := 0;
    for i := 0 to |signals|
      invariant total == ExactTokens(signals[..i])
    {
      assert signals[..i + 1][..i] == signals[..i];
      if signals[i].exactRequired && !signals[i].securityDenied {
        total := total + signals[i].tokens;
      }
    }
    assert signals[..|signals|] == signals;
  }

  method BuildRows(c: Config, ordered: seq<Signal>) returns (rows: array<Row>)
    ensures fresh(rows) && rows[..] == InitialRows(c, ordered)
  {
    hide InitialRow;
    var n := |ordered|;
    rows := new Row[n];
    for i := 0 to n
      invariant forall k :: 0 <= k < i ==> rows[k] == InitialRow(c, ordered[k])
    {
      rows[i] := InitialRow(c, ordered[i]);
    }
    assert rows[..] == InitialRows(c, ordered);
  }

  /** In shadow mode nothing takes effect. */
  method ApplyShadow(rows: array<Row>)
    modifies rows
    ensures rows[..] == Shadowed(true, old(rows[..]))
  {
    for i := 0 to rows.Length
      invariant forall k :: 0 <= k < i ==> rows[k] == old(rows[k]).(effective := Keep)
      invariant forall k :: i <= k < rows.Length ==> rows[k] == old(rows[k])
    {
      rows[i] := rows[i].(effective := Keep);
    }
    assert rows[..] == Shadowed(true, old(rows[..]));
  }

  method Evaluate(c: Config, taskIsBlank: bool, signals: seq<Signal>, state: PolicyState) returns (r: Evaluation)
    requires ValidConfig(c)
    ensures r == if taskIsBlank then EmptyTask
                 else if !DistinctIdentities(Sort(SignalLe, signals)) then DuplicateIdentities
                 else Decision(c, Sort(SignalLe, signals), state)
  {
    hide Fit, InitialRow, SessionOf, Sort, ValidConfig, TotalVisible, ExactTokens;
    if taskIsBlank {
      return EmptyTask;
    }
    var ordered := Sort(SignalLe, signals);
    if !DistinctIdentities(ordered) {
      return DuplicateIdentities;
    }
    var exactTokens := SumExact(ordered);
    var rows := BuildRows(c, ordered);
    IdentitiesKnown(c, ordered);
    assert forall i :: 0 <= i < rows.Length ==> rows[i] == rows[..][i];
    var fit := FitBudget(c, ByIdentity(ordered), rows, state.currentTokens);
    if state.currentTokens + exactTokens > c.budget {
      fit := false;
    }
    var session := SessionOf(c, ordered, rows[..], state);
    if !fit && session.action != AbstainSession {
      session := SessionDecision(AbstainSession, BudgetNotSatisfiable);
    }
    var effective := session.action;
    if state.shadowMode {
      ApplyShadow(rows);
      effective := KeepSession;
    }
    r := Evaluated(rows[..], fit, session.action, session.reason, effective);
  }

  lemma IdentitiesKnown(c: Config, ordered: seq<Signal>)
    requires DistinctIdentities(ordered)
    ensures forall i :: 0 <= i < |ordered| ==> InitialRows(c, ordered)[i].identity in ByIdentity(ordered)
  {
    hide Utility, Risk, Visible;
    ByIdentityFinds(ordered);
  }

  /** The order the signals arrive in does not matter: it neither hides a repeated identity nor changes the outcome. */
  lemma ArrivalOrderIrrelevant(signals: seq<Signal>, other: seq<Signal>)
    requires multiset(signals) == multiset(other) && DistinctIdentities(signals)
    ensures DistinctIdentities(Sort(SignalLe, signals)) && Sort(SignalLe, signals) == Sort(SignalLe, other)
  {
    hide Sort, NodeLe, TotalOrder, DistinctIdentities;
    SignalLeIsTotal();
    SortIsSorted(SignalLe, signals);
    SortIsSorted(SignalLe, other);
    SameDistinct(signals, Sort(SignalLe, signals));
    SameDistinct(signals, Sort(SignalLe, other));
    SortedSame(Sort(SignalLe, signals), Sort(SignalLe, other));
  }

  lemma SameDistinct(a: seq<Signal>, b: seq<Signal>)
    requires multiset(a) == multiset(b) && DistinctIdentities(a)
    ensures DistinctIdentities(b)
  {
    hide DistinctIdentities;
    DistinctByCount(a);
    DistinctByCount(b);
  }

  lemma SortedSame(a: seq<Signal>, b: seq<Signal>)
    requires multiset(a) == multiset(b) && DistinctIdentities(a) && DistinctIdentities(b) && SortedBy(SignalLe, a)
    requires SortedBy(SignalLe, b)
    ensures a == b
  {
    hide NodeLe, TotalOrder;
    NodeLeIsLinear();
    forall x ensures x in Names(a) <==> x in Names(b) { SameNames(a, b, x); SameNames(b, a, x); }
    SortedUnique(NodeLe, Names(a), Names(b));
    forall i | 0 <= i < |a| ensures a[i] == b[i] {
      assert a[i] in multiset(b);
      var j := IndexOf(b, a[i]);
      assert Names(a)[i] == Names(b)[i];
    }
  }

  ghost function Names(s: seq<Signal>): seq<Id> { seq(|s|, i requires 0 <= i < |s| => s[i].identity) }

  lemma SameNames(a: seq<Signal>, b: seq<Signal>, x: Id)
    requires multiset(a) == multiset(b)
    ensures x in Names(a) ==> x in Names(b)
  {
    if x in Names(a) {
      var i := IndexOf(Names(a), x);
      assert a[i] in multiset(b);
      var j := IndexOf(b, a[i]);
      assert Names(b)[j] == x;
    }
  }

  /** Distinct identities depend on the multiset of signals alone. */
  lemma DistinctByCount(s: seq<Signal>)
    ensures DistinctIdentities(s)
       <==> (forall x, y :: x in multiset(s) && y in multiset(s) && x.identity == y.identity ==>
             x == y) && forall x :: multiset(s)[x] <= 1
  {
    NoDuplicatesByCount(s);
    if DistinctIdentities(s) {
      forall x, y | x in multiset(s) && y in multiset(s) && x.identity == y.identity ensures x == y {
        var i := IndexOf(s, x);
        var j := IndexOf(s, y);
      }
    } else {
      var i, j :| 0 <= i < j < |s| && s[i].identity == s[j].identity;
      assert s[i] in multiset(s) && s[j] in multiset(s);
    }
  }

  // ---- What holds of every evaluation ----

  /** The rows of a decision before shadow mode rewrites their effective actions. */
  ghost function FinalRows(c: Config, ordered: seq<Signal>, state: PolicyState): (rows: seq<Row>)
    ensures |rows| == |ordered|
  {
    Fit(c, ByIdentity(ordered), InitialRows(c, ordered), state.currentTokens).rows
  }

  /** Every item ends at an action it permits, showing exactly the tokens that action shows. Exact items are shown in
      full or not at all, denied ones never, and items with a tainted source only by reference. */
  lemma ItemsAreSafe(c: Config, ordered: seq<Signal>, state: PolicyState, i: nat)
    requires ValidConfig(c) && DistinctIdentities(ordered) && i < |ordered|
    requires Unit(ordered[i].relevance) && Unit(ordered[i].trust) && Unit(ordered[i].freshness)
    ensures var r, s := FinalRows(c, ordered, state)[i], ordered[i];
            && r.identity == s.identity && Allows(s, r.recommended) && r.visible == Visible(c, s, r.recommended)
            && (s.exactRequired ==> r == InitialRow(c, s) && r.recommended in {Keep, Abstain})
            && (s.securityDenied ==> r.recommended == Abstain && r.visible == 0)
            && (s.tainted ==> r.recommended in {Abstain, Externalize})
  {
    hide Fit, InitialRow, Visible, Allows, RowsAgree, DistinctIdentities, SameItem, PassState, Externalized, Eligible;
    var signals, before := ByIdentity(ordered), InitialRows(c, ordered);
    InitialRowsAgree(c, ordered);
    ByIdentityFinds(ordered);
    FitKeeps(c, signals, before, state.currentTokens);
    var t := Fit(c, signals, before, state.currentTokens);
    SameAndAgree(c, signals, before, Order(signals, before), t, i);
    assert before[i] == InitialRow(c, ordered[i]);
    InitialRowActs(c, signals, ordered[i]);
    if !Eligible(signals, before[i]) { IneligibleUntouched(c, signals, before, state.currentTokens, i); }
    if ordered[i].tainted { TaintedNeverShown(c, ordered[i]); }
  }

  lemma InitialRowActs(c: Config, signals: Signals, s: Signal)
    requires s.identity in signals && signals[s.identity] == s
    ensures var r := InitialRow(c, s);
            && r.identity == s.identity
            && (s.exactRequired ==> r.recommended in {Keep, Abstain} && !Eligible(signals, r))
            && (s.securityDenied ==> r.recommended == Abstain && r.visible == 0)
            && (r.recommended in {Abstain, Externalize} ==> !Eligible(signals, r))
  {
    hide Utility, Risk;
  }

  lemma SameAndAgree(c: Config, signals: Signals, before: seq<Row>, order: seq<nat>, t: State, i: nat)
    requires InRange(order, |before|) && PassState(c, signals, before, order, t) && RowsAgree(c, signals, t.rows)
    requires i < |before|
    ensures |t.rows| == |before| && t.rows[i].identity == before[i].identity && RowAgrees(c, signals, t.rows[i])
            && (t.rows[i].recommended == Abstain <==> before[i].recommended == Abstain)
  {
  }

  /** The total that the final rows show, with what the context already holds. */
  ghost function Shown(c: Config, ordered: seq<Signal>, state: PolicyState): int {
    state.currentTokens + TotalVisible(FinalRows(c, ordered, state))
  }

  /** A session that is not abstained from is safe to act on: nothing was denied or abstained from, the exact items
      fit, and the total fits the budget up to one excess per externalized item. */
  lemma SessionFits(c: Config, ordered: seq<Signal>, state: PolicyState)
    requires ValidConfig(c) && DistinctIdentities(ordered) && Decision(c, ordered, state).session != AbstainSession
    ensures !AnyDenied(ordered) && !AnyAbstained(FinalRows(c, ordered, state))
    ensures state.currentTokens + ExactTokens(ordered) <= c.budget
    ensures var before := InitialRows(c, ordered);
            var order := Order(ByIdentity(ordered), before);
            InRange(order, |before|)
                && Shown(c, ordered, state) <= c.budget + Excess(c) * Externalized(FinalRows(c, ordered, state), order)
    ensures c.referenceTokens <= 16 ==> Shown(c, ordered, state) <= c.budget
  {
    hide Fit, InitialRows, RowsAgree, DistinctIdentities, Externalized, TotalVisible, ExactTokens, Order, ByIdentity;
    InitialRowsAgree(c, ordered);
    FitMeansWithinBudget(c, ByIdentity(ordered), InitialRows(c, ordered), state.currentTokens);
    if c.referenceTokens <= 16 { assert Excess(c) == 0; }
  }

  /** A reset is decided exactly when pressure has reached the threshold, it is allowed, nothing forbids acting, and
      every item can be recovered afterwards. */
  lemma ResetIff(c: Config, ordered: seq<Signal>, state: PolicyState)
    requires ValidConfig(c)
    ensures var d := Decision(c, ordered, state);
            d.session == ResetSession
            <==> (d.fit && !AnyDenied(ordered) && !AnyAbstained(FinalRows(c, ordered, state))
                  && !(state.irreversiblePending && (state.unresolved > 0 || AnyTainted(ordered)))
                  && state.taskDrift < c.branchThreshold && state.resetAllowed
                  && Shown(c, ordered, state) as real >= c.resetThreshold * c.budget as real
                  && forall i :: 0 <= i < |ordered| ==> ordered[i].recoverable || ordered[i].tokens == 0)
  {
    hide Fit, InitialRows, TotalVisible, ExactTokens;
    QuotientAtLeast(Shown(c, ordered, state) as real, c.budget as real, c.resetThreshold);
  }

  /** Some rule other than the budget's demands that the session be abstained from. */
  ghost predicate AbstentionDue(c: Config, ordered: seq<Signal>, state: PolicyState) {
    || AnyDenied(ordered) || AnyAbstained(FinalRows(c, ordered, state))
    || (state.irreversiblePending && (state.unresolved > 0 || AnyTainted(ordered)))
    || (state.taskDrift >= c.branchThreshold && !state.branchAllowed)
    || (state.taskDrift < c.branchThreshold
        && Shown(c, ordered, state) as real >= c.resetThreshold * c.budget as real && !ResetSafe(ordered))
  }

  /** The reason codes tell the outcomes apart: each way to go on has its own, denial is always named first, and the
      budget is named exactly when nothing else but the missing fit stands in the way. */
  lemma ReasonExplains(c: Config, ordered: seq<Signal>, state: PolicyState)
    requires ValidConfig(c)
    ensures var d := Decision(c, ordered, state);
            && (d.reason == ContinuitySafe <==> d.session == KeepSession)
            && (d.reason == PressureRecoverable <==> d.session == ResetSession)
            && (d.reason == TaskDrift <==> d.session == BranchSession)
            && (d.reason == SecurityDenyPresent <==> AnyDenied(ordered))
            && (d.reason == BudgetNotSatisfiable <==> !d.fit && !AbstentionDue(c, ordered, state))
            && (d.session == AbstainSession <==> !d.fit || AbstentionDue(c, ordered, state))
  {
    hide Fit, InitialRows, TotalVisible, ExactTokens, ResetSafe, AnyDenied, AnyTainted, AnyAbstained;
    QuotientAtLeast(Shown(c, ordered, state) as real, c.budget as real, c.resetThreshold);
  }

  lemma QuotientAtLeast(a: real, b: real, x: real)
    requires b > 0.0
    ensures a / b >= x <==> a >= x * b
  {
    var q := a / b;
    assert a == q * b;
    if q >= x { assert (q - x) * b >= 0.0; } else { assert (x - q) * b > 0.0; }
  }

  // ---- Recommended and effective actions ----

  /** The row is as it was, or has moved down the ladder with the reason given and the effective action left behind. */
  ghost predicate Moved(before: Row, after: Row) {
    || after == before
    || (&& Rank(before.recommended) < Rank(after.recommended) && BudgetPressure in after.reasons
        && after.effective == before.effective)
  }

  lemma PressureNoted(reasons: seq<Reason>)
    ensures BudgetPressure in WithPressure(reasons)
  {
    assert (reasons + [BudgetPressure])[|reasons|] == BudgetPressure;
    assert BudgetPressure in Elements(reasons + [BudgetPressure]);
  }

  lemma {:induction false} DegradeMoves(c: Config, signals: Signals, s: State, i: nat)
    requires i < |s.rows|
    ensures var t := Degrade(c, signals, s, i);
            && |t.rows| == |s.rows| && Moved(s.rows[i], t.rows[i])
            && forall k :: 0 <= k < |s.rows| && k != i ==> t.rows[k] == s.rows[k]
    decreases 2 - Rank(s.rows[i].recommended)
  {
    hide Visible, Target, WithPressure;
    if s.projected > Target(c) && NextOf(signals, s.rows[i]).Some? {
      PressureNoted(s.rows[i].reasons);
      DegradeMoves(c, signals, StepDown(c, signals, s, i), i);
    }
  }

  lemma {:induction false} DegradeAllMoves(c: Config, signals: Signals, s: State, order: seq<nat>, i: nat)
    requires InRange(order, |s.rows|) && i < |s.rows|
    ensures Moved(s.rows[i], DegradeAll(c, signals, s, order).rows[i])
  {
    hide Degrade;
    if order != [] {
      var n := |order| - 1;
      DegradeAllMoves(c, signals, s, order[..n], i);
      DegradeMoves(c, signals, DegradeAll(c, signals, s, order[..n]), order[n]);
    }
  }

  /** Outside shadow mode the effective action of a row is the one it started with. It agrees with the recommended one
      exactly when the budget pass left the row alone, which is when its reasons do not name the budget. */
  lemma EffectiveIff(c: Config, ordered: seq<Signal>, state: PolicyState, i: nat)
    requires ValidConfig(c) && !state.shadowMode && i < |ordered|
    ensures var r, start := Decision(c, ordered, state).rows[i], InitialRow(c, ordered[i]);
            && r.effective == start.recommended
            && (r.effective == r.recommended <==> r == start)
            && (r.effective != r.recommended <==> BudgetPressure in r.reasons)
  {
    hide Degrade, DegradeAll, Order, Utility, Risk, Visible, TotalVisible, SessionOf, ExactTokens;
    var signals, before := ByIdentity(ordered), InitialRows(c, ordered);
    OrderSound(signals, before);
    DegradeAllMoves(c, signals, State(before, state.currentTokens + TotalVisible(before)), Order(signals, before), i);
    assert before[i] == InitialRow(c, ordered[i]);
  }

  /** In shadow mode nothing takes effect, whatever is recommended. */
  lemma ShadowIsInert(c: Config, ordered: seq<Signal>, state: PolicyState)
    requires ValidConfig(c) && state.shadowMode
    ensures var d := Decision(c, ordered, state);
            d.effectiveSession == KeepSession && forall i :: 0 <= i < |d.rows| ==> d.rows[i].effective == Keep
    ensures var d, active := Decision(c, ordered, state), Decision(c, ordered, state.(shadowMode := false));
            && d.session == active.session && d.fit == active.fit && |d.rows| == |active.rows|
            && forall i :: 0 <= i < |d.rows| ==> d.rows[i] == active.rows[i].(effective := Keep)
  {
    hide Fit, InitialRows, TotalVisible, ExactTokens;
  }
}
