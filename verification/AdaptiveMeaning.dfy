/** What the adaptive policy decides, as tables, closed forms and single steps of the budget pass. */
module AdaptiveMeaning {
  import opened Ordering
  import opened Reachability
  import opened Sums
  import opened AdaptivePolicy
  import opened AdaptiveEvaluation

  // ---- Scores and initial actions ----

  /** n is x rounded to the nearest integer, halves to the even one. */
  ghost predicate IsRounded(x: real, n: int) {
    && n as real - 0.5 <= x <= n as real + 0.5
    && (x == n as real - 0.5 || x == n as real + 0.5 ==> n % 2 == 0)
  }

  lemma MillionthsAre(x: real) returns (n: int)
    ensures Millionths(x) == n as real / 1000000.0 && IsRounded(1000000.0 * x, n)
  {
    var y := x * 1000000.0;
    var below := y.Floor;
    n := if y - below as real < 0.5 || (y - below as real == 0.5 && below % 2 == 0) then below else below + 1;
  }

  /** With scores between zero and one, utility and risk are weighted sums in whole millionths. */
  lemma ScoresAre(s: Signal) returns (u: int, r: int)
    requires Unit(s.relevance) && Unit(s.trust) && Unit(s.freshness)
    ensures Utility(s) == u as real / 1000000.0
    ensures IsRounded(420000.0 * s.relevance + 240000.0 * s.trust + 140000.0 * s.freshness
                      + (if s.exactRequired then 120000.0 else 0.0) + (if s.recoverable then 80000.0 else 0.0), u)
    ensures Risk(s) == r as real / 1000000.0
    ensures s.securityDenied ==> r == 1000000
    ensures !s.securityDenied ==>
              IsRounded((if s.tainted then 750000.0 else 0.0) + 180000.0 * (1.0 - s.trust)
                        + 70000.0 * (1.0 - s.freshness), r)
  {
    hide Millionths, IsRounded;
    u := MillionthsAre(Clamp(0.42 * s.relevance + 0.24 * s.trust + 0.14 * s.freshness + 0.12 * Bonus(s.exactRequired)
                             + 0.08 * Bonus(s.recoverable)));
    r := 1000000;
    if !s.securityDenied {
      r := MillionthsAre(Clamp(0.75 * Bonus(s.tainted) + (1.0 - s.trust) * 0.18 + (1.0 - s.freshness) * 0.07));
    }
  }

  /** Which action an item starts with, for every item and configuration. */
  lemma InitialActionIff(c: Config, s: Signal)
    ensures var r, byReference := InitialRow(c, s), s.externalizable && s.recoverable;
            var free := !s.securityDenied && !s.exactRequired && r.risk < 0.75 && r.utility < c.keepThreshold;
            var medium := r.utility >= c.summarizeThreshold && s.summarizable;
            && (r.recommended == Abstain
                <==> s.securityDenied || (s.exactRequired && s.tainted)
                     || (!s.exactRequired && r.risk >= 0.75 && !byReference))
            && (r.recommended == Keep
                <==> || (!s.securityDenied && s.exactRequired && !s.tainted)
                     || (!s.securityDenied && !s.exactRequired && r.risk < 0.75 && r.utility >= c.keepThreshold)
                     || (free && !s.summarizable && !s.compressible && !byReference))
            && (r.recommended == Summarize
                <==> free && s.summarizable && (medium || (!s.compressible && !byReference)))
            && (r.recommended == Compress
                <==> free && s.compressible && !medium && (r.utility >= c.compressThreshold || !byReference))
            && (r.recommended == Externalize
                <==> || (!s.securityDenied && !s.exactRequired && r.risk >= 0.75 && byReference)
                     || (free && byReference && !medium && !(r.utility >= c.compressThreshold && s.compressible)))
  {
    hide Utility, Risk, Visible;
  }

  /** The one reason an item starts with, and the rest of its first row. */
  lemma InitialReasonIff(c: Config, s: Signal)
    ensures var r := InitialRow(c, s);
            && |r.reasons| == 1 && r.effective == r.recommended && r.identity == s.identity && r.input == s.tokens
            && r.utility == Utility(s) && r.risk == Risk(s) && r.visible == Visible(c, s, r.recommended)
            && (r.reasons == [SecurityDeny] <==> s.securityDenied)
            && (r.reasons == [TaintedExactRequired] <==> !s.securityDenied && s.exactRequired && s.tainted)
            && (r.reasons == [ExactRequired] <==> r.recommended == Keep && s.exactRequired)
            && (r.reasons == [HighRiskReferenceOnly] <==> r.recommended == Externalize && r.risk >= 0.75)
            && (r.reasons == [HighRiskNotExternalizable]
                <==> r.recommended == Abstain && !s.securityDenied && !s.exactRequired)
            && (r.reasons == [HighUtility]
                <==> r.recommended == Keep && !s.exactRequired && r.utility >= c.keepThreshold)
            && (r.reasons == [NoSafeTransform]
                <==> r.recommended == Keep && !s.exactRequired && r.utility < c.keepThreshold)
            && (r.reasons == [MediumUtility] <==> r.recommended == Summarize && r.utility >= c.summarizeThreshold)
            && (r.reasons == [LowUtilitySummarizable]
                <==> r.recommended == Summarize && r.utility < c.summarizeThreshold)
            && (r.reasons == [LowerUtilityCompressible]
                <==> r.recommended == Compress && r.utility >= c.compressThreshold)
            && (r.reasons == [LowUtilityCompressible] <==> r.recommended == Compress && r.utility < c.compressThreshold)
            && (r.reasons == [LowUtilityRecoverable] <==> r.recommended == Externalize && r.risk < 0.75)
  {
    hide Utility, Risk, Visible;
  }

  /** A summary shows a third of the tokens, at least 24 of them; a compression a sixth, at least 16; nothing ever shows
      more than there are. The percentages are 34 and 18, rounded up. */
  lemma VisibleIs(c: Config, s: Signal)
    ensures Visible(c, s, Keep) == s.tokens && Visible(c, s, Abstain) == 0
    ensures Visible(c, s, Externalize) == if s.tokens < c.referenceTokens then s.tokens else c.referenceTokens
    ensures var v := Visible(c, s, Summarize);
            if s.tokens <= 24 then v == s.tokens
            else v >= 24 && 100 * v >= 34 * s.tokens && (v == 24 || 100 * (v - 1) < 34 * s.tokens)
    ensures var v := Visible(c, s, Compress);
            if s.tokens <= 16 then v == s.tokens
            else v >= 16 && 100 * v >= 18 * s.tokens && (v == 16 || 100 * (v - 1) < 18 * s.tokens)
  {
  }

  /** The target is the budget's share rounded down, but never less than one token. */
  lemma TargetIs(c: Config)
    requires ValidConfig(c)
    ensures var share := c.budget as real * c.targetUtilization;
            Target(c) >= 1 && (Target(c) == 1 || Target(c) as real <= share) && share < Target(c) as real + 1.0
  {
  }

  // ---- The budget pass, step by step ----

  /** b is the next step after a that an item permits. */
  ghost predicate IsNext(s: Signal, a: Action, b: Action) {
    && !s.exactRequired && !s.securityDenied
    && match b
       case Summarize => s.summarizable && a == Keep
       case Compress => s.compressible && (a == Summarize || (a == Keep && !s.summarizable))
       case Externalize =>
         s.externalizable && s.recoverable && (a == Compress || (a == Summarize && !s.compressible)
                                               || (a == Keep && !s.compressible && !s.summarizable))
       case _ => false
  }

  lemma NextIff(s: Signal, a: Action, b: Action)
    ensures NextAction(s, a) == Some(b) <==> IsNext(s, a, b)
  {
  }

  /** Nothing more can be asked of a row. */
  ghost predicate Done(signals: Signals, r: Row) {
    r.identity in signals ==> forall b :: !IsNext(signals[r.identity], r.recommended, b)
  }

  /** One step: with the target missed, the first row in the order that has a step left takes it. The projection falls
      by what the row then shows less. */
  ghost predicate Steps(c: Config, signals: Signals, order: seq<nat>, k: nat, b: Action, s: State, t: State) {
    && s.projected > Target(c) && k < |order| && order[k] < |s.rows| && InRange(order, |s.rows|)
    && (forall j :: 0 <= j < k ==> Done(signals, s.rows[order[j]]))
    && var r := s.rows[order[k]];
       && r.identity in signals && IsNext(signals[r.identity], r.recommended, b)
       && var shown := Visible(c, signals[r.identity], b);
          && t.rows == s.rows[order[k] := r.(recommended := b, visible := shown, reasons := WithPressure(r.reasons))]
          && t.projected == if shown < r.visible then s.projected - (r.visible - shown) else s.projected
  }

  ghost predicate Stepped(c: Config, signals: Signals, order: seq<nat>, s: State, t: State) {
    exists k, b :: Steps(c, signals, order, k, b, s, t)
  }

  ghost predicate IsRun(c: Config, signals: Signals, order: seq<nat>, states: seq<State>) {
    states != [] && forall m :: 0 < m < |states| ==> Stepped(c, signals, order, states[m - 1], states[m])
  }

  /** Nothing more is asked: the target is met, or no candidate has a step left. */
  ghost predicate Ended(c: Config, signals: Signals, order: seq<nat>, n: nat, s: State) {
    || s.projected <= Target(c)
    || forall j :: 0 <= j < n && j < |order| && order[j] < |s.rows| ==> Done(signals, s.rows[order[j]])
  }

  lemma DoneIff(signals: Signals, r: Row)
    ensures Done(signals, r) <==> NextOf(signals, r).None?
  {
    hide IsNext;
    if r.identity in signals {
      var next := NextAction(signals[r.identity], r.recommended);
      forall b { NextIff(signals[r.identity], r.recommended, b); }
      if next.Some? { assert IsNext(signals[r.identity], r.recommended, next.value); }
    }
  }

  lemma OneStep(c: Config, signals: Signals, order: seq<nat>, k: nat, s: State)
    requires InRange(order, |s.rows|) && k < |order| && s.projected > Target(c)
    requires NextOf(signals, s.rows[order[k]]).Some?
    requires forall j :: 0 <= j < k ==> Done(signals, s.rows[order[j]])
    ensures Stepped(c, signals, order, s, StepDown(c, signals, s, order[k]))
  {
    hide Visible, Target, NextAction, IsNext, Done, WithPressure;
    var r := s.rows[order[k]];
    var b := NextOf(signals, r).value;
    NextIff(signals[r.identity], r.recommended, b);
    assert Steps(c, signals, order, k, b, s, StepDown(c, signals, s, order[k]));
  }

  lemma {:induction false} DegradeRuns(c: Config, signals: Signals, order: seq<nat>, k: nat, s: State)
    returns (states: seq<State>)
    requires NoDuplicates(order) && InRange(order, |s.rows|) && k < |order|
    requires forall j :: 0 <= j < k ==> Done(signals, s.rows[order[j]])
    ensures IsRun(c, signals, order, states) && states[0] == s
    ensures states[|states| - 1] == Degrade(c, signals, s, order[k])
    ensures Ended(c, signals, order, k + 1, Degrade(c, signals, s, order[k]))
    decreases 2 - Rank(s.rows[order[k]].recommended)
  {
    hide Visible, Target, Done, Stepped, WithPressure;
    DoneIff(signals, s.rows[order[k]]);
    states := [s];
    if s.projected > Target(c) && NextOf(signals, s.rows[order[k]]).Some? {
      OneStep(c, signals, order, k, s);
      var t := StepDown(c, signals, s, order[k]);
      forall j | 0 <= j < k ensures Done(signals, t.rows[order[j]]) { assert order[j] != order[k]; }
      var later := DegradeRuns(c, signals, order, k, t);
      states := [s] + later;
      JoinRuns(c, signals, order, [s], later);
    }
  }

  lemma JoinRuns(c: Config, signals: Signals, order: seq<nat>, a: seq<State>, b: seq<State>)
    requires IsRun(c, signals, order, a) && IsRun(c, signals, order, b)
    requires Stepped(c, signals, order, a[|a| - 1], b[0])
    ensures IsRun(c, signals, order, a + b)
  {
    hide Stepped;
    var states := a + b;
    forall m | 0 < m < |states| ensures Stepped(c, signals, order, states[m - 1], states[m]) {
      if m > |a| { assert states[m - 1] == b[m - 1 - |a|] && states[m] == b[m - |a|]; }
    }
  }

  lemma {:induction false} AllRuns(c: Config, signals: Signals, order: seq<nat>, n: nat, s: State)
    returns (states: seq<State>)
    requires NoDuplicates(order) && InRange(order, |s.rows|) && n <= |order|
    ensures IsRun(c, signals, order, states) && states[0] == s
    ensures states[|states| - 1] == DegradeAll(c, signals, s, order[..n])
    ensures Ended(c, signals, order, n, DegradeAll(c, signals, s, order[..n]))
  {
    hide Degrade, Target, Done, Stepped;
    if n == 0 {
      states := [s];
    } else {
      assert order[..n][..n - 1] == order[..n - 1];
      var before := AllRuns(c, signals, order, n - 1, s);
      var m := DegradeAll(c, signals, s, order[..n - 1]);
      if m.projected <= Target(c) {
        states := before;
        MetIsKept(c, signals, m, order[n - 1]);
      } else {
        var later := DegradeRuns(c, signals, order, n - 1, m);
        states := before + later[1..];
        if |later| > 1 {
          RestOfRun(c, signals, order, later);
          JoinRuns(c, signals, order, before, later[1..]);
        }
      }
    }
  }

  lemma MetIsKept(c: Config, signals: Signals, s: State, i: nat)
    requires i < |s.rows| && s.projected <= Target(c)
    ensures Degrade(c, signals, s, i) == s
  {
  }

  lemma RestOfRun(c: Config, signals: Signals, order: seq<nat>, states: seq<State>)
    requires IsRun(c, signals, order, states) && |states| > 1
    ensures IsRun(c, signals, order, states[1..]) && Stepped(c, signals, order, states[0], states[1])
  {
    hide Stepped;
    forall m | 0 < m < |states[1..]| ensures Stepped(c, signals, order, states[1..][m - 1], states[1..][m]) {
      assert states[1..][m - 1] == states[m] && states[1..][m] == states[m + 1];
    }
  }

  /** The budget pass takes single steps, always for the first candidate that has one left, and stops as soon as the
      target is met or no candidate has one. */
  lemma FitRuns(c: Config, signals: Signals, rows: seq<Row>, current: int) returns (order: seq<nat>, states: seq<State>)
    ensures IsPassOrder(signals, rows, order)
    ensures IsRun(c, signals, order, states) && states[0] == State(rows, current + TotalVisible(rows))
    ensures Ended(c, signals, order, |order|, states[|states| - 1])
    ensures Fit(c, signals, rows, current) == states[|states| - 1]
  {
    hide Target, Stepped, DegradeAll, TotalVisible, Order, IsPassOrder;
    OrderSound(signals, rows);
    PassOrderIs(signals, rows);
    order := Order(signals, rows);
    states := AllRuns(c, signals, order, |order|, State(rows, current + TotalVisible(rows)));
    assert order[..|order|] == order;
  }

  /** The candidates: rows neither abstained from, externalized nor exact, by ascending utility, then larger inputs
      first, then by identity. */
  ghost predicate IsPassOrder(signals: Signals, rows: seq<Row>, order: seq<nat>) {
    && NoDuplicates(order)
    && (forall i :: i in order ==> i < |rows|)
    && (forall i :: 0 <= i < |rows| ==>
          (i in order <==> rows[i].recommended in {Keep, Summarize, Compress} && rows[i].identity in signals
                           && !signals[rows[i].identity].exactRequired))
    && forall j, k :: 0 <= j < k < |order| && order[j] < |rows| && order[k] < |rows| ==>
         var x, y := rows[order[j]], rows[order[k]];
         || x.utility < y.utility
         || (x.utility == y.utility
             && (x.input > y.input || (x.input == y.input && NodeLe(x.identity, y.identity))))
  }

  lemma EligibleIff(signals: Signals, r: Row)
    ensures Eligible(signals, r)
       <==> (r.recommended in {Keep, Summarize, Compress} && r.identity in signals
             && !signals[r.identity].exactRequired)
  {
    match r.recommended
    case Keep =>
    case Summarize =>
    case Compress =>
    case Externalize =>
    case Abstain =>
  }

  lemma PassOrderIs(signals: Signals, rows: seq<Row>)
    ensures IsPassOrder(signals, rows, Order(signals, rows))
  {
    hide NodeLe, Order, NoDuplicates;
    OrderSound(signals, rows);
    var order := Order(signals, rows);
    forall i | i in order ensures i < |rows| { var k := IndexOf(order, i); }
    forall i | 0 <= i < |rows|
      ensures i in order <==> rows[i].recommended in {Keep, Summarize, Compress} && rows[i].identity in signals
                              && !signals[rows[i].identity].exactRequired
    {
      EligibleIff(signals, rows[i]);
    }
    forall j, k | 0 <= j < k < |order|
      ensures CandidateLe(CandidateAt(rows[order[j]], order[j]), CandidateAt(rows[order[k]], order[k])) {}
  }

  // ---- Reasons of the final rows ----

  lemma PressureOnce(x: Reason)
    requires x != BudgetPressure
    ensures WithPressure([x]) == WithPressure([x, BudgetPressure]) == [x, BudgetPressure]
  {
    var one, two, three := [x], [x] + [BudgetPressure], [x, BudgetPressure] + [BudgetPressure];
    assert one[..0] == [] && two[..1] == one && three[..2] == two == [x, BudgetPressure];
    assert Deduped(one) == [x];
    assert Deduped(two) == [x, BudgetPressure];
    assert Deduped(three) == [x, BudgetPressure];
  }

  /** The row is as it was, or names the budget next to its first reason. */
  ghost predicate Noted(before: Row, after: Row) {
    || after == before
    || (|before.reasons| == 1 && after.reasons == [before.reasons[0], BudgetPressure])
  }

  // ---- The fit and the session ----

  ghost function TokensAt(signals: seq<Signal>): int -> int {
    i => if 0 <= i < |signals| then signals[i].tokens else 0
  }

  ghost function ExactOnes(signals: seq<Signal>): set<int> {
    set i | 0 <= i < |signals| && signals[i].exactRequired && !signals[i].securityDenied
  }

  lemma {:induction false} ExactTokensAre(signals: seq<Signal>)
    ensures ExactTokens(signals) == IntSum(ExactOnes(signals), TokensAt(signals))
  {
    hide IntSum;
    if signals == [] {
      assert ExactOnes(signals) == {};
      NothingSums(TokensAt(signals));
    } else {
      var n := |signals| - 1;
      var init := signals[..n];
      ExactTokensAre(init);
      IntSumSame(ExactOnes(init), TokensAt(init), TokensAt(signals));
      if signals[n].exactRequired && !signals[n].securityDenied {
        assert ExactOnes(signals) - {n} == ExactOnes(init);
        IntSumRemove(ExactOnes(signals), TokensAt(signals), n);
      } else {
        assert ExactOnes(signals) == ExactOnes(init);
      }
    }
  }

  lemma NothingSums(f: int -> int)
    ensures IntSum({}, f) == 0
  {
  }

  /** A decision says fit exactly when the projection of the pass meets the budget and the exact items alone do. */
  lemma FitIff(c: Config, ordered: seq<Signal>, state: PolicyState)
    requires ValidConfig(c)
    ensures Decision(c, ordered, state).fit
       <==> Fit(c, ByIdentity(ordered), InitialRows(c, ordered), state.currentTokens).projected <= c.budget
            && state.currentTokens + IntSum(ExactOnes(ordered), TokensAt(ordered)) <= c.budget
  {
    hide Fit, InitialRows, SessionOf, ExactTokens, IntSum;
    ExactTokensAre(ordered);
  }

  /** Nothing forbids going on: no item is denied or abstained from, and no irreversible action is pending while
      evidence is unresolved or an item is tainted. */
  ghost predicate Clear(c: Config, ordered: seq<Signal>, state: PolicyState) {
    && (forall i :: 0 <= i < |ordered| ==> !ordered[i].securityDenied)
    && (forall i :: 0 <= i < |ordered| ==> FinalRows(c, ordered, state)[i].recommended != Abstain)
    && (state.irreversiblePending ==>
          state.unresolved == 0 && forall i :: 0 <= i < |ordered| ==> !ordered[i].tainted)
  }

  ghost predicate Pressed(c: Config, ordered: seq<Signal>, state: PolicyState) {
    Shown(c, ordered, state) as real >= c.resetThreshold * c.budget as real
  }

  lemma ClearIff(c: Config, ordered: seq<Signal>, state: PolicyState)
    ensures Clear(c, ordered, state)
       <==> (!AnyDenied(ordered) && !AnyAbstained(FinalRows(c, ordered, state))
             && !(state.irreversiblePending && (state.unresolved > 0 || AnyTainted(ordered))))
  {
    hide FinalRows;
  }

  /** A session is branched exactly when the fit holds, nothing forbids going on, drift has reached the threshold and
      branching is allowed. */
  lemma BranchIff(c: Config, ordered: seq<Signal>, state: PolicyState)
    requires ValidConfig(c)
    ensures var d := Decision(c, ordered, state);
            d.session == BranchSession
            <==> (d.fit && Clear(c, ordered, state) && state.taskDrift >= c.branchThreshold && state.branchAllowed)
  {
    hide Fit, InitialRows, TotalVisible, ExactTokens, Clear, AnyDenied, AnyTainted, AnyAbstained, ResetSafe;
    ClearIff(c, ordered, state);
  }

  /** A session goes on as it is exactly when the fit holds, nothing forbids going on, there is no drift, and either
      pressure is below the threshold or every item is recoverable but resets are not allowed. */
  lemma KeepIff(c: Config, ordered: seq<Signal>, state: PolicyState)
    requires ValidConfig(c)
    ensures var d := Decision(c, ordered, state);
            d.session == KeepSession
            <==> (&& d.fit && Clear(c, ordered, state) && state.taskDrift < c.branchThreshold
                  && (Pressed(c, ordered, state) ==>
                        !state.resetAllowed
                        && forall i :: 0 <= i < |ordered| ==> ordered[i].recoverable || ordered[i].tokens == 0))
  {
    hide Fit, InitialRows, TotalVisible, ExactTokens, Clear, AnyDenied, AnyTainted, AnyAbstained, ResetSafe;
    ClearIff(c, ordered, state);
    SafeIff(ordered);
    QuotientAtLeast(Shown(c, ordered, state) as real, c.budget as real, c.resetThreshold);
  }

  lemma SafeIff(ordered: seq<Signal>)
    ensures !AnyDenied(ordered) ==>
              (ResetSafe(ordered)
               <==> forall i :: 0 <= i < |ordered| ==> ordered[i].recoverable || ordered[i].tokens == 0)
  {
  }

  /** Which rule abstains, for every input: the first of them that applies, in the order denial, pending risk, abstained
      item, drift, pressure, budget. */
  lemma AbstainIff(c: Config, ordered: seq<Signal>, state: PolicyState)
    requires ValidConfig(c)
    ensures var d := Decision(c, ordered, state);
            var denied := exists i :: 0 <= i < |ordered| && ordered[i].securityDenied;
            var risky := state.irreversiblePending
                         && (state.unresolved > 0 || exists i :: 0 <= i < |ordered| && ordered[i].tainted);
            && (d.reason == SecurityDenyPresent <==> denied)
            && (d.reason == IrreversibleUnresolvedRisk <==> !denied && risky)
            && (d.reason == ItemPolicyAbstain
                <==> !denied && !risky
                     && exists i :: 0 <= i < |ordered| && FinalRows(c, ordered, state)[i].recommended == Abstain)
    ensures var d := Decision(c, ordered, state);
            var lossy := exists i :: 0 <= i < |ordered| && !ordered[i].recoverable && ordered[i].tokens > 0;
            var drifted := state.taskDrift >= c.branchThreshold;
            && (d.reason == TaskDriftBranchForbidden
                <==> Clear(c, ordered, state) && drifted && !state.branchAllowed)
            && (d.reason == ResetWouldLoseContext
                <==> Clear(c, ordered, state) && !drifted && Pressed(c, ordered, state) && lossy)
            && (d.reason == BudgetNotSatisfiable
                <==> !d.fit && Clear(c, ordered, state)
                     && (drifted ==> state.branchAllowed) && (!drifted && Pressed(c, ordered, state) ==> !lossy))
    ensures var d := Decision(c, ordered, state);
            d.session == AbstainSession
            <==> d.reason in {SecurityDenyPresent, IrreversibleUnresolvedRisk, ItemPolicyAbstain,
                              TaskDriftBranchForbidden, ResetWouldLoseContext, BudgetNotSatisfiable}
  {
    hide Fit, InitialRows, TotalVisible, ExactTokens, FinalRows, Clear, ResetSafe, Shown, Decision;
    ClearIff(c, ordered, state);
    SafeIff(ordered);
    ReasonsInOrder(c, ordered, state);
    hide Pressed;
  }

  lemma ReasonsInOrder(c: Config, ordered: seq<Signal>, state: PolicyState)
    requires ValidConfig(c)
    ensures var d := Decision(c, ordered, state);
            var denied, abstained := AnyDenied(ordered), AnyAbstained(FinalRows(c, ordered, state));
            var risky := state.irreversiblePending && (state.unresolved > 0 || AnyTainted(ordered));
            var clear, drifted := !denied && !risky && !abstained, state.taskDrift >= c.branchThreshold;
            var pressed, safe := Pressed(c, ordered, state), ResetSafe(ordered);
            && (d.reason == SecurityDenyPresent <==> denied)
            && (d.reason == IrreversibleUnresolvedRisk <==> !denied && risky)
            && (d.reason == ItemPolicyAbstain <==> !denied && !risky && abstained)
            && (d.reason == TaskDriftBranchForbidden <==> clear && drifted && !state.branchAllowed)
            && (d.reason == ResetWouldLoseContext <==> clear && !drifted && pressed && !safe)
            && (d.reason == BudgetNotSatisfiable
                <==> !d.fit && clear && (drifted ==> state.branchAllowed) && (!drifted && pressed ==> safe))
            && (d.session == AbstainSession
                <==> d.reason in {SecurityDenyPresent, IrreversibleUnresolvedRisk, ItemPolicyAbstain,
                                  TaskDriftBranchForbidden, ResetWouldLoseContext, BudgetNotSatisfiable})
  {
    hide Fit, InitialRows, TotalVisible, ExactTokens, AnyDenied, AnyTainted, AnyAbstained, ResetSafe;
    QuotientAtLeast(Shown(c, ordered, state) as real, c.budget as real, c.resetThreshold);
  }

  // ---- The reported rows ----

  lemma {:induction false} DegradeNotes(c: Config, signals: Signals, s: State, i: nat, before: Row)
    requires i < |s.rows| && |before.reasons| == 1 && before.reasons[0] != BudgetPressure
    requires Noted(before, s.rows[i])
    ensures |Degrade(c, signals, s, i).rows| == |s.rows| && Noted(before, Degrade(c, signals, s, i).rows[i])
    ensures forall k :: 0 <= k < |s.rows| && k != i ==> Degrade(c, signals, s, i).rows[k] == s.rows[k]
    decreases 2 - Rank(s.rows[i].recommended)
  {
    hide Visible, Target, WithPressure;
    if s.projected > Target(c) && NextOf(signals, s.rows[i]).Some? {
      assert before.reasons == [before.reasons[0]];
      PressureOnce(before.reasons[0]);
      DegradeNotes(c, signals, StepDown(c, signals, s, i), i, before);
    }
  }

  lemma {:induction false} PassNotes(c: Config, signals: Signals, s: State, order: seq<nat>, i: nat)
    requires InRange(order, |s.rows|) && i < |s.rows|
    requires forall k :: 0 <= k < |s.rows| ==> |s.rows[k].reasons| == 1 && s.rows[k].reasons[0] != BudgetPressure
    ensures Noted(s.rows[i], DegradeAll(c, signals, s, order).rows[i])
  {
    hide Degrade, Noted;
    if order == [] {
      SameNoted(s.rows[i]);
    } else {
      var n := |order| - 1;
      PassNotes(c, signals, s, order[..n], i);
      PassNotes(c, signals, s, order[..n], order[n]);
      DegradeNotes(c, signals, DegradeAll(c, signals, s, order[..n]), order[n], s.rows[order[n]]);
    }
  }

  lemma SameNoted(r: Row)
    ensures Noted(r, r)
  {
  }

  /** What is reported: the rows after the pass, whose reasons gain the budget's at most once, and which take effect
      outside shadow mode alone. */
  lemma ReportedRows(c: Config, ordered: seq<Signal>, state: PolicyState, i: nat)
    requires ValidConfig(c) && i < |ordered|
    ensures var d, start := Decision(c, ordered, state), InitialRow(c, ordered[i]);
            && |d.rows| == |ordered| && |start.reasons| == 1
            && (d.rows[i].reasons == start.reasons || d.rows[i].reasons == start.reasons + [BudgetPressure])
            && (!state.shadowMode ==> d.rows == FinalRows(c, ordered, state) && d.effectiveSession == d.session)
  {
    hide Degrade, DegradeAll, Order, Utility, Risk, Visible, TotalVisible, SessionOf, ExactTokens;
    var signals, before := ByIdentity(ordered), InitialRows(c, ordered);
    OrderSound(signals, before);
    PassNotes(c, signals, State(before, state.currentTokens + TotalVisible(before)), Order(signals, before), i);
    assert before[i] == InitialRow(c, ordered[i]);
  }
}
