/** When a reported budget fit can be wrong: the exact condition on the configuration. */
module AdaptiveOvershoot {
  import opened Ordering
  import opened Reachability
  import opened AdaptivePolicy
  import opened AdaptiveEvaluation

  // ---- Computing short passes ----

  lemma OneStep(c: Config, signals: Signals, s: State, i: nat)
    requires i < |s.rows| && s.projected > Target(c) && NextOf(signals, s.rows[i]).Some?
    ensures Degrade(c, signals, s, i) == Degrade(c, signals, StepDown(c, signals, s, i), i)
  {
  }

  lemma NoStep(c: Config, signals: Signals, s: State, i: nat)
    requires i < |s.rows| && (s.projected <= Target(c) || NextOf(signals, s.rows[i]).None?)
    ensures Degrade(c, signals, s, i) == s
  {
  }

  lemma OneRowFit(c: Config, signals: Signals, a: Row, current: int)
    requires Eligible(signals, a)
    ensures Fit(c, signals, [a], current) == Degrade(c, signals, State([a], current + a.visible), 0)
  {
    hide Degrade, CandidateLe, Eligible;
    assert [a][..0] == [];
    assert TotalVisible([a][..0]) == 0 && Listed(signals, [a][..0]) == [];
    var listed := [CandidateAt(a, 0)];
    assert Listed(signals, [a]) == listed;
    assert listed[1..] == [] && Sort(CandidateLe, listed[1..]) == [];
    assert Sort(CandidateLe, listed) == listed;
    assert listed[1..] == [] && Indices(listed[1..]) == [];
    assert Order(signals, [a]) == [0];
    assert [0][..0] == [];
    var s := State([a], current + a.visible);
    assert DegradeAll(c, signals, s, [0][..0]) == s;
  }

  lemma SortTwo(x: Candidate, y: Candidate)
    requires CandidateLe(x, y)
    ensures Sort(CandidateLe, [x, y]) == [x, y]
  {
    hide CandidateLe;
    assert [x, y][1..] == [y] && [y][1..] == [];
    assert Sort(CandidateLe, [y][1..]) == [];
    assert Sort(CandidateLe, [y]) == [y];
  }

  lemma ListTwo(signals: Signals, a: Row, b: Row)
    requires Eligible(signals, a) && Eligible(signals, b)
    ensures Listed(signals, [a, b]) == [CandidateAt(a, 0), CandidateAt(b, 1)]
  {
    hide Eligible;
    assert [a, b][..1] == [a] && [a][..0] == [];
    assert Listed(signals, [a][..0]) == [];
    assert Listed(signals, [a]) == [CandidateAt(a, 0)];
  }

  lemma TwoRowOrder(signals: Signals, a: Row, b: Row)
    requires Eligible(signals, a) && Eligible(signals, b) && CandidateLe(CandidateAt(a, 0), CandidateAt(b, 1))
    ensures Order(signals, [a, b]) == [0, 1]
  {
    hide CandidateLe, Eligible, Listed, Sort;
    var x, y := CandidateAt(a, 0), CandidateAt(b, 1);
    ListTwo(signals, a, b);
    SortTwo(x, y);
    assert [x, y][1..] == [y] && [y][1..] == [];
    assert Indices([y][1..]) == [];
    assert Indices([y]) == [1];
  }

  lemma TwoRowFit(c: Config, signals: Signals, a: Row, b: Row, current: int)
    requires Eligible(signals, a) && Eligible(signals, b) && CandidateLe(CandidateAt(a, 0), CandidateAt(b, 1))
    ensures var m := Degrade(c, signals, State([a, b], current + a.visible + b.visible), 0);
            |m.rows| == 2 && Fit(c, signals, [a, b], current) == Degrade(c, signals, m, 1)
  {
    hide Degrade, Order, Eligible, CandidateLe;
    TwoRowOrder(signals, a, b);
    TwoRowTotal(a, b);
    var s := State([a, b], current + a.visible + b.visible);
    KeepsLength(c, signals, s, 0);
    assert [0, 1][..1] == [0] && [0][..0] == [];
    assert DegradeAll(c, signals, s, [0][..0]) == s;
    assert DegradeAll(c, signals, s, [0]) == Degrade(c, signals, s, 0);
  }

  lemma TwoRowTotal(a: Row, b: Row)
    ensures TotalVisible([a, b]) == a.visible + b.visible
  {
    assert [a, b][..1] == [a] && [a][..0] == [];
    assert TotalVisible([a][..0]) == 0;
  }

  /** One step of the first or of the second of two rows. */
  lemma TwoRowStep(c: Config, signals: Signals, a: Row, b: Row, projected: int, next: Action)
    requires a.identity in signals && NextOf(signals, a) == Some(next)
    ensures StepDown(c, signals, State([a, b], projected), 0)
         == State([StepRow(c, signals[a.identity], a, next), b],
                  projected - Max(0, a.visible - Visible(c, signals[a.identity], next)))
  {
    hide Visible;
    assert [a, b][0 := StepRow(c, signals[a.identity], a, next)] == [StepRow(c, signals[a.identity], a, next), b];
  }

  lemma SecondRowStep(c: Config, signals: Signals, a: Row, b: Row, projected: int, next: Action)
    requires b.identity in signals && NextOf(signals, b) == Some(next)
    ensures StepDown(c, signals, State([a, b], projected), 1)
         == State([a, StepRow(c, signals[b.identity], b, next)],
                  projected - Max(0, b.visible - Visible(c, signals[b.identity], next)))
  {
    hide Visible;
    assert [a, b][1 := StepRow(c, signals[b.identity], b, next)] == [a, StepRow(c, signals[b.identity], b, next)];
  }

  // ---- Any rows that agree with their signals ----

  /** A fit reported for these rows is one. */
  ghost predicate FitIsTrue(c: Config, signals: Signals, rows: seq<Row>, current: int) {
    (RowsAgree(c, signals, rows) && Fit(c, signals, rows, current).projected <= c.budget)
      ==> current + TotalVisible(Fit(c, signals, rows, current).rows) <= c.budget
  }

  /** An item without any exact, tainted or denied part, fully trusted, fresh and recoverable, which may be
      compressed. */
  function Piece(name: string, tokens: nat, relevance: real, summarizable: bool, externalizable: bool): Signal {
    Signal(Node(name), tokens, relevance, 1.0, 1.0, true, false, false, false, summarizable, true, externalizable)
  }

  function TwoPieces(a: Signal, b: Signal): Signals { map[a.identity := a, b.identity := b] }

  /** Over all rows that agree with their signals a reported fit is always one exactly when a reference takes at most
      16 tokens. */
  lemma FitWithinBudgetIff(c: Config)
    requires ValidConfig(c)
    ensures c.referenceTokens <= 16 <==> forall signals, rows, current :: FitIsTrue(c, signals, rows, current)
  {
    hide RowsAgree, Fit, Order, Externalized;
    if c.referenceTokens <= 16 {
      forall signals, rows, current ensures FitIsTrue(c, signals, rows, current) {
        if RowsAgree(c, signals, rows) {
          FitKeeps(c, signals, rows, current);
          assert Excess(c) == 0;
        }
      }
    } else {
      var signals, rows := RaisedRow(c);
      assert !FitIsTrue(c, signals, rows, c.budget - 34);
    }
  }

  /** The first row is raised from 16 tokens to 17 unnoticed, and what the second saves brings the projection to the
      budget. */
  lemma RaisedRow(c: Config) returns (signals: Signals, rows: seq<Row>)
    requires ValidConfig(c) && c.referenceTokens > 16
    ensures RowsAgree(c, signals, rows) && !FitIsTrue(c, signals, rows, c.budget - 34)
  {
    hide Target, Degrade, Fit, CandidateLe;
    var x, y := Piece("a", 17, 0.0, false, true), Piece("b", 100, 0.0, false, false);
    signals := TwoPieces(x, y);
    assert x.identity.id != y.identity.id;
    var a := Row(x.identity, Compress, Compress, 0.0, 0.0, 17, 16, []);
    var b := Row(y.identity, Keep, Keep, 1.0, 0.0, 100, 100, []);
    rows := [a, b];
    assert CandidateLe(CandidateAt(a, 0), CandidateAt(b, 1)) by { CheaperFirst(a, b); }
    TwoRowFit(c, signals, a, b, c.budget - 34);
    TargetWithinBudget(c);
    var s := State(rows, c.budget + 82);
    OneStep(c, signals, s, 0);
    TwoRowStep(c, signals, a, b, c.budget + 82, Externalize);
    var a' := StepRow(c, x, a, Externalize);
    var m := State([a', b], c.budget + 82);
    NoStep(c, signals, m, 0);
    OneStep(c, signals, m, 1);
    SecondRowStep(c, signals, a', b, c.budget + 82, Compress);
    var b' := StepRow(c, y, b, Compress);
    NoStep(c, signals, State([a', b'], c.budget), 1);
    TwoRowTotal(a', b');
  }

  lemma CheaperFirst(a: Row, b: Row)
    requires a.utility < b.utility
    ensures CandidateLe(CandidateAt(a, 0), CandidateAt(b, 1))
  {
  }

  // ---- What the scores of evaluated items can be ----

  /** The utility of a recoverable item that is as relevant, trusted and fresh as can be, and the next lower score. */
  const TOP_UTILITY: real := 0.88
  const NEXT_UTILITY: real := 0.879999

  /** The relevance that costs one millionth of utility. */
  const NEARLY_RELEVANT: real := 1.0 - 1.0 / 420000.0

  lemma ExactMillionths(n: int)
    ensures Millionths(n as real / 1000000.0) == n as real / 1000000.0
  {
    var y := n as real / 1000000.0 * 1000000.0;
    assert y == n as real;
    assert y.Floor == n;
  }

  lemma PieceScores(name: string, tokens: nat, summarizable: bool, externalizable: bool)
    ensures Utility(Piece(name, tokens, 1.0, summarizable, externalizable)) == TOP_UTILITY
    ensures Utility(Piece(name, tokens, NEARLY_RELEVANT, summarizable, externalizable)) == NEXT_UTILITY
    ensures Risk(Piece(name, tokens, 1.0, summarizable, externalizable)) == 0.0
    ensures Risk(Piece(name, tokens, NEARLY_RELEVANT, summarizable, externalizable)) == 0.0
  {
    hide Millionths;
    ExactMillionths(880000);
    ExactMillionths(879999);
    ExactMillionths(0);
    assert 0.42 * NEARLY_RELEVANT == 0.419999;
  }

  /** Scores are whole millionths, and without the bonus for exact items none is above the top utility. */
  lemma UtilityScale(s: Signal) returns (n: int)
    requires Unit(s.relevance) && Unit(s.trust) && Unit(s.freshness) && !s.exactRequired
    ensures Utility(s) == InMillionths(n) && n <= 880000
  {
    hide Millionths;
    var x := Clamp(0.42 * s.relevance + 0.24 * s.trust + 0.14 * s.freshness + 0.12 * Bonus(s.exactRequired)
                   + 0.08 * Bonus(s.recoverable));
    assert x <= TOP_UTILITY;
    n := MillionthsBelow(x);
  }

  lemma MillionthsBelow(x: real) returns (n: int)
    requires x <= TOP_UTILITY
    ensures Millionths(x) == n as real / 1000000.0 && n <= 880000
  {
    var y := x * 1000000.0;
    var below := y.Floor;
    var part := y - below as real;
    assert y <= 880000.0;
    n := if part < 0.5 || (part == 0.5 && below % 2 == 0) then below else below + 1;
  }

  // ---- Evaluations that go wrong ----

  /** Signals that an evaluation accepts, in the order it puts them in. */
  ghost predicate Admissible(ordered: seq<Signal>) {
    && DistinctIdentities(ordered) && SortedBy(SignalLe, ordered)
    && forall i :: 0 <= i < |ordered| ==>
        Unit(ordered[i].relevance) && Unit(ordered[i].trust) && Unit(ordered[i].freshness)
  }

  /** No drift, nothing pending, everything allowed. */
  function Calm(current: nat): PolicyState { PolicyState(current, 0, false, 0.0, true, true, false) }

  predicate Plain(s: Signal) { !s.exactRequired && !s.securityDenied && s.recoverable }

  lemma {:induction false} NoExactTokens(ordered: seq<Signal>)
    requires forall i :: 0 <= i < |ordered| ==> Plain(ordered[i])
    ensures ExactTokens(ordered) == 0
  {
    if ordered != [] { NoExactTokens(ordered[..|ordered| - 1]); }
  }

  /** A pass over plain items that overshoots makes an evaluation that overshoots and lets the session go on. */
  lemma OvershootFrom(c: Config, ordered: seq<Signal>, current: nat, t: State)
    requires ValidConfig(c) && forall i :: 0 <= i < |ordered| ==> Plain(ordered[i])
    requires t == Fit(c, ByIdentity(ordered), InitialRows(c, ordered), current) && current <= c.budget
    requires t.projected <= c.budget < current + TotalVisible(t.rows)
    requires forall i :: 0 <= i < |t.rows| ==> t.rows[i].recommended != Abstain
    ensures var d := Decision(c, ordered, Calm(current));
            d.fit && d.session != AbstainSession && Shown(c, ordered, Calm(current)) > c.budget
  {
    hide Fit, InitialRows, ByIdentity, ExactTokens, TotalVisible;
    NoExactTokens(ordered);
  }

  /** The configurations under which an evaluation can report a fit that is not one: a reference is longer than what
      compressing leaves, a recoverable item can start out above EXTERNALIZE, and besides this either the target lies
      below the budget, or an item can start out above COMPRESS, or two utilities are left for items that start there
      and the budget has room for both. */
  predicate CanOvershoot(c: Config) {
    && c.referenceTokens > 16 && c.compressThreshold <= TOP_UTILITY
    && (c.targetUtilization < 1.0 || c.summarizeThreshold <= TOP_UTILITY
        || (c.compressThreshold <= NEXT_UTILITY && c.referenceTokens + 16 <= c.budget))
  }

  lemma TargetBelow(c: Config)
    requires ValidConfig(c) && c.targetUtilization < 1.0
    ensures Target(c) < c.budget
  {
    StrictlyScaledDown(c.budget as real, c.targetUtilization);
    FloorUnder(c.budget as real * c.targetUtilization, c.budget);
  }

  lemma StrictlyScaledDown(b: real, u: real)
    requires b > 0.0 && u < 1.0
    ensures b * u < b
  {
    assert b * (1.0 - u) > 0.0;
    assert b * (1.0 - u) == b - b * u;
  }

  lemma FloorUnder(x: real, n: int)
    requires x < n as real
    ensures x.Floor < n
  {
  }

  lemma ByIdentityOne(x: Signal)
    ensures ByIdentity([x]) == map[x.identity := x]
  {
    assert [x][..0] == [];
    assert ByIdentity([x][..0]) == map[];
  }

  lemma ByIdentityTwo(x: Signal, y: Signal)
    requires x.identity != y.identity
    ensures ByIdentity([x, y]) == TwoPieces(x, y)
  {
    ByIdentityOne(x);
    assert [x, y][..1] == [x];
  }

  lemma NamesInOrder()
    ensures NodeLe(Node("a"), Node("b")) && Node("a") != Node("b")
  {
    assert "a"[0] == 'a' && "b"[0] == 'b';
    assert CharLe('a', 'b') && 'a' != 'b';
    assert SeqLe(CharLe, "a", "b");
  }

  /** Below the budget there is room for one item to grow: 17 tokens compressed to 16 and then referred to by 17. */
  lemma Alone(c: Config) returns (ordered: seq<Signal>, current: nat)
    requires ValidConfig(c) && c.referenceTokens > 16 && c.compressThreshold <= TOP_UTILITY && c.targetUtilization < 1.0
    ensures Admissible(ordered)
    ensures var d := Decision(c, ordered, Calm(current));
            d.fit && d.session != AbstainSession && Shown(c, ordered, Calm(current)) > c.budget
  {
    hide Target, Degrade, Fit, Utility, Risk, Decision, Shown, TotalVisible, ByIdentity;
    var x := Piece("a", 17, 1.0, false, true);
    PieceScores("a", 17, false, true);
    ordered, current := [x], c.budget - 16;
    ByIdentityOne(x);
    var signals := ByIdentity(ordered);
    var a := InitialRow(c, x);
    assert InitialRows(c, ordered) == [a];
    TargetBelow(c);
    OneRowFit(c, signals, a, current);
    var s := State([a], current + a.visible);
    var t := AloneSteps(c, signals, x, s);
    OvershootFrom(c, ordered, current, t);
  }

  lemma AloneSteps(c: Config, signals: Signals, x: Signal, s: State) returns (t: State)
    requires x == Piece("a", 17, 1.0, false, true) && x.identity in signals && signals[x.identity] == x
    requires c.referenceTokens > 16 && Target(c) < c.budget
    requires |s.rows| == 1 && s.rows[0].identity == x.identity && s.rows[0].recommended in {Keep, Compress}
    requires s.rows[0].visible == Visible(c, x, s.rows[0].recommended)
    requires s.projected == c.budget - 16 + s.rows[0].visible
    ensures t == Degrade(c, signals, s, 0) && |t.rows| == 1 && t.rows[0].recommended == Externalize
    ensures t.projected == c.budget && TotalVisible(t.rows) == 17
    decreases -Rank(s.rows[0].recommended) + 2
  {
    hide Target, Degrade;
    OneStep(c, signals, s, 0);
    var m := StepDown(c, signals, s, 0);
    if s.rows[0].recommended == Keep {
      t := AloneSteps(c, signals, x, m);
    } else {
      t := m;
      NoStep(c, signals, t, 0);
      assert t.rows[..0] == [] && TotalVisible(t.rows[..0]) == 0;
    }
  }

  /** The pass over two plain items, as the final state of two rows. */
  lemma PairOvershoots(c: Config, x: Signal, y: Signal, current: nat, m: State, t: State)
    requires ValidConfig(c) && x.identity == Node("a") && y.identity == Node("b") && current <= c.budget
    requires Plain(x) && Plain(y) && Unit(x.relevance) && Unit(x.trust) && Unit(x.freshness)
    requires Unit(y.relevance) && Unit(y.trust) && Unit(y.freshness)
    requires var a, b := InitialRow(c, x), InitialRow(c, y);
             && Eligible(TwoPieces(x, y), a) && Eligible(TwoPieces(x, y), b)
                && CandidateLe(CandidateAt(a, 0), CandidateAt(b, 1))
             && m == Degrade(c, TwoPieces(x, y), State([a, b], current + a.visible + b.visible), 0)
    requires |m.rows| == 2 && t == Degrade(c, TwoPieces(x, y), m, 1) && |t.rows| == 2
    requires t.projected <= c.budget < current + t.rows[0].visible + t.rows[1].visible
    requires t.rows[0].recommended != Abstain && t.rows[1].recommended != Abstain
    ensures Admissible([x, y])
    ensures var d := Decision(c, [x, y], Calm(current));
            d.fit && d.session != AbstainSession && Shown(c, [x, y], Calm(current)) > c.budget
  {
    hide Degrade, Fit, Decision, Shown, InitialRow, Eligible, CandidateLe, TotalVisible;
    NamesInOrder();
    ByIdentityTwo(x, y);
    var a, b := InitialRow(c, x), InitialRow(c, y);
    assert InitialRows(c, [x, y]) == [a, b];
    TwoRowFit(c, TwoPieces(x, y), a, b, current);
    TwoRowTotal(t.rows[0], t.rows[1]);
    assert t.rows == [t.rows[0], t.rows[1]];
    OvershootFrom(c, [x, y], current, t);
  }

  /** The first of two rows moves down to EXTERNALIZE: from KEEP by way of COMPRESS, from COMPRESS at once. */
  lemma FirstOfTwo(c: Config, signals: Signals, x: Signal, a: Row, b: Row, projected: int) returns (a': Row)
    requires a.identity in signals && signals[a.identity] == x && x.compressible && !x.summarizable
    requires x.externalizable && Plain(x)
    requires a.recommended in {Keep, Compress} && a.visible == Visible(c, x, a.recommended)
    requires Visible(c, x, Compress) <= Visible(c, x, Externalize)
    requires projected - (a.visible - Visible(c, x, Compress)) > Target(c)
    ensures Degrade(c, signals, State([a, b], projected), 0)
         == State([a', b], projected - (a.visible - Visible(c, x, Compress)))
    ensures a'.recommended == Externalize && a'.visible == Visible(c, x, Externalize)
    decreases 2 - Rank(a.recommended)
  {
    hide Target, Degrade;
    hide Visible;
    CompressedFits(c, x);
    var s := State([a, b], projected);
    OneStep(c, signals, s, 0);
    if a.recommended == Keep {
      TwoRowStep(c, signals, a, b, projected, Compress);
      a' := FirstOfTwo(c, signals, x, StepRow(c, x, a, Compress), b, projected - (a.visible - Visible(c, x, Compress)));
    } else {
      TwoRowStep(c, signals, a, b, projected, Externalize);
      a' := StepRow(c, x, a, Externalize);
      NoStep(c, signals, State([a', b], projected), 0);
    }
  }

  lemma CompressedFits(c: Config, x: Signal)
    ensures Visible(c, x, Compress) <= Visible(c, x, Keep)
  {
  }

  lemma TargetIsBudget(c: Config)
    requires ValidConfig(c) && c.targetUtilization == 1.0
    ensures Target(c) == c.budget
  {
    assert c.budget as real * 1.0 == c.budget as real;
  }

  /** The second of two rows is compressed, by way of SUMMARIZE if it was kept. */
  lemma SecondCompressed(c: Config, signals: Signals, y: Signal, a: Row, b: Row, projected: int) returns (b': Row)
    requires b.identity in signals && signals[b.identity] == y && y.compressible && y.summarizable && Plain(y)
    requires b.recommended in {Keep, Summarize} && b.visible == Visible(c, y, b.recommended)
    requires Visible(c, y, Compress) < Visible(c, y, Summarize)
    requires projected == Target(c) + b.visible - Visible(c, y, Compress)
    ensures Degrade(c, signals, State([a, b], projected), 1) == State([a, b'], Target(c))
    ensures b'.recommended == Compress && b'.visible == Visible(c, y, Compress)
    decreases 2 - Rank(b.recommended)
  {
    hide Target, Degrade, Visible;
    SummarizedFits(c, y);
    OneStep(c, signals, State([a, b], projected), 1);
    if b.recommended == Keep {
      SecondRowStep(c, signals, a, b, projected, Summarize);
      b' := SecondCompressed(c, signals, y, a, StepRow(c, y, b, Summarize),
                             projected - (b.visible - Visible(c, y, Summarize)));
    } else {
      SecondRowStep(c, signals, a, b, projected, Compress);
      b' := StepRow(c, y, b, Compress);
      NoStep(c, signals, State([a, b'], Target(c)), 1);
    }
  }

  lemma SummarizedFits(c: Config, y: Signal)
    ensures Visible(c, y, Summarize) <= Visible(c, y, Keep)
  {
  }

  /** At the budget: the first item grows while the second still has to be compressed. */
  lemma Compressed(c: Config) returns (ordered: seq<Signal>, current: nat)
    requires ValidConfig(c) && c.referenceTokens > 16 && c.targetUtilization == 1.0
    requires c.summarizeThreshold <= TOP_UTILITY
    ensures Admissible(ordered)
    ensures var d := Decision(c, ordered, Calm(current));
            d.fit && d.session != AbstainSession && Shown(c, ordered, Calm(current)) > c.budget
  {
    hide Target, Degrade, Utility, Risk, Decision, Shown, CandidateLe;
    var x, y := Piece("a", 88, 1.0, false, true), Piece("b", 88, 1.0, true, false);
    PieceScores("a", 88, false, true);
    PieceScores("b", 88, true, false);
    NamesInOrder();
    TargetIsBudget(c);
    current := c.budget - 32;
    var signals, a, b := TwoPieces(x, y), InitialRow(c, x), InitialRow(c, y);
    SameUtilityOrder(a, b);
    var projected := current + a.visible + b.visible;
    var a' := FirstOfTwo(c, signals, x, a, b, projected);
    var m := State([a', b], projected - (a.visible - 16));
    var b' := SecondCompressed(c, signals, y, a', b, m.projected);
    ordered := [x, y];
    PairOvershoots(c, x, y, current, m, State([a', b'], c.budget));
  }

  lemma SameUtilityOrder(a: Row, b: Row)
    requires a.utility == b.utility && (a.input > b.input || (a.input == b.input && NodeLe(a.identity, b.identity)))
    ensures CandidateLe(CandidateAt(a, 0), CandidateAt(b, 1))
  {
    hide NodeLe;
  }

  /** At the budget with everything compressed: a small item of lower utility grows before a large one of higher
      utility is referred to instead of compressed. */
  lemma Staggered(c: Config) returns (ordered: seq<Signal>, current: nat)
    requires ValidConfig(c) && c.referenceTokens > 16 && c.targetUtilization == 1.0
    requires c.summarizeThreshold > TOP_UTILITY
    requires c.compressThreshold <= NEXT_UTILITY && c.referenceTokens + 16 <= c.budget
    ensures Admissible(ordered)
    ensures var d := Decision(c, ordered, Calm(current));
            d.fit && d.session != AbstainSession && Shown(c, ordered, Calm(current)) > c.budget
  {
    hide Target, Degrade, Utility, Risk, Decision, Shown, CandidateLe;
    var large := 6 * (c.referenceTokens + 1);
    var x, y := Piece("a", 17, NEARLY_RELEVANT, false, true), Piece("b", large, 1.0, false, true);
    PieceScores("a", 17, false, true);
    PieceScores("b", large, false, true);
    NamesInOrder();
    TargetIsBudget(c);
    LargeCompressed(c, y);
    current := c.budget - 16 - c.referenceTokens;
    var signals, a, b := TwoPieces(x, y), InitialRow(c, x), InitialRow(c, y);
    CheaperFirst(a, b);
    var projected := current + 16 + b.visible;
    var a' := FirstOfTwo(c, signals, x, a, b, projected);
    OneStep(c, signals, State([a', b], projected), 1);
    SecondRowStep(c, signals, a', b, projected, Externalize);
    var b' := StepRow(c, y, b, Externalize);
    NoStep(c, signals, State([a', b'], c.budget), 1);
    ordered := [x, y];
    PairOvershoots(c, x, y, current, State([a', b], projected), State([a', b'], c.budget));
  }

  lemma LargeCompressed(c: Config, y: Signal)
    requires c.referenceTokens > 16 && y.tokens == 6 * (c.referenceTokens + 1)
    ensures Visible(c, y, Compress) > c.referenceTokens && Visible(c, y, Externalize) == c.referenceTokens
  {
  }

  /** Whenever the configuration allows it, some evaluation reports a fit, lets the session go on, and shows more than
      the budget. */
  lemma Overshoot(c: Config) returns (ordered: seq<Signal>, state: PolicyState)
    requires ValidConfig(c) && CanOvershoot(c)
    ensures Admissible(ordered)
    ensures var d := Decision(c, ordered, state);
            d.fit && d.session != AbstainSession && Shown(c, ordered, state) > c.budget
  {
    hide Decision, Shown, Admissible;
    var current;
    if c.targetUtilization < 1.0 {
      ordered, current := Alone(c);
    } else if c.summarizeThreshold <= TOP_UTILITY {
      ordered, current := Compressed(c);
    } else {
      ordered, current := Staggered(c);
    }
    state := Calm(current);
  }

  // ---- Configurations under which nothing goes wrong ----

  lemma {:induction false} NoneExternalized(rows: seq<Row>, order: seq<nat>)
    requires InRange(order, |rows|) && forall k :: 0 <= k < |order| ==> rows[order[k]].recommended != Externalize
    ensures Externalized(rows, order) == 0
  {
    if order != [] { NoneExternalized(rows, order[..|order| - 1]); }
  }

  lemma NeverEligible(c: Config, signals: Signals, s: Signal)
    requires Unit(s.relevance) && Unit(s.trust) && Unit(s.freshness) && s.identity in signals
    requires signals[s.identity] == s
    requires ValidConfig(c) && c.compressThreshold > TOP_UTILITY && Allows(s, Externalize)
    ensures !Eligible(signals, InitialRow(c, s))
  {
    hide Utility, Risk, Visible;
    if !s.exactRequired { var n := UtilityScale(s); }
  }

  /** With every threshold above the top utility, whatever could be referred to is so from the start. */
  lemma HighThresholdsFit(c: Config, ordered: seq<Signal>, state: PolicyState)
    requires ValidConfig(c) && c.compressThreshold > TOP_UTILITY && Admissible(ordered)
    requires Decision(c, ordered, state).fit
    ensures Shown(c, ordered, state) <= c.budget
  {
    hide Fit, InitialRow, RowAgrees, Visible, Excess, Externalized, TotalVisible, Eligible, SortedBy,
        DistinctIdentities, ExactTokens, SessionOf,
      ByIdentity, Order, PassState;
    var signals, before := ByIdentity(ordered), InitialRows(c, ordered);
    InitialRowsAgree(c, ordered);
    ByIdentityFinds(ordered);
    FitKeeps(c, signals, before, state.currentTokens);
    OrderSound(signals, before);
    var t, order := Fit(c, signals, before, state.currentTokens), Order(signals, before);
    forall k | 0 <= k < |order| ensures t.rows[order[k]].recommended != Externalize {
      var i := order[k];
      assert before[i] == InitialRow(c, ordered[i]);
      SameAndAgree(c, signals, before, order, t, i);
      NotExternalized(c, signals, ordered[i], t.rows[i]);
    }
    NoneExternalized(t.rows, order);
  }

  lemma NotExternalized(c: Config, signals: Signals, s: Signal, r: Row)
    requires Unit(s.relevance) && Unit(s.trust) && Unit(s.freshness) && s.identity in signals
    requires signals[s.identity] == s
    requires ValidConfig(c) && c.compressThreshold > TOP_UTILITY && Eligible(signals, InitialRow(c, s))
    requires RowAgrees(c, signals, r) && r.identity == InitialRow(c, s).identity
    ensures r.recommended != Externalize
  {
    hide Utility, Risk, Visible, InitialAction, Eligible;
    if r.recommended == Externalize { NeverEligible(c, signals, s); }
  }

  // ---- The remaining corner: the target is the budget, and what can move starts out compressed ----

  function InMillionths(n: int): real { n as real / 1000000.0 }

  ghost predicate IsScore(x: real) {
    exists n: int :: x == InMillionths(n) && n <= 880000
  }

  /** A row that can still move has one step left, from COMPRESS to EXTERNALIZE. */
  ghost predicate OneStepLeft(c: Config, signals: Signals, r: Row) {
    r.recommended == Compress && NextOf(signals, r) == Some(Externalize) && c.compressThreshold <= r.utility
        && IsScore(r.utility)
  }

  ghost predicate InCorner(c: Config, signals: Signals, r: Row) {
    NextOf(signals, r).None? || OneStepLeft(c, signals, r)
  }

  /** The step makes the row more visible, or less. */
  ghost predicate Rising(c: Config, signals: Signals, r: Row) {
    OneStepLeft(c, signals, r) && r.visible < Visible(c, signals[r.identity], Externalize)
  }

  ghost predicate Falling(c: Config, signals: Signals, r: Row) {
    OneStepLeft(c, signals, r) && r.visible > Visible(c, signals[r.identity], Externalize)
  }

  /** In this corner every eligible row starts with at most one step to take. */
  lemma StartsInCorner(c: Config, signals: Signals, s: Signal)
    requires Unit(s.relevance) && Unit(s.trust) && Unit(s.freshness) && s.identity in signals
    requires signals[s.identity] == s
    requires ValidConfig(c) && c.summarizeThreshold > TOP_UTILITY && Eligible(signals, InitialRow(c, s))
    ensures InCorner(c, signals, InitialRow(c, s))
  {
    hide Utility, Risk, Visible;
    var n := UtilityScale(s);
  }

  lemma DegradeInCorner(c: Config, signals: Signals, s: State, i: nat)
    requires i < |s.rows| && InCorner(c, signals, s.rows[i])
    ensures Degrade(c, signals, s, i)
         == if s.projected <= Target(c) || NextOf(signals, s.rows[i]).None? then s else StepDown(c, signals, s, i)
  {
    hide Target, IsScore, Visible, Degrade;
    if s.projected <= Target(c) || NextOf(signals, s.rows[i]).None? {
      NoStep(c, signals, s, i);
    } else {
      OneStep(c, signals, s, i);
      NoStep(c, signals, StepDown(c, signals, s, i), i);
    }
  }

  /** The row as it was, but shown with the lesser of the two counts. */
  ghost function Lesser(before: Row, after: Row): Row { after.(visible := Min(before.visible, after.visible)) }

  ghost function Lows(before: seq<Row>, rows: seq<Row>): (r: seq<Row>)
    requires |before| == |rows|
    ensures |r| == |rows|
  {
    seq(|rows|, i requires 0 <= i < |rows| => Lesser(before[i], rows[i]))
  }

  /** An externalized row of the kind that fell, at a later position. */
  ghost predicate FellAfter(c: Config, signals: Signals, before: seq<Row>, order: seq<nat>, t: State, j: nat)
    requires |t.rows| == |before| && InRange(order, |before|)
  {
    exists k: nat :: j < k < |order| && Falling(c, signals, before[order[k]])
        && t.rows[order[k]].recommended == Externalize
  }

  /** The row at this position has risen, and either the projection is still above the target or a later one has
      fallen. */
  ghost predicate RoseAt(c: Config, signals: Signals, before: seq<Row>, order: seq<nat>, t: State, j: nat)
    requires |t.rows| == |before| && InRange(order, |before|)
  {
    && j < |order| && Rising(c, signals, before[order[j]]) && t.rows[order[j]].recommended == Externalize
    && (t.projected > Target(c) || FellAfter(c, signals, before, order, t, j))
  }

  /** The projection counts every row at its lesser count. If it misses anything, a row has risen. */
  ghost predicate Tracked(c: Config, signals: Signals, current: int, before: seq<Row>, order: seq<nat>, t: State)
    requires |t.rows| == |before| && InRange(order, |before|)
  {
    && t.projected == current + TotalVisible(Lows(before, t.rows))
    && (t.projected == current + TotalVisible(t.rows) || exists j: nat :: RoseAt(c, signals, before, order, t, j))
  }

  lemma LowsUpdate(before: seq<Row>, rows: seq<Row>, i: nat, r: Row)
    requires |before| == |rows| && i < |rows| && rows[i] == before[i]
    ensures TotalVisible(Lows(before, rows[i := r]))
         == TotalVisible(Lows(before, rows)) - before[i].visible + Min(before[i].visible, r.visible)
  {
    hide TotalVisible;
    assert Lows(before, rows[i := r]) == Lows(before, rows)[i := Lesser(before[i], r)];
    TotalAfterUpdate(Lows(before, rows), i, Lesser(before[i], r));
  }

  lemma LowsStart(rows: seq<Row>)
    ensures Lows(rows, rows) == rows
  {
  }

  /** What held of earlier positions still holds with one more candidate and one more row changed. */
  lemma RoseStays(c: Config, signals: Signals, before: seq<Row>, init: seq<nat>, i: nat, m: State, t: State, j: nat)
    requires |m.rows| == |before| && |t.rows| == |before| && InRange(init, |before|) && i < |before| && i !in init
    requires RoseAt(c, signals, before, init, m, j)
    requires forall k :: 0 <= k < |before| && k != i ==> t.rows[k] == m.rows[k]
    requires t.projected > Target(c) || t.projected == m.projected
             || (Falling(c, signals, before[i]) && t.rows[i].recommended == Externalize)
    ensures InRange(init + [i], |before|) && RoseAt(c, signals, before, init + [i], t, j)
  {
    hide Target, Falling, Rising;
    var longer := init + [i];
    assert init[j] in init && longer[j] == init[j];
    if FellAfter(c, signals, before, init, m, j) {
      var k :| j < k < |init| && Falling(c, signals, before[init[k]]) && m.rows[init[k]].recommended == Externalize;
      assert init[k] in init && longer[k] == init[k];
      assert FellAfter(c, signals, before, longer, t, j);
    } else if t.projected <= Target(c) && t.projected != m.projected {
      assert longer[|init|] == i;
      assert FellAfter(c, signals, before, longer, t, j);
    }
  }

  lemma JustRose(c: Config, signals: Signals, before: seq<Row>, order: seq<nat>, t: State, j: nat)
    requires |t.rows| == |before| && InRange(order, |before|) && j < |order| && t.projected > Target(c)
    requires Rising(c, signals, before[order[j]]) && t.rows[order[j]].recommended == Externalize
    ensures RoseAt(c, signals, before, order, t, j)
  {
  }

  lemma TrackStep(c: Config, signals: Signals, current: int, before: seq<Row>, init: seq<nat>, i: nat, m: State)
    requires |m.rows| == |before| && InRange(init, |before|) && i < |before| && i !in init && m.rows[i] == before[i]
    requires InCorner(c, signals, before[i]) && Tracked(c, signals, current, before, init, m)
    ensures var t := Degrade(c, signals, m, i);
            && |t.rows| == |before| && InRange(init + [i], |before|)
               && Tracked(c, signals, current, before, init + [i], t)
  {
    hide Target, RoseAt, Degrade, Visible, TotalVisible, Lows, IsScore;
    DegradeInCorner(c, signals, m, i);
    var t := Degrade(c, signals, m, i);
    var longer := init + [i];
    if t == m {
      if j :| RoseAt(c, signals, before, init, m, j) { RoseStays(c, signals, before, init, i, m, t, j); }
    } else {
      var r := t.rows[i];
      TotalAfterUpdate(m.rows, i, r);
      LowsUpdate(before, m.rows, i, r);
      if m.projected != current + TotalVisible(m.rows) {
        var j :| RoseAt(c, signals, before, init, m, j);
        RoseStays(c, signals, before, init, i, m, t, j);
      } else if r.visible > before[i].visible {
        assert longer[|init|] == i;
        assert RoseAt(c, signals, before, longer, t, |init|) by { JustRose(c, signals, before, longer, t, |init|); }
      }
    }
  }

  lemma {:induction false} TrackAll(c: Config, signals: Signals, current: int, s: State, order: seq<nat>)
    requires RowsAgree(c, signals, s.rows) && Candidates(s.rows, order) && s.projected == current + TotalVisible(s.rows)
    requires forall k :: 0 <= k < |order| ==> InCorner(c, signals, s.rows[order[k]])
    ensures Tracked(c, signals, current, s.rows, order, DegradeAll(c, signals, s, order))
  {
    hide InCorner, RowsAgree, Degrade, TotalVisible, PassState, Accounted, Tracked;
    if order == [] {
      LowsStart(s.rows);
      NothingMissed(c, signals, current, s);
    } else {
      var init, i := order[..|order| - 1], order[|order| - 1];
      assert order == init + [i];
      assert i !in init by {
        forall k | 0 <= k < |init| ensures init[k] != i { assert order[k] != order[|init|]; }
      }
      TrackAll(c, signals, current, s, init);
      PassKeeps(c, signals, current, s, init);
      Untouched(c, signals, s.rows, init, DegradeAll(c, signals, s, init), i);
      TrackStep(c, signals, current, s.rows, init, i, DegradeAll(c, signals, s, init));
    }
  }

  lemma NothingMissed(c: Config, signals: Signals, current: int, s: State)
    requires s.projected == current + TotalVisible(s.rows) && Lows(s.rows, s.rows) == s.rows
    ensures Tracked(c, signals, current, s.rows, [], s)
  {
  }

  // ---- A row that rose and a later one that fell cannot be had ----

  lemma CompressGrows(c: Config, x: Signal, y: Signal)
    requires x.tokens <= y.tokens
    ensures Visible(c, x, Compress) <= Visible(c, y, Compress)
  {
  }

  /** What rises was compressed to between 16 tokens and the reference, what falls to more than the reference. */
  lemma RiseAndFall(c: Config, signals: Signals, a: Row, b: Row)
    requires RowAgrees(c, signals, a) && RowAgrees(c, signals, b) && c.referenceTokens > 16
    ensures Rising(c, signals, a) ==>
              16 <= a.visible < c.referenceTokens && a.visible <= Visible(c, signals[a.identity], Externalize)
    ensures Falling(c, signals, b) ==> b.visible > c.referenceTokens == Visible(c, signals[b.identity], Externalize)
    ensures Rising(c, signals, a) && Falling(c, signals, b) ==> a.input < b.input
  {
    hide NextOf, IsScore;
    if Rising(c, signals, a) && Falling(c, signals, b) && b.input <= a.input {
      CompressGrows(c, signals[b.identity], signals[a.identity]);
    }
  }

  /** With one utility left the larger item comes first, so none that falls comes after one that rises. */
  lemma OneUtility(c: Config, signals: Signals, a: Row, b: Row, i: nat, j: nat)
    requires ValidConfig(c) && c.compressThreshold > NEXT_UTILITY && c.referenceTokens > 16
    requires RowAgrees(c, signals, a) && RowAgrees(c, signals, b) && CandidateLe(CandidateAt(a, i), CandidateAt(b, j))
    ensures !(Rising(c, signals, a) && Falling(c, signals, b))
  {
    hide NextOf, RowAgrees, Visible;
    RiseAndFall(c, signals, a, b);
    if Rising(c, signals, a) && Falling(c, signals, b) {
      OnlyTop(a.utility);
      OnlyTop(b.utility);
    }
  }

  lemma OnlyTop(x: real)
    requires IsScore(x) && x > NEXT_UTILITY
    ensures x == TOP_UTILITY
  {
    var n :| x == InMillionths(n) && n <= 880000;
    assert n > 879999;
  }

  lemma {:induction false} TotalNonnegative(rows: seq<Row>)
    requires forall i :: 0 <= i < |rows| ==> rows[i].visible >= 0
    ensures TotalVisible(rows) >= 0
  {
    if rows != [] { TotalNonnegative(rows[..|rows| - 1]); }
  }

  lemma TwoOfTotal(rows: seq<Row>, i: nat, j: nat)
    requires i < |rows| && j < |rows| && i != j && forall k :: 0 <= k < |rows| ==> rows[k].visible >= 0
    ensures TotalVisible(rows) >= rows[i].visible + rows[j].visible
  {
    hide TotalVisible;
    var a := rows[i].(visible := 0);
    var b := rows[j].(visible := 0);
    TotalAfterUpdate(rows, i, a);
    TotalAfterUpdate(rows[i := a], j, b);
    TotalNonnegative(rows[i := a][j := b]);
  }

  lemma VisibleNonnegative(c: Config, signals: Signals, r: Row)
    requires RowAgrees(c, signals, r) && c.referenceTokens >= 1
    ensures r.visible >= 0
  {
  }

  /** A projection that counts a risen row at 16 or more and a fallen one at a whole reference. */
  lemma NoRoom(c: Config, signals: Signals, current: int, before: seq<Row>, t: State, i: nat, j: nat)
    requires current >= 0 && c.referenceTokens > 16 && |t.rows| == |before| && i < |before| && j < |before| && i != j
    requires RowsAgree(c, signals, before) && RowsAgree(c, signals, t.rows)
    requires t.rows[i].identity == before[i].identity && t.rows[j].identity == before[j].identity
    requires t.rows[i].recommended == Externalize && t.rows[j].recommended == Externalize
    requires Rising(c, signals, before[i]) && Falling(c, signals, before[j])
    requires t.projected == current + TotalVisible(Lows(before, t.rows))
    ensures t.projected >= 16 + c.referenceTokens
  {
    hide TotalVisible, Visible, NextOf, IsScore, OneStepLeft;
    RiseAndFall(c, signals, before[i], before[j]);
    var lows := Lows(before, t.rows);
    forall k | 0 <= k < |lows| ensures lows[k].visible >= 0 {
      VisibleNonnegative(c, signals, before[k]);
      VisibleNonnegative(c, signals, t.rows[k]);
    }
    TwoOfTotal(lows, i, j);
  }

  /** In the corner a fit is true, for one utility or no room. */
  lemma CornerFits(c: Config, ordered: seq<Signal>, state: PolicyState)
    requires ValidConfig(c) && c.referenceTokens > 16 && c.targetUtilization == 1.0
    requires c.summarizeThreshold > TOP_UTILITY
    requires c.compressThreshold > NEXT_UTILITY || c.referenceTokens + 16 > c.budget
    requires Admissible(ordered) && Decision(c, ordered, state).fit
    ensures Shown(c, ordered, state) <= c.budget
  {
    hide InitialRow, RowAgrees, Visible, Excess, Externalized, TotalVisible, Eligible, SortedBy, DistinctIdentities,
        ExactTokens, SessionOf,
      ByIdentity, Order, PassState, InCorner, DegradeAll, Target, Rising, Falling, Lows, CandidateLe, CandidateAt;
    var signals, before, current := ByIdentity(ordered), InitialRows(c, ordered), state.currentTokens;
    InitialRowsAgree(c, ordered);
    ByIdentityFinds(ordered);
    FitKeeps(c, signals, before, current);
    OrderSound(signals, before);
    TargetIsBudget(c);
    var t, order := Fit(c, signals, before, current), Order(signals, before);
    forall k | 0 <= k < |order| ensures InCorner(c, signals, before[order[k]]) {
      assert before[order[k]] == InitialRow(c, ordered[order[k]]);
      StartsInCorner(c, signals, ordered[order[k]]);
    }
    TrackAll(c, signals, current, State(before, current + TotalVisible(before)), order);
    if t.projected != current + TotalVisible(t.rows) {
      var j: nat :| RoseAt(c, signals, before, order, t, j);
      var k: nat :| j < k < |order| && Falling(c, signals, before[order[k]])
          && t.rows[order[k]].recommended == Externalize;
      var a, b := order[j], order[k];
      if c.compressThreshold > NEXT_UTILITY {
        OneUtility(c, signals, before[a], before[b], a, b);
      } else {
        SameAndAgree(c, signals, before, order, t, a);
        SameAndAgree(c, signals, before, order, t, b);
        NoRoom(c, signals, current, before, t, a, b);
      }
    }
  }

  // ---- The exact condition ----

  /** A fit reported for an evaluation is one. */
  ghost predicate FitHolds(c: Config, ordered: seq<Signal>, state: PolicyState)
    requires ValidConfig(c)
  {
    Admissible(ordered) && Decision(c, ordered, state).fit ==> Shown(c, ordered, state) <= c.budget
  }

  /** A session that is not abstained from shows no more than the budget. */
  ghost predicate SessionHolds(c: Config, ordered: seq<Signal>, state: PolicyState)
    requires ValidConfig(c)
  {
    Admissible(ordered) && Decision(c, ordered, state).session != AbstainSession ==>
        Shown(c, ordered, state) <= c.budget
  }

  lemma OtherwiseFits(c: Config, ordered: seq<Signal>, state: PolicyState)
    requires ValidConfig(c) && !CanOvershoot(c) && Admissible(ordered) && Decision(c, ordered, state).fit
    ensures Shown(c, ordered, state) <= c.budget
  {
    hide Fit, InitialRows, RowsAgree, DistinctIdentities, Externalized, TotalVisible, ExactTokens, Order, ByIdentity;
    if c.referenceTokens <= 16 {
      InitialRowsAgree(c, ordered);
      FitMeansWithinBudget(c, ByIdentity(ordered), InitialRows(c, ordered), state.currentTokens);
      assert Excess(c) == 0;
    } else if c.compressThreshold > TOP_UTILITY {
      HighThresholdsFit(c, ordered, state);
    } else {
      CornerFits(c, ordered, state);
    }
  }

  /** Every reported fit is within the budget exactly under the configurations that cannot overshoot, and so is every
      session that is not abstained from. */
  lemma DecisionFitIff(c: Config)
    requires ValidConfig(c)
    ensures (forall ordered, state :: FitHolds(c, ordered, state)) <==> !CanOvershoot(c)
    ensures (forall ordered, state :: SessionHolds(c, ordered, state)) <==> !CanOvershoot(c)
  {
    hide Shown, Admissible, CanOvershoot, Fit;
    if CanOvershoot(c) {
      var ordered, state := Overshoot(c);
      assert !FitHolds(c, ordered, state);
      assert !SessionHolds(c, ordered, state);
    } else {
      forall ordered, state ensures FitHolds(c, ordered, state) && SessionHolds(c, ordered, state) {
        if Admissible(ordered) && Decision(c, ordered, state).fit { OtherwiseFits(c, ordered, state); }
      }
    }
  }

  // ---- When the effective actions follow the recommendations ----

  /** Outside shadow mode, what is reported as taking effect is what is recommended. */
  ghost predicate Follows(c: Config, ordered: seq<Signal>, state: PolicyState)
    requires ValidConfig(c)
  {
    var rows := Decision(c, ordered, state).rows;
    (Admissible(ordered) && !state.shadowMode) ==>
      forall i :: 0 <= i < |rows| ==> rows[i].effective == rows[i].recommended
  }

  /** Above every utility, the compress threshold leaves no row a step to take. */
  lemma NothingMoves(c: Config, ordered: seq<Signal>, state: PolicyState)
    requires ValidConfig(c) && c.compressThreshold > TOP_UTILITY && Admissible(ordered)
    ensures FinalRows(c, ordered, state) == InitialRows(c, ordered)
  {
    hide InitialRow, Eligible, DistinctIdentities, SortedBy, TotalVisible, NextOf, Order, CandidateLe, ByIdentity,
      Degrade;
    var signals, before := ByIdentity(ordered), InitialRows(c, ordered);
    ByIdentityFinds(ordered);
    OrderSound(signals, before);
    var order := Order(signals, before);
    forall k | 0 <= k < |order| ensures NextOf(signals, before[order[k]]).None? {
      assert before[order[k]] == InitialRow(c, ordered[order[k]]);
      StartsInCorner(c, signals, ordered[order[k]]);
      UtilityCapped(ordered[order[k]], c.compressThreshold, InitialRow(c, ordered[order[k]]));
    }
    NoStepAtAll(c, signals, State(before, state.currentTokens + TotalVisible(before)), order);
  }

  lemma UtilityCapped(s: Signal, threshold: real, r: Row)
    requires threshold > TOP_UTILITY
    ensures IsScore(r.utility) ==> r.utility < threshold
  {
  }

  lemma {:induction false} NoStepAtAll(c: Config, signals: Signals, s: State, order: seq<nat>)
    requires InRange(order, |s.rows|) && forall k :: 0 <= k < |order| ==> NextOf(signals, s.rows[order[k]]).None?
    ensures DegradeAll(c, signals, s, order) == s
  {
    hide Degrade, NextOf;
    if order != [] {
      var n := |order| - 1;
      NoStepAtAll(c, signals, s, order[..n]);
      NoStep(c, signals, s, order[n]);
    }
  }

  /** One plain item over a full context: its row moves, its effective action does not. */
  lemma LeftBehind(c: Config) returns (ordered: seq<Signal>, current: nat)
    requires ValidConfig(c) && c.compressThreshold <= TOP_UTILITY
    ensures Admissible(ordered) && !Follows(c, ordered, Calm(current))
  {
    hide Target, Degrade, Fit, Utility, Risk, TotalVisible, ByIdentity, SessionOf, ExactTokens;
    var x := Piece("a", 17, 1.0, false, true);
    PieceScores("a", 17, false, true);
    ordered, current := [x], c.budget;
    ByIdentityOne(x);
    var signals, a := ByIdentity(ordered), InitialRow(c, x);
    assert InitialRows(c, ordered) == [a];
    TargetWithinBudget(c);
    OneRowFit(c, signals, a, current);
    var s := State([a], current + a.visible);
    OneStep(c, signals, s, 0);
    DegradeMoves(c, signals, StepDown(c, signals, s, 0), 0);
    assert Rank(a.recommended) < Rank(FinalRows(c, ordered, Calm(current))[0].recommended);
    EffectiveIff(c, ordered, Calm(current), 0);
    var r := Decision(c, ordered, Calm(current)).rows[0];
    assert r.effective != r.recommended;
  }

  /** The effective actions always follow the recommendations exactly when the compress threshold is above every
      utility, so that nothing can be degraded any further. */
  lemma FollowsIff(c: Config)
    requires ValidConfig(c)
    ensures (forall ordered, state :: Follows(c, ordered, state)) <==> c.compressThreshold > TOP_UTILITY
  {
    hide Admissible, Fit, InitialRow, Decision;
    if c.compressThreshold > TOP_UTILITY {
      forall ordered, state ensures Follows(c, ordered, state) {
        if Admissible(ordered) && !state.shadowMode { StaysTogether(c, ordered, state); }
      }
    } else {
      var ordered, current := LeftBehind(c);
      assert !Follows(c, ordered, Calm(current));
    }
  }

  lemma StaysTogether(c: Config, ordered: seq<Signal>, state: PolicyState)
    requires ValidConfig(c) && c.compressThreshold > TOP_UTILITY && Admissible(ordered) && !state.shadowMode
    ensures Follows(c, ordered, state)
  {
    hide Admissible, Fit, InitialRow, SessionOf, ExactTokens;
    NothingMoves(c, ordered, state);
    var rows := Decision(c, ordered, state).rows;
    forall i | 0 <= i < |rows| ensures rows[i].effective == rows[i].recommended {
      assert rows[i] == InitialRow(c, ordered[i]);
      EffectiveIff(c, ordered, state, i);
    }
  }
}
