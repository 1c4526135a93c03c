/** What is encoded is decoded: the wire format loses nothing, and exactly the well-formed phases survive the trip. */
module ConfigRoundTrip {
  import opened Ordering
  import B = Bytes
  import opened WireText
  import opened ConfigTree
  import opened ConfigWire
  import opened ConfigPaths

  // ---- Well-formed phases ----

  /** Environment entries: full names whose paths are proper and distinct, with scalar values. */
  ghost predicate GoodEnvironment(p: Prims, es: Entries) {
    && (forall i :: 0 <= i < |es| ==>
        HasPrefix(es[i].key) && es[i].tree.Leaf? && ValidPath(EnvironmentPath(p, es[i].key)))
    && (forall i, j :: 0 <= i < j < |es| ==> EnvironmentPath(p, es[i].key) != EnvironmentPath(p, es[j].key))
  }

  ghost predicate GoodLayer(p: Prims, scope: Scope, es: Entries) {
    if scope == Environment then GoodEnvironment(p, es) else WellFormed(es)
  }

  ghost predicate GoodPhase(p: Prims, phase: Phase) { forall scope :: GoodLayer(p, scope, Layer(phase, scope)) }

  /** At least one phase, and every layer of every phase can be spelled by its rows. */
  ghost predicate GoodPhases(p: Prims, phases: seq<Phase>) {
    phases != [] && forall i :: 0 <= i < |phases| ==> GoodPhase(p, phases[i])
  }

  // ---- One line ----

  lemma HexFieldPlain(b: B.Bytes)
    ensures '\t' !in HexOf(b) && NoBreak(HexOf(b))
  {
    UnhexHex(b);
    hide HexOf, NoBreak, IsBreak;
    var s := HexOf(b);
    forall i | 0 <= i < |s| ensures s[i] != '\t' && !IsBreak(s[i]) {
      assert s[i] in s;
      DigitPlain(s[i]);
    }
    NoBreakIntro(s);
  }

  lemma DigitPlain(ch: char)
    requires ch in DIGITS
    ensures ch != '\t' && !IsBreak(ch)
  {
  }

  lemma NoBreakIntro(s: string)
    requires forall i :: 0 <= i < |s| ==> !IsBreak(s[i])
    ensures NoBreak(s)
  {
    hide IsBreak;
  }

  lemma DecodeHexText(p: Prims, s: string)
    requires Lawful(p)
    ensures DecodeText(p, HexText(p, s)) == Ok(s)
  {
    UnhexHex(p.utf8(s));
  }

  lemma DecodeEncodedScalar(p: Prims, v: Scalar)
    requires Lawful(p) && EncodeScalar(p, v).Ok?
    ensures DecodeScalar(p, EncodeScalar(p, v).value.0, HexText(p, EncodeScalar(p, v).value.1)) == Ok(v)
    ensures EncodeScalar(p, v).value.0 in ["n", "b", "i", "f", "s"]
  {
    hide HexText;
    DecodeHexText(p, EncodeScalar(p, v).value.1);
  }

  lemma CodeIsShort(p: Prims, v: Scalar)
    requires EncodeScalar(p, v).Ok?
    ensures |EncodeScalar(p, v).value.0| == 1 && '\t' !in EncodeScalar(p, v).value.0
  {
  }

  lemma RowFields(p: Prims, row: WireRow)
    requires EncodeScalar(p, row.value).Ok?
    ensures var v := EncodeScalar(p, row.value).value;
            var fields := Fields(p, row, v.0, v.1);
            Split(Join(fields, '\t'), '\t') == fields && Join(fields, '\t') != ""
  {
    hide HexOf, NoBreak, Split, EncodeScalar;
    var v := EncodeScalar(p, row.value).value;
    var fields := Fields(p, row, v.0, v.1);
    CodeIsShort(p, row.value);
    HexFieldPlain(p.utf8(row.source));
    HexFieldPlain(p.utf8(row.path));
    HexFieldPlain(p.utf8(v.1));
    forall f | f in fields ensures '\t' !in f { var i := IndexOf(fields, f); }
    SplitJoin(fields, '\t');
  }

  /** An encoded assignment is read back as that assignment, if it may stand where it stands. */
  lemma DecodeEncodedRow(p: Prims, s: State, row: WireRow)
    requires Lawful(p) && EncodeRow(p, row).Ok? && s.current.Some?
    requires s.lastRank <= RankOf(row.scope) && ValidPath(row.path) && (row.scope, row.path) !in s.seen
    ensures DecodeLine(p, s, EncodeRow(p, row).value) == Assign(p, s, row)
  {
    hide HexText, DecodeText, DecodeScalar, Assign, Split, Join, ValidPath;
    RowFields(p, row);
    DecodeHexText(p, row.source);
    DecodeHexText(p, row.path);
    DecodeEncodedScalar(p, row.value);
  }

  lemma {:induction false} PlainJoin(fields: seq<string>)
    requires fields != [] && forall i :: 0 <= i < |fields| ==> NoBreak(fields[i])
    ensures NoBreak(Join(fields, '\t'))
  {
    if |fields| > 1 {
      PlainJoin(fields[1..]);
      PlainConcat(fields[0], Join(fields[1..], '\t'));
    }
  }

  lemma PlainConcat(a: string, b: string)
    requires NoBreak(a) && NoBreak(b)
    ensures NoBreak(a + ['\t'] + b)
  {
    assert !IsBreak('\t');
    hide IsBreak;
  }

  lemma ShortTextsPlain(scope: Scope, code: string)
    requires code in ["n", "b", "i", "f", "s"]
    ensures NoBreak("a") && NoBreak(code) && NoBreak(ScopeName(scope))
  {
  }

  lemma EncodedRowPlain(p: Prims, row: WireRow)
    requires EncodeRow(p, row).Ok?
    ensures NoBreak(EncodeRow(p, row).value)
  {
    hide NoBreak, HexOf, ScopeName, Join;
    var v := EncodeScalar(p, row.value).value;
    var fields := Fields(p, row, v.0, v.1);
    ShortTextsPlain(row.scope, v.0);
    HexFieldPlain(p.utf8(row.source));
    HexFieldPlain(p.utf8(row.path));
    HexFieldPlain(p.utf8(v.1));
    PlainJoin(fields);
  }

  lemma {:induction false} EncodedRowsPlain(p: Prims, rows: seq<WireRow>)
    requires EncodeRows(p, rows).Ok?
    ensures |EncodeRows(p, rows).value| == |rows|
    ensures forall i :: 0 <= i < |rows| ==> NoBreak(EncodeRows(p, rows).value[i])
  {
    if rows != [] {
      hide NoBreak, EncodeRow;
      var n := |rows| - 1;
      EncodedRowsPlain(p, rows[..n]);
      EncodedRowPlain(p, rows[n]);
    }
  }

  lemma DecodePhaseLine(p: Prims, s: State, i: nat)
    requires Lawful(p) && PhaseLine(p, i).Ok? && s.expected == i
    ensures DecodeLine(p, s, PhaseLine(p, i).value) == Ok(State(Finished(s), Some(EmptyPhase()), {}, i + 1, -1))
    ensures NoBreak(PhaseLine(p, i).value)
  {
    var text := p.intText(i).value;
    SplitAtSeparator("phase", '\t', text);
    SplitNothing(text, '\t');
    assert "phase\t" + text == "phase" + ['\t'] + text;
    PlainConcat("phase", text);
  }

  // ---- The lines of a layer ----

  lemma {:induction false} DecodeConcat(p: Prims, s: State, a: seq<string>, b: seq<string>)
    ensures DecodeLines(p, s, a + b) == if DecodeLines(p, s, a).Err? then DecodeLines(p, s, a)
        else DecodeLines(p, DecodeLines(p, s, a).value, b)
  {
    if b == [] {
      assert a + b == a;
    } else {
      var n := |b| - 1;
      assert (a + b)[..|a + b| - 1] == a + b[..n];
      DecodeConcat(p, s, a, b[..n]);
    }
  }

  lemma EncodeRowsPrefix(p: Prims, rows: seq<WireRow>, n: nat)
    requires |rows| == n + 1 && EncodeRows(p, rows).Ok?
    ensures EncodeRows(p, rows[..n]).Ok? && EncodeRow(p, rows[n]).Ok?
    ensures EncodeRows(p, rows).value == EncodeRows(p, rows[..n]).value + [EncodeRow(p, rows[n]).value]
  {
  }

  /** Paths already assigned in a scope, and the layer those assignments have built. */
  ghost predicate Reached(s: State, t: State, scope: Scope, paths: set<string>, layer: Entries) {
    && s.current.Some? && t.phases == s.phases && t.expected == s.expected
    && t.current == Some(WithLayer(s.current.value, scope, layer))
    && t.seen == s.seen + (set x | x in paths :: (scope, x))
    && s.lastRank <= t.lastRank <= Max(s.lastRank, RankOf(scope))
  }

  function Max(a: int, b: int): int { if a < b then b else a }

  ghost predicate Fresh(s: State, scope: Scope) {
    s.current.Some? && Layer(s.current.value, scope) == [] && s.lastRank <= RankOf(scope)
        && forall x :: (scope, x) !in s.seen
  }

  ghost function PathsOf(rows: seq<WireRow>): set<string> { set r | r in rows :: r.path }

  lemma PathsOfAppend(rows: seq<WireRow>, r: WireRow)
    ensures PathsOf(rows + [r]) == PathsOf(rows) + {r.path}
  {
    forall x | x in PathsOf(rows) + {r.path} ensures x in PathsOf(rows + [r]) {
      if x in PathsOf(rows) {
        var y :| y in rows && y.path == x;
        assert y in rows + [r];
      } else {
        assert r in rows + [r];
      }
    }
  }

  lemma ReachedNothing(s: State, scope: Scope)
    requires Fresh(s, scope)
    ensures Reached(s, s, scope, {}, [])
  {
  }

  lemma ReachedOne(s: State, t: State, scope: Scope, paths: set<string>, layer: Entries, path: string, layer': Entries)
    requires Fresh(s, scope) && Reached(s, t, scope, paths, layer)
    ensures Reached(s, t.(current := Some(WithLayer(t.current.value, scope, layer')),
                          seen := t.seen + {(scope, path)}, lastRank := RankOf(scope)),
                    scope, paths + {path}, layer')
  {
    assert (set y | y in paths + {path} :: (scope, y)) == (set y | y in paths :: (scope, y)) + {(scope, path)};
  }

  lemma ReachedLayer(s: State, t: State, scope: Scope, paths: set<string>, layer: Entries, path: string)
    requires Fresh(s, scope) && Reached(s, t, scope, paths, layer)
    ensures Layer(t.current.value, scope) == layer && ((scope, path) in t.seen <==> path in paths)
    ensures t.lastRank <= RankOf(scope)
  {
  }

  /** The assignment that turns one state of a layer into the next. */
  ghost predicate Enters(p: Prims, row: WireRow, layer: Entries, layer': Entries) {
    && ValidPath(row.path)
    && if row.scope == Environment then
         HasPrefix(row.source) && EnvironmentPath(p, row.source) == row.path
             && layer' == Put(layer, row.source, Leaf(row.value))
       else
         row.source == SourceName(row.scope) && SetDotted(layer, Split(row.path, '.'), row.value) == Some(layer')
  }

  /** One more assignment of a layer. */
  lemma DecodeStep(p: Prims, s: State, t: State, paths: set<string>, layer: Entries, row: WireRow, layer': Entries)
    requires Lawful(p) && Fresh(s, row.scope) && Reached(s, t, row.scope, paths, layer)
    requires Enters(p, row, layer, layer') && row.path !in paths && EncodeRow(p, row).Ok?
    ensures var r := DecodeLine(p, t, EncodeRow(p, row).value);
            r.Ok? && Reached(s, r.value, row.scope, paths + {row.path}, layer')
  {
    hide Reached, Fresh, Lawful, DecodeLine, EncodeRow, Split, ValidPath, SetDotted, Put, HasPrefix, EnvironmentPath;
    ReachedCurrent(s, t, row.scope, paths, layer);
    ReachedLayer(s, t, row.scope, paths, layer, row.path);
    ReachedOne(s, t, row.scope, paths, layer, row.path, layer');
    DecodeEncodedRow(p, t, row);
  }

  lemma ReachedCurrent(s: State, t: State, scope: Scope, paths: set<string>, layer: Entries)
    requires Reached(s, t, scope, paths, layer)
    ensures t.current.Some?
  {
  }

  /** Rows of one scope with the states of the layer between them. */
  ghost predicate Stages(p: Prims, scope: Scope, rows: seq<WireRow>, stages: seq<Entries>) {
    && |stages| == |rows| + 1 && stages[0] == []
    && (forall i :: 0 <= i < |rows| ==> rows[i].scope == scope && Enters(p, rows[i], stages[i], stages[i + 1]))
    && (forall i, j :: 0 <= i < j < |rows| ==> rows[i].path != rows[j].path)
  }

  lemma StagesPrefix(p: Prims, scope: Scope, rows: seq<WireRow>, stages: seq<Entries>, n: nat)
    requires Stages(p, scope, rows, stages) && |rows| == n + 1
    ensures Stages(p, scope, rows[..n], stages[..n + 1]) && rows[n].path !in PathsOf(rows[..n])
    ensures rows[n].scope == scope && Enters(p, rows[n], stages[n], stages[n + 1])
  {
    hide Enters;
  }

  lemma {:induction false} DecodeRows(p: Prims, s: State, scope: Scope, rows: seq<WireRow>, stages: seq<Entries>)
    requires Lawful(p) && Fresh(s, scope) && Stages(p, scope, rows, stages) && EncodeRows(p, rows).Ok?
    ensures var r := DecodeLines(p, s, EncodeRows(p, rows).value);
            r.Ok? && Reached(s, r.value, scope, PathsOf(rows), stages[|rows|])
  {
    hide Lawful, Reached, Fresh, Enters;
    if rows == [] {
      NoRowsReached(p, s, scope);
      assert stages[0] == [];
    } else {
      hide DecodeLine, DecodeLines, EncodeRow, EncodeRows, PathsOf, Stages;
      var n := |rows| - 1;
      StagesPrefix(p, scope, rows, stages, n);
      EncodeRowsPrefix(p, rows, n);
      DecodeRows(p, s, scope, rows[..n], stages[..n + 1]);
      var before := EncodeRows(p, rows[..n]).value;
      var t := DecodeLines(p, s, before).value;
      DecodeStep(p, s, t, PathsOf(rows[..n]), stages[n], rows[n], stages[n + 1]);
      PathsOfAppend(rows[..n], rows[n]);
      assert rows == rows[..n] + [rows[n]];
      DecodeOneMore(p, s, before, EncodeRow(p, rows[n]).value);
    }
  }

  lemma NoRowsReached(p: Prims, s: State, scope: Scope)
    requires Fresh(s, scope)
    ensures EncodeRows(p, []) == Ok([]) && DecodeLines(p, s, []) == Ok(s) && Reached(s, s, scope, PathsOf([]), [])
  {
    ReachedNothing(s, scope);
    assert PathsOf([]) == {};
  }

  lemma DecodeOneMore(p: Prims, s: State, lines: seq<string>, line: string)
    requires DecodeLines(p, s, lines).Ok?
    ensures DecodeLines(p, s, lines + [line]) == DecodeLine(p, DecodeLines(p, s, lines).value, line)
  {
    assert (lines + [line])[..|lines|] == lines;
  }

  // ---- Layers of a good phase ----

  ghost function TreeStages(es: Entries): seq<Entries> {
    seq(|Rows(es)| + 1, i requires 0 <= i <= |Rows(es)| => if SetRows([], Rows(es)[..i]).Some? then
        SetRows([], Rows(es)[..i]).value else [])
  }

  lemma {:induction false} SetRowsPrefix(rows: seq<Row>, n: nat)
    requires n <= |rows| && SetRows([], rows).Some?
    ensures SetRows([], rows[..n]).Some?
    ensures n < |rows| ==>
              rows[n].path != []
                  && SetDotted(SetRows([], rows[..n]).value, rows[n].path, rows[n].value) == SetRows([], rows[..n + 1])
  {
    if n == |rows| {
      assert rows[..n] == rows;
    } else {
      var last := |rows| - 1;
      if n < last {
        SetRowsPrefix(rows[..last], n);
        assert rows[..last][..n] == rows[..n] && rows[..last][..n + 1] == rows[..n + 1];
      } else {
        assert rows[..n + 1] == rows;
      }
    }
  }

  lemma TreeLayerStages(p: Prims, scope: Scope, es: Entries)
    requires WellFormed(es) && scope != Environment
    ensures Stages(p, scope, RowsOfLayer(p, scope, es), TreeStages(es))
    ensures TreeStages(es)[|RowsOfLayer(p, scope, es)|] == es
  {
    hide WellFormed, GoodPath, Dotted, Flatten, Rows, SetRows, SetDotted, Split;
    FlattenLayer(es);
    SetRowsOfRows(es);
    var rows, source := RowsOfLayer(p, scope, es), Rows(es);
    var stages := TreeStages(es);
    assert source[..|source|] == source && source[..0] == [];
    SetNoRows();
    forall i | 0 <= i < |rows| ensures Enters(p, rows[i], stages[i], stages[i + 1]) {
      SplitDotted(source[i].path);
      SetRowsPrefix(source, i);
      SetRowsPrefix(source, i + 1);
    }
  }

  lemma SetNoRows()
    ensures SetRows([], []) == Some([])
  {
  }

  lemma EnvironmentStages(p: Prims, es: Entries)
    requires GoodEnvironment(p, es)
    ensures var stages := seq(|es| + 1, i requires 0 <= i <= |es| => es[..i]);
            Stages(p, Environment, RowsOfLayer(p, Environment, es), stages)
  {
    hide HasPrefix, EnvironmentPath, ValidPath;
    var rows, stages := RowsOfLayer(p, Environment, es), seq(|es| + 1, i requires 0 <= i <= |es| => es[..i]);
    forall i | 0 <= i < |rows| ensures Enters(p, rows[i], stages[i], stages[i + 1]) {
      NameIsNew(p, es, i);
      FullNameIsSource(p, es[i].key);
      assert es[..i + 1] == es[..i] + [es[i]];
    }
  }

  lemma FullNameIsSource(p: Prims, name: string)
    ensures HasPrefix(name) ==> EnvironmentSource(p, name) == name
  {
  }

  lemma NameIsNew(p: Prims, es: Entries, i: nat)
    requires GoodEnvironment(p, es) && i < |es|
    ensures Find(es[..i], es[i].key) == -1
  {
    hide HasPrefix, EnvironmentPath, ValidPath;
  }

  /** Decoding the lines of a layer puts exactly that layer into the current phase. */
  lemma DecodeLayer(p: Prims, s: State, scope: Scope, es: Entries)
    requires Lawful(p) && Fresh(s, scope) && GoodLayer(p, scope, es) && EncodeRows(p, RowsOfLayer(p, scope, es)).Ok?
    ensures var r := DecodeLines(p, s, EncodeRows(p, RowsOfLayer(p, scope, es)).value);
            r.Ok? && Reached(s, r.value, scope, PathsOf(RowsOfLayer(p, scope, es)), es)
  {
    hide Lawful, Fresh, Reached, Stages, WellFormed, GoodEnvironment, EncodeRows, PathsOf;
    var rows := RowsOfLayer(p, scope, es);
    if scope == Environment {
      EnvironmentStages(p, es);
      var stages := seq(|es| + 1, i requires 0 <= i <= |es| => es[..i]);
      assert |rows| == |es| && stages[|rows|] == es[..|es|] == es;
      DecodeRows(p, s, scope, rows, stages);
    } else {
      TreeLayerStages(p, scope, es);
      DecodeRows(p, s, scope, rows, TreeStages(es));
    }
  }

  // ---- Phases ----

  ghost function UpTo(phase: Phase, k: nat): Phase {
    Phase(if k > 0 then phase.user else [], if k > 1 then phase.project else [], if k > 2 then phase.environment
          else [],
          if k > 3 then phase.session else [], if k > 4 then phase.task else [])
  }

  /** The first k layers of the phase are in. */
  ghost predicate LayersIn(s: State, t: State, phase: Phase, k: nat) {
    && t.phases == s.phases && t.expected == s.expected && t.current == Some(UpTo(phase, k)) && t.lastRank < k
    && (forall x :: x in t.seen ==> RankOf(x.0) < k)
  }

  lemma LayersInNext(s: State, t: State, u: State, phase: Phase, k: nat, paths: set<string>)
    requires k < 5 && LayersIn(s, t, phase, k) && Reached(t, u, LAYER_ORDER[k], paths, Layer(phase, LAYER_ORDER[k]))
    ensures LayersIn(s, u, phase, k + 1)
  {
    assert RankOf(LAYER_ORDER[k]) == k;
  }

  lemma LayersInFresh(s: State, t: State, phase: Phase, k: nat)
    requires k < 5 && LayersIn(s, t, phase, k)
    ensures Fresh(t, LAYER_ORDER[k])
  {
    assert RankOf(LAYER_ORDER[k]) == k;
  }

  lemma EncodeLayersPrefix(p: Prims, phase: Phase, k: nat)
    requires k < 5 && EncodeLayers(p, phase, LAYER_ORDER[..k + 1]).Ok?
    ensures var rows := RowsOfLayer(p, LAYER_ORDER[k], Layer(phase, LAYER_ORDER[k]));
            && EncodeLayers(p, phase, LAYER_ORDER[..k]).Ok? && EncodeRows(p, rows).Ok?
            && EncodeLayers(p, phase, LAYER_ORDER[..k + 1]).value
                == EncodeLayers(p, phase, LAYER_ORDER[..k]).value + EncodeRows(p, rows).value
  {
    assert LAYER_ORDER[..k + 1][..k] == LAYER_ORDER[..k];
  }

  ghost predicate AllPlain(lines: seq<string>) { forall i :: 0 <= i < |lines| ==> NoBreak(lines[i]) }

  lemma PlainBoth(a: seq<string>, b: seq<string>)
    requires AllPlain(a) && AllPlain(b)
    ensures AllPlain(a + b)
  {
    hide NoBreak;
  }

  lemma {:induction false} DecodeLayers(p: Prims, s: State, phase: Phase, k: nat)
    requires Lawful(p) && GoodPhase(p, phase) && k <= 5 && LayersIn(s, s, phase, 0)
    requires EncodeLayers(p, phase, LAYER_ORDER[..k]).Ok?
    ensures var r := DecodeLines(p, s, EncodeLayers(p, phase, LAYER_ORDER[..k]).value);
            r.Ok? && LayersIn(s, r.value, phase, k)
    ensures AllPlain(EncodeLayers(p, phase, LAYER_ORDER[..k]).value)
  {
    if k > 0 {
      hide Lawful, LayersIn, EncodeRows, RowsOfLayer, DecodeLines, GoodLayer, EncodeLayers, NoBreak;
      var scope := LAYER_ORDER[k - 1];
      var rows := RowsOfLayer(p, scope, Layer(phase, scope));
      EncodeLayersPrefix(p, phase, k - 1);
      DecodeLayers(p, s, phase, k - 1);
      var before := EncodeLayers(p, phase, LAYER_ORDER[..k - 1]).value;
      var t := DecodeLines(p, s, before).value;
      LayersInFresh(s, t, phase, k - 1);
      assert GoodLayer(p, scope, Layer(phase, scope));
      DecodeLayer(p, t, scope, Layer(phase, scope));
      DecodeConcat(p, s, before, EncodeRows(p, rows).value);
      LayersInNext(s, t, DecodeLines(p, t, EncodeRows(p, rows).value).value, phase, k - 1, PathsOf(rows));
      EncodedRowsPlain(p, rows);
      PlainBoth(before, EncodeRows(p, rows).value);
    }
  }

  /** The whole of one phase after those before it. */
  lemma DecodePhase(p: Prims, s: State, phase: Phase)
    requires Lawful(p) && GoodPhase(p, phase) && PhaseLine(p, s.expected).Ok? && EncodeLayers(p, phase, LAYER_ORDER).Ok?
    ensures var lines := [PhaseLine(p, s.expected).value] + EncodeLayers(p, phase, LAYER_ORDER).value;
            var r := DecodeLines(p, s, lines);
            && AllPlain(lines) && r.Ok? && r.value.phases == Finished(s) && r.value.current == Some(phase)
               && r.value.expected == s.expected + 1
  {
    hide Lawful, GoodPhase, EncodeLayers, PhaseLine, NoBreak;
    assert LAYER_ORDER[..5] == LAYER_ORDER;
    DecodePhaseLine(p, s, s.expected);
    var head := PhaseLine(p, s.expected).value;
    var started := State(Finished(s), Some(EmptyPhase()), {}, s.expected + 1, -1);
    assert [head][..0] == [] && DecodeLines(p, s, [head]) == Ok(started);
    DecodeLayers(p, started, phase, 5);
    DecodeConcat(p, s, [head], EncodeLayers(p, phase, LAYER_ORDER).value);
    PlainBoth([head], EncodeLayers(p, phase, LAYER_ORDER).value);
  }

  lemma EncodePhasesPrefix(p: Prims, phases: seq<Phase>, n: nat)
    requires |phases| == n + 1 && EncodePhases(p, phases).Ok?
    ensures EncodePhases(p, phases[..n]).Ok? && PhaseLine(p, n).Ok? && EncodeLayers(p, phases[n], LAYER_ORDER).Ok?
    ensures EncodePhases(p, phases).value
         == EncodePhases(p, phases[..n]).value
             + ([PhaseLine(p, n).value] + EncodeLayers(p, phases[n], LAYER_ORDER).value)
  {
  }

  lemma {:induction false} DecodePhases(p: Prims, phases: seq<Phase>)
    requires Lawful(p) && (forall i :: 0 <= i < |phases| ==> GoodPhase(p, phases[i])) && EncodePhases(p, phases).Ok?
    ensures var r := DecodeLines(p, Start(), EncodePhases(p, phases).value);
            r.Ok? && Finished(r.value) == phases && r.value.expected == |phases|
    ensures AllPlain(EncodePhases(p, phases).value)
  {
    hide Lawful, GoodPhase, NoBreak, DecodeLines, EncodePhases, PhaseLine, EncodeLayers, AllPlain;
    if phases == [] {
      NoPhasesDecode(p);
    } else {
      var n := |phases| - 1;
      EncodePhasesPrefix(p, phases, n);
      DecodePhases(p, phases[..n]);
      var before, added := EncodePhases(p, phases[..n]).value,
          [PhaseLine(p, n).value] + EncodeLayers(p, phases[n], LAYER_ORDER).value;
      DecodePhase(p, DecodeLines(p, Start(), before).value, phases[n]);
      DecodeConcat(p, Start(), before, added);
      PlainBoth(before, added);
      assert phases == phases[..n] + [phases[n]];
    }
  }

  lemma NoPhasesDecode(p: Prims)
    ensures EncodePhases(p, []) == Ok([]) && DecodeLines(p, Start(), []) == Ok(Start()) && Finished(Start()) == []
    ensures AllPlain([])
  {
  }

  /** What the encoder writes for good phases, the decoder reads back, order and nesting included. */
  lemma RoundTrip(p: Prims, phases: seq<Phase>, maximum: int)
    requires Lawful(p) && GoodPhases(p, phases) && Encode(p, phases).Ok? && |Encode(p, phases).value| <= maximum
    ensures Decode(p, Encode(p, phases).value, maximum) == Ok(phases)
  {
    hide GoodPhase, DecodeLines, EncodePhases, NoBreak;
    DecodePhases(p, phases);
    var lines := [HEADER] + EncodePhases(p, phases).value;
    HeaderPlain();
    PlainBoth([HEADER], EncodePhases(p, phases).value);
    SplitLinesTerminated(lines);
    TerminatedEnds(lines);
    assert lines[1..] == EncodePhases(p, phases).value;
  }

  lemma HeaderPlain()
    ensures AllPlain([HEADER])
  {
  }

  /** Different good phases are written differently. */
  lemma EncodingInjective(p: Prims, phases: seq<Phase>, other: seq<Phase>)
    requires Lawful(p) && GoodPhases(p, phases) && GoodPhases(p, other)
    requires Encode(p, phases).Ok? && Encode(p, other).Ok? && Encode(p, phases).value == Encode(p, other).value
    ensures phases == other
  {
    var raw := Encode(p, phases).value;
    RoundTrip(p, phases, |raw|);
    RoundTrip(p, other, |raw|);
  }

  // ---- Only good phases are read ----

  /** Everything read so far is good, and every environment entry has had its path noted. */
  ghost predicate GoodState(p: Prims, s: State) {
    && (forall i :: 0 <= i < |s.phases| ==> GoodPhase(p, s.phases[i]))
    && (s.current.Some? ==> GoodPhase(p, s.current.value) && Noted(p, s.current.value.environment, s.seen))
  }

  ghost predicate Noted(p: Prims, es: Entries, seen: set<(Scope, string)>) {
    forall i :: 0 <= i < |es| ==> (Environment, EnvironmentPath(p, es[i].key)) in seen
  }

  lemma GoodAfterLayer(p: Prims, phase: Phase, scope: Scope, es: Entries)
    requires GoodPhase(p, phase) && GoodLayer(p, scope, es)
    ensures GoodPhase(p, WithLayer(phase, scope, es))
  {
    hide GoodLayer;
    forall sc ensures GoodLayer(p, sc, Layer(WithLayer(phase, scope, es), sc)) {
      assert GoodLayer(p, sc, Layer(phase, sc));
    }
  }

  lemma SplitGood(path: string)
    requires ValidPath(path)
    ensures GoodPath(Split(path, '.'))
  {
    forall i | 0 <= i < |Split(path, '.')| ensures GoodKey(Split(path, '.')[i]) {
      assert Split(path, '.')[i] in Split(path, '.');
    }
  }

  lemma PutEnvironment(p: Prims, es: Entries, seen: set<(Scope, string)>, name: string, v: Scalar)
    requires GoodEnvironment(p, es) && Noted(p, es, seen) && HasPrefix(name)
    requires ValidPath(EnvironmentPath(p, name)) && (Environment, EnvironmentPath(p, name)) !in seen
    ensures Put(es, name, Leaf(v)) == es + [Entry(name, Leaf(v))]
    ensures GoodEnvironment(p, Put(es, name, Leaf(v)))
    ensures Noted(p, Put(es, name, Leaf(v)), seen + {(Environment, EnvironmentPath(p, name))})
  {
    hide HasPrefix, EnvironmentPath, ValidPath;
    var i := Find(es, name);
  }

  lemma AssignKeepsGood(p: Prims, s: State, row: WireRow)
    requires GoodState(p, s) && s.current.Some? && ValidPath(row.path) && (row.scope, row.path) !in s.seen
    requires Assign(p, s, row).Ok?
    ensures GoodState(p, Assign(p, s, row).value)
  {
    hide GoodPhase, Split, ValidPath, EnvironmentPath, HasPrefix, SetDotted, Put, GoodEnvironment, WellFormed;
    var phase := s.current.value;
    var layer := Layer(phase, row.scope);
    GoodLayerOf(p, phase, row.scope);
    if row.scope == Environment {
      PutEnvironment(p, layer, s.seen, row.source, row.value);
      GoodAfterLayer(p, phase, row.scope, Put(layer, row.source, Leaf(row.value)));
    } else {
      SplitGood(row.path);
      SetDottedWellFormed(layer, Split(row.path, '.'), row.value);
      GoodAfterLayer(p, phase, row.scope, SetDotted(layer, Split(row.path, '.'), row.value).value);
    }
  }

  lemma GoodLayerOf(p: Prims, phase: Phase, scope: Scope)
    requires GoodPhase(p, phase)
    ensures GoodLayer(p, scope, Layer(phase, scope))
  {
  }

  lemma LineKeepsGood(p: Prims, s: State, line: string)
    requires GoodState(p, s) && DecodeLine(p, s, line).Ok?
    ensures GoodState(p, DecodeLine(p, s, line).value)
    ensures DecodeLine(p, s, line).value.current.Some?
  {
    hide GoodPhase, Split, DecodeText, DecodeScalar, ValidPath, Assign, ParseScope, Noted;
    EmptyPhaseGood(p);
    var fields := Split(line, '\t');
    if !(|fields| == 2 && fields[0] == "phase") {
      var row := WireRow(ParseScope(fields[1]).value, DecodeText(p, fields[2]).value, DecodeText(p, fields[3]).value,
                         DecodeScalar(p, fields[4], fields[5]).value);
      AssignKeepsGood(p, s, row);
      AssignKeepsCurrent(p, s, row);
    }
  }

  lemma AssignKeepsCurrent(p: Prims, s: State, row: WireRow)
    requires s.current.Some? && ValidPath(row.path)
    ensures Assign(p, s, row).Ok? ==> Assign(p, s, row).value.current.Some?
  {
  }

  lemma EmptyPhaseGood(p: Prims)
    ensures GoodPhase(p, EmptyPhase()) && Noted(p, [], {})
  {
    forall scope ensures GoodLayer(p, scope, Layer(EmptyPhase(), scope)) {}
  }

  lemma {:induction false} LinesKeepGood(p: Prims, s: State, lines: seq<string>)
    requires GoodState(p, s) && DecodeLines(p, s, lines).Ok?
    ensures GoodState(p, DecodeLines(p, s, lines).value)
  {
    if lines != [] {
      hide GoodState, DecodeLine;
      var n := |lines| - 1;
      LinesKeepGood(p, s, lines[..n]);
      LineKeepsGood(p, DecodeLines(p, s, lines[..n]).value, lines[n]);
    }
  }

  /** The decoder returns only phases that its own encoding can spell. */
  lemma DecodedIsGood(p: Prims, raw: B.Bytes, maximum: int)
    requires Decode(p, raw, maximum).Ok?
    ensures GoodPhases(p, Decode(p, raw, maximum).value) && |raw| <= maximum
    ensures Encode(p, Decode(p, raw, maximum).value) == Ok(raw)
  {
    hide Encode, DecodeLines, GoodPhase, SplitLines, EndsWithNewline;
    var lines := SplitLines(p.fromUtf8(raw).value);
    LinesKeepGood(p, Start(), lines[1..]);
  }

  /** Decoding is exactly the inverse of encoding on good phases: a byte string is read as given phases if and only if
      these are good, the string is what the encoder writes for them, and it is within the limit. */
  lemma DecodesIff(p: Prims, raw: B.Bytes, maximum: int, phases: seq<Phase>)
    requires Lawful(p)
    ensures Decode(p, raw, maximum) == Ok(phases)
       <==> GoodPhases(p, phases) && Encode(p, phases) == Ok(raw) && |raw| <= maximum
  {
    hide Encode, Decode, GoodPhases, Lawful;
    if Decode(p, raw, maximum) == Ok(phases) { DecodedIsGood(p, raw, maximum); }
    if GoodPhases(p, phases) && Encode(p, phases) == Ok(raw) && |raw| <= maximum { RoundTrip(p, phases, maximum); }
  }

  // ---- The loops ----

  method EncodeConfigWire(p: Prims, phases: seq<Phase>) returns (r: Result<B.Bytes>)
    ensures r == Encode(p, phases)
  {
    hide EncodePhases, Terminated;
    var lines := EncodeAllPhases(p, phases);
    r := if lines.Err? then Err(lines.error) else Ok(p.utf8(Terminated([HEADER] + lines.value)));
  }

  method EncodeAllPhases(p: Prims, phases: seq<Phase>) returns (r: Result<seq<string>>)
    ensures r == EncodePhases(p, phases)
  {
    hide PhaseLine, EncodeLayers;
    var lines: seq<string> := [];
    for i := 0 to |phases|
      invariant EncodePhases(p, phases[..i]) == Ok(lines)
    {
      assert phases[..i + 1][..i] == phases[..i];
      var head := PhaseLine(p, i);
      if head.Err? {
        PrefixFails(p, phases, i + 1);
        return Err(head.error);
      }
      var body := EncodePhaseBody(p, phases[i]);
      if body.Err? {
        PrefixFails(p, phases, i + 1);
        return Err(body.error);
      }
      lines := lines + [head.value] + body.value;
    }
    assert phases[..|phases|] == phases;
    r := Ok(lines);
  }

  /** The first error is the error of the whole. */
  lemma {:induction false} PrefixFails(p: Prims, phases: seq<Phase>, n: nat)
    requires n <= |phases| && EncodePhases(p, phases[..n]).Err?
    ensures EncodePhases(p, phases) == Err(EncodePhases(p, phases[..n]).error)
  {
    hide EncodeLayers, PhaseLine;
    if n == |phases| {
      assert phases[..n] == phases;
    } else {
      var last := |phases| - 1;
      assert phases[..last][..n] == phases[..n];
      PrefixFails(p, phases[..last], n);
    }
  }

  method EncodePhaseBody(p: Prims, phase: Phase) returns (r: Result<seq<string>>)
    ensures r == EncodeLayers(p, phase, LAYER_ORDER)
  {
    hide RowsOfLayer, EncodeRow;
    var lines: seq<string> := [];
    for k := 0 to |LAYER_ORDER|
      invariant EncodeLayers(p, phase, LAYER_ORDER[..k]) == Ok(lines)
    {
      assert LAYER_ORDER[..k + 1][..k] == LAYER_ORDER[..k];
      var rows := RowsOfLayer(p, LAYER_ORDER[k], Layer(phase, LAYER_ORDER[k]));
      var encoded := EncodeAll(p, rows);
      if encoded.Err? {
        LayersFail(p, phase, k + 1);
        return Err(encoded.error);
      }
      lines := lines + encoded.value;
    }
    assert LAYER_ORDER[..|LAYER_ORDER|] == LAYER_ORDER;
    r := Ok(lines);
  }

  lemma {:induction false} LayersFail(p: Prims, phase: Phase, k: nat)
    requires k <= 5 && EncodeLayers(p, phase, LAYER_ORDER[..k]).Err?
    ensures EncodeLayers(p, phase, LAYER_ORDER) == Err(EncodeLayers(p, phase, LAYER_ORDER[..k]).error)
    decreases 5 - k
  {
    hide RowsOfLayer, EncodeRows;
    if k == 5 {
      assert LAYER_ORDER[..k] == LAYER_ORDER;
    } else {
      assert LAYER_ORDER[..k + 1][..k] == LAYER_ORDER[..k];
      LayersFail(p, phase, k + 1);
    }
  }

  method EncodeAll(p: Prims, rows: seq<WireRow>) returns (r: Result<seq<string>>)
    ensures r == EncodeRows(p, rows)
  {
    hide EncodeRow;
    var lines: seq<string> := [];
    for i := 0 to |rows|
      invariant EncodeRows(p, rows[..i]) == Ok(lines)
    {
      assert rows[..i + 1][..i] == rows[..i];
      var line := EncodeRow(p, rows[i]);
      if line.Err? {
        RowsFail(p, rows, i + 1);
        return Err(line.error);
      }
      lines := lines + [line.value];
    }
    assert rows[..|rows|] == rows;
    r := Ok(lines);
  }

  lemma {:induction false} RowsFail(p: Prims, rows: seq<WireRow>, n: nat)
    requires n <= |rows| && EncodeRows(p, rows[..n]).Err?
    ensures EncodeRows(p, rows) == Err(EncodeRows(p, rows[..n]).error)
  {
    hide EncodeRow;
    if n == |rows| {
      assert rows[..n] == rows;
    } else {
      var last := |rows| - 1;
      assert rows[..last][..n] == rows[..n];
      RowsFail(p, rows[..last], n);
    }
  }

  lemma {:induction false} LinesFail(p: Prims, s: State, lines: seq<string>, n: nat)
    requires n <= |lines| && DecodeLines(p, s, lines[..n]).Err?
    ensures DecodeLines(p, s, lines) == Err(DecodeLines(p, s, lines[..n]).error)
  {
    hide DecodeLine;
    if n == |lines| {
      assert lines[..n] == lines;
    } else {
      var last := |lines| - 1;
      assert lines[..last][..n] == lines[..n];
      LinesFail(p, s, lines[..last], n);
    }
  }

  /** The decoder's loop over the lines, and the canonicality test at the end. */
  method DecodeConfigWire(p: Prims, raw: B.Bytes, maximum: int) returns (r: Result<seq<Phase>>)
    ensures r == Decode(p, raw, maximum)
  {
    hide DecodeLine, Encode, SplitLines, EndsWithNewline;
    if |raw| > maximum {
      return Err(TooLarge);
    }
    var text := p.fromUtf8(raw);
    if text.None? {
      return Err(NotUtf8);
    }
    if !EndsWithNewline(text.value) {
      return Err(NotTerminated);
    }
    var lines := SplitLines(text.value);
    if lines == [] || lines[0] != HEADER {
      return Err(BadHeader);
    }
    var rest := lines[1..];
    var s := Start();
    for i := 0 to |rest|
      invariant DecodeLines(p, Start(), rest[..i]) == Ok(s)
    {
      assert rest[..i + 1][..i] == rest[..i];
      var next := DecodeLine(p, s, rest[i]);
      if next.Err? {
        LinesFail(p, Start(), rest, i + 1);
        return Err(next.error);
      }
      s := next.value;
    }
    assert rest[..|rest|] == rest;
    var phases := Finished(s);
    if phases == [] {
      return Err(NoPhases);
    }
    var again := EncodeConfigWire(p, phases);
    if again.Err? {
      return Err(again.error);
    }
    r := if again.value != raw then Err(NotCanonical) else Ok(phases);
  }
}
