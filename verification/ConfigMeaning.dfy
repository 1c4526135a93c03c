/** What is written on the wire, what a phase resolves to and what a plan decides, spelled out. */
module ConfigMeaning {
  import B = Bytes
  import opened WireText
  import opened ConfigTree
  import W = ConfigWire
  import opened ConfigLayers
  import opened ConfigPhases

  // ---- The wire ----

  lemma HexExample()
    ensures HexOf([0x0f, 0xa5]) == "0fa5"
  {
    assert [0x0f, 0xa5][1..] == [0xa5] && [0xa5][1..] == [];
    assert HexOf([]) == "";
    assert HexOf([0xa5]) == "a5";
  }

  /** The type code of a value and the text that stands for it. */
  ghost predicate IsScalarText(p: W.Prims, v: Scalar, code: string, raw: string) {
    match v
    case Null => code == "n" && raw == ""
    case Bool(b) => code == "b" && raw == (if b then "true" else "false")
    case Int(n) => code == "i" && p.intText(n) == Some(raw)
    case Float(bits) => code == "f" && p.finite(bits) && raw == p.floatText(bits)
    case Str(s) => code == "s" && raw == s
    case NotScalar => false
  }

  ghost predicate IsScopeText(scope: W.Scope, text: string) {
    match scope
    case User => text == "user"
    case Project => text == "project"
    case Environment => text == "environment"
    case Session => text == "session"
    case Task => text == "task"
  }

  /** An assignment takes one line of six fields between tabs: the letter a, the scope, source and dotted path, the type
      code and the text of the value; source, path and text are hexadecimal UTF-8. */
  lemma LineIs(p: W.Prims, row: W.WireRow) returns (scope: string, code: string, raw: string)
    requires W.EncodeRow(p, row).Ok?
    ensures IsScopeText(row.scope, scope) && IsScalarText(p, row.value, code, raw)
    ensures W.EncodeRow(p, row).value
         == "a\t" + scope + "\t" + HexOf(p.utf8(row.source)) + "\t" + HexOf(p.utf8(row.path)) + "\t" + code + "\t"
            + HexOf(p.utf8(raw))
  {
    hide HexOf;
    var v := W.EncodeScalar(p, row.value).value;
    scope, code, raw := W.ScopeName(row.scope), v.0, v.1;
    var source, path, text := HexOf(p.utf8(row.source)), HexOf(p.utf8(row.path)), HexOf(p.utf8(raw));
    SixFields("a", scope, source, path, code, text);
    assert "a" + "\t" == "a\t";
  }

  lemma SixFields(a: string, b: string, c: string, d: string, e: string, f: string)
    ensures Join([a, b, c, d, e, f], '\t')
         == a + "\t" + b + "\t" + c + "\t" + d + "\t" + e + "\t" + f
  {
    assert [a, b, c, d, e, f][1..] == [b, c, d, e, f] && [b, c, d, e, f][1..] == [c, d, e, f];
    assert [c, d, e, f][1..] == [d, e, f] && [d, e, f][1..] == [e, f] && [e, f][1..] == [f];
    assert Join([f], '\t') == f;
    assert Join([e, f], '\t') == e + "\t" + f;
    assert Join([d, e, f], '\t') == d + "\t" + (e + "\t" + f);
    assert Join([c, d, e, f], '\t') == c + "\t" + (d + "\t" + (e + "\t" + f));
    assert Join([b, c, d, e, f], '\t') == b + "\t" + (c + "\t" + (d + "\t" + (e + "\t" + f)));
  }

  /** The sources: fixed ones for four of the layers, and for the environment the variable's full name. */
  lemma SourcesAre(p: W.Prims, scope: W.Scope, es: Entries, i: nat)
    requires i < |W.RowsOfLayer(p, scope, es)|
    ensures var row := W.RowsOfLayer(p, scope, es)[i];
            && row.scope == scope
            && (scope == W.User ==> row.source == "user-config")
            && (scope == W.Project ==> row.source == "project-config")
            && (scope == W.Session ==> row.source == "session-override")
            && (scope == W.Task ==> row.source == "task-override")
            && (scope == W.Environment && "SYNTAVRA_CFG__" <= es[i].key ==>
                  row.source == es[i].key && row.path == W.DotsForUnderscores(p.casefold(es[i].key[14..])))
  {
    hide W.Flatten;
    assert |"SYNTAVRA_CFG__"| == 14;
  }

  lemma UnderscoreExample()
    ensures W.DotsForUnderscores("a__b_c") == "a.b_c"
    ensures W.DotsForUnderscores("___d") == "._d"
  {
    assert "a__b_c"[1..] == "__b_c" && "__b_c"[2..] == "b_c" && "b_c"[1..] == "_c" && "_c"[1..] == "c";
    assert W.DotsForUnderscores("_c") == "_c";
    assert W.DotsForUnderscores("b_c") == "b_c";
    assert W.DotsForUnderscores("__b_c") == ".b_c";
    assert "___d"[2..] == "_d" && "_d"[1..] == "d";
    assert W.DotsForUnderscores("_d") == "_d";
  }

  /** The block of a phase: its numbered head, then one line for every row of the user, project, environment, session
      and task layers, in this order. */
  ghost predicate IsBlock(p: W.Prims, phase: W.Phase, i: nat, block: seq<string>) {
    var rows := W.RowsOfLayer(p, W.User, phase.user) + W.RowsOfLayer(p, W.Project, phase.project)
                + W.RowsOfLayer(p, W.Environment, phase.environment) + W.RowsOfLayer(p, W.Session, phase.session)
                + W.RowsOfLayer(p, W.Task, phase.task);
    && p.intText(i).Some? && |block| == 1 + |rows| && block[0] == "phase\t" + p.intText(i).value
    && forall k :: 0 <= k < |rows| ==> W.EncodeRow(p, rows[k]) == W.Ok(block[1 + k])
  }

  ghost function Concatenated(blocks: seq<seq<string>>): seq<string> {
    if blocks == [] then [] else Concatenated(blocks[..|blocks| - 1]) + blocks[|blocks| - 1]
  }

  lemma {:induction false} RowLines(p: W.Prims, rows: seq<W.WireRow>)
    requires W.EncodeRows(p, rows).Ok?
    ensures |W.EncodeRows(p, rows).value| == |rows|
    ensures forall k :: 0 <= k < |rows| ==> W.EncodeRow(p, rows[k]) == W.Ok(W.EncodeRows(p, rows).value[k])
  {
    hide W.EncodeRow;
    if rows != [] { RowLines(p, rows[..|rows| - 1]); }
  }

  lemma FiveLayers(p: W.Prims, phase: W.Phase) returns (a: seq<string>, b: seq<string>, c: seq<string>, d: seq<string>,
                                                        e: seq<string>)
    requires W.EncodeLayers(p, phase, W.LAYER_ORDER).Ok?
    ensures W.EncodeRows(p, W.RowsOfLayer(p, W.User, phase.user)) == W.Ok(a)
    ensures W.EncodeRows(p, W.RowsOfLayer(p, W.Project, phase.project)) == W.Ok(b)
    ensures W.EncodeRows(p, W.RowsOfLayer(p, W.Environment, phase.environment)) == W.Ok(c)
    ensures W.EncodeRows(p, W.RowsOfLayer(p, W.Session, phase.session)) == W.Ok(d)
    ensures W.EncodeRows(p, W.RowsOfLayer(p, W.Task, phase.task)) == W.Ok(e)
    ensures W.EncodeLayers(p, phase, W.LAYER_ORDER).value == a + b + c + d + e
  {
    hide W.EncodeRows, W.RowsOfLayer;
    var all := W.LAYER_ORDER;
    assert all[..5] == all && all[..5][..4] == all[..4] && all[..4][..3] == all[..3] && all[..3][..2] == all[..2];
    assert all[..2][..1] == all[..1] && all[..1][..0] == [];
    e := OneLayer(p, phase, all[..5]);
    d := OneLayer(p, phase, all[..4]);
    c := OneLayer(p, phase, all[..3]);
    b := OneLayer(p, phase, all[..2]);
    a := OneLayer(p, phase, all[..1]);
    assert W.EncodeLayers(p, phase, []) == W.Ok([]);
    assert [] + a == a;
  }

  lemma OneLayer(p: W.Prims, phase: W.Phase, scopes: seq<W.Scope>) returns (lines: seq<string>)
    requires scopes != [] && W.EncodeLayers(p, phase, scopes).Ok?
    ensures var n := |scopes| - 1;
            && W.EncodeLayers(p, phase, scopes[..n]).Ok?
            && W.EncodeRows(p, W.RowsOfLayer(p, scopes[n], W.Layer(phase, scopes[n]))) == W.Ok(lines)
            && W.EncodeLayers(p, phase, scopes).value == W.EncodeLayers(p, phase, scopes[..n]).value + lines
  {
    hide W.EncodeRows, W.RowsOfLayer;
    var n := |scopes| - 1;
    lines := W.EncodeRows(p, W.RowsOfLayer(p, scopes[n], W.Layer(phase, scopes[n]))).value;
  }

  lemma BlockIs(p: W.Prims, phase: W.Phase, i: nat)
    requires W.PhaseLine(p, i).Ok? && W.EncodeLayers(p, phase, W.LAYER_ORDER).Ok?
    ensures IsBlock(p, phase, i, [W.PhaseLine(p, i).value] + W.EncodeLayers(p, phase, W.LAYER_ORDER).value)
  {
    hide W.EncodeRows, W.RowsOfLayer, W.EncodeLayers, W.EncodeRow;
    var a, b, c, d, e := FiveLayers(p, phase);
    RowLines(p, W.RowsOfLayer(p, W.User, phase.user));
    RowLines(p, W.RowsOfLayer(p, W.Project, phase.project));
    RowLines(p, W.RowsOfLayer(p, W.Environment, phase.environment));
    RowLines(p, W.RowsOfLayer(p, W.Session, phase.session));
    RowLines(p, W.RowsOfLayer(p, W.Task, phase.task));
  }

  lemma {:induction false} BlocksOf(p: W.Prims, phases: seq<W.Phase>) returns (blocks: seq<seq<string>>)
    requires W.EncodePhases(p, phases).Ok?
    ensures |blocks| == |phases| && W.EncodePhases(p, phases).value == Concatenated(blocks)
    ensures forall i :: 0 <= i < |phases| ==> IsBlock(p, phases[i], i, blocks[i])
  {
    hide W.EncodeLayers, IsBlock, W.PhaseLine;
    blocks := [];
    if phases != [] {
      var n := |phases| - 1;
      var before := BlocksOf(p, phases[..n]);
      BlockIs(p, phases[n], n);
      var block := [W.PhaseLine(p, n).value] + W.EncodeLayers(p, phases[n], W.LAYER_ORDER).value;
      blocks := before + [block];
      assert blocks[..n] == before;
    }
  }

  /** A wire is the UTF-8 text of the header line and the blocks of the phases, every line ended by a newline. */
  lemma EncodeIs(p: W.Prims, phases: seq<W.Phase>) returns (blocks: seq<seq<string>>)
    requires W.Encode(p, phases).Ok?
    ensures |blocks| == |phases| && W.Encode(p, phases).value == p.utf8(Terminated(["R6CFG1"] + Concatenated(blocks)))
    ensures forall i :: 0 <= i < |phases| ==> IsBlock(p, phases[i], i, blocks[i])
  {
    hide W.EncodePhases, IsBlock, Concatenated, Terminated;
    blocks := BlocksOf(p, phases);
  }

  // ---- The environment ----

  /** After setting a scalar at a path, that path holds it, nothing lies below it, and all else is as before. */
  lemma {:induction false} SetDottedGet(es: Entries, path: Path, v: Scalar, q: Path)
    requires path != [] && SetDottedTree(es, path, Leaf(v)).Some?
    ensures Get(SetDottedTree(es, path, Leaf(v)).value, q)
         == if q == path then Some(v) else if path <= q then None else Get(es, q)
    decreases |path|
  {
    hide Find, Put;
    if q != [] {
      if |path| == 1 {
        TreeAtPut(es, path[0], Leaf(v), q[0]);
        assert q == [q[0]] + q[1..] && path == [path[0]];
      } else {
        var i := Find(es, path[0]);
        var below := if i == -1 then [] else es[i].tree.entries;
        var child := SetDottedTree(below, path[1..], Leaf(v)).value;
        TreeAtPut(es, path[0], Dict(child), q[0]);
        assert path == [path[0]] + path[1..] && q == [q[0]] + q[1..];
        if q[0] == path[0] {
          SetDottedGet(below, path[1..], v, q[1..]);
          NothingBelow(q[1..]);
        }
      }
    }
  }

  lemma NothingBelow(q: Path)
    ensures Get([], q) == None
  {
  }

  function PartsOf(p: W.Prims, name: string): Path { NonEmpty(Split(W.EnvironmentPath(p, name), '.')) }

  /** The normalized environment holds the value of the last variable whose path begins the one asked for, if it is that
      very path, and nothing otherwise. */
  lemma {:induction false} EnvironmentMeaning(p: W.Prims, es: Entries, q: Path, k: nat)
    requires NormalizeEnvironment(p, es).Some? && forall i :: 0 <= i < |es| ==> es[i].tree.Leaf?
    requires k <= |es| && (forall i :: k <= i < |es| ==> !(PartsOf(p, es[i].key) <= q))
    requires k > 0 ==> PartsOf(p, es[k - 1].key) <= q
    ensures Get(NormalizeEnvironment(p, es).value, q)
         == if k > 0 && PartsOf(p, es[k - 1].key) == q then Some(es[k - 1].tree.value) else None
  {
    hide Get, SetDottedTree, W.EnvironmentPath, Split;
    if es == [] {
      NothingBelow(q);
    } else {
      var n := |es| - 1;
      SetDottedGet(NormalizeEnvironment(p, es[..n]).value, PartsOf(p, es[n].key), es[n].tree.value, q);
      if k <= n { EnvironmentMeaning(p, es[..n], q, k); }
    }
  }

  // ---- Phases ----

  /** A phase resolves exactly when its environment can be normalized and the validator accepts the values that the
      layers make of the defaults. */
  lemma ResolvedIff(p: W.Prims, schema: Schema, phase: W.Phase)
    ensures NormalizeEnvironment(p, phase.environment).None? ==>
              ResolvePhase(p, schema, phase) == Failed("ConfigError")
    ensures NormalizeEnvironment(p, phase.environment).Some? ==>
              var env := NormalizeEnvironment(p, phase.environment).value;
              var values := MergeAll(schema.defaults, [phase.user, phase.project, env, phase.session, phase.task]);
              ResolvePhase(p, schema, phase) == match schema.validate(values)
                                                case None => Resolved(values)
                                                case Some(kind) => Failed(kind)
  {
    hide MergeAll, NormalizeEnvironment;
  }

  /** At every path a resolved phase holds what the strongest layer that has a say gives: task before session before
      environment before project before user before the defaults. */
  lemma ResolvedValue(p: W.Prims, schema: Schema, phase: W.Phase, path: Path)
    requires ProperPhase(phase) && ResolvePhase(p, schema, phase).Resolved?
    ensures var env := NormalizeEnvironment(p, phase.environment);
            && env.Some?
            && Get(ResolvePhase(p, schema, phase).values, path)
                 == if Decides(phase.task, path) then Get(phase.task, path)
                    else if Decides(phase.session, path) then Get(phase.session, path)
                    else if Decides(env.value, path) then Get(env.value, path)
                    else if Decides(phase.project, path) then Get(phase.project, path)
                    else if Decides(phase.user, path) then Get(phase.user, path)
                    else Get(schema.defaults, path)
  {
    hide MergeAll, NormalizeEnvironment, Get, Decides, UniqueKeys;
    var env := NormalizeEnvironment(p, phase.environment).value;
    PhasePrecedence(p, schema.defaults, phase, path,
                    if Decides(phase.task, path) then 5 else if Decides(phase.session, path) then 4
                    else if Decides(env, path) then 3 else if Decides(phase.project, path) then 2
                    else if Decides(phase.user, path) then 1 else 0);
  }

  // ---- Plans ----

  /** Which error a plan is rejected with, for every input; the wire is not looked at before the project agrees, and may
      take 262144 bytes. */
  lemma PlanIff(p: W.Prims, schema: Schema, out: Output, expected: string, root: Root, wire: B.Bytes)
    ensures var plan := PlanOf(p, schema, out, expected, root, wire);
            var proper := |expected| == 64 && forall c :: c in expected ==> '0' <= c <= '9' || 'a' <= c <= 'f';
            && (plan == Rejected(ExpectedProjectInvalid) <==> !proper)
            && (plan == Rejected(WireTooLarge) <==> proper && |wire| > 262144)
            && (forall code :: plan == Rejected(RootUnusable(code)) <==>
                  proper && |wire| <= 262144 && root == Unusable(code))
            && (plan == Rejected(ProjectMismatch)
                <==> proper && |wire| <= 262144 && root.Identified? && root.project != expected)
            && (Agrees(expected, root, wire) <==> proper && |wire| <= 262144 && root == Identified(expected))
    ensures var plan, decoded := PlanOf(p, schema, out, expected, root, wire), W.Decode(p, wire, 262144);
            var agrees := Agrees(expected, root, wire);
            && (plan == Rejected(WireInvalid) <==> agrees && decoded.Err?)
            && (plan == Rejected(EphemeralScope) <==> agrees && decoded.Ok? && !Lasting(decoded.value))
            && (plan == Rejected(ConfigInvalid)
                <==> agrees && decoded.Ok? && Lasting(decoded.value)
                     && (decoded.value == [] || ResolvePhase(p, schema, decoded.value[0]).Failed?))
            && (plan.Planned?
                <==> agrees && decoded.Ok? && Lasting(decoded.value) && decoded.value != []
                     && ResolvePhase(p, schema, decoded.value[0]).Resolved?)
  {
    hide W.Decode, ResolveAll, ResolvePhase;
    HexText(expected);
    var decoded := W.Decode(p, wire, MAX_WIRE);
    if decoded.Ok? { var k := ResolveMeaning(p, schema, decoded.value); }
    hide LowerHex64;
  }

  ghost predicate Agrees(expected: string, root: Root, wire: B.Bytes) {
    && |expected| == 64 && (forall c :: c in expected ==> '0' <= c <= '9' || 'a' <= c <= 'f')
    && |wire| <= 262144 && root == Identified(expected)
  }

  /** No phase has session or task values. */
  ghost predicate Lasting(phases: seq<W.Phase>) {
    forall i :: 0 <= i < |phases| ==> phases[i].session == [] && phases[i].task == []
  }

  lemma HexText(s: string)
    ensures LowerHex64(s) <==> |s| == 64 && forall c :: c in s ==> '0' <= c <= '9' || 'a' <= c <= 'f'
  {
    forall c ensures c in DIGITS <==> '0' <= c <= '9' || 'a' <= c <= 'f' { DigitIff(c); }
  }

  lemma DigitIff(c: char)
    ensures c in DIGITS <==> '0' <= c <= '9' || 'a' <= c <= 'f'
  {
    assert DIGITS[0] == '0' && DIGITS[1] == '1' && DIGITS[2] == '2' && DIGITS[3] == '3' && DIGITS[4] == '4';
    assert DIGITS[5] == '5' && DIGITS[6] == '6' && DIGITS[7] == '7' && DIGITS[8] == '8' && DIGITS[9] == '9';
    assert DIGITS[10] == 'a' && DIGITS[11] == 'b' && DIGITS[12] == 'c' && DIGITS[13] == 'd' && DIGITS[14] == 'e';
    assert DIGITS[15] == 'f' && |DIGITS| == 16;
    if '0' <= c <= '9' { assert c == DIGITS[c as int - '0' as int]; }
    if 'a' <= c <= 'f' { assert c == DIGITS[c as int - 'a' as int + 10]; }
  }
}
