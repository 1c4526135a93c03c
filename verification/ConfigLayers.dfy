/** Merging configuration layers: which layer decides the value at a path. */
module ConfigLayers {
  import opened ConfigTree
  import opened ConfigWire
  import WireText

  // ---- Merging ----

  /** `_deep_merge`: mappings merge into mappings, anything else replaces. */
  function Merge(a: Entries, b: Entries): Entries
    decreases b, 0
  {
    if b == [] then a
    else
      var last := b[|b| - 1];
      MergeEntry(Merge(a, b[..|b| - 1]), last.key, last.tree)
  }

  function MergeEntry(a: Entries, key: string, t: Tree): Entries
    decreases t, 1
  {
    var i := Find(a, key);
    match t
    case Leaf(_) => Put(a, key, t)
    case Dict(entries) => if i >= 0 && a[i].tree.Dict? then Put(a, key, Dict(Merge(a[i].tree.entries, entries)))
        else Put(a, key, t)
  }

  /** Keys are distinct at every level, as in any mapping. */
  ghost predicate UniqueKeys(es: Entries)
    decreases es
  {
    && (forall i, j :: 0 <= i < j < |es| ==> es[i].key != es[j].key)
    && (forall i :: 0 <= i < |es| ==> UniqueKeysTree(es[i].tree))
  }

  ghost predicate UniqueKeysTree(t: Tree)
    decreases t
  {
    t.Dict? ==> UniqueKeys(t.entries)
  }

  // ---- Looking up ----

  function TreeAt(es: Entries, key: string): Option<Tree> {
    var i := Find(es, key);
    if i == -1 then None else Some(es[i].tree)
  }

  /** The scalar at a path, if there is one. */
  function Get(es: Entries, path: Path): Option<Scalar>
    decreases |path|
  {
    if path == [] || TreeAt(es, path[0]).None? then None
    else
      match TreeAt(es, path[0]).value
      case Leaf(v) => if |path| == 1 then Some(v) else None
      case Dict(entries) => if |path| == 1 then None else Get(entries, path[1..])
  }

  /** A layer decides a path when it has anything at the path, or a scalar on the way to it. */
  predicate Decides(es: Entries, path: Path)
    decreases |path|
  {
    if path == [] || TreeAt(es, path[0]).None? then false
    else
      match TreeAt(es, path[0]).value
      case Leaf(_) => true
      case Dict(entries) => |path| == 1 || Decides(entries, path[1..])
  }

  lemma TreeAtPut(es: Entries, key: string, t: Tree, k: string)
    ensures TreeAt(Put(es, key, t), k) == if k == key then Some(t) else TreeAt(es, k)
  {
    var r := Put(es, key, t);
    var i, j := Find(es, key), Find(r, k);
    var m := Find(es, k);
    if k == key {
      assert r[if i == -1 then |es| else i].key == key;
    } else if m >= 0 {
      assert r[m].key == k;
    }
  }

  /** What merging makes of one key. */
  function Combined(old': Option<Tree>, t: Tree): Tree {
    if t.Dict? && old'.Some? && old'.value.Dict? then Dict(Merge(old'.value.entries, t.entries)) else t
  }

  lemma UniqueInit(es: Entries)
    requires UniqueKeys(es) && es != []
    ensures UniqueKeys(es[..|es| - 1]) && TreeAt(es[..|es| - 1], es[|es| - 1].key) == None
  {
  }

  lemma TreeAtLast(es: Entries, k: string)
    requires UniqueKeys(es) && es != []
    ensures TreeAt(es, k) == if k == es[|es| - 1].key then Some(es[|es| - 1].tree) else TreeAt(es[..|es| - 1], k)
  {
    hide Find;
    var n := |es| - 1;
    var init := es[..n];
    assert forall i, j :: 0 <= i < j < |es| ==> es[i].key != es[j].key;
    hide UniqueKeys;
    if k == es[n].key {
      assert Find(es, k) == n;
    } else {
      var j := Find(init, k);
      assert j >= 0 ==> es[j] == init[j];
      FindSame(es, init, k);
    }
  }

  lemma FindSame(es: Entries, init: Entries, k: string)
    requires |init| + 1 == |es| && init == es[..|init|] && es[|init|].key != k
    ensures Find(es, k) == Find(init, k)
  {
    hide Find;
    var i, j := Find(es, k), Find(init, k);
    assert j >= 0 ==> es[j].key == k;
    assert 0 <= i < |init| ==> init[i].key == k;
  }

  lemma {:induction false} TreeAtMerge(a: Entries, b: Entries, k: string)
    requires UniqueKeys(b)
    ensures TreeAt(Merge(a, b), k) == if TreeAt(b, k).None? then TreeAt(a, k)
        else Some(Combined(TreeAt(a, k), TreeAt(b, k).value))
    decreases |b|
  {
    if b != [] {
      var n := |b| - 1;
      var init, last := b[..n], b[n];
      UniqueInit(b);
      TreeAtLast(b, k);
      TreeAtMerge(a, init, k);
      TreeAtMerge(a, init, last.key);
      hide UniqueKeys, TreeAt, Put;
      MergeLast(a, b, k);
    }
  }

  lemma MergeLast(a: Entries, b: Entries, k: string)
    requires b != []
    ensures var last, m := b[|b| - 1], Merge(a, b[..|b| - 1]);
            TreeAt(Merge(a, b), k) == if k == last.key then Some(Combined(TreeAt(m, last.key), last.tree))
                else TreeAt(m, k)
  {
    var last, m := b[|b| - 1], Merge(a, b[..|b| - 1]);
    TreeAtPut(m, last.key, last.tree, k);
    TreeAtPut(m, last.key, Combined(TreeAt(m, last.key), last.tree), k);
  }

  lemma UniqueBelow(es: Entries, key: string)
    requires UniqueKeys(es) && TreeAt(es, key).Some? && TreeAt(es, key).value.Dict?
    ensures UniqueKeys(TreeAt(es, key).value.entries)
  {
    assert UniqueKeysTree(es[Find(es, key)].tree);
  }

  /** After a merge the merged layer's word counts wherever it decides, and the old value stands everywhere else. */
  lemma {:induction false} MergeGet(a: Entries, b: Entries, path: Path)
    requires UniqueKeys(b)
    ensures Get(Merge(a, b), path) == if Decides(b, path) then Get(b, path) else Get(a, path)
    decreases |path|
  {
    if path != [] {
      var k := path[0];
      TreeAtMerge(a, b, k);
      var old', new' := TreeAt(a, k), TreeAt(b, k);
      if new'.Some? && new'.value.Dict? {
        UniqueBelow(b, k);
        hide UniqueKeys, Merge, TreeAt;
        if old'.Some? && old'.value.Dict? { MergeGet(old'.value.entries, new'.value.entries, path[1..]); }
        else if |path| > 1 { UndecidedIsAbsent(new'.value.entries, path[1..]); }
      }
    }
  }

  lemma {:induction false} UndecidedIsAbsent(es: Entries, path: Path)
    ensures !Decides(es, path) ==> Get(es, path).None?
    decreases |path|
  {
    if path != [] && TreeAt(es, path[0]).Some? && TreeAt(es, path[0]).value.Dict? && |path| > 1 {
      UndecidedIsAbsent(TreeAt(es, path[0]).value.entries, path[1..]);
    }
  }

  // ---- Layers in order of precedence ----

  function MergeAll(base: Entries, layers: seq<Entries>): Entries {
    if layers == [] then base else Merge(MergeAll(base, layers[..|layers| - 1]), layers[|layers| - 1])
  }

  /** The value at a path is the one given by the last layer that decides it, or the default if none does. */
  lemma {:induction false} LastLayerDecides(base: Entries, layers: seq<Entries>, path: Path, k: nat)
    requires forall i :: 0 <= i < |layers| ==> UniqueKeys(layers[i])
    requires k <= |layers| && (forall i :: k <= i < |layers| ==> !Decides(layers[i], path))
    requires (k > 0 ==> Decides(layers[k - 1], path))
    ensures Get(MergeAll(base, layers), path) == if k > 0 then Get(layers[k - 1], path) else Get(base, path)
    decreases |layers|
  {
    hide UniqueKeys, Decides, Get, Merge;
    if layers != [] {
      var n := |layers| - 1;
      MergeGet(MergeAll(base, layers[..n]), layers[n], path);
      if k <= n { LastLayerDecides(base, layers[..n], path, k); }
    }
  }

  // ---- The environment layer ----

  function NonEmpty(parts: seq<string>): seq<string> {
    if parts == [] then [] else (if parts[0] == "" then [] else [parts[0]]) + NonEmpty(parts[1..])
  }

  /** `_normalize_layer` for the environment: each name sets its dotted path; None when a path is empty or runs into a
      scalar. */
  function NormalizeEnvironment(p: Prims, es: Entries): Option<Entries> {
    if es == [] then Some([])
    else
      var last := es[|es| - 1];
      match NormalizeEnvironment(p, es[..|es| - 1])
      case None => None
      case Some(done) =>
        var parts := NonEmpty(WireText.Split(EnvironmentPath(p, last.key), '.'));
        if parts == [] then None else SetDottedTree(done, parts, last.tree)
  }

  /** `_set_dotted` with any value, not only a scalar. */
  function SetDottedTree(es: Entries, path: Path, t: Tree): Option<Entries>
    requires path != []
    decreases |path|
  {
    if |path| == 1 then Some(Put(es, path[0], t))
    else
      var i := Find(es, path[0]);
      if i >= 0 && es[i].tree.Leaf? then None
      else
        match SetDottedTree(if i == -1 then [] else es[i].tree.entries, path[1..], t)
        case None => None
        case Some(child) => Some(Put(es, path[0], Dict(child)))
  }

  lemma UniquePut(es: Entries, key: string, t: Tree)
    requires UniqueKeys(es) && UniqueKeysTree(t)
    ensures UniqueKeys(Put(es, key, t))
  {
    var r := Put(es, key, t);
    forall j | 0 <= j < |r| ensures UniqueKeysTree(r[j].tree) {
      if j < |es| { assert UniqueKeysTree(es[j].tree); }
    }
  }

  lemma {:induction false} UniqueSetDotted(es: Entries, path: Path, t: Tree)
    requires UniqueKeys(es) && UniqueKeysTree(t) && path != []
    ensures SetDottedTree(es, path, t).Some? ==> UniqueKeys(SetDottedTree(es, path, t).value)
    decreases |path|
  {
    if SetDottedTree(es, path, t).Some? {
      if |path| == 1 {
        UniquePut(es, path[0], t);
      } else {
        var i := Find(es, path[0]);
        var child := if i == -1 then [] else es[i].tree.entries;
        assert i >= 0 ==> UniqueKeysTree(es[i].tree);
        UniqueSetDotted(child, path[1..], t);
        UniquePut(es, path[0], Dict(SetDottedTree(child, path[1..], t).value));
      }
    }
  }

  lemma {:induction false} UniqueEnvironment(p: Prims, es: Entries)
    requires forall i :: 0 <= i < |es| ==> UniqueKeysTree(es[i].tree)
    ensures NormalizeEnvironment(p, es).Some? ==> UniqueKeys(NormalizeEnvironment(p, es).value)
  {
    if es != [] && NormalizeEnvironment(p, es).Some? {
      var n := |es| - 1;
      UniqueEnvironment(p, es[..n]);
      hide UniqueKeys;
      UniqueSetDotted(NormalizeEnvironment(p, es[..n]).value,
                      NonEmpty(WireText.Split(EnvironmentPath(p, es[n].key), '.')), es[n].tree);
    } else {
      assert UniqueKeys([]);
    }
  }

  /** The layers of a phase in order of precedence; None when the environment cannot be normalized. */
  function NormalizedLayers(p: Prims, phase: Phase): Option<seq<Entries>> {
    var env := NormalizeEnvironment(p, phase.environment);
    if env.None? then None else Some([phase.user, phase.project, env.value, phase.session, phase.task])
  }

  /** Every layer of the phase is a mapping. */
  ghost predicate ProperPhase(phase: Phase) {
    && UniqueKeys(phase.user) && UniqueKeys(phase.project) && UniqueKeys(phase.session) && UniqueKeys(phase.task)
    && forall i :: 0 <= i < |phase.environment| ==> UniqueKeysTree(phase.environment[i].tree)
  }

  /** In a resolved phase, task beats session beats environment beats project beats user beats the defaults, path by
      path. */
  lemma PhasePrecedence(p: Prims, defaults: Entries, phase: Phase, path: Path, k: nat)
    requires ProperPhase(phase) && NormalizedLayers(p, phase).Some?
    requires var layers := NormalizedLayers(p, phase).value;
             k <= 5 && (forall i :: k <= i < 5 ==> !Decides(layers[i], path))
                 && (k > 0 ==> Decides(layers[k - 1], path))
    ensures var layers := NormalizedLayers(p, phase).value;
            Get(MergeAll(defaults, layers), path) == if k > 0 then Get(layers[k - 1], path) else Get(defaults, path)
  {
    hide UniqueKeys, Decides, Get, MergeAll, NormalizeEnvironment;
    UniqueEnvironment(p, phase.environment);
    LastLayerDecides(defaults, NormalizedLayers(p, phase).value, path, k);
  }
}
