/** Nested configuration mappings, their flattened rows, and setting a dotted path. */
module ConfigTree {
  import opened Ordering

  /** A 64-bit float by its bit pattern. */
  type FloatBits = int

  datatype Scalar = Null | Bool(b: bool) | Int(n: int) | Float(bits: FloatBits) | Str(s: string) | NotScalar

  /** A value of a mapping: a scalar, or a mapping in insertion order. */
  datatype Tree = Leaf(value: Scalar) | Dict(entries: seq<Entry>)
  datatype Entry = Entry(key: string, tree: Tree)

  type Entries = seq<Entry>
  type Path = seq<string>

  datatype Row = Row(path: Path, value: Scalar)

  /** A mapping that dotted paths can spell: keys are nonempty, free of dots and distinct, and no nested mapping is
      empty. */
  ghost predicate WellFormed(es: Entries)
    decreases es
  {
    && (forall i :: 0 <= i < |es| ==> GoodKey(es[i].key))
    && (forall i, j :: 0 <= i < j < |es| ==> es[i].key != es[j].key)
    && (forall i :: 0 <= i < |es| ==> WellFormedTree(es[i].tree))
  }

  ghost predicate WellFormedTree(t: Tree)
    decreases t
  {
    t.Leaf? || (t.entries != [] && WellFormed(t.entries))
  }

  predicate GoodKey(key: string) { key != "" && '.' !in key }

  // ---- Rows ----

  function Prefixed(key: string, rows: seq<Row>): (r: seq<Row>)
    ensures |r| == |rows| && forall i :: 0 <= i < |r| ==> r[i] == Row([key] + rows[i].path, rows[i].value)
  {
    seq(|rows|, i requires 0 <= i < |rows| => Row([key] + rows[i].path, rows[i].value))
  }

  /** The leaves of a mapping in order, each with the keys that lead to it. */
  function Rows(es: Entries): seq<Row>
    decreases es, 0
  {
    if es == [] then []
    else
      var last := es[|es| - 1];
      Rows(es[..|es| - 1]) + TreeRows(last.key, last.tree)
  }

  function TreeRows(key: string, t: Tree): seq<Row>
    decreases t, 1
  {
    match t
    case Leaf(v) => [Row([key], v)]
    case Dict(entries) => Prefixed(key, Rows(entries))
  }

  // ---- Updating ----

  function Find(es: Entries, key: string): (i: int)
    ensures -1 <= i < |es|
    ensures i >= 0 ==> es[i].key == key && forall j :: 0 <= j < i ==> es[j].key != key
    ensures i == -1 ==> forall j :: 0 <= j < |es| ==> es[j].key != key
  {
    if es == [] then -1
    else if es[0].key == key then 0
    else
      var i := Find(es[1..], key);
      assert forall j :: 1 <= j < |es| ==> es[j] == es[1..][j - 1];
      if i == -1 then -1 else i + 1
  }

  /** `d[key] = value` on an ordered mapping. */
  function Put(es: Entries, key: string, t: Tree): Entries {
    var i := Find(es, key);
    if i == -1 then es + [Entry(key, t)] else es[i := Entry(key, t)]
  }

  datatype Option<T> = None | Some(value: T)

  /** `_set_dotted`: None when the path runs into a scalar. */
  function SetDotted(es: Entries, path: Path, v: Scalar): Option<Entries>
    requires path != []
    decreases |path|
  {
    if |path| == 1 then Some(Put(es, path[0], Leaf(v)))
    else
      var i := Find(es, path[0]);
      if i >= 0 && es[i].tree.Leaf? then None
      else
        match SetDotted(if i == -1 then [] else es[i].tree.entries, path[1..], v)
        case None => None
        case Some(child) => Some(Put(es, path[0], Dict(child)))
  }

  function SetRows(es: Entries, rows: seq<Row>): Option<Entries>
  {
    if rows == [] then Some(es)
    else
      match SetRows(es, rows[..|rows| - 1])
      case None => None
      case Some(m) => if rows[|rows| - 1].path == [] then None
          else SetDotted(m, rows[|rows| - 1].path, rows[|rows| - 1].value)
  }

  // ---- Setting the rows of a mapping rebuilds it ----

  lemma {:induction false} SetRowsConcat(es: Entries, a: seq<Row>, b: seq<Row>)
    ensures SetRows(es, a + b) == if SetRows(es, a).None? then None else SetRows(SetRows(es, a).value, b)
  {
    if b == [] {
      assert a + b == a;
    } else {
      var n := |b| - 1;
      assert (a + b)[..|a + b| - 1] == a + b[..n];
      SetRowsConcat(es, a, b[..n]);
    }
  }

  lemma FindAppended(es: Entries, key: string, t: Tree)
    requires Find(es, key) == -1
    ensures Find(es + [Entry(key, t)], key) == |es|
  {
    var more := es + [Entry(key, t)];
    var i := Find(more, key);
    assert more[|es|].key == key;
  }

  /** The first row under a new key, and every later one. */
  lemma SetBelowNew(es: Entries, key: string, path: Path, v: Scalar)
    requires Find(es, key) == -1 && path != []
    ensures SetDotted([], path, v).Some? ==>
              SetDotted(es, [key] + path, v) == Some(es + [Entry(key, Dict(SetDotted([], path, v).value))])
  {
    assert ([key] + path)[1..] == path;
  }

  lemma SetBelow(es: Entries, key: string, below: Entries, path: Path, v: Scalar)
    requires Find(es, key) == -1 && path != []
    ensures SetDotted(below, path, v).Some? ==>
              SetDotted(es + [Entry(key, Dict(below))], [key] + path, v)
                  == Some(es + [Entry(key, Dict(SetDotted(below, path, v).value))])
  {
    assert ([key] + path)[1..] == path;
    var m := es + [Entry(key, Dict(below))];
    FindAppended(es, key, Dict(below));
    assert forall t :: m[|es| := Entry(key, t)] == es + [Entry(key, t)];
  }

  /** Rows under one new key build the nested mapping and leave the rest alone. */
  lemma {:induction false} SetPrefixed(es: Entries, key: string, rows: seq<Row>)
    requires Find(es, key) == -1 && rows != [] && forall i :: 0 <= i < |rows| ==> rows[i].path != []
    ensures SetRows([], rows).Some? ==>
              SetRows(es, Prefixed(key, rows)) == Some(es + [Entry(key, Dict(SetRows([], rows).value))])
  {
    hide SetDotted, Find;
    var n := |rows| - 1;
    var all, last := Prefixed(key, rows), rows[n];
    assert all[..n] == Prefixed(key, rows[..n]);
    assert all[n] == Row([key] + last.path, last.value);
    if SetRows([], rows).Some? {
      if n == 0 {
        assert SetRows(es, all[..n]) == Some(es);
        assert SetRows([], rows[..n]) == Some([]);
        SetBelowNew(es, key, last.path, last.value);
      } else {
        SetPrefixed(es, key, rows[..n]);
        SetBelow(es, key, SetRows([], rows[..n]).value, last.path, last.value);
      }
    }
  }

  lemma {:induction false} RowsHavePaths(es: Entries)
    ensures forall i :: 0 <= i < |Rows(es)| ==> Rows(es)[i].path != []
    decreases es
  {
    if es != [] {
      RowsHavePaths(es[..|es| - 1]);
    }
  }

  lemma {:induction false} RowsNonempty(es: Entries)
    requires WellFormed(es) && es != []
    ensures Rows(es) != []
    decreases es
  {
    var last := es[|es| - 1];
    assert WellFormedTree(last.tree);
    if last.tree.Dict? { RowsNonempty(last.tree.entries); }
  }

  lemma WellFormedPrefix(es: Entries, n: nat)
    requires WellFormed(es) && n <= |es|
    ensures WellFormed(es[..n])
  {
  }

  lemma KeyIsNew(es: Entries, n: nat)
    requires WellFormed(es) && n < |es|
    ensures Find(es[..n], es[n].key) == -1
  {
  }

  lemma LastIsGood(es: Entries, n: nat)
    requires WellFormed(es) && |es| == n + 1
    ensures Find(es[..n], es[n].key) == -1 && WellFormedTree(es[n].tree)
  {
    hide WellFormedTree;
    KeyIsNew(es, n);
  }

  lemma SetTreeRows(es: Entries, key: string, t: Tree)
    requires Find(es, key) == -1 && WellFormedTree(t)
    requires t.Dict? ==> SetRows([], Rows(t.entries)) == Some(t.entries)
    ensures SetRows(es, TreeRows(key, t)) == Some(es + [Entry(key, t)])
  {
    match t {
      case Leaf(v) =>
        var row := [Row([key], v)];
        assert row[..0] == [] && SetRows(es, row[..0]) == Some(es);
      case Dict(entries) =>
        hide WellFormed, SetRows;
        RowsHavePaths(entries);
        RowsNonempty(entries);
        SetPrefixed(es, key, Rows(entries));
    }
  }

  lemma RowsOfPrefix(es: Entries, n: nat)
    requires |es| == n + 1
    ensures Rows(es) == Rows(es[..n]) + TreeRows(es[n].key, es[n].tree)
  {
  }

  lemma NoRows(es: Entries)
    ensures es == [] ==> SetRows([], Rows(es)) == Some(es)
  {
  }

  lemma {:induction false} SetLastRows(es: Entries, n: nat)
    requires WellFormed(es) && |es| == n + 1 && SetRows([], Rows(es[..n])) == Some(es[..n])
    requires es[n].tree.Dict? ==> SetRows([], Rows(es[n].tree.entries)) == Some(es[n].tree.entries)
    ensures SetRows([], Rows(es)) == Some(es)
  {
    hide WellFormed, WellFormedTree, TreeRows, SetRows, Rows, Find;
    var init, last := es[..n], es[n];
    LastIsGood(es, n);
    RowsOfPrefix(es, n);
    SetRowsConcat([], Rows(init), TreeRows(last.key, last.tree));
    SetTreeRows(init, last.key, last.tree);
    assert es == init + [last];
  }

  /** Flattening a well-formed mapping and setting its rows one by one gives the mapping back, order included. */
  lemma {:induction false} SetRowsOfRows(es: Entries)
    requires WellFormed(es)
    ensures SetRows([], Rows(es)) == Some(es)
    decreases es
  {
    NoRows(es);
    if es != [] {
      var n := |es| - 1;
      WellFormedPrefix(es, n);
      assert WellFormedTree(es[n].tree);
      hide WellFormed, SetRows, Rows;
      SetRowsOfRows(es[..n]);
      if es[n].tree.Dict? { SetRowsOfRows(es[n].tree.entries); }
      SetLastRows(es, n);
    }
  }

  // ---- Rows of a well-formed mapping are good and distinct ----

  ghost predicate GoodPath(p: Path) { p != [] && forall i :: 0 <= i < |p| ==> GoodKey(p[i]) }

  lemma {:induction false} RowsGood(es: Entries)
    requires WellFormed(es)
    ensures forall r :: r in Rows(es) ==> GoodPath(r.path)
    ensures forall r :: r in Rows(es) ==> r.path != [] && Find(es, r.path[0]) >= 0
    decreases es
  {
    if es != [] {
      var n := |es| - 1;
      var init, last := es[..n], es[n];
      WellFormedPrefix(es, n);
      assert WellFormedTree(last.tree) && GoodKey(last.key);
      hide WellFormed;
      RowsGood(init);
      if last.tree.Dict? { RowsGood(last.tree.entries); }
      TreeRowsGood(last.key, last.tree);
      forall r | r in Rows(es) ensures GoodPath(r.path) && Find(es, r.path[0]) >= 0 {
        if r in Rows(init) {
          var i := Find(init, r.path[0]);
          assert es[i].key == r.path[0];
        } else {
          assert r in TreeRows(last.key, last.tree);
          assert r.path[0] == es[n].key;
        }
      }
    }
  }

  lemma TreeRowsGood(key: string, t: Tree)
    requires GoodKey(key) && (t.Dict? ==> forall r :: r in Rows(t.entries) ==> GoodPath(r.path))
    ensures forall r :: r in TreeRows(key, t) ==> GoodPath(r.path) && r.path[0] == key
  {
    forall r | r in TreeRows(key, t) ensures GoodPath(r.path) && r.path[0] == key {
      if t.Dict? {
        var k := IndexOf(TreeRows(key, t), r);
        var inner := Rows(t.entries)[k];
        assert inner in Rows(t.entries) && r.path == [key] + inner.path;
      }
    }
  }

  ghost predicate DistinctPaths(rows: seq<Row>) {
    forall i, j :: 0 <= i < j < |rows| ==> rows[i].path != rows[j].path
  }

  lemma PrefixedDistinct(key: string, rows: seq<Row>)
    requires DistinctPaths(rows)
    ensures DistinctPaths(Prefixed(key, rows))
  {
    var p := Prefixed(key, rows);
    forall i, j | 0 <= i < j < |p| ensures p[i].path != p[j].path {
      assert p[i].path[1..] == rows[i].path && p[j].path[1..] == rows[j].path;
    }
  }

  lemma {:induction false} RowsDistinct(es: Entries)
    requires WellFormed(es)
    ensures DistinctPaths(Rows(es))
    decreases es
  {
    if es != [] {
      var n := |es| - 1;
      var init, last := es[..n], es[n];
      WellFormedPrefix(es, n);
      RowsDistinct(init);
      RowsGood(init);
      assert WellFormedTree(last.tree);
      var a, b := Rows(init), TreeRows(last.key, last.tree);
      if last.tree.Dict? {
        RowsDistinct(last.tree.entries);
        PrefixedDistinct(last.key, Rows(last.tree.entries));
      }
      assert DistinctPaths(b);
      forall i, j | 0 <= i < |a| && 0 <= j < |b| ensures a[i].path != b[j].path {
        assert a[i] in a && b[j].path[0] == last.key;
        var k := Find(init, a[i].path[0]);
        assert es[k].key == a[i].path[0] && es[n].key == last.key;
      }
    }
  }

  // ---- Setting keeps a mapping well formed ----

  lemma PutWellFormed(es: Entries, key: string, t: Tree)
    requires WellFormed(es) && GoodKey(key) && WellFormedTree(t)
    ensures WellFormed(Put(es, key, t)) && Put(es, key, t) != []
  {
    var i := Find(es, key);
    var r := Put(es, key, t);
    forall j | 0 <= j < |r| ensures WellFormedTree(r[j].tree) && GoodKey(r[j].key) {
      if j < |es| { assert WellFormedTree(es[j].tree) && GoodKey(es[j].key); }
    }
  }

  lemma {:induction false} SetDottedWellFormed(es: Entries, path: Path, v: Scalar)
    requires WellFormed(es) && GoodPath(path)
    ensures SetDotted(es, path, v).Some? ==>
              WellFormed(SetDotted(es, path, v).value) && SetDotted(es, path, v).value != []
    decreases |path|
  {
    if SetDotted(es, path, v).Some? {
      if |path| == 1 {
        PutWellFormed(es, path[0], Leaf(v));
      } else {
        var i := Find(es, path[0]);
        var child := if i == -1 then [] else es[i].tree.entries;
        assert i >= 0 ==> WellFormedTree(es[i].tree);
        SetDottedWellFormed(child, path[1..], v);
        PutWellFormed(es, path[0], Dict(SetDotted(child, path[1..], v).value));
      }
    }
  }
}
