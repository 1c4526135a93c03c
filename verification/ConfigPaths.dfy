/** Dotted paths: flattening a well-formed mapping lists its rows under their joined paths. */
module ConfigPaths {
  import opened Ordering
  import opened WireText
  import opened ConfigTree
  import opened ConfigWire

  ghost predicate GoodParts(p: Path) { forall i :: 0 <= i < |p| ==> GoodKey(p[i]) }

  function Dotted(p: Path): string { if p == [] then "" else Join(p, '.') }

  lemma {:induction false} JoinAppend(p: Path, key: string)
    requires p != []
    ensures Join(p + [key], '.') == Join(p, '.') + "." + key
  {
    if |p| == 1 {
      assert (p + [key])[1..] == [key];
    } else {
      assert (p + [key])[1..] == p[1..] + [key];
      JoinAppend(p[1..], key);
      assert p[0] + ['.'] + (Join(p[1..], '.') + "." + key) == p[0] + ['.'] + Join(p[1..], '.') + "." + key;
    }
  }

  lemma JoinNonempty(p: Path)
    requires p != [] && GoodParts(p)
    ensures Join(p, '.') != ""
  {
  }

  lemma PathOfDotted(p: Path, key: string)
    requires GoodParts(p)
    ensures PathOf(Dotted(p), key) == Dotted(p + [key])
  {
    if p == [] {
      assert p + [key] == [key];
    } else {
      JoinNonempty(p);
      JoinAppend(p, key);
    }
  }

  /** A dotted path names one sequence of keys. */
  lemma SplitDotted(p: Path)
    requires GoodPath(p)
    ensures Split(Dotted(p), '.') == p && ValidPath(Dotted(p))
  {
    forall part | part in p ensures '.' !in part && part != "" { var i := IndexOf(p, part); assert GoodKey(p[i]); }
    SplitJoin(p, '.');
  }

  /** The rows under their dotted paths, below a common prefix. */
  function DottedRows(prefix: Path, rows: seq<Row>): (r: seq<Flat>)
    ensures |r| == |rows| && forall i :: 0 <= i < |r| ==> r[i] == Flat(Dotted(prefix + rows[i].path), rows[i].value)
  {
    seq(|rows|, i requires 0 <= i < |rows| => Flat(Dotted(prefix + rows[i].path), rows[i].value))
  }

  ghost predicate DistinctFlat(d: seq<Flat>) { forall i, j :: 0 <= i < j < |d| ==> d[i].path != d[j].path }

  lemma {:induction false} PutFlatNew(d: seq<Flat>, x: Flat)
    requires forall i :: 0 <= i < |d| ==> d[i].path != x.path
    ensures PutFlat(d, x) == d + [x]
  {
    if d != [] {
      forall i | 0 <= i < |d[1..]| ensures d[1..][i].path != x.path { assert d[i + 1].path != x.path; }
      PutFlatNew(d[1..], x);
    }
  }

  lemma {:induction false} UpdateFlatNew(d: seq<Flat>, more: seq<Flat>)
    requires DistinctFlat(d + more)
    ensures UpdateFlat(d, more) == d + more
  {
    if more == [] {
      assert d + more == d;
    } else {
      var n := |more| - 1;
      var all := d + more;
      var init := all[..|all| - 1];
      assert init == d + more[..n];
      forall i, j | 0 <= i < j < |init| ensures init[i].path != init[j].path { assert all[i].path != all[j].path; }
      UpdateFlatNew(d, more[..n]);
      forall i | 0 <= i < |d + more[..n]| ensures (d + more[..n])[i].path != more[n].path {
        assert all[i].path != all[|all| - 1].path;
      }
      PutFlatNew(d + more[..n], more[n]);
      assert d + more[..n] + [more[n]] == all;
    }
  }

  lemma DottedDistinct(prefix: Path, rows: seq<Row>)
    requires GoodParts(prefix) && DistinctPaths(rows) && forall r :: r in rows ==> GoodPath(r.path)
    ensures DistinctFlat(DottedRows(prefix, rows))
  {
    var d := DottedRows(prefix, rows);
    forall i, j | 0 <= i < j < |d| ensures d[i].path != d[j].path {
      assert rows[i] in rows && rows[j] in rows;
      SplitDotted(prefix + rows[i].path);
      SplitDotted(prefix + rows[j].path);
      assert (prefix + rows[i].path)[|prefix|..] == rows[i].path && (prefix + rows[j].path)[|prefix|..] == rows[j].path;
    }
  }

  lemma DottedConcat(prefix: Path, a: seq<Row>, b: seq<Row>)
    ensures DottedRows(prefix, a + b) == DottedRows(prefix, a) + DottedRows(prefix, b)
  {
  }

  lemma DottedPrefixed(prefix: Path, key: string, rows: seq<Row>)
    ensures DottedRows(prefix, Prefixed(key, rows)) == DottedRows(prefix + [key], rows)
  {
    forall i | 0 <= i < |rows| ensures prefix + ([key] + rows[i].path) == prefix + [key] + rows[i].path {}
  }

  lemma {:induction false} FlattenIsRows(es: Entries, prefix: Path)
    requires WellFormed(es) && GoodParts(prefix)
    ensures Flatten(es, Dotted(prefix)) == DottedRows(prefix, Rows(es))
    decreases es
  {
    if es != [] {
      var n := |es| - 1;
      WellFormedPrefix(es, n);
      assert WellFormedTree(es[n].tree) && GoodKey(es[n].key);
      RowsDistinct(es);
      RowsGood(es);
      hide WellFormed, Rows;
      FlattenIsRows(es[..n], prefix);
      if es[n].tree.Dict? { FlattenIsRows(es[n].tree.entries, prefix + [es[n].key]); }
      FlattenLast(es, n, prefix);
    }
  }

  lemma FlattenLast(es: Entries, n: nat, prefix: Path)
    requires |es| == n + 1 && GoodParts(prefix)
    requires DistinctPaths(Rows(es)) && forall r :: r in Rows(es) ==> GoodPath(r.path)
    requires Flatten(es[..n], Dotted(prefix)) == DottedRows(prefix, Rows(es[..n]))
    requires es[n].tree.Dict? ==>
               Flatten(es[n].tree.entries, Dotted(prefix + [es[n].key]))
                   == DottedRows(prefix + [es[n].key], Rows(es[n].tree.entries))
    ensures Flatten(es, Dotted(prefix)) == DottedRows(prefix, Rows(es))
  {
    hide Dotted, DistinctPaths;
    var key, t := es[n].key, es[n].tree;
    var before, added := Rows(es[..n]), TreeRows(key, t);
    RowsOfPrefix(es, n);
    DottedDistinct(prefix, Rows(es));
    DottedConcat(prefix, before, added);
    PathOfDotted(prefix, key);
    match t {
      case Leaf(v) =>
        assert DottedRows(prefix, added) == [Flat(Dotted(prefix + [key]), v)];
        LastIsNew(DottedRows(prefix, before), Flat(Dotted(prefix + [key]), v));
      case Dict(entries) =>
        DottedPrefixed(prefix, key, Rows(entries));
        UpdateFlatNew(DottedRows(prefix, before), DottedRows(prefix, added));
    }
  }

  lemma LastIsNew(d: seq<Flat>, x: Flat)
    requires DistinctFlat(d + [x])
    ensures PutFlat(d, x) == d + [x]
  {
    forall i | 0 <= i < |d| ensures d[i].path != x.path { assert (d + [x])[i].path != (d + [x])[|d|].path; }
    PutFlatNew(d, x);
  }

  /** The rows a layer other than the environment is written as. */
  lemma FlattenLayer(es: Entries)
    requires WellFormed(es)
    ensures var flat, rows := Flatten(es, ""), Rows(es);
            && |flat| == |rows| && DistinctFlat(flat)
            && forall i :: 0 <= i < |flat| ==>
                GoodPath(rows[i].path) && flat[i] == Flat(Dotted(rows[i].path), rows[i].value)
  {
    RowsDistinct(es);
    RowsGood(es);
    hide WellFormed;
    FlattenIsRows(es, []);
    DottedDistinct([], Rows(es));
    forall i | 0 <= i < |Rows(es)| ensures GoodPath(Rows(es)[i].path) && [] + Rows(es)[i].path == Rows(es)[i].path {
      assert Rows(es)[i] in Rows(es);
    }
  }
}
