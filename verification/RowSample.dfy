/** Bottom-k sampling of a stream of rows, with pruning at twice the reservoir size. */
module RowSample {
  import opened Ordering

  /** A sampled row with its hash score and its position in the stream. */
  datatype Entry<R> = Entry(score: nat, arrival: nat, row: R)

  /** The key (score, arrival). */
  predicate ScoreLe<R>(a: Entry<R>, b: Entry<R>) { a.score < b.score || (a.score == b.score && a.arrival <= b.arrival) }

  predicate ArrivalLe<R>(a: Entry<R>, b: Entry<R>) { a.arrival <= b.arrival }

  lemma OrdersAreTotal<R(!new)>()
    ensures TotalOrder<Entry<R>>(ScoreLe) && TotalOrder<Entry<R>>(ArrivalLe)
  {
  }

  /** The entries of a whole stream, in order of arrival from one. */
  function Entries<R>(rows: seq<R>, score: R -> nat): (r: seq<Entry<R>>)
    ensures |r| == |rows| && forall i :: 0 <= i < |rows| ==> r[i] == Entry(score(rows[i]), i + 1, rows[i])
  {
    if rows == [] then []
    else
      var n := |rows| - 1;
      Entries(rows[..n], score) + [Entry(score(rows[n]), |rows|, rows[n])]
  }

  function Take<T>(k: nat, s: seq<T>): seq<T> { if |s| <= k then s else s[..k] }

  /** The batch definition: sort everything by the key and keep the first k. */
  function BottomK<R>(k: nat, s: seq<Entry<R>>): seq<Entry<R>> { Take(k, Sort(ScoreLe, s)) }

  /** What the batch definition means: k entries, or all of them if there are fewer, and none outside comes before one
      of them. */
  lemma BottomKMeaning<R(!new)>(k: nat, s: seq<Entry<R>>)
    requires NoDuplicates(s)
    ensures var b := BottomK(k, s);
            && |b| == (if |s| < k then |s| else k) && NoDuplicates(b)
            && (forall e :: e in b ==> e in s)
            && (forall e, f :: e in b && f in s && f !in b ==> ScoreLe(e, f))
  {
    hide TotalOrder;
    OrdersAreTotal<R>();
    var sorted := Sort(ScoreLe, s);
    SortIsSorted(ScoreLe, s);
    SortMembers(ScoreLe, s);
    SortKeepsNoDuplicates(ScoreLe, s);
    var b := BottomK(k, s);
    forall e | e in b ensures e in s { SortMember(ScoreLe, s, e); }
    forall e, f | e in b && f in s && f !in b ensures ScoreLe(e, f) {
      SortMember(ScoreLe, s, f);
      var i := IndexOf(b, e);
      var j := IndexOf(sorted, f);
      assert j >= k ==> i < j;
    }
  }

  /** Entries that never tie: no two share an arrival. */
  ghost predicate Distinct<R>(s: seq<Entry<R>>) {
    forall i, j :: 0 <= i < j < |s| ==> s[i].arrival != s[j].arrival
  }

  lemma InsertCons<R(!new)>(x: Entry<R>, h: Entry<R>, t: seq<Entry<R>>)
    ensures Insert(ScoreLe, x, [h] + t) == if ScoreLe(x, h) then [x] + ([h] + t) else [h] + Insert(ScoreLe, x, t)
  {
    assert ([h] + t)[1..] == t;
  }

  lemma {:induction false} InsertCommutes<R(!new)>(x: Entry<R>, y: Entry<R>, s: seq<Entry<R>>)
    requires x.arrival != y.arrival
    ensures Insert(ScoreLe, x, Insert(ScoreLe, y, s)) == Insert(ScoreLe, y, Insert(ScoreLe, x, s))
  {
    if s == [] {
      InsertCons(x, y, []);
      InsertCons(y, x, []);
      assert [y] + [] == [y] && [x] + [] == [x];
    } else {
      var h, t := s[0], s[1..];
      assert s == [h] + t;
      InsertCommutes(x, y, t);
      hide Insert;
      InsertCons(x, h, t);
      InsertCons(y, h, t);
      InsertCons(x, y, s);
      InsertCons(y, x, s);
      InsertCons(x, h, Insert(ScoreLe, y, t));
      InsertCons(y, h, Insert(ScoreLe, x, t));
    }
  }

  /** Without ties the place of the last entry may be found last. */
  lemma {:induction false} SortAppend<R(!new)>(s: seq<Entry<R>>, e: Entry<R>)
    requires Distinct(s + [e])
    ensures Sort(ScoreLe, s + [e]) == Insert(ScoreLe, e, Sort(ScoreLe, s))
  {
    if s == [] {
      assert [] + [e] == [e] && [e][1..] == [];
    } else {
      var t := s + [e];
      assert t[1..] == s[1..] + [e];
      assert t[0].arrival != t[|s|].arrival;
      forall i, j | 0 <= i < j < |t[1..]| ensures t[1..][i].arrival != t[1..][j].arrival {
        assert t[i + 1].arrival != t[j + 1].arrival;
      }
      SortAppend(s[1..], e);
      InsertCommutes(s[0], e, Sort(ScoreLe, s[1..]));
    }
  }

  /** What a sorted sequence holds beyond the first k does not matter to the first k after an insertion. */
  lemma {:induction false} TakeInsert<R(!new)>(k: nat, e: Entry<R>, s: seq<Entry<R>>)
    ensures Take(k, Insert(ScoreLe, e, s)) == Take(k, Insert(ScoreLe, e, Take(k, s)))
    decreases k
  {
    hide Take, Insert;
    if s != [] && k > 0 {
      var h, t := s[0], s[1..];
      assert s == [h] + t;
      TakeInsertCons(k, e, h, t);
      if !ScoreLe(e, h) { TakeInsert(k - 1, e, t); }
    } else {
      TakeNothing(k, s);
      TakeNothing(k, Insert(ScoreLe, e, s));
      TakeNothing(k, Insert(ScoreLe, e, Take(k, s)));
    }
  }

  lemma TakeNothing<T>(k: nat, s: seq<T>)
    ensures s == [] ==> Take(k, s) == s
    ensures k == 0 ==> Take(k, s) == []
  {
  }

  lemma TakeInsertCons<R(!new)>(k: nat, e: Entry<R>, h: Entry<R>, t: seq<Entry<R>>)
    requires k > 0
    ensures var all, cut := Insert(ScoreLe, e, [h] + t), Insert(ScoreLe, e, Take(k, [h] + t));
            && (ScoreLe(e, h) ==> Take(k, all) == Take(k, cut))
            && (!ScoreLe(e, h) ==> Take(k, all) == [h] + Take(k - 1, Insert(ScoreLe, e, t))
                                   && Take(k, cut) == [h] + Take(k - 1, Insert(ScoreLe, e, Take(k - 1, t))))
  {
    hide Take, Insert;
    InsertCons(e, h, t);
    TakeCons(k, h, t);
    InsertCons(e, h, Take(k - 1, t));
    TakeCons(k, e, [h] + t);
    TakeCons(k, e, [h] + Take(k - 1, t));
    TakeTake(k - 1, k, [h] + t);
    TakeCons(k, h, Insert(ScoreLe, e, t));
    TakeCons(k, h, Insert(ScoreLe, e, Take(k - 1, t)));
  }

  lemma TakeCons<T>(k: nat, h: T, t: seq<T>)
    requires k > 0
    ensures Take(k, [h] + t) == [h] + Take(k - 1, t)
  {
  }

  lemma TakeTake<T>(j: nat, k: nat, s: seq<T>)
    requires j <= k
    ensures Take(j, Take(k, s)) == Take(j, s)
  {
  }

  lemma BottomKAppend<R(!new)>(k: nat, s: seq<Entry<R>>, e: Entry<R>)
    requires Distinct(s + [e])
    ensures BottomK(k, s + [e]) == Take(k, Insert(ScoreLe, e, BottomK(k, s)))
  {
    SortAppend(s, e);
    TakeInsert(k, e, Sort(ScoreLe, s));
  }

  /** Sorting what is sorted changes nothing. */
  lemma {:induction false} SortSorted<R(!new)>(s: seq<Entry<R>>)
    requires SortedBy(ScoreLe, s)
    ensures Sort(ScoreLe, s) == s
  {
    if s != [] {
      SortSorted(s[1..]);
      assert s == [s[0]] + s[1..];
    }
  }

  /** Pruning to the first k keeps the first k. */
  lemma PruneKeeps<R(!new)>(k: nat, s: seq<Entry<R>>)
    ensures BottomK(k, BottomK(k, s)) == BottomK(k, s)
  {
    hide TotalOrder;
    OrdersAreTotal<R>();
    SortIsSorted(ScoreLe, s);
    SortSorted(BottomK(k, s));
  }

  /** The candidates kept so far stand for the whole stream: they come from it and have the same bottom k. */
  ghost predicate Represents<R>(k: nat, all: seq<Entry<R>>, sample: seq<Entry<R>>) {
    && |sample| <= 2 * k && NoDuplicates(sample)
    && (forall e :: e in sample ==> e in all)
    && BottomK(k, sample) == BottomK(k, all)
  }

  lemma ArrivalsDistinct<R(!new)>(rows: seq<R>, score: R -> nat)
    ensures Distinct(Entries(rows, score)) && NoDuplicates(Entries(rows, score))
  {
  }

  lemma SampleDistinct<R(!new)>(all: seq<Entry<R>>, sample: seq<Entry<R>>)
    requires Distinct(all) && NoDuplicates(sample) && forall e :: e in sample ==> e in all
    ensures Distinct(sample)
  {
    forall i, j | 0 <= i < j < |sample| ensures sample[i].arrival != sample[j].arrival {
      var a := IndexOf(all, sample[i]);
      var b := IndexOf(all, sample[j]);
    }
  }

  lemma AppendRepresents<R(!new)>(k: nat, all: seq<Entry<R>>, sample: seq<Entry<R>>, e: Entry<R>)
    requires Represents(k, all, sample) && Distinct(all + [e])
    ensures NoDuplicates(sample + [e]) && BottomK(k, sample + [e]) == BottomK(k, all + [e])
    ensures forall f :: f in sample + [e] ==> f in all + [e]
  {
    hide BottomK;
    forall i | 0 <= i < |all| ensures all[i].arrival != e.arrival {
      assert (all + [e])[i].arrival != (all + [e])[|all|].arrival;
    }
    forall i, j | 0 <= i < j < |all| ensures all[i].arrival != all[j].arrival {
      assert (all + [e])[i].arrival != (all + [e])[j].arrival;
    }
    if e in sample { assert false; }
    assert Elements([e]) == {e};
    DistinctConcat(sample, [e]);
    SampleDistinct(all + [e], sample + [e]);
    BottomKAppend(k, sample, e);
    BottomKAppend(k, all, e);
  }

  lemma PruneRepresents<R(!new)>(k: nat, all: seq<Entry<R>>, sample: seq<Entry<R>>)
    requires NoDuplicates(sample) && (forall e :: e in sample ==> e in all) && BottomK(k, sample) == BottomK(k, all)
    ensures Represents(k, all, BottomK(k, sample))
  {
    hide BottomK;
    BottomKMeaning(k, sample);
    PruneKeeps(k, sample);
  }

  /** The reservoir of `route_rows`: exactly the k smallest of the whole stream, reported in order of arrival. */
  method SampleRows<R(!new, ==)>(rows: seq<R>, score: R -> nat, k: nat) returns (reservoir: seq<Entry<R>>)
    requires k >= 1
    ensures reservoir == Sort(ArrivalLe, BottomK(k, Entries(rows, score)))
  {
    hide BottomK, NoDuplicates;
    var sample: seq<Entry<R>> := [];
    NothingYet<R>(k);
    for i := 0 to |rows|
      invariant Represents(k, Entries(rows[..i], score), sample)
    {
      hide Represents;
      var e := Entry(score(rows[i]), i + 1, rows[i]);
      ghost var all := Entries(rows[..i], score);
      EntriesAppend(rows, score, i);
      ArrivalsDistinct(rows[..i + 1], score);
      AppendRepresents(k, all, sample, e);
      RepresentsSize(k, all, sample);
      sample := sample + [e];
      if |sample| > k * 2 {
        PruneRepresents(k, all + [e], sample);
        sample := Prune(k, sample);
      } else {
        StillRepresents(k, all + [e], sample);
      }
    }
    assert rows[..|rows|] == rows;
    sample := Prune(k, sample);
    reservoir := Sort(ArrivalLe, sample);
  }

  lemma NothingYet<R(!new)>(k: nat)
    ensures Represents<R>(k, [], [])
  {
  }

  lemma EntriesAppend<R(!new)>(rows: seq<R>, score: R -> nat, i: nat)
    requires i < |rows|
    ensures Entries(rows[..i + 1], score) == Entries(rows[..i], score) + [Entry(score(rows[i]), i + 1, rows[i])]
  {
  }

  lemma RepresentsSize<R(!new)>(k: nat, all: seq<Entry<R>>, sample: seq<Entry<R>>)
    requires Represents(k, all, sample)
    ensures |sample| <= 2 * k
  {
  }

  lemma StillRepresents<R(!new)>(k: nat, all: seq<Entry<R>>, sample: seq<Entry<R>>)
    requires NoDuplicates(sample) && |sample| <= 2 * k && (forall e :: e in sample ==> e in all)
    requires BottomK(k, sample) == BottomK(k, all)
    ensures Represents(k, all, sample)
  {
  }

  /** `sample.sort(...); del sample[k:]` */
  method Prune<R(!new, ==)>(k: nat, sample: seq<Entry<R>>) returns (kept: seq<Entry<R>>)
    ensures kept == BottomK(k, sample)
  {
    kept := Sort(ScoreLe, sample);
    if |kept| > k {
      kept := kept[..k];
    }
  }

  lemma EntryIsRow<R(!new)>(rows: seq<R>, score: R -> nat, e: Entry<R>)
    requires e in Entries(rows, score)
    ensures 1 <= e.arrival <= |rows| && e.row == rows[e.arrival - 1] && e.score == score(e.row)
  {
    var j := IndexOf(Entries(rows, score), e);
  }

  lemma ByArrival<R(!new)>(all: seq<Entry<R>>, b: seq<Entry<R>>)
    requires Distinct(all) && NoDuplicates(b) && forall e :: e in b ==> e in all
    ensures var r := Sort(ArrivalLe, b);
            && |r| == |b| && (forall e :: e in r ==> e in all)
            && (forall i, j :: 0 <= i < j < |r| ==> r[i].arrival < r[j].arrival)
  {
    hide TotalOrder, NoDuplicates;
    OrdersAreTotal<R>();
    var r := Sort(ArrivalLe, b);
    SortIsSorted(ArrivalLe, b);
    SortMembers(ArrivalLe, b);
    SortKeepsNoDuplicates(ArrivalLe, b);
    forall e | e in r ensures e in all { SortMember(ArrivalLe, b, e); }
    SampleDistinct(all, r);
    StrictlyIncreasing(r);
  }

  /** The rows reported are rows of the stream, each where it arrived, and in the order of arrival. */
  lemma ReservoirInOrder<R(!new)>(rows: seq<R>, score: R -> nat, k: nat)
    ensures var r := Sort(ArrivalLe, BottomK(k, Entries(rows, score)));
            && |r| == (if |rows| < k then |rows| else k)
            && (forall i :: 0 <= i < |r| ==>
                1 <= r[i].arrival <= |rows| && r[i].row == rows[r[i].arrival - 1] && r[i].score == score(r[i].row))
            && (forall i, j :: 0 <= i < j < |r| ==> r[i].arrival < r[j].arrival)
  {
    hide BottomK, NoDuplicates, Sort, Distinct;
    var all := Entries(rows, score);
    ArrivalsDistinct(rows, score);
    BottomKMeaning(k, all);
    ByArrival(all, BottomK(k, all));
    var r := Sort(ArrivalLe, BottomK(k, all));
    forall i | 0 <= i < |r| ensures 1 <= r[i].arrival <= |rows| && r[i].row == rows[r[i].arrival - 1]
        && r[i].score == score(r[i].row) {
      EntryIsRow(rows, score, r[i]);
    }
  }

  lemma StrictlyIncreasing<R(!new)>(r: seq<Entry<R>>)
    requires SortedBy(ArrivalLe, r) && Distinct(r)
    ensures forall i, j :: 0 <= i < j < |r| ==> r[i].arrival < r[j].arrival
  {
    forall i, j | 0 <= i < j < |r| ensures r[i].arrival < r[j].arrival { assert ArrivalLe(r[i], r[j]); }
  }


  /** Which rows are reported: no row left out has a smaller score than one that is reported, and of equal scores the
      earlier row wins. */
  lemma ReservoirKeepsSmallest<R(!new)>(rows: seq<R>, score: R -> nat, k: nat, i: nat, a: nat)
    requires i < |Sort(ArrivalLe, BottomK(k, Entries(rows, score)))| && 1 <= a <= |rows|
    requires forall j :: 0 <= j < |Sort(ArrivalLe, BottomK(k, Entries(rows, score)))| ==>
               Sort(ArrivalLe, BottomK(k, Entries(rows, score)))[j].arrival != a
    ensures var e := Sort(ArrivalLe, BottomK(k, Entries(rows, score)))[i];
            || score(e.row) < score(rows[a - 1])
            || (score(e.row) == score(rows[a - 1]) && e.arrival < a)
  {
    hide BottomK, NoDuplicates, Sort, Distinct, ScoreLe;
    var all := Entries(rows, score);
    var kept := BottomK(k, all);
    var r := Sort(ArrivalLe, kept);
    ArrivalsDistinct(rows, score);
    BottomKMeaning(k, all);
    var e, f := r[i], all[a - 1];
    SortMember(ArrivalLe, kept, e);
    SortMember(ArrivalLe, kept, f);
    if f in r { var j := IndexOf(r, f); }
    EntryIsRow(rows, score, e);
    Ordered(e, f);
  }

  lemma Ordered<R(!new)>(e: Entry<R>, f: Entry<R>)
    requires ScoreLe(e, f)
    ensures e.score < f.score || (e.score == f.score && e.arrival <= f.arrival)
  {
  }
}
