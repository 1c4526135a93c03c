/** Total orders and the stable sort that Python's `sorted` stands for. */
module Ordering {

  ghost predicate TotalOrder<T(!new)>(le: (T, T) -> bool) {
    && (forall x, y :: le(x, y) || le(y, x))
    && (forall x, y, z :: le(x, y) && le(y, z) ==> le(x, z))
  }

  ghost predicate SortedBy<T>(le: (T, T) -> bool, s: seq<T>) {
    forall i, j :: 0 <= i < j < |s| ==> le(s[i], s[j])
  }

  ghost predicate NoDuplicates<T>(s: seq<T>) {
    forall i, j :: 0 <= i < j < |s| ==> s[i] != s[j]
  }

  function Elements<T>(s: seq<T>): set<T> {
    set x | x in s
  }

  lemma ElementsConcat<T>(a: seq<T>, b: seq<T>)
    ensures Elements(a + b) == Elements(a) + Elements(b)
  {
  }

  lemma DistinctConcat<T>(a: seq<T>, b: seq<T>)
    requires NoDuplicates(a) && NoDuplicates(b) && Elements(a) !! Elements(b)
    ensures NoDuplicates(a + b)
  {
    forall i, j | 0 <= i < j < |a + b| ensures (a + b)[i] != (a + b)[j] {
      if i < |a| <= j { assert a[i] in Elements(a) && b[j - |a|] in Elements(b); }
    }
  }

  function Insert<T>(le: (T, T) -> bool, x: T, s: seq<T>): (r: seq<T>)
    ensures multiset(r) == multiset{x} + multiset(s)
  {
    if s == [] then [x]
    else if le(x, s[0]) then [x] + s
    else
      var r := [s[0]] + Insert(le, x, s[1..]);
      assert s == [s[0]] + s[1..];
      r
  }

  function Sort<T>(le: (T, T) -> bool, s: seq<T>): (r: seq<T>)
    ensures multiset(r) == multiset(s)
  {
    if s == [] then []
    else
      assert s == [s[0]] + s[1..];
      Insert(le, s[0], Sort(le, s[1..]))
  }

  lemma {:induction false} InsertKeepsSorted<T(!new)>(le: (T, T) -> bool, x: T, s: seq<T>)
    requires TotalOrder(le) && SortedBy(le, s)
    ensures SortedBy(le, Insert(le, x, s))
  {
    if s != [] && !le(x, s[0]) {
      InsertKeepsSorted(le, x, s[1..]);
      var r := Insert(le, x, s[1..]);
      forall y | y in r ensures le(s[0], y) {
        assert y in multiset(r);
        if y != x { assert y in multiset(s[1..]); }
      }
    }
  }

  lemma {:induction false} SortIsSorted<T(!new)>(le: (T, T) -> bool, s: seq<T>)
    requires TotalOrder(le)
    ensures SortedBy(le, Sort(le, s))
  {
    if s != [] {
      SortIsSorted(le, s[1..]);
      InsertKeepsSorted(le, s[0], Sort(le, s[1..]));
    }
  }

  lemma SortMember<T>(le: (T, T) -> bool, s: seq<T>, x: T)
    ensures x in Sort(le, s) <==> x in s
  {
    assert x in Sort(le, s) <==> x in multiset(Sort(le, s));
    assert x in s <==> x in multiset(s);
  }

  lemma SortMembers<T>(le: (T, T) -> bool, s: seq<T>)
    ensures |Sort(le, s)| == |s|
    ensures Elements(Sort(le, s)) == Elements(s)
  {
    assert |multiset(Sort(le, s))| == |multiset(s)|;
    var r := Sort(le, s);
    forall x | x in r ensures x in s { SortMember(le, s, x); }
    forall x | x in s ensures x in r { SortMember(le, s, x); }
  }

  lemma NoDuplicatesByCount<T>(s: seq<T>)
    ensures NoDuplicates(s) <==> forall x :: multiset(s)[x] <= 1
  {
    if NoDuplicates(s) {
      forall x ensures multiset(s)[x] <= 1 { CountAtMostOne(s, x); }
    } else {
      var i, j :| 0 <= i < j < |s| && s[i] == s[j];
      assert s == s[..j] + [s[j]] + s[j+1..];
      assert s[i] in s[..j];
      assert multiset(s)[s[j]] >= 2;
    }
  }

  lemma {:induction false} CountAtMostOne<T>(s: seq<T>, x: T)
    requires NoDuplicates(s)
    ensures multiset(s)[x] <= 1
  {
    if s != [] {
      assert s == [s[0]] + s[1..];
      CountAtMostOne(s[1..], x);
    }
  }

  lemma SortKeepsNoDuplicates<T>(le: (T, T) -> bool, s: seq<T>)
    requires NoDuplicates(s)
    ensures NoDuplicates(Sort(le, s))
  {
    NoDuplicatesByCount(s);
    NoDuplicatesByCount(Sort(le, s));
  }

  ghost predicate LinearOrder<T(!new)>(le: (T, T) -> bool) {
    && TotalOrder(le)
    && (forall x, y :: le(x, y) && le(y, x) ==> x == y)
  }

  lemma LinearIsTotal<T(!new)>(le: (T, T) -> bool)
    requires LinearOrder(le)
    ensures TotalOrder(le)
  {
  }

  /** Two sorted sequences without duplicates over the same elements are the same sequence. */
  lemma {:induction false} SortedUnique<T(!new)>(le: (T, T) -> bool, a: seq<T>, b: seq<T>)
    requires LinearOrder(le)
    requires SortedBy(le, a) && SortedBy(le, b) && NoDuplicates(a) && NoDuplicates(b)
    requires forall x :: x in a <==> x in b
    ensures a == b
  {
    if a == [] {
      NoMembers(b);
    } else {
      assert a[0] in b && b[0] in a;
      assert a[0] == b[0];
      forall x ensures x in a[1..] <==> x in b[1..] {
        TailMember(a, x);
        TailMember(b, x);
      }
      SortedUnique(le, a[1..], b[1..]);
      assert a == [a[0]] + a[1..] && b == [b[0]] + b[1..];
    }
  }

  lemma IndexOf<T>(s: seq<T>, x: T) returns (i: nat)
    requires x in s
    ensures i < |s| && s[i] == x
  {
    i :| 0 <= i < |s| && s[i] == x;
  }

  lemma NoMembers<T>(s: seq<T>)
    ensures (forall x :: x !in s) ==> s == []
  {
    if s != [] { assert s[0] in s; }
  }

  lemma TailMember<T>(s: seq<T>, x: T)
    requires s != [] && NoDuplicates(s)
    ensures x in s[1..] <==> x in s && x != s[0]
  {
    assert s == [s[0]] + s[1..];
  }

  /** Python's comparison of lists, and of strings as lists of code points: the first difference decides, and a proper
      prefix comes first. */
  predicate SeqLe<T(==)>(le: (T, T) -> bool, a: seq<T>, b: seq<T>) {
    a == [] || (b != [] && (if a[0] == b[0] then SeqLe(le, a[1..], b[1..]) else le(a[0], b[0])))
  }

  lemma {:induction false} SeqLeTotal<T(!new)>(le: (T, T) -> bool, a: seq<T>, b: seq<T>)
    requires LinearOrder(le)
    ensures SeqLe(le, a, b) || SeqLe(le, b, a)
  {
    if a != [] && b != [] && a[0] == b[0] { SeqLeTotal(le, a[1..], b[1..]); }
  }

  lemma {:induction false} SeqLeTransitive<T(!new)>(le: (T, T) -> bool, a: seq<T>, b: seq<T>, c: seq<T>)
    requires LinearOrder(le) && SeqLe(le, a, b) && SeqLe(le, b, c)
    ensures SeqLe(le, a, c)
  {
    if a != [] && a[0] == b[0] && b[0] == c[0] { SeqLeTransitive(le, a[1..], b[1..], c[1..]); }
  }

  lemma {:induction false} SeqLeAntisymmetric<T(!new)>(le: (T, T) -> bool, a: seq<T>, b: seq<T>)
    requires LinearOrder(le) && SeqLe(le, a, b) && SeqLe(le, b, a)
    ensures a == b
  {
    if a != [] {
      SeqLeAntisymmetric(le, a[1..], b[1..]);
      assert a == [a[0]] + a[1..] && b == [b[0]] + b[1..];
    }
  }

  predicate CharLe(a: char, b: char) { a <= b }

  predicate StringLe(a: string, b: string) { SeqLe(CharLe, a, b) }

  lemma StringLeIsLinear()
    ensures LinearOrder(StringLe)
  {
    assert LinearOrder(CharLe);
    forall a, b ensures StringLe(a, b) || StringLe(b, a) { SeqLeTotal(CharLe, a, b); }
    forall a, b, c | StringLe(a, b) && StringLe(b, c) ensures StringLe(a, c) { SeqLeTransitive(CharLe, a, b, c); }
    forall a, b | StringLe(a, b) && StringLe(b, a) ensures a == b { SeqLeAntisymmetric(CharLe, a, b); }
  }

  /** `sorted(s)` of a set: every element once, in order. */
  method SortedElements<T(!new, ==)>(le: (T, T) -> bool, s: set<T>) returns (r: seq<T>)
    requires TotalOrder(le)
    ensures SortedBy(le, r) && NoDuplicates(r) && Elements(r) == s
  {
    var rest := s;
    var listed: seq<T> := [];
    while rest != {}
      invariant rest <= s && Elements(listed) == s - rest && NoDuplicates(listed)
      decreases rest
    {
      var x :| x in rest;
      assert Elements(listed + [x]) == Elements(listed) + {x};
      assert x !in listed;
      listed := listed + [x];
      rest := rest - {x};
    }
    r := Sort(le, listed);
    SortIsSorted(le, listed);
    SortMembers(le, listed);
    SortKeepsNoDuplicates(le, listed);
  }

  /** `tuple(dict.fromkeys(s))`: every element at its first occurrence. */
  function Deduped<T(==, !new)>(s: seq<T>): (r: seq<T>)
    ensures Elements(r) == Elements(s) && NoDuplicates(r)
  {
    if s == [] then []
    else
      var init := Deduped(s[..|s| - 1]);
      var last := s[|s| - 1];
      assert s == s[..|s| - 1] + [last];
      assert forall x :: x in init <==> x in Elements(s[..|s| - 1]);
      if last in init then init else
        assert forall x :: x in init + [last] <==> x in init || x == last;
        init + [last]
  }
}
