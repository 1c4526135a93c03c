/** Sums of reals over finite sets, independent of the order of summation. */
module Sums {

  ghost function Sum<T(!new)>(s: set<T>, f: T -> real): real
    decreases s
  {
    if s == {} then 0.0 else var x :| x in s; f(x) + Sum(s - {x}, f)
  }

  lemma {:induction false} SumRemove<T(!new)>(s: set<T>, f: T -> real, x: T)
    requires x in s
    ensures Sum(s, f) == f(x) + Sum(s - {x}, f)
    decreases s
  {
    var y :| y in s && Sum(s, f) == f(y) + Sum(s - {y}, f);
    if y != x {
      SumRemove(s - {y}, f, x);
      SumRemove(s - {x}, f, y);
      assert s - {y} - {x} == s - {x} - {y};
    }
  }

  lemma {:induction false} SumSame<T(!new)>(s: set<T>, f: T -> real, h: T -> real)
    requires forall x :: x in s ==> f(x) == h(x)
    ensures Sum(s, f) == Sum(s, h)
    decreases s
  {
    if s != {} {
      var x :| x in s;
      SumRemove(s, f, x);
      SumRemove(s, h, x);
      SumSame(s - {x}, f, h);
    }
  }

  lemma {:induction false} SumAdd<T(!new)>(s: set<T>, f: T -> real, h: T -> real, sum: T -> real)
    requires forall x :: x in s ==> sum(x) == f(x) + h(x)
    ensures Sum(s, sum) == Sum(s, f) + Sum(s, h)
    decreases s
  {
    if s != {} {
      var x :| x in s;
      SumRemove(s, f, x);
      SumRemove(s, h, x);
      SumRemove(s, sum, x);
      SumAdd(s - {x}, f, h, sum);
    }
  }

  ghost function Times(c: real, a: real): real { c * a }

  lemma {:induction false} SumScale<T(!new)>(s: set<T>, f: T -> real, c: real, scaled: T -> real)
    requires forall x :: x in s ==> scaled(x) == Times(c, f(x))
    ensures Sum(s, scaled) == Times(c, Sum(s, f))
    decreases s
  {
    hide Times;
    if s == {} {
      TimesZero(c);
    } else {
      var x :| x in s;
      SumRemove(s, f, x);
      SumRemove(s, scaled, x);
      SumScale(s - {x}, f, c, scaled);
      TimesSum(c, f(x), Sum(s - {x}, f));
    }
  }

  lemma TimesZero(c: real)
    ensures Times(c, 0.0) == 0.0
  {
  }

  lemma TimesSum(c: real, a: real, b: real)
    ensures Times(c, a + b) == Times(c, a) + Times(c, b)
  {
  }

  lemma {:induction false} SumConstant<T(!new)>(s: set<T>, f: T -> real, c: real)
    requires forall x :: x in s ==> f(x) == c
    ensures Sum(s, f) == c * |s| as real
    decreases s
  {
    if s != {} {
      var x :| x in s;
      SumRemove(s, f, x);
      SumConstant(s - {x}, f, c);
      assert |s| == |s - {x}| + 1;
    }
  }

  lemma {:induction false} SumAtLeast<T(!new)>(s: set<T>, f: T -> real)
    requires forall x :: x in s ==> f(x) >= 0.0
    ensures Sum(s, f) >= 0.0
    ensures forall x :: x in s ==> Sum(s, f) >= f(x)
    decreases s
  {
    if s != {} {
      forall x | x in s ensures Sum(s, f) >= f(x) {
        SumRemove(s, f, x);
        SumAtLeast(s - {x}, f);
      }
    }
  }

  /** Restricting a sum to a subset is summing the indicator-weighted terms. */
  lemma {:induction false} SumRestrict<T(!new)>(s: set<T>, t: set<T>, f: T -> real, masked: T -> real)
    requires forall x :: x in s ==> masked(x) == if x in t then f(x) else 0.0
    ensures Sum(s, masked) == Sum(s * t, f)
    decreases s
  {
    if s == {} {
      assert s * t == {};
    } else {
      var x :| x in s;
      SumRemove(s, masked, x);
      SumRestrict(s - {x}, t, f, masked);
      if x in t {
        SumRemove(s * t, f, x);
        assert s * t - {x} == (s - {x}) * t;
      } else {
        assert s * t == (s - {x}) * t;
      }
    }
  }

  ghost function Constant<T(!new)>(c: real): T -> real { x => c }

  ghost function Row<T(!new)>(a: (T, T) -> real, x: T): T -> real { y => a(x, y) }

  ghost function Column<T(!new)>(a: (T, T) -> real, y: T): T -> real { x => a(x, y) }

  ghost function RowSums<T(!new)>(a: (T, T) -> real, t: set<T>): T -> real { x => Sum(t, Row(a, x)) }

  ghost function ColumnSums<T(!new)>(a: (T, T) -> real, s: set<T>): T -> real { y => Sum(s, Column(a, y)) }

  /** The order of a double sum may be exchanged. */
  lemma {:induction false} SumExchange<T(!new)>(s: set<T>, t: set<T>, a: (T, T) -> real)
    ensures Sum(s, RowSums(a, t)) == Sum(t, ColumnSums(a, s))
    decreases s
  {
    if s == {} {
      SumConstant(t, ColumnSums(a, s), 0.0);
    } else {
      var x :| x in s;
      SumRemove(s, RowSums(a, t), x);
      SumExchange(s - {x}, t, a);
      forall y | y in t ensures ColumnSums(a, s)(y) == Row(a, x)(y) + ColumnSums(a, s - {x})(y) {
        SumRemove(s, Column(a, y), x);
      }
      SumAdd(t, Row(a, x), ColumnSums(a, s - {x}), ColumnSums(a, s));
    }
  }

  ghost function IntSum<T(!new)>(s: set<T>, f: T -> int): int
    decreases s
  {
    if s == {} then 0 else var x :| x in s; f(x) + IntSum(s - {x}, f)
  }

  lemma {:induction false} IntSumRemove<T(!new)>(s: set<T>, f: T -> int, x: T)
    requires x in s
    ensures IntSum(s, f) == f(x) + IntSum(s - {x}, f)
    decreases s
  {
    var y :| y in s && IntSum(s, f) == f(y) + IntSum(s - {y}, f);
    if y != x {
      IntSumRemove(s - {y}, f, x);
      IntSumRemove(s - {x}, f, y);
      assert s - {y} - {x} == s - {x} - {y};
    }
  }

  lemma {:induction false} IntSumSame<T(!new)>(s: set<T>, f: T -> int, h: T -> int)
    requires forall x :: x in s ==> f(x) == h(x)
    ensures IntSum(s, f) == IntSum(s, h)
  {
    if s != {} {
      var x :| x in s;
      IntSumRemove(s, f, x);
      IntSumRemove(s, h, x);
      IntSumSame(s - {x}, f, h);
    }
  }

  lemma {:induction false} IntSumUnion<T(!new)>(s: set<T>, t: set<T>, f: T -> int)
    requires s !! t
    ensures IntSum(s + t, f) == IntSum(s, f) + IntSum(t, f)
    decreases s
  {
    if s == {} {
      assert s + t == t;
    } else {
      var x :| x in s;
      IntSumRemove(s, f, x);
      IntSumRemove(s + t, f, x);
      assert s + t - {x} == (s - {x}) + t;
      IntSumUnion(s - {x}, t, f);
    }
  }

  lemma {:induction false} IntSumNonnegative<T(!new)>(s: set<T>, f: T -> int)
    requires forall x :: x in s ==> f(x) >= 0
    ensures IntSum(s, f) >= 0
    decreases s
  {
    if s != {} {
      var x :| x in s;
      IntSumRemove(s, f, x);
      IntSumNonnegative(s - {x}, f);
    }
  }

  lemma {:induction false} SumUnion<T(!new)>(s: set<T>, t: set<T>, f: T -> real)
    requires s !! t
    ensures Sum(s + t, f) == Sum(s, f) + Sum(t, f)
    decreases s
  {
    if s == {} {
      assert s + t == t;
    } else {
      var x :| x in s;
      SumRemove(s, f, x);
      SumRemove(s + t, f, x);
      assert s + t - {x} == (s - {x}) + t;
      SumUnion(s - {x}, t, f);
    }
  }
}
