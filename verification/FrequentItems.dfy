/** The bounded counters of frequent values. */
module FrequentItems {
  import opened Sums

  const CAPACITY := 128

  type Counters = map<string, int>

  function At(top: Counters, x: string): int { if x in top then top[x] else 0 }

  ghost function CountIn(top: Counters): string -> int { x => At(top, x) }

  ghost function Mass(top: Counters): int { IntSum(top.Keys, CountIn(top)) }

  ghost function Frequency(stream: seq<string>, x: string): nat {
    if stream == [] then 0 else Frequency(stream[..|stream| - 1], x) + if stream[|stream| - 1] == x then 1 else 0
  }

  /** The counters after a stream in which `rounds` decrement rounds took place. */
  ghost predicate Summarizes(stream: seq<string>, top: Counters, rounds: nat) {
    && |top| <= CAPACITY
    && (forall x :: x in top ==> top[x] >= 1)
    && Mass(top) + (CAPACITY + 1) * rounds == |stream|
    && (forall x :: At(top, x) <= Frequency(stream, x) <= At(top, x) + rounds)
  }

  /** Every value that makes up more than one part in 129 of the stream is still counted, and no count is off by more
      than the number of rounds, which is itself at most that fraction of the stream. */
  lemma HeavyHittersSurvive(stream: seq<string>, top: Counters, rounds: nat, x: string)
    requires Summarizes(stream, top, rounds)
    ensures |top| <= 128
    ensures 129 * Frequency(stream, x) > |stream| ==> x in top
    ensures 129 * rounds <= |stream|
    ensures x in top ==> 0 <= 129 * (Frequency(stream, x) - top[x]) <= |stream|
  {
    hide IntSum, Frequency;
    assert forall y :: y in top.Keys ==> CountIn(top)(y) >= 0;
    IntSumNonnegative(top.Keys, CountIn(top));
    assert At(top, x) <= Frequency(stream, x) <= At(top, x) + rounds;
  }

  // ---- One value ----

  ghost function Decremented(top: Counters): Counters {
    map x | x in top && top[x] > 1 :: top[x] - 1
  }

  ghost function LessOne(top: Counters): string -> int { x => At(top, x) - 1 }

  lemma {:induction false} SumLessOne(s: set<string>, f: string -> int, h: string -> int)
    requires forall x :: x in s ==> h(x) == f(x) - 1
    ensures IntSum(s, h) == IntSum(s, f) - |s|
    decreases s
  {
    if s != {} {
      var x :| x in s;
      IntSumRemove(s, f, x);
      IntSumRemove(s, h, x);
      SumLessOne(s - {x}, f, h);
      assert |s| == |s - {x}| + 1;
    }
  }

  /** Terms that are zero may be left out of a sum. */
  lemma {:induction false} SumSupport(s: set<string>, t: set<string>, f: string -> int, h: string -> int)
    requires t <= s && (forall x :: x in t ==> f(x) == h(x)) && (forall x :: x in s && x !in t ==> f(x) == 0)
    ensures IntSum(s, f) == IntSum(t, h)
    decreases s
  {
    if s == {} {
      assert t == {};
    } else {
      var x :| x in s;
      IntSumRemove(s, f, x);
      if x in t { IntSumRemove(t, h, x); }
      assert x !in t ==> t - {x} == t;
      SumSupport(s - {x}, t - {x}, f, h);
    }
  }

  lemma DecrementedMass(top: Counters)
    requires forall x :: x in top ==> top[x] >= 1
    ensures Mass(Decremented(top)) == Mass(top) - |top|
  {
    hide IntSum;
    SumLessOne(top.Keys, CountIn(top), LessOne(top));
    SumSupport(top.Keys, Decremented(top).Keys, LessOne(top), CountIn(Decremented(top)));
    assert |top| == |top.Keys|;
  }

  lemma CountedMass(top: Counters, x: string)
    ensures Mass(top[x := At(top, x) + 1]) == Mass(top) + 1
    ensures |top[x := At(top, x) + 1]| == |top| + if x in top then 0 else 1
  {
    hide IntSum;
    var next := top[x := At(top, x) + 1];
    assert next.Keys == top.Keys + {x};
    assert |next| == |next.Keys| && |top| == |top.Keys|;
    IntSumRemove(next.Keys, CountIn(next), x);
    SumSupport(next.Keys - {x}, top.Keys - {x}, CountIn(next), CountIn(top));
    if x in top {
      IntSumRemove(top.Keys, CountIn(top), x);
      assert next.Keys == top.Keys;
    } else {
      assert top.Keys - {x} == top.Keys;
      assert |top.Keys + {x}| == |top.Keys| + 1;
    }
  }

  lemma {:induction false} SubsetSize(a: set<string>, b: set<string>)
    requires a <= b
    ensures |a| <= |b|
    ensures a != b ==> |a| < |b|
    decreases a
  {
    if a == {} {
      if b != {} { var x :| x in b; assert |b| == |b - {x}| + 1; }
    } else {
      var x :| x in a;
      SubsetSize(a - {x}, b - {x});
      if a != b { assert a - {x} != b - {x} by { var y :| y in b && y !in a; assert y in b - {x} && y !in a - {x}; } }
    }
  }

  /** Decrementing an overfull set of counters drops at least one of them, because the new value stands at one. */
  lemma OverfullDrops(top: Counters, x: string)
    requires x in top && top[x] == 1
    ensures |Decremented(top)| < |top|
  {
    SubsetSize(Decremented(top).Keys, top.Keys);
    assert x !in Decremented(top).Keys;
    assert |Decremented(top)| == |Decremented(top).Keys| && |top| == |top.Keys|;
  }

  /** The decrement loop over the list of keys, in any order. */
  method Decrement(top: Counters) returns (next: Counters)
    requires forall x :: x in top ==> top[x] >= 1
    ensures next == Decremented(top)
  {
    next := top;
    var rest := top.Keys;
    while rest != {}
      invariant rest <= top.Keys
      invariant forall x :: x in next <==> x in rest || (x in top && top[x] > 1)
      invariant forall x :: x in next ==> next[x] == if x in rest then top[x] else top[x] - 1
      decreases rest
    {
      var key :| key in rest;
      next := next[key := next[key] - 1];
      if next[key] <= 0 {
        next := next - {key};
      }
      rest := rest - {key};
    }
  }

  /** The counters after one more value: counted, and decremented if that was one key too many. */
  ghost function Observed(top: Counters, x: string): Counters {
    var next := top[x := At(top, x) + 1];
    if |next| > CAPACITY then Decremented(next) else next
  }

  /** A decrement round takes place exactly when a new key meets full counters. */
  ghost function RoundsAfter(top: Counters, rounds: nat, x: string): nat {
    rounds + if x !in top && |top| == CAPACITY then 1 else 0
  }

  method Count(top: Counters, x: string) returns (next: Counters)
    requires forall y :: y in top ==> top[y] >= 1
    ensures next == Observed(top, x)
  {
    next := top[x := At(top, x) + 1];
    if |next| > CAPACITY {
      next := Decrement(next);
    }
  }

  /** One more value keeps the summary. */
  lemma CountKeeps(stream: seq<string>, top: Counters, rounds: nat, x: string)
    requires Summarizes(stream, top, rounds)
    ensures Summarizes(stream + [x], Observed(top, x), RoundsAfter(top, rounds, x))
  {
    hide IntSum, Frequency, Mass;
    CountedMass(top, x);
    FrequencyStep(stream, x);
    var next := top[x := At(top, x) + 1];
    if |next| > CAPACITY {
      DecrementedMass(next);
      OverfullDrops(next, x);
    }
  }

  lemma FrequencyStep(stream: seq<string>, x: string)
    ensures forall y :: Frequency(stream + [x], y) == Frequency(stream, y) + if y == x then 1 else 0
  {
    assert (stream + [x])[..|stream|] == stream;
  }
}
