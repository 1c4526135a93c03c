/** The one-pass summary of a column. */
module ColumnSketch {
  import opened Bytes
  import opened HyperLogLog
  import opened FrequentItems
  import opened Moments

  const MAX_TEXT := 128

  /** A cell: None, or its text with the finite number it stands for, if any. */
  datatype Value = Null | Present(text: string, number: Option<real>)

  ghost function Nulls(seen: seq<Value>): nat {
    if seen == [] then 0 else Nulls(seen[..|seen| - 1]) + if seen[|seen| - 1].Null? then 1 else 0
  }

  ghost function Texts(seen: seq<Value>): set<string> { set v | v in seen && v.Present? :: v.text }

  predicate Short(v: Value) { v.Present? && |v.text| <= MAX_TEXT }

  ghost function Counted(seen: seq<Value>): seq<string> {
    if seen == [] then [] else Counted(seen[..|seen| - 1]) + if Short(seen[|seen| - 1]) then [seen[|seen| - 1].text]
    else []
  }

  ghost function Numbers(seen: seq<Value>): seq<real> {
    if seen == [] then []
    else
      var v := seen[|seen| - 1];
      Numbers(seen[..|seen| - 1]) + if v.Present? && v.number.Some? then [v.number.value] else []
  }

  class Sketch {
    var count: nat
    var nulls: nat
    var numericCount: nat
    var minimum: Option<real>
    var maximum: Option<real>
    var mean: real
    var m2: real
    const distinct: Registers
    var top: Counters
    ghost var seen: seq<Value>
    ghost var rounds: nat

    /** Every field is what the whole stream so far defines. */
    ghost predicate Valid()
      reads this, distinct, distinct.values
    {
      && count == |seen| && nulls == Nulls(seen)
      && distinct.Valid() && distinct.added == Texts(seen)
      && Summarizes(Counted(seen), top, rounds)
      && ValidNumbers()
    }

    ghost predicate ValidNumbers()
      reads this
    {
      var numbers := Numbers(seen);
      && numericCount == |numbers| && ExactMoments(numbers, mean, m2)
      && IsMinimum(numbers, minimum) && IsMaximum(numbers, maximum)
    }

    constructor (digest: string -> Digest, bits: nat)
      ensures Valid() && seen == [] && distinct.digest == digest && distinct.bits == bits && fresh(distinct)
      ensures fresh(distinct.values)
    {
      count, nulls, numericCount := 0, 0, 0;
      minimum, maximum := None, None;
      mean, m2 := 0.0, 0.0;
      distinct := new Registers(digest, bits);
      top := map[];
      seen, rounds := [], 0;
    }

    method AddNumber(x: real, ghost numbers: seq<real>)
      requires numericCount == |numbers| && ExactMoments(numbers, mean, m2) && IsMinimum(numbers, minimum)
      requires IsMaximum(numbers, maximum)
      modifies this`numericCount, this`minimum, this`maximum, this`mean, this`m2
      ensures numericCount == |numbers + [x]| && ExactMoments(numbers + [x], mean, m2)
      ensures IsMinimum(numbers + [x], minimum) && IsMaximum(numbers + [x], maximum)
    {
      hide ExactMoments;
      WelfordStep(numbers, mean, m2, x);
      numericCount := numericCount + 1;
      minimum := if minimum.None? || x < minimum.value then Some(x) else minimum;
      maximum := if maximum.None? || x > maximum.value then Some(x) else maximum;
      var delta := x - mean;
      mean := mean + delta / numericCount as real;
      m2 := m2 + delta * (x - mean);
    }

    method Add(v: Value)
      requires Valid()
      modifies this`count, this`nulls, this`numericCount, this`minimum, this`maximum, this`mean, this`m2, this`top,
          this`seen, this`rounds
      modifies distinct`added, distinct.values
      ensures Valid() && seen == old(seen) + [v]
    {
      hide Summarizes, Observed, RoundsAfter, ExactMoments, IsMinimum, IsMaximum, Nulls, Texts, Counted, Numbers,
          Register;
      ghost var before := seen;
      AddOne(before, v);
      count := count + 1;
      seen := before + [v];
      if v.Null? {
        nulls := nulls + 1;
        return;
      }
      distinct.Add(v.text);
      if |v.text| <= MAX_TEXT {
        CountKeeps(Counted(before), top, rounds, v.text);
        PositiveCounts(Counted(before), top, rounds);
        rounds := RoundsAfter(top, rounds, v.text);
        top := Count(top, v.text);
      }
      if v.number.Some? {
        AddNumber(v.number.value, Numbers(before));
      }
    }
  }

  lemma PositiveCounts(stream: seq<string>, top: Counters, rounds: nat)
    requires Summarizes(stream, top, rounds)
    ensures forall x :: x in top ==> top[x] >= 1
  {
  }

  lemma AddOne(seen: seq<Value>, v: Value)
    ensures Nulls(seen + [v]) == Nulls(seen) + if v.Null? then 1 else 0
    ensures Texts(seen + [v]) == Texts(seen) + if v.Present? then {v.text} else {}
    ensures Counted(seen + [v])
         == if v.Present? && |v.text| <= 128 then Counted(seen) + [v.text] else Counted(seen)
    ensures Numbers(seen + [v]) == if v.Present? && v.number.Some? then Numbers(seen) + [v.number.value]
        else Numbers(seen)
  {
    var next := seen + [v];
    assert next[..|seen|] == seen;
    forall x | x in Texts(seen) + (if v.Present? then {v.text} else {}) ensures x in Texts(next) {
      if x in Texts(seen) {
        var y :| y in seen && y.Present? && y.text == x;
        assert y in next;
      } else {
        assert v in next;
      }
    }
  }
}
