/** Aggregate states: how values are taken in one by one, and what the final value says about all of them. */
module Aggregates {
  import opened Seqs
  import opened Storage
  import opened Doubles
  import opened Expressions

  /** COUNT of anything, SUM of integers, MIN and MAX of integers or doubles. */
  datatype Aggregate = Count | SumInt | MinInt | MaxInt | MinDouble | MaxDouble

  const DOUBLE_MAX: U64 := 0x7FEF_FFFF_FFFF_FFFF
  const DOUBLE_LOWEST: U64 := 0xFFEF_FFFF_FFFF_FFFF

  datatype AggregateState =
    AggregateState(count: nat, intSum: int, intMin: Key, intMax: Key, doubleMin: U64, doubleMax: U64)

  const EMPTY_STATE := AggregateState(0, 0, INT64_MAX, INT64_MIN, DOUBLE_MAX, DOUBLE_LOWEST)

  /** UpdateGlobalAggregateState: NULL is passed over; a value of another type throws. */
  function Update(a: Aggregate, s: AggregateState, v: Nullable): Result<AggregateState> {
    if v.None? then Ok(s)
    else if a.Count? then Ok(s.(count := s.count + 1))
    else if a.MinDouble? || a.MaxDouble? then
      match v.value
      case Data(Double(d)) =>
        if a.MinDouble? then Ok(s.(count := s.count + 1,
                                   doubleMin := if Doubles.Less(d, s.doubleMin) then d else s.doubleMin))
        else Ok(s.(count := s.count + 1, doubleMax := if Doubles.Less(s.doubleMax, d) then d else s.doubleMax))
      case _ => Err
    else
      match v.value
      case Data(Int(n)) =>
        if a.SumInt? then Ok(s.(count := s.count + 1, intSum := s.intSum + n))
        else if a.MinInt? then Ok(s.(count := s.count + 1, intMin := if n < s.intMin then n else s.intMin))
        else Ok(s.(count := s.count + 1, intMax := if s.intMax < n then n else s.intMax))
      case _ => Err
  }

  /** A value that this aggregate can take in. */
  predicate Takes(a: Aggregate, v: Nullable) {
    v.None? || a.Count? || (v.value.Data? && if a.MinDouble?
                            || a.MaxDouble? then v.value.value.Double? else v.value.value.Int?)
  }

  ghost predicate TakesAll(a: Aggregate, values: seq<Nullable>) { forall v :: v in values ==> Takes(a, v) }

  function Absorb(a: Aggregate, s: AggregateState, v: Nullable): AggregateState {
    if Update(a, s, v).Ok? then Update(a, s, v).value else s
  }

  /** The state after these values. */
  function Fold(a: Aggregate, values: seq<Nullable>): AggregateState {
    if values == [] then EMPTY_STATE
    else Absorb(a, Fold(a, values[..|values| - 1]), values[|values| - 1])
  }

  /** A finished aggregate: an integer that may exceed 64 bits, or a double. */
  datatype Final = Null | Whole(n: int) | Real(bits: U64)

  /** FinalizeAggregateState. */
  function Finalize(a: Aggregate, s: AggregateState): Final {
    match a
    case Count => Whole(s.count)
    case SumInt => if s.count == 0 then Null else Whole(s.intSum)
    case MinInt => if s.count == 0 then Null else Whole(s.intMin)
    case MaxInt => if s.count == 0 then Null else Whole(s.intMax)
    case MinDouble => if s.count == 0 then Null else Real(s.doubleMin)
    case MaxDouble => if s.count == 0 then Null else Real(s.doubleMax)
  }

  // ---------- What the folds compute ----------

  function Present(): Nullable -> bool { (v: Nullable) => v.Some? }

  function SumOf(values: seq<Nullable>): int {
    if values == [] then 0
    else SumOf(values[..|values| - 1])
         + (var v := values[|values| - 1];
            if v.Some? && v.value.Data? && v.value.value.Int? then v.value.value.n else 0)
  }

  function IntOf(v: Nullable): int
    requires v.Some? && v.value.Data? && v.value.value.Int?
  {
    v.value.value.n
  }

  lemma {:induction false} CountIs(a: Aggregate, values: seq<Nullable>)
    requires TakesAll(a, values)
    ensures Fold(a, values).count == |Filter(values, Present())|
  {
    hide Filter;
    if values == [] {
      FilterNone(values, Present());
    } else {
      var before, last := values[..|values| - 1], values[|values| - 1];
      assert values == before + [last] && last in values;
      CountIs(a, before);
      FilterSnoc(before, last, Present());
    }
  }

  lemma {:induction false} SumIs(values: seq<Nullable>)
    requires TakesAll(SumInt, values)
    ensures Fold(SumInt, values).intSum == SumOf(values)
  {
    if values != [] {
      assert values[|values| - 1] in values;
      SumIs(values[..|values| - 1]);
    }
  }

  /** The least of the values that are not NULL. */
  ghost predicate IsLeastInt(values: seq<Nullable>, least: int) {
    && (exists v :: v in values && v.Some? && Takes(MinInt, v) && IntOf(v) == least)
    && (forall v :: v in values && v.Some? && Takes(MinInt, v) ==> least <= IntOf(v))
  }

  ghost predicate IsGreatestInt(values: seq<Nullable>, greatest: int) {
    && (exists v :: v in values && v.Some? && Takes(MaxInt, v) && IntOf(v) == greatest)
    && (forall v :: v in values && v.Some? && Takes(MaxInt, v) ==> IntOf(v) <= greatest)
  }

  lemma {:induction false} MinIs(values: seq<Nullable>)
    requires TakesAll(MinInt, values)
    ensures if Fold(MinInt, values).count == 0
            then (forall v :: v in values ==> v.None?) && Fold(MinInt, values).intMin == INT64_MAX
            else IsLeastInt(values, Fold(MinInt, values).intMin)
  {
    if values != [] {
      var before, last := values[..|values| - 1], values[|values| - 1];
      assert values == before + [last] && last in values;
      MinIs(before);
      if last.Some? && !(Fold(MinInt, before).count > 0 && Fold(MinInt, before).intMin <= IntOf(last)) {
        assert Fold(MinInt, values).intMin == IntOf(last);
      }
    }
  }

  lemma {:induction false} MaxIs(values: seq<Nullable>)
    requires TakesAll(MaxInt, values)
    ensures if Fold(MaxInt, values).count == 0
            then (forall v :: v in values ==> v.None?) && Fold(MaxInt, values).intMax == INT64_MIN
            else IsGreatestInt(values, Fold(MaxInt, values).intMax)
  {
    if values != [] {
      var before, last := values[..|values| - 1], values[|values| - 1];
      assert values == before + [last] && last in values;
      MaxIs(before);
      if last.Some? && !(Fold(MaxInt, before).count > 0 && Fold(MaxInt, before).intMax >= IntOf(last)) {
        assert Fold(MaxInt, values).intMax == IntOf(last);
      }
    }
  }

  // ---------- MIN and MAX of doubles ----------

  predicate IsDouble(v: Nullable) { v.Some? && v.value.Data? && v.value.value.Double? }

  function BitsOf(v: Nullable): U64
    requires IsDouble(v)
  {
    v.value.value.bits
  }

  /** The smallest position among the ordinary values and the start value. */
  ghost predicate IsLeastDouble(values: seq<Nullable>, d: U64) {
    && (exists v :: v in values && IsDouble(v) && BitsOf(v) == d && !IsNaN(d))
    && (forall v :: v in values && IsDouble(v) && !IsNaN(BitsOf(v)) ==> Order(d) <= Order(BitsOf(v)))
  }

  /** Some value is neither NaN nor positive infinity. */
  ghost predicate HasBelowInfinity(values: seq<Nullable>) {
    exists v :: v in values && IsDouble(v) && !IsNaN(BitsOf(v)) && Order(BitsOf(v)) <= Order(DOUBLE_MAX)
  }

  lemma {:induction false} DoubleMinState(values: seq<Nullable>)
    requires TakesAll(MinDouble, values)
    ensures var d := Fold(MinDouble, values).doubleMin;
            && !IsNaN(d) && Order(d) <= Order(DOUBLE_MAX)
            && (d == DOUBLE_MAX || exists v :: v in values && IsDouble(v) && BitsOf(v) == d)
            && (forall v :: v in values && IsDouble(v) && !IsNaN(BitsOf(v)) ==> Order(d) <= Order(BitsOf(v)))
  {
    if values != [] {
      var before, last := values[..|values| - 1], values[|values| - 1];
      assert values == before + [last] && last in values;
      DoubleMinState(before);
    }
  }

  lemma {:induction false} OnlyDoubleMax(d: U64)
    requires !IsNaN(d) && Order(d) == Order(DOUBLE_MAX)
    ensures d == DOUBLE_MAX
  {
  }

  /**
   MIN over doubles starts at the largest finite value, so it returns the least value exactly when some
   value is neither NaN nor +infinity; for a column of +infinity it returns a number that is not there.
   */
  lemma {:induction false} DoubleMinExact(values: seq<Nullable>)
    requires TakesAll(MinDouble, values)
    ensures IsLeastDouble(values, Fold(MinDouble, values).doubleMin) <==> HasBelowInfinity(values)
  {
    hide Fold;
    DoubleMinState(values);
    var d := Fold(MinDouble, values).doubleMin;
    if HasBelowInfinity(values) {
      var v :| v in values && IsDouble(v) && !IsNaN(BitsOf(v)) && Order(BitsOf(v)) <= Order(DOUBLE_MAX);
      if d == DOUBLE_MAX {
        assert Order(d) <= Order(BitsOf(v));
        OnlyDoubleMax(BitsOf(v));
      }
    }
  }

  /** A column of +infinity alone: its minimum is reported as the largest finite number. */
  lemma {:induction false} MinOfInfinity()
    ensures var column := [Some(Data(Double(INFINITY)))];
            TakesAll(MinDouble, column) && Finalize(MinDouble, Fold(MinDouble, column)) == Real(DOUBLE_MAX)
            && !IsLeastDouble(column, DOUBLE_MAX)
  {
    var value: Nullable := Some(Data(Double(INFINITY)));
    assert [value][..0] == [];
    assert Fold(MinDouble, [value]) == Absorb(MinDouble, Fold(MinDouble, []), value);
  }

  ghost predicate IsGreatestDouble(values: seq<Nullable>, d: U64) {
    && (exists v :: v in values && IsDouble(v) && BitsOf(v) == d && !IsNaN(d))
    && (forall v :: v in values && IsDouble(v) && !IsNaN(BitsOf(v)) ==> Order(BitsOf(v)) <= Order(d))
  }

  /** Some value is neither NaN nor negative infinity. */
  ghost predicate HasAboveMinusInfinity(values: seq<Nullable>) {
    exists v :: v in values && IsDouble(v) && !IsNaN(BitsOf(v)) && Order(DOUBLE_LOWEST) <= Order(BitsOf(v))
  }

  lemma {:induction false} DoubleMaxState(values: seq<Nullable>)
    requires TakesAll(MaxDouble, values)
    ensures var d := Fold(MaxDouble, values).doubleMax;
            && !IsNaN(d) && Order(DOUBLE_LOWEST) <= Order(d)
            && (d == DOUBLE_LOWEST || exists v :: v in values && IsDouble(v) && BitsOf(v) == d)
            && (forall v :: v in values && IsDouble(v) && !IsNaN(BitsOf(v)) ==> Order(BitsOf(v)) <= Order(d))
  {
    if values != [] {
      var before, last := values[..|values| - 1], values[|values| - 1];
      assert values == before + [last] && last in values;
      DoubleMaxState(before);
    }
  }

  lemma {:induction false} OnlyDoubleLowest(d: U64)
    requires !IsNaN(d) && Order(d) == Order(DOUBLE_LOWEST)
    ensures d == DOUBLE_LOWEST
  {
  }

  /** MAX over doubles starts at the lowest finite value, with the same defect for -infinity. */
  lemma {:induction false} DoubleMaxExact(values: seq<Nullable>)
    requires TakesAll(MaxDouble, values)
    ensures IsGreatestDouble(values, Fold(MaxDouble, values).doubleMax) <==> HasAboveMinusInfinity(values)
  {
    hide Fold;
    DoubleMaxState(values);
    var d := Fold(MaxDouble, values).doubleMax;
    if HasAboveMinusInfinity(values) {
      var v :| v in values && IsDouble(v) && !IsNaN(BitsOf(v)) && Order(DOUBLE_LOWEST) <= Order(BitsOf(v));
      if d == DOUBLE_LOWEST {
        assert Order(BitsOf(v)) <= Order(d);
        OnlyDoubleLowest(BitsOf(v));
      }
    }
  }

  /** A column of -infinity alone: its maximum is reported as the lowest finite number. */
  lemma {:induction false} MaxOfMinusInfinity()
    ensures var column := [Some(Data(Double(SIGN_BIT + INFINITY)))];
            TakesAll(MaxDouble, column) && Finalize(MaxDouble, Fold(MaxDouble, column)) == Real(DOUBLE_LOWEST)
            && !IsGreatestDouble(column, DOUBLE_LOWEST)
  {
    var value: Nullable := Some(Data(Double(SIGN_BIT + INFINITY)));
    assert [value][..0] == [];
    assert Fold(MaxDouble, [value]) == Absorb(MaxDouble, Fold(MaxDouble, []), value);
  }

  /**
   The final values: counts, sums and bounds of exactly the non-NULL values; NULL when there is none.
   Bounds of doubles are right exactly when there is a value on the near side of the start value.
   */
  lemma {:induction false} FinalIsExact(a: Aggregate, values: seq<Nullable>)
    requires TakesAll(a, values)
    ensures var present, final := Filter(values, Present()), Finalize(a, Fold(a, values));
            && (a.Count? ==> final == Whole(|present|))
            && (!a.Count? ==> (final == Null <==> present == []))
            && (a.SumInt? && present != [] ==> final == Whole(SumOf(values)))
            && (a.MinInt? && present != [] ==> final.Whole? && IsLeastInt(values, final.n))
            && (a.MaxInt? && present != [] ==> final.Whole? && IsGreatestInt(values, final.n))
            && (a.MinDouble? && present != [] ==>
                  final.Real? && (IsLeastDouble(values, final.bits) <==> HasBelowInfinity(values)))
            && (a.MaxDouble? && present != [] ==>
                  final.Real? && (IsGreatestDouble(values, final.bits) <==> HasAboveMinusInfinity(values)))
  {
    hide Fold, Filter, IsLeastDouble, IsGreatestDouble, HasBelowInfinity, HasAboveMinusInfinity;
    CountIs(a, values);
    match a
    case SumInt => SumIs(values);
    case MinInt => MinIs(values);
    case MaxInt => MaxIs(values);
    case MinDouble => DoubleMinExact(values);
    case MaxDouble => DoubleMaxExact(values);
    case _ =>
  }

  /** The final value: the start value of a bound of doubles where no value is on the near side of it. */
  ghost predicate IsAggregate(a: Aggregate, values: seq<Nullable>, final: Final) {
    var present := Filter(values, Present());
    if a.Count? then final == Whole(|present|)
    else if present == [] then final == Null
    else
      match a
      case SumInt => final == Whole(SumOf(values))
      case MinInt => final.Whole? && IsLeastInt(values, final.n)
      case MaxInt => final.Whole? && IsGreatestInt(values, final.n)
      case MinDouble =>
        final.Real? && if HasBelowInfinity(values) then IsLeastDouble(values, final.bits) else final.bits == DOUBLE_MAX
      case MaxDouble =>
        && final.Real?
        && if HasAboveMinusInfinity(values) then IsGreatestDouble(values, final.bits) else final.bits == DOUBLE_LOWEST
      case _ => false
  }

  lemma {:induction false} FinalIs(a: Aggregate, values: seq<Nullable>)
    requires TakesAll(a, values)
    ensures IsAggregate(a, values, Finalize(a, Fold(a, values)))
  {
    hide Fold, Filter, IsLeastDouble, IsGreatestDouble, IsLeastInt, IsGreatestInt, SumOf;
    FinalIsExact(a, values);
    CountIs(a, values);
    if a.MinDouble? { DoubleMinState(values); }
    if a.MaxDouble? { DoubleMaxState(values); }
  }

  // ---------- The order of the values does not matter ----------

  lemma {:induction false} TakesCommute(a: Aggregate, s: AggregateState, v: Nullable, w: Nullable)
    requires !a.MinDouble? && !a.MaxDouble?
    ensures Absorb(a, Absorb(a, s, v), w) == Absorb(a, Absorb(a, s, w), v)
  {
  }

  /** A value may as well come last. */
  lemma {:induction false} MoveLast(a: Aggregate, front: seq<Nullable>, v: Nullable, back: seq<Nullable>)
    requires !a.MinDouble? && !a.MaxDouble?
    ensures Fold(a, front + [v] + back) == Fold(a, front + back + [v])
  {
    hide Absorb;
    if back == [] {
      assert front + [v] + back == front + back + [v];
    } else {
      var init, last := back[..|back| - 1], back[|back| - 1];
      MoveLast(a, front, v, init);
      var x, y := front + [v] + back, front + back + [v];
      assert x[..|x| - 1] == front + [v] + init && x[|x| - 1] == last;
      assert y[..|y| - 1] == front + back && y[|y| - 1] == v;
      assert (front + back)[..|front + back| - 1] == front + init && (front + back)[|front + back| - 1] == last;
      assert (front + init + [v])[..|front + init|] == front + init;
      TakesCommute(a, Fold(a, front + init), v, last);
    }
  }

  /** Integer aggregates depend on the values only, not on the order they come in. */
  lemma {:induction false} FoldPermuted(a: Aggregate, v: seq<Nullable>, w: seq<Nullable>)
    requires multiset(v) == multiset(w) && !a.MinDouble? && !a.MaxDouble?
    ensures Fold(a, v) == Fold(a, w)
    decreases |v|
  {
    hide Absorb, Fold;
    assert |multiset(v)| == |v| && |multiset(w)| == |w|;
    if v != [] {
      var front, last := v[..|v| - 1], v[|v| - 1];
      assert v == front + [last];
      assert last in multiset(w);
      var i :| 0 <= i < |w| && w[i] == last;
      var rest := w[..i] + w[i + 1..];
      TakeOut(w, i);
      assert multiset(v) == multiset(front) + multiset{last};
      Cancel(multiset(front), multiset(rest), multiset{last});
      FoldPermuted(a, front, rest);
      MoveLast(a, w[..i], last, w[i + 1..]);
      assert w == w[..i] + [last] + w[i + 1..];
      FoldSnoc(a, front, last);
      FoldSnoc(a, rest, last);
    } else {
      assert w == [];
    }
  }

  lemma {:induction false} FoldSnoc(a: Aggregate, values: seq<Nullable>, last: Nullable)
    ensures Fold(a, values + [last]) == Absorb(a, Fold(a, values), last)
  {
    assert (values + [last])[..|values|] == values;
  }

  /** The same final value, or two doubles that no comparison tells apart. */
  predicate AlikeFinal(x: Final, y: Final) {
    x == y || (x.Real? && y.Real? && !IsNaN(x.bits) && !IsNaN(y.bits) && Order(x.bits) == Order(y.bits))
  }

  lemma {:induction false} CountPermuted(a: Aggregate, v: seq<Nullable>, w: seq<Nullable>)
    requires multiset(v) == multiset(w) && TakesAll(a, v) && TakesAll(a, w)
    ensures Fold(a, v).count == Fold(a, w).count
  {
    hide Fold, Filter;
    CountIs(a, v);
    CountIs(a, w);
    forall x ensures multiset(Filter(v, Present()))[x] == multiset(Filter(w, Present()))[x] {
      FilterMultiset(v, Present(), x);
      FilterMultiset(w, Present(), x);
    }
    assert multiset(Filter(v, Present())) == multiset(Filter(w, Present()));
    assert |multiset(Filter(v, Present()))| == |Filter(v, Present())|;
    assert |multiset(Filter(w, Present()))| == |Filter(w, Present())|;
  }

  lemma {:induction false} DoubleMinWithin(v: seq<Nullable>, w: seq<Nullable>)
    requires TakesAll(MinDouble, v) && TakesAll(MinDouble, w) && forall x :: x in v ==> x in w
    ensures Order(Fold(MinDouble, w).doubleMin) <= Order(Fold(MinDouble, v).doubleMin)
  {
    hide Fold;
    DoubleMinState(v);
    DoubleMinState(w);
  }

  lemma {:induction false} DoubleMaxWithin(v: seq<Nullable>, w: seq<Nullable>)
    requires TakesAll(MaxDouble, v) && TakesAll(MaxDouble, w) && forall x :: x in v ==> x in w
    ensures Order(Fold(MaxDouble, v).doubleMax) <= Order(Fold(MaxDouble, w).doubleMax)
  {
    hide Fold;
    DoubleMaxState(v);
    DoubleMaxState(w);
  }

  /** No aggregate depends on the order of the values, but for the sign of a zero. */
  lemma {:induction false} FinalPermuted(a: Aggregate, v: seq<Nullable>, w: seq<Nullable>)
    requires multiset(v) == multiset(w) && TakesAll(a, v)
    ensures AlikeFinal(Finalize(a, Fold(a, v)), Finalize(a, Fold(a, w)))
    ensures !a.MinDouble? && !a.MaxDouble? ==> Finalize(a, Fold(a, v)) == Finalize(a, Fold(a, w))
  {
    hide Fold;
    forall x ensures x in v <==> x in w { assert x in multiset(v) <==> x in multiset(w); }
    if a.MinDouble? {
      CountPermuted(a, v, w);
      DoubleMinState(v);
      DoubleMinState(w);
      DoubleMinWithin(v, w);
      DoubleMinWithin(w, v);
    } else if a.MaxDouble? {
      CountPermuted(a, v, w);
      DoubleMaxState(v);
      DoubleMaxState(w);
      DoubleMaxWithin(v, w);
      DoubleMaxWithin(w, v);
    } else {
      FoldPermuted(a, v, w);
    }
  }
}
