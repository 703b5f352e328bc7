/**
 Min/max statistics of a block (update_numeric_stats of the block builders) and the data-skipping
 pruner that drops blocks by them.
 */
module Pruning {
  import opened Storage
  import opened Doubles
  import opened Expressions
  import opened Planner

  // ---------- Statistics ----------

  datatype BlockStats = BlockStats(valueType: ValueType, hasValue: bool, min: NumericValue, max: NumericValue)

  function Zero(t: ValueType): NumericValue { if t.DOUBLE? then Double(0) else Int(0) }

  function EmptyStats(t: ValueType): BlockStats { BlockStats(t, false, Zero(t), Zero(t)) }

  /** Position of a numeric value among the values of its column. */
  function Rank(v: Value): int {
    match v
    case Int(n) => n
    case Double(bits) => Order(bits)
    case Str(_) => 0
  }

  predicate Comparable(v: Value) { v.Int? || (v.Double? && !IsNaN(v.bits)) }

  /** One value of a block: NULL and NaN are passed over; std::min and std::max keep the older value on a tie. */
  function UpdateStats(s: BlockStats, cell: Cell): BlockStats {
    if cell.None? || !Comparable(cell.value) then s
    else if !s.hasValue then s.(hasValue := true, min := cell.value, max := cell.value)
    else s.(min := if Rank(cell.value) < Rank(s.min) then cell.value else s.min,
            max := if Rank(s.max) < Rank(cell.value) then cell.value else s.max)
  }

  /** The statistics a builder records for one column of a block. */
  function StatsOf(rows: seq<Row>, column: nat, t: ValueType): BlockStats {
    if rows == [] then EmptyStats(t)
    else UpdateStats(StatsOf(rows[..|rows| - 1], column, t), rows[|rows| - 1].Lookup(column))
  }

  predicate IsOfType(v: Value, t: ValueType) { (v.Int? && t.INT64?) || (v.Double? && t.DOUBLE?) }

  ghost predicate ColumnFits(rows: seq<Row>, column: nat, t: ValueType) {
    !t.STRING? && forall r :: r in rows ==> r.HasColumn(column) && CellFits(r.Column(column), t)
  }

  /** A comparable value stands in that column of that row. */
  predicate Holds(row: Row, column: nat, v: Value) {
    row.HasColumn(column) && row.Column(column) == Some(v) && Comparable(v)
  }

  /** The recorded bounds enclose every comparable value and are attained by two of them. */
  lemma {:induction false} StatsAreExact(rows: seq<Row>, column: nat, t: ValueType)
    requires ColumnFits(rows, column, t)
    ensures var s := StatsOf(rows, column, t);
            && s.valueType == t && IsOfType(s.min, t) && IsOfType(s.max, t)
            && (s.hasValue ==> (exists r :: r in rows && Holds(r, column, s.min))
                               && (exists r :: r in rows && Holds(r, column, s.max)))
            && (forall r, v :: r in rows && Holds(r, column, v) ==> s.hasValue && Rank(s.min) <= Rank(v) <= Rank(s.max))
  {
    if rows != [] {
      var before, last := rows[..|rows| - 1], rows[|rows| - 1];
      assert rows == before + [last];
      StatsAreExact(before, column, t);
      assert last in rows && CellFits(last.Column(column), t);
    }
  }

  // ---------- The pruner ----------

  function AsDouble(v: NumericValue): U64 {
    if v.Int? then FromInt(v.n) else v.bits
  }

  predicate AtLeast(a: U64, b: U64) { !IsNaN(a) && !IsNaN(b) && Order(a) >= Order(b) }

  predicate BlockMaySatisfy(s: BlockStats, p: NumericPredicate) {
    if !s.hasValue then false
    else if s.valueType.INT64? && s.min.Int? && s.max.Int? && p.value.Int? then
      match p.op
      case Equal => !(p.value.n < s.min.n || p.value.n > s.max.n)
      case Greater => s.max.n > p.value.n
      case GreaterEqual => s.max.n >= p.value.n
      case Less => s.min.n < p.value.n
      case LessEqual => s.min.n <= p.value.n
    else
      var low, high, v := AsDouble(s.min), AsDouble(s.max), AsDouble(p.value);
      match p.op
      case Equal => !(Doubles.Less(v, low) || Doubles.Less(high, v))
      case Greater => Doubles.Less(v, high)
      case GreaterEqual => AtLeast(high, v)
      case Less => Doubles.Less(low, v)
      case LessEqual => AtLeast(v, low)
  }

  predicate AdmitsEquality(op: BinaryOp) { op.Equal? || op.LessEqual? || op.GreaterEqual? }

  predicate IsNaNValue(v: Value) { v.Double? && IsNaN(v.bits) }

  /** The comparison of this row's value with the literal meets a NaN, which compares as equal. */
  predicate MeetsNaN(p: NumericPredicate, row: Row) {
    && AdmitsEquality(p.op) && row.HasColumn(p.column) && row.Column(p.column).Some?
    && (IsNaNValue(row.Column(p.column).value) || IsNaNValue(p.value))
  }

  lemma {:induction false} RankedAsDoubles(a: NumericValue, b: NumericValue, t: ValueType)
    requires IsOfType(a, t) && IsOfType(b, t) && Rank(a) <= Rank(b)
    ensures Order(AsDouble(a)) <= Order(AsDouble(b))
  {
    if t.INT64? { FromIntMonotone(a.n, b.n); }
  }

  /** A row with an ordinary value that satisfies the predicate keeps its block. */
  lemma {:induction false} OrdinaryValueKeepsBlock(s: BlockStats, p: NumericPredicate, v: NumericValue)
    requires s.hasValue && IsOfType(v, s.valueType) && IsOfType(s.min, s.valueType) && IsOfType(s.max, s.valueType)
    requires Rank(s.min) <= Rank(v) <= Rank(s.max)
    requires Comparable(v) && Comparable(s.min) && Comparable(s.max)
    requires !IsNaNValue(p.value)
    requires CompareValues(v, p.value).Ok? && p.op.Admits(CompareValues(v, p.value).value)
    ensures BlockMaySatisfy(s, p)
  {
    RankedAsDoubles(s.min, v, s.valueType);
    RankedAsDoubles(v, s.max, s.valueType);
  }

  /** A comparison that meets a NaN has sign 0, so it satisfies the operators that admit equality. */
  lemma {:induction false} NaNComparesEqual(v: NumericValue, p: NumericPredicate)
    requires IsNaNValue(p.value) || IsNaNValue(v)
    ensures CompareValues(v, p.value) == Ok(0)
    ensures p.op.Admits(0) <==> AdmitsEquality(p.op)
  {
  }

  /**
   A dropped block holds a row that satisfies the predicate exactly when one of its comparisons meets
   a NaN, and it is the rows of these comparisons: without NaN, pruning by statistics is safe for every
   column type, literal type and operator.
   */
  lemma {:induction false} PruneExact(rows: seq<Row>, p: NumericPredicate, t: ValueType)
    requires ColumnFits(rows, p.column, t) && !BlockMaySatisfy(StatsOf(rows, p.column, t), p)
    ensures forall r :: r in rows ==> (PredicateHolds(p, r) <==> MeetsNaN(p, r))
  {
    StatsAreExact(rows, p.column, t);
    var s := StatsOf(rows, p.column, t);
    forall r | r in rows
      ensures PredicateHolds(p, r) <==> MeetsNaN(p, r)
    {
      var cell := r.Column(p.column);
      assert CellFits(cell, t);
      if cell.Some? {
        var v := cell.value;
        if IsNaNValue(v) || IsNaNValue(p.value) {
          NaNComparesEqual(v, p);
        } else if PredicateHolds(p, r) {
          assert Holds(r, p.column, v);
          OrdinaryValueKeepsBlock(s, p, v);
        }
      }
    }
  }

  // ---------- Nothing is kept without a reason ----------

  /** The ordinary value in the predicate's column of this row, against the literal. */
  ghost predicate Stands(p: NumericPredicate, row: Row, sign: int) {
    && row.HasColumn(p.column) && row.Column(p.column).Some? && Comparable(row.Column(p.column).value)
    && CompareValues(row.Column(p.column).value, p.value) == Ok(sign)
  }

  /** Two rows of the block have the literal between their values, or at one of them. */
  ghost predicate Straddled(rows: seq<Row>, p: NumericPredicate) {
    exists a, b, x, y :: a in rows && b in rows && Stands(p, a, x) && Stands(p, b, y) && x <= 0 <= y
  }

  lemma {:induction false} CompareMonotone(a: NumericValue, b: NumericValue, v: NumericValue, t: ValueType)
    requires IsOfType(a, t) && IsOfType(b, t) && Rank(a) <= Rank(b) && Comparable(a) && Comparable(b)
    ensures CompareValues(a, v).Ok? && CompareValues(b, v).Ok?
    ensures CompareValues(a, v).value <= CompareValues(b, v).value
  {
    hide FromInt, IsNaN, Order;
    RankedAsDoubles(a, b, t);
    if t.DOUBLE? || v.Double? {
      PlacesMonotone(AsDouble(a), AsDouble(b), AsDouble(v));
      assert CompareValues(a, v) == Ok(CompareDoubles(AsDouble(a), AsDouble(v)));
      assert CompareValues(b, v) == Ok(CompareDoubles(AsDouble(b), AsDouble(v)));
    }
  }

  lemma {:induction false} PlacesMonotone(a: U64, b: U64, v: U64)
    requires !IsNaN(a) && !IsNaN(b) && Order(a) <= Order(b)
    ensures CompareDoubles(a, v) <= CompareDoubles(b, v)
  {
  }

  /** What the bounds say: of each bound against the literal. */
  lemma {:induction false} KeptByBounds(s: BlockStats, p: NumericPredicate)
    requires s.hasValue && IsOfType(s.min, s.valueType) && IsOfType(s.max, s.valueType)
    requires Rank(s.min) <= Rank(s.max) && Comparable(s.min) && Comparable(s.max)
    ensures CompareValues(s.min, p.value).Ok? && CompareValues(s.max, p.value).Ok?
    ensures var low, high := CompareValues(s.min, p.value).value, CompareValues(s.max, p.value).value;
            BlockMaySatisfy(s, p) <==>
            || (!IsNaNValue(p.value) && (p.op.Admits(low) || p.op.Admits(high)))
            || (p.op.Equal? && low <= 0 <= high)
  {
    hide FromInt;
    CompareMonotone(s.min, s.max, p.value, s.valueType);
  }

  /**
   A block is kept if and only if a row of it satisfies the predicate without meeting a NaN or, for `=`, the
   literal lies between the values of two of its rows.
   */
  lemma {:induction false} KeptExactly(rows: seq<Row>, p: NumericPredicate, t: ValueType)
    requires ColumnFits(rows, p.column, t)
    ensures BlockMaySatisfy(StatsOf(rows, p.column, t), p) <==>
            || (!IsNaNValue(p.value) && exists r, sign :: r in rows && Stands(p, r, sign) && p.op.Admits(sign))
            || (p.op.Equal? && Straddled(rows, p))
  {
    hide StatsOf, BlockMaySatisfy, FromInt, CompareValues, Rank, CellFits;
    StatsAreExact(rows, p.column, t);
    var s := StatsOf(rows, p.column, t);
    if s.hasValue {
      var a :| a in rows && Holds(a, p.column, s.min);
      var b :| b in rows && Holds(b, p.column, s.max);
      KeptByBounds(s, p);
      var low, high := CompareValues(s.min, p.value).value, CompareValues(s.max, p.value).value;
      assert Stands(p, a, low) && Stands(p, b, high);
      forall r, sign | r in rows && Stands(p, r, sign) ensures low <= sign <= high {
        var v := r.Column(p.column).value;
        assert Holds(r, p.column, v);
        OfColumn(rows, p, t, r);
        CompareMonotone(s.min, v, p.value, t);
        CompareMonotone(v, s.max, p.value, t);
      }
      forall sign | low <= sign <= high && p.op.Admits(sign)
        ensures p.op.Admits(low) || p.op.Admits(high) || (p.op.Equal? && low <= 0 <= high) {}
    } else {
      NothingKept(s, p);
      forall r, sign | r in rows ensures !Stands(p, r, sign) {
        if r.HasColumn(p.column) && r.Column(p.column).Some? {
          assert !Holds(r, p.column, r.Column(p.column).value);
        }
      }
    }
  }

  lemma {:induction false} NothingKept(s: BlockStats, p: NumericPredicate)
    requires !s.hasValue
    ensures !BlockMaySatisfy(s, p)
  {
  }

  lemma {:induction false} OfColumn(rows: seq<Row>, p: NumericPredicate, t: ValueType, row: Row)
    requires ColumnFits(rows, p.column, t) && row in rows && row.Column(p.column).Some?
    ensures IsOfType(row.Column(p.column).value, t)
  {
    assert CellFits(row.Column(p.column), t);
  }

  const A_NAN: U64 := 0x7FF8_0000_0000_0000

  /** A block of one NaN is dropped for any `= number`, which the executor takes the NaN to satisfy. */
  lemma {:induction false} NaNIsLost(key: Key, value: NumericValue)
    requires Comparable(value)
    ensures var rows, p := [Row(key, [Some(Double(A_NAN))])], NumericPredicate(1, Equal, value);
            && ColumnFits(rows, 1, DOUBLE) && !BlockMaySatisfy(StatsOf(rows, 1, DOUBLE), p)
            && MeetsNaN(p, rows[0]) && PredicateHolds(p, rows[0])
  {
    var row := Row(key, [Some(Double(A_NAN))]);
    assert [row][..0] == [];
    assert row.Column(1) == Some(Double(A_NAN));
    NaNComparesEqual(Double(A_NAN), NumericPredicate(1, Equal, value));
  }

  // ---------- Dropping blocks ----------

  /** Statistics of the blocks [first, first + count), for the columns that have any. */
  datatype StatsRange = StatsRange(first: nat, count: nat, byColumn: map<nat, seq<BlockStats>>)

  /** The block's statistics let this predicate through, or say nothing about it. */
  predicate PredicateMaySatisfy(block: nat, stats: StatsRange, p: NumericPredicate)
    requires stats.first <= block
  {
    p.column in stats.byColumn && block - stats.first < |stats.byColumn[p.column]| ==>
      BlockMaySatisfy(stats.byColumn[p.column][block - stats.first], p)
  }

  /** Every predicate lets the block through; a block outside the statistics is kept. */
  predicate KeepBlock(block: nat, stats: StatsRange, filter: seq<NumericPredicate>) {
    stats.first <= block < stats.first + stats.count ==>
      forall p :: p in filter ==> PredicateMaySatisfy(block, stats, p)
  }

  /** may_satisfy: the first predicate that rules the block out decides. */
  method MaySatisfy(block: nat, stats: StatsRange, filter: seq<NumericPredicate>) returns (may: bool)
    requires forall c :: c in stats.byColumn ==> |stats.byColumn[c]| == stats.count
    ensures may <==> KeepBlock(block, stats, filter)
  {
    if block < stats.first { return true; }
    var relative := block - stats.first;
    if relative >= stats.count { return true; }
    for i := 0 to |filter|
      invariant forall j :: 0 <= j < i ==> PredicateMaySatisfy(block, stats, filter[j])
    {
      var p := filter[i];
      if p.column !in stats.byColumn { continue; }
      var column := stats.byColumn[p.column];
      if relative >= |column| { return true; }
      if !BlockMaySatisfy(column[relative], p) {
        assert p in filter && !PredicateMaySatisfy(block, stats, p);
        return false;
      }
    }
    return true;
  }
}
