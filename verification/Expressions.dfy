/**
 Bound expressions and their three-valued evaluation over one row
 (EvaluateExpression, EvaluatePredicate and the comparison functions of the executor).
 A thrown exception is the value `Err`.
 */
module Expressions {
  import opened Storage
  import opened Doubles

  datatype ResultValue = Data(value: Value) | Bool(b: bool)
  type Nullable = Option<ResultValue>

  datatype BinaryOp = Equal | NotEqual | Less | LessEqual | Greater | GreaterEqual | And | Or {
    predicate IsComparison() { !And? && !Or? }

    /** What a comparison makes of the sign of the three-way comparison. */
    predicate Admits(sign: int)
      requires IsComparison()
    {
      match this
      case Equal => sign == 0
      case NotEqual => sign != 0
      case Less => sign < 0
      case LessEqual => sign <= 0
      case Greater => sign > 0
      case GreaterEqual => sign >= 0
    }
  }

  datatype Expr =
    | Literal(literal: Cell)
    | Column(index: nat)
    | Not(operand: Expr)
    | Binary(op: BinaryOp, left: Expr, right: Expr)
    | IsNull(operand: Expr, negated: bool)

  function CompareInts(a: int, b: int): int { if a < b then -1 else if a > b then 1 else 0 }

  /** Two tests with `<` and `>`: a NaN on either side compares as 0. */
  function CompareDoubles(a: U64, b: U64): int {
    if Doubles.Less(a, b) then -1 else if Doubles.Less(b, a) then 1 else 0
  }

  function CompareBytes(a: seq<Byte>, b: seq<Byte>): int {
    if a == [] then (if b == [] then 0 else -1)
    else if b == [] then 1
    else if a[0] != b[0] then CompareInts(a[0], b[0])
    else CompareBytes(a[1..], b[1..])
  }

  function CompareValues(left: Value, right: Value): Result<int> {
    match (left, right)
    case (Int(a), Int(b)) => Ok(CompareInts(a, b))
    case (Int(a), Double(b)) => Ok(CompareDoubles(FromInt(a), b))
    case (Double(a), Double(b)) => Ok(CompareDoubles(a, b))
    case (Double(a), Int(b)) => Ok(CompareDoubles(a, FromInt(b)))
    case (Str(a), Str(b)) => Ok(CompareBytes(a, b))
    case _ => Err
  }

  function Compare(left: ResultValue, right: ResultValue): Result<int> {
    match (left, right)
    case (Data(a), Data(b)) => CompareValues(a, b)
    case (Bool(a), Bool(b)) => Ok(if a == b then 0 else if a then 1 else -1)
    case _ => Err
  }

  function FromCell(cell: Cell): Nullable {
    match cell
    case None => None
    case Some(v) => Some(Data(v))
  }

  function Evaluate(e: Expr, row: Row): Result<Nullable> {
    match e
    case Literal(literal) => Ok(FromCell(literal))
    case Column(index) => if row.HasColumn(index) then Ok(FromCell(row.Column(index))) else Err
    case Not(operand) =>
      var v :- Evaluate(operand, row);
      (match v
       case None => Ok(None)
       case Some(Bool(b)) => Ok(Some(Bool(!b)))
       case Some(Data(_)) => Err)
    case Binary(op, left, right) =>
      var l :- Evaluate(left, row);
      var r :- Evaluate(right, row);
      if op == And then Connective(l, r, false)
      else if op == Or then Connective(l, r, true)
      else if l.None? || r.None? then Ok(None)
      else
        var sign :- Compare(l.value, r.value);
        Ok(Some(Bool(op.Admits(sign))))
    case IsNull(operand, negated) =>
      var v :- Evaluate(operand, row);
      Ok(Some(Bool(v.None? != negated)))
  }

  /** AND (decisive == false) and OR (decisive == true): the operands are inspected left to right. */
  function Connective(l: Nullable, r: Nullable, decisive: bool): Result<Nullable> {
    if l.Some? && l.value.Data? then Err
    else if l == Some(Bool(decisive)) then Ok(l)
    else if r.Some? && r.value.Data? then Err
    else if r == Some(Bool(decisive)) then Ok(r)
    else if l.None? || r.None? then Ok(None)
    else Ok(Some(Bool(!decisive)))
  }

  const TRUE: Result<Nullable> := Ok(Some(Bool(true)))

  /** EvaluatePredicate: NULL rejects, a non-Boolean value throws. */
  function EvaluatePredicate(e: Expr, row: Row): Result<bool> {
    var v :- Evaluate(e, row);
    match v
    case None => Ok(false)
    case Some(Bool(b)) => Ok(b)
    case Some(Data(_)) => Err
  }

  /** The row test of an optional WHERE clause. */
  function Accepts(condition: Option<Expr>): Row -> bool {
    (r: Row) => condition.None? || EvaluatePredicate(condition.value, r) == Ok(true)
  }

  function Conjuncts(e: Expr): (cs: seq<Expr>)
    ensures cs != []
    ensures forall c :: c in cs ==> !(c.Binary? && c.op.And?)
  {
    if e.Binary? && e.op.And? then Conjuncts(e.left) + Conjuncts(e.right) else [e]
  }

  /** CollectConjuncts: the same list, appended to the caller's vector. */
  method CollectConjuncts(e: Expr, collected: seq<Expr>) returns (all: seq<Expr>)
    ensures all == collected + Conjuncts(e)
  {
    if e.Binary? && e.op == And {
      all := CollectConjuncts(e.left, collected);
      all := CollectConjuncts(e.right, all);
      return;
    }
    all := collected + [e];
  }

  lemma {:induction false} AndIsTrue(l: Nullable, r: Nullable)
    ensures Connective(l, r, false) == TRUE <==> Ok(l) == TRUE && Ok(r) == TRUE
  {
  }

  /** A condition holds exactly when each of its conjuncts does, and none of them throws before it does. */
  lemma {:induction false} ConjunctsDecide(e: Expr, row: Row)
    requires Evaluate(e, row).Ok?
    ensures Evaluate(e, row) == TRUE <==> forall c :: c in Conjuncts(e) ==> Evaluate(c, row) == TRUE
    ensures forall c :: c in Conjuncts(e) ==> Evaluate(c, row).Ok?
  {
    if e.Binary? && e.op.And? {
      var l, r := Evaluate(e.left, row), Evaluate(e.right, row);
      AndIsTrue(l.value, r.value);
      assert (Evaluate(e, row) == TRUE) == (l == TRUE && r == TRUE);
      ConjunctsDecide(e.left, row);
      ConjunctsDecide(e.right, row);
      assert Conjuncts(e) == Conjuncts(e.left) + Conjuncts(e.right);
    }
  }

  /** The columns an expression reads (CollectProjectionFromExpression). */
  function Columns(e: Expr): set<nat> {
    match e
    case Literal(_) => {}
    case Column(index) => {index}
    case Not(operand) => Columns(operand)
    case Binary(_, left, right) => Columns(left) + Columns(right)
    case IsNull(operand, _) => Columns(operand)
  }

  /** The expression and everything it is made of. */
  ghost function Parts(e: Expr): set<Expr> {
    match e
    case Literal(_) => {e}
    case Column(_) => {e}
    case Not(operand) => {e} + Parts(operand)
    case Binary(_, left, right) => {e} + Parts(left) + Parts(right)
    case IsNull(operand, _) => {e} + Parts(operand)
  }

  lemma {:induction false} ColumnsExactly(e: Expr, index: nat)
    ensures index in Columns(e) <==> Column(index) in Parts(e)
  {
    match e
    case Literal(_) =>
    case Column(_) =>
    case Not(operand) => ColumnsExactly(operand, index);
    case Binary(_, left, right) =>
      ColumnsExactly(left, index);
      ColumnsExactly(right, index);
    case IsNull(operand, _) => ColumnsExactly(operand, index);
  }

  /** Evaluation cannot see the columns that were not requested. */
  lemma {:induction false} EvaluateMasked(e: Expr, row: Row, projection: set<nat>)
    requires Columns(e) <= projection
    ensures Evaluate(e, row.Mask(projection)) == Evaluate(e, row)
  {
    match e
    case Literal(_) =>
    case Column(index) =>
      assert index in projection;
      MaskKeeps(row, projection);
    case Not(operand) => EvaluateMasked(operand, row, projection);
    case Binary(_, left, right) =>
      EvaluateMasked(left, row, projection);
      EvaluateMasked(right, row, projection);
    case IsNull(operand, _) => EvaluateMasked(operand, row, projection);
  }

  /** Static kinds: what the operand of each operator must be for evaluation to be total. */
  datatype Kind = Numeric | Text | Boolean | Untyped

  function KindOfType(t: ValueType): Kind { if t.STRING? then Text else Numeric }

  /** The kind of a well-typed expression over `schema`; None when it is not well typed. */
  function KindOf(e: Expr, schema: Schema): Option<Kind>
    decreases e, 0
  {
    match e
    case Literal(None) => Some(Untyped)
    case Literal(Some(Str(_))) => Some(Text)
    case Literal(Some(_)) => Some(Numeric)
    case Column(index) =>
      if index == 0 then Some(Numeric)
      else if index <= |schema| then Some(KindOfType(schema[index - 1]))
      else None
    case Not(operand) => if IsCondition(operand, schema) then Some(Boolean) else None
    case Binary(op, left, right) =>
      var l, r := KindOf(left, schema), KindOf(right, schema);
      if op.IsComparison() then
        if l.Some? && r.Some? && (l == r || l.value.Untyped? || r.value.Untyped?) then Some(Boolean) else None
      else if IsCondition(left, schema) && IsCondition(right, schema) then Some(Boolean) else None
    case IsNull(operand, _) => if KindOf(operand, schema).Some? then Some(Boolean) else None
  }

  predicate IsCondition(e: Expr, schema: Schema)
    decreases e, 1
  {
    KindOf(e, schema) == Some(Boolean) || KindOf(e, schema) == Some(Untyped)
  }

  predicate HasKind(v: Nullable, k: Kind) {
    match v
    case None => true
    case Some(Bool(_)) => k.Boolean?
    case Some(Data(Str(_))) => k.Text?
    case Some(Data(_)) => k.Numeric?
  }

  /** Well-typed expressions evaluate without an exception on every row of the schema. */
  lemma {:induction false} WellTypedEvaluates(e: Expr, schema: Schema, row: Row)
    requires RowFits(row, schema) && KindOf(e, schema).Some?
    ensures Evaluate(e, row).Ok? && HasKind(Evaluate(e, row).value, KindOf(e, schema).value)
  {
    match e
    case Literal(_) =>
    case Column(index) => if index > 0 { assert CellFits(row.cells[index - 1], schema[index - 1]); }
    case Not(operand) => WellTypedEvaluates(operand, schema, row);
    case Binary(_, left, right) =>
      WellTypedEvaluates(left, schema, row);
      WellTypedEvaluates(right, schema, row);
    case IsNull(operand, _) => WellTypedEvaluates(operand, schema, row);
  }

  // ---------- What the binder lets through ----------

  /** The types that the binder gives to bound expressions. */
  datatype ExpressionType = StringType | Int64Type | DoubleType | BooleanType | NullType

  function TypeOfColumn(t: ValueType): ExpressionType {
    match t
    case INT64 => Int64Type
    case DOUBLE => DoubleType
    case STRING => StringType
  }

  /** BindExpression: fails on an unknown column only; every operator is of type BOOLEAN, whatever its operands are. */
  function BoundType(e: Expr, schema: Schema): Result<ExpressionType> {
    match e
    case Literal(None) => Ok(NullType)
    case Literal(Some(Int(_))) => Ok(Int64Type)
    case Literal(Some(Double(_))) => Ok(DoubleType)
    case Literal(Some(Str(_))) => Ok(StringType)
    case Column(index) =>
      if index == 0 then Ok(Int64Type)
      else if index <= |schema| then Ok(TypeOfColumn(schema[index - 1]))
      else Err
    case Not(operand) => var t :- BoundType(operand, schema); Ok(BooleanType)
    case Binary(_, left, right) =>
      var l :- BoundType(left, schema);
      var r :- BoundType(right, schema);
      Ok(BooleanType)
    case IsNull(operand, _) => var t :- BoundType(operand, schema); Ok(BooleanType)
  }

  /** A value of that type; no value is of the type of NULL. */
  predicate IsOf(v: ResultValue, t: ExpressionType) {
    match v
    case Bool(_) => t == BooleanType
    case Data(Int(_)) => t == Int64Type
    case Data(Double(_)) => t == DoubleType
    case Data(Str(_)) => t == StringType
  }

  predicate Known(columns: set<nat>, schema: Schema) { forall i :: i in columns ==> i <= |schema| }

  lemma {:induction false} KnownBoth(a: set<nat>, b: set<nat>, schema: Schema)
    ensures Known(a + b, schema) <==> Known(a, schema) && Known(b, schema)
  {
    assert forall i :: i in a || i in b <==> i in a + b;
  }

  /** Binding fails on an unknown column only. */
  lemma {:induction false} BindsExactly(e: Expr, schema: Schema)
    ensures BoundType(e, schema).Ok? <==> Known(Columns(e), schema)
  {
    hide Known;
    match e
    case Literal(_) => KnownLeaf(0, schema);
    case Column(index) => KnownLeaf(index, schema);
    case Not(operand) => BindsExactly(operand, schema);
    case Binary(_, left, right) =>
      BindsExactly(left, schema);
      BindsExactly(right, schema);
      KnownBoth(Columns(left), Columns(right), schema);
    case IsNull(operand, _) => BindsExactly(operand, schema);
  }

  lemma {:induction false} KnownLeaf(index: nat, schema: Schema)
    ensures Known({}, schema) && (Known({index}, schema) <==> index <= |schema|)
  {
    assert index in {index};
  }

  /** What a bound expression yields is NULL or of its type. */
  lemma {:induction false} BoundTypeMeans(e: Expr, schema: Schema, row: Row)
    requires RowFits(row, schema) && BoundType(e, schema).Ok?
    ensures Evaluate(e, row).Ok? && Evaluate(e, row).value.Some?
            ==> IsOf(Evaluate(e, row).value.value, BoundType(e, schema).value)
  {
    hide Compare;
    match e
    case Literal(_) =>
    case Column(index) => if index > 0 { assert CellFits(row.cells[index - 1], schema[index - 1]); }
    case Not(operand) => BoundTypeMeans(operand, schema, row);
    case Binary(_, left, right) =>
      BoundTypeMeans(left, schema, row);
      BoundTypeMeans(right, schema, row);
    case IsNull(operand, _) => BoundTypeMeans(operand, schema, row);
  }

  /** ValidateWhere. */
  predicate WhereBinds(e: Expr, schema: Schema) { BoundType(e, schema) == Ok(BooleanType) }

  predicate NullFree(e: Expr) {
    match e
    case Literal(literal) => literal.Some?
    case Column(_) => true
    case Not(operand) => NullFree(operand)
    case Binary(_, left, right) => NullFree(left) && NullFree(right)
    case IsNull(operand, _) => NullFree(operand)
  }

  /** NOT, AND and OR stand over operators only. */
  predicate OverBooleans(e: Expr, schema: Schema) {
    match e
    case Literal(_) => true
    case Column(_) => true
    case Not(operand) => WhereBinds(operand, schema) && OverBooleans(operand, schema)
    case Binary(op, left, right) =>
      && (op.IsComparison() || (WhereBinds(left, schema) && WhereBinds(right, schema)))
      && OverBooleans(left, schema) && OverBooleans(right, schema)
    case IsNull(operand, _) => OverBooleans(operand, schema)
  }

  predicate HasNoNull(row: Row) { forall i :: 0 <= i < |row.cells| ==> row.cells[i].Some? }

  /** The type of a bound expression and its kind, where it has one. */
  predicate OfType(k: Kind, t: ExpressionType) {
    match t
    case StringType => k.Text?
    case BooleanType => k.Boolean?
    case NullType => k.Untyped?
    case _ => k.Numeric?
  }

  lemma {:induction false} KindsCompare(a: ResultValue, b: ResultValue, ka: Kind, kb: Kind)
    requires HasKind(Some(a), ka) && HasKind(Some(b), kb)
    ensures Compare(a, b).Ok? <==> ka == kb
  {
  }

  /** Without NULLs in it, evaluation throws exactly when a text, a number and a truth value are compared crosswise. */
  lemma {:induction false} ThrowsExactly(e: Expr, schema: Schema, row: Row)
    requires BoundType(e, schema).Ok? && NullFree(e) && OverBooleans(e, schema)
    requires RowFits(row, schema) && HasNoNull(row)
    ensures Evaluate(e, row).Ok? <==> KindOf(e, schema).Some?
    ensures Evaluate(e, row).Ok? ==>
              Evaluate(e, row).value.Some? && OfType(KindOf(e, schema).value, BoundType(e, schema).value)
    ensures Evaluate(e, row).Ok? ==> HasKind(Evaluate(e, row).value, KindOf(e, schema).value)
  {
    hide Compare;
    match e
    case Literal(_) =>
    case Column(index) => if index > 0 { assert CellFits(row.cells[index - 1], schema[index - 1]); }
    case Not(operand) => ThrowsExactly(operand, schema, row);
    case Binary(_, left, right) =>
      ThrowsExactly(left, schema, row);
      ThrowsExactly(right, schema, row);
      var l, r := Evaluate(left, row), Evaluate(right, row);
      if l.Ok? && r.Ok? {
        KindsCompare(l.value.value, r.value.value, KindOf(left, schema).value, KindOf(right, schema).value);
      }
    case IsNull(operand, _) => ThrowsExactly(operand, schema, row);
  }

  function SampleCell(t: ValueType): Cell {
    Some(match t
         case INT64 => Int(0)
         case DOUBLE => Double(0)
         case STRING => Str([]))
  }

  function SampleRow(schema: Schema): (row: Row)
    ensures RowFits(row, schema) && HasNoNull(row)
  {
    Row(0, seq(|schema|, i requires 0 <= i < |schema| => SampleCell(schema[i])))
  }

  /**
   A WHERE clause without NULL literals, whose connectives stand over operators, never throws if and only if it
   is well typed; otherwise it throws on every row without NULLs.
   */
  lemma {:induction false} BoundConditionThrows(e: Expr, schema: Schema)
    requires WhereBinds(e, schema) && NullFree(e) && OverBooleans(e, schema)
    ensures (forall row :: RowFits(row, schema) ==> EvaluatePredicate(e, row).Ok?) <==> IsCondition(e, schema)
    ensures !IsCondition(e, schema) ==>
              forall row :: RowFits(row, schema) && HasNoNull(row) ==> EvaluatePredicate(e, row).Err?
  {
    hide Evaluate, KindOf, RowFits, HasNoNull, BoundType, NullFree, OverBooleans, SampleRow;
    ThrowsExactly(e, schema, SampleRow(schema));
    forall row | RowFits(row, schema) ensures IsCondition(e, schema) ==> EvaluatePredicate(e, row).Ok? {
      if IsCondition(e, schema) { WellTypedEvaluates(e, schema, row); }
    }
    forall row | RowFits(row, schema) && HasNoNull(row)
      ensures !IsCondition(e, schema) ==> EvaluatePredicate(e, row).Err?
    {
      ThrowsExactly(e, schema, row);
    }
  }

  /** `name = 5` binds, and throws on every row with a name. */
  lemma {:induction false} TextAgainstNumber(key: Key, name: seq<Byte>)
    requires |name| < U32_LIMIT
    ensures var condition, row := Binary(Equal, Column(1), Literal(Some(Int(5)))), Row(key, [Some(Str(name))]);
            && WhereBinds(condition, [STRING]) && RowFits(row, [STRING]) && EvaluatePredicate(condition, row).Err?
  {
    var row := Row(key, [Some(Str(name))]);
    assert row.Column(1) == Some(Str(name));
    assert Evaluate(Column(1), row) == Ok(Some(Data(Str(name))));
    assert Evaluate(Literal(Some(Int(5))), row) == Ok(Some(Data(Int(5))));
    assert Compare(Data(Str(name)), Data(Int(5))).Err?;
  }
}
