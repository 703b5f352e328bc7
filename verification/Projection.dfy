/** The columns a statement reads: each once, all inside the schema. */
module Projection {
  import opened Expressions
  import opened Decoders

  /** The flags say which columns are listed. */
  ghost predicate Tracks(width: nat, projection: seq<nat>, used: seq<bool>) {
    GoodProjection(width, projection) && |used| == width
    && forall c :: 0 <= c < width ==> (used[c] <==> c in projection)
  }

  /** Every column the expression mentions is in the schema. */
  predicate Within(e: Expr, width: nat) {
    match e
    case Literal(_) => true
    case Column(index) => index < width
    case Not(operand) => Within(operand, width)
    case Binary(_, left, right) => Within(left, width) && Within(right, width)
    case IsNull(operand, _) => Within(operand, width)
  }

  lemma {:induction false} ListOnce(width: nat, projection: seq<nat>, used: seq<bool>, column: nat)
    requires Tracks(width, projection, used) && column < width && !used[column]
    ensures Tracks(width, projection + [column], used[column := true])
    ensures ColumnsOf(projection + [column]) == ColumnsOf(projection) + {column}
  {
    assert column !in projection;
  }

  /** CollectProjectionFromExpression: the expression's columns are appended, none a second time. */
  method CollectFromExpression(e: Expr, width: nat, projection: seq<nat>, used: seq<bool>)
    returns (p: seq<nat>, u: seq<bool>)
    requires Tracks(width, projection, used) && Within(e, width)
    ensures Tracks(width, p, u) && ColumnsOf(p) == ColumnsOf(projection) + Columns(e)
  {
    hide Tracks, ColumnsOf;
    match e
    case Literal(_) => p, u := projection, used;
    case Column(index) =>
      Listed(width, projection, used, index);
      p, u := projection, used;
      if !used[index] {
        ListOnce(width, projection, used, index);
        p, u := projection + [index], used[index := true];
      }
    case Not(operand) => p, u := CollectFromExpression(operand, width, projection, used);
    case Binary(_, left, right) =>
      p, u := CollectFromExpression(left, width, projection, used);
      p, u := CollectFromExpression(right, width, p, u);
    case IsNull(operand, _) => p, u := CollectFromExpression(operand, width, projection, used);
  }

  lemma {:induction false} Listed(width: nat, projection: seq<nat>, used: seq<bool>, column: nat)
    requires Tracks(width, projection, used) && column < width
    ensures |used| == width && (used[column] ==> ColumnsOf(projection) == ColumnsOf(projection) + {column})
  {
  }

  function ColumnsOfAll(es: seq<Expr>): set<nat> {
    if es == [] then {} else ColumnsOfAll(es[..|es| - 1]) + Columns(es[|es| - 1])
  }

  /** CollectRequiredProjection: exactly the columns of all expressions, in a form that the cursors accept. */
  method CollectRequiredProjection(es: seq<Expr>, width: nat) returns (projection: seq<nat>)
    requires forall e :: e in es ==> Within(e, width)
    ensures GoodProjection(width, projection) && ColumnsOf(projection) == ColumnsOfAll(es)
  {
    hide ColumnsOf, Columns;
    var used := seq(width, i => false);
    projection := [];
    assert ColumnsOf([]) == {} by { NoColumns(); }
    for i := 0 to |es|
      invariant Tracks(width, projection, used) && ColumnsOf(projection) == ColumnsOfAll(es[..i])
    {
      assert es[i] in es && es[..i + 1][..i] == es[..i];
      projection, used := CollectFromExpression(es[i], width, projection, used);
    }
    assert es[..|es|] == es;
  }

  lemma {:induction false} NoColumns()
    ensures ColumnsOf([]) == {}
  {
  }
}
