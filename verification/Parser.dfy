/** The recursive-descent parser for expressions, and a printer with as few parentheses as the grammar allows. */
module Parser {
  import opened Storage

  /** Tokens that carry no text of their own; the end of the input is one of them. */
  datatype Mark =
    | EndOfFile | Create | Table | Insert | Into | Values | Select | From | Where | Primary | Null | Not | And | Or
    | Is | Group | By
    | Order | Limit | Asc | Desc | StringType | Int64Type | DoubleType | Count | Sum | Avg | Min | Max
    | LParen | RParen | Comma | Semicolon | Star | Equal | NotEqual | Less | LessEqual | Greater | GreaterEqual

  /** Identifiers, the word KEY in some spelling, literals by their text, and marks. */
  datatype Token =
    | Word(text: string) | KeyWord(text: string) | Text(value: string)
    | Whole(digits: string) | Decimal(digits: string)
    | Sign(mark: Mark)

  datatype Operation = OpEqual | OpNotEqual | OpLess | OpLessEqual | OpGreater | OpGreaterEqual | OpAnd | OpOr

  datatype Ast =
    | Name(token: Token)
    | Constant(token: Token)
    | Negation(operand: Ast)
    | Combined(op: Operation, left: Ast, right: Ast)
    | NullTest(operand: Ast, negated: bool)

  type Tokens = seq<Token>

  datatype Parsed = Parsed(ast: Ast, rest: Tokens)

  // ---------- The grammar as functions ----------

  predicate At(ts: Tokens, mark: Mark) { ts != [] && ts[0] == Sign(mark) }

  predicate IsColumnName(t: Token) { t.Word? || t.KeyWord? }
  predicate IsConstant(t: Token) { t.Text? || t.Whole? || t.Decimal? || t == Sign(Null) }

  function ComparisonAt(ts: Tokens): Option<Operation> {
    if At(ts, Equal) then Some(OpEqual)
    else if At(ts, NotEqual) then Some(OpNotEqual)
    else if At(ts, Less) then Some(OpLess)
    else if At(ts, LessEqual) then Some(OpLessEqual)
    else if At(ts, Greater) then Some(OpGreater)
    else if At(ts, GreaterEqual) then Some(OpGreaterEqual)
    else None
  }


  function ParseOr(ts: Tokens): (r: Result<Parsed>)
    ensures r.Ok? ==> |r.value.rest| < |ts|
    decreases |ts|, 5
  {
    var left :- ParseAnd(ts);
    OrRest(left.ast, left.rest)
  }

  function OrRest(left: Ast, ts: Tokens): (r: Result<Parsed>)
    ensures r.Ok? ==> |r.value.rest| <= |ts|
    decreases |ts|, 0
  {
    if !At(ts, Or) then Ok(Parsed(left, ts))
    else
      var right :- ParseAnd(ts[1..]);
      OrRest(Combined(OpOr, left, right.ast), right.rest)
  }

  function ParseAnd(ts: Tokens): (r: Result<Parsed>)
    ensures r.Ok? ==> |r.value.rest| < |ts|
    decreases |ts|, 4
  {
    var left :- ParseNot(ts);
    AndRest(left.ast, left.rest)
  }

  function AndRest(left: Ast, ts: Tokens): (r: Result<Parsed>)
    ensures r.Ok? ==> |r.value.rest| <= |ts|
    decreases |ts|, 0
  {
    if !At(ts, And) then Ok(Parsed(left, ts))
    else
      var right :- ParseNot(ts[1..]);
      AndRest(Combined(OpAnd, left, right.ast), right.rest)
  }

  function ParseNot(ts: Tokens): (r: Result<Parsed>)
    ensures r.Ok? ==> |r.value.rest| < |ts|
    decreases |ts|, 3
  {
    if At(ts, Not) then
      var operand :- ParseNot(ts[1..]);
      Ok(Parsed(Negation(operand.ast), operand.rest))
    else ParsePredicate(ts)
  }

  function ParsePredicate(ts: Tokens): (r: Result<Parsed>)
    ensures r.Ok? ==> |r.value.rest| < |ts|
    decreases |ts|, 2
  {
    var left :- ParseAtomic(ts);
    if At(left.rest, Is) then
      var negated := At(left.rest[1..], Not);
      var tail := if negated then left.rest[2..] else left.rest[1..];
      if !At(tail, Null) then Err else Ok(Parsed(NullTest(left.ast, negated), tail[1..]))
    else
      var op := ComparisonAt(left.rest);
      if op.None? then Ok(left)
      else
        var right :- ParseAtomic(left.rest[1..]);
        Ok(Parsed(Combined(op.value, left.ast, right.ast), right.rest))
  }

  function ParseAtomic(ts: Tokens): (r: Result<Parsed>)
    ensures r.Ok? ==> |r.value.rest| < |ts|
    decreases |ts|, 1
  {
    if At(ts, LParen) then
      var inner :- ParseOr(ts[1..]);
      if !At(inner.rest, RParen) then Err else Ok(Parsed(inner.ast, inner.rest[1..]))
    else if ts == [] then Err
    else if IsColumnName(ts[0]) then Ok(Parsed(Name(ts[0]), ts[1..]))
    else if IsConstant(ts[0]) then Ok(Parsed(Constant(ts[0]), ts[1..]))
    else Err
  }

  // ---------- The printer ----------

  /** 0 an OR, 1 an AND, 2 a NOT, 3 a predicate, 4 an atom. */
  function LevelOf(e: Ast): nat {
    match e
    case Name(_) => 4
    case Constant(_) => 4
    case NullTest(_, _) => 3
    case Negation(_) => 2
    case Combined(OpAnd, _, _) => 1
    case Combined(OpOr, _, _) => 0
    case Combined(_, _, _) => 3
  }

  function MarkOf(op: Operation): Mark {
    match op
    case OpEqual => Equal
    case OpNotEqual => NotEqual
    case OpLess => Less
    case OpLessEqual => LessEqual
    case OpGreater => Greater
    case OpGreaterEqual => GreaterEqual
    case OpAnd => And
    case OpOr => Or
  }

  /** The expression where one of at least this level is expected: in parentheses when it is lower. */
  function Print(e: Ast, level: nat): Tokens
    decreases e, 1
  {
    if LevelOf(e) < level then [Sign(LParen)] + PrintBare(e) + [Sign(RParen)] else PrintBare(e)
  }

  function PrintBare(e: Ast): Tokens
    decreases e, 0
  {
    match e
    case Name(token) => [token]
    case Constant(token) => [token]
    case Negation(operand) => [Sign(Not)] + Print(operand, 2)
    case NullTest(operand, negated) =>
      Print(operand, 4) + [Sign(Is)] + (if negated then [Sign(Not)] else []) + [Sign(Null)]
    case Combined(op, left, right) =>
      if op.OpOr? then Print(left, 0) + [Sign(Or)] + Print(right, 1)
      else if op.OpAnd? then Print(left, 1) + [Sign(And)] + Print(right, 2)
      else Print(left, 4) + [Sign(MarkOf(op))] + Print(right, 4)
  }

  /** Names hold column names and constants hold literals. */
  predicate Proper(e: Ast) {
    match e
    case Name(token) => IsColumnName(token)
    case Constant(token) => IsConstant(token)
    case Negation(operand) => Proper(operand)
    case NullTest(operand, _) => Proper(operand)
    case Combined(_, left, right) => Proper(left) && Proper(right)
  }

  // ---------- Parsing undoes printing ----------

  /** What follows cannot be taken into an expression of that level. */
  predicate Stops(rest: Tokens, level: nat) {
    && (level <= 3 ==> !At(rest, Is) && ComparisonAt(rest).None?)
    && (level <= 1 ==> !At(rest, And))
    && (level <= 0 ==> !At(rest, Or))
  }

  /** The parser for each level of the grammar. */
  function ParseLevel(level: nat, ts: Tokens): Result<Parsed> {
    if level == 0 then ParseOr(ts)
    else if level == 1 then ParseAnd(ts)
    else if level == 2 then ParseNot(ts)
    else if level == 3 then ParsePredicate(ts)
    else ParseAtomic(ts)
  }

  lemma {:induction false} Parenthesized(inner: Tokens, rest: Tokens, e: Ast)
    requires ParseOr(inner + ([Sign(RParen)] + rest)) == Ok(Parsed(e, [Sign(RParen)] + rest))
    ensures ParseAtomic([Sign(LParen)] + inner + [Sign(RParen)] + rest) == Ok(Parsed(e, rest))
  {
    var ts := [Sign(LParen)] + inner + [Sign(RParen)] + rest;
    assert ts[1..] == inner + ([Sign(RParen)] + rest);
    assert ([Sign(RParen)] + rest)[1..] == rest;
  }

  /** A first token that starts no NOT and no parenthesis, or one that does. */
  lemma {:induction false} AtomIsEveryLevel(ts: Tokens, e: Ast, rest: Tokens, level: nat)
    requires ParseAtomic(ts) == Ok(Parsed(e, rest)) && level <= 4 && Stops(rest, level)
    ensures ParseLevel(level, ts) == Ok(Parsed(e, rest))
  {
    if level <= 3 {
      assert ParsePredicate(ts) == Ok(Parsed(e, rest));
      PredicateIsEveryLevel(ts, e, rest, level);
    }
  }

  lemma {:induction false} AtomStartsNoNot(ts: Tokens)
    requires ParseAtomic(ts).Ok?
    ensures !At(ts, Not)
  {
  }

  lemma {:induction false} PredicateIsEveryLevel(ts: Tokens, e: Ast, rest: Tokens, level: nat)
    requires ParsePredicate(ts) == Ok(Parsed(e, rest)) && level <= 3 && Stops(rest, level)
    ensures ParseLevel(level, ts) == Ok(Parsed(e, rest))
  {
    AtomStartsNoNot(ts);
    if level <= 2 {
      assert ParseNot(ts) == Ok(Parsed(e, rest));
      NotIsEveryLevel(ts, e, rest, level);
    }
  }

  lemma {:induction false} NotIsEveryLevel(ts: Tokens, e: Ast, rest: Tokens, level: nat)
    requires ParseNot(ts) == Ok(Parsed(e, rest)) && level <= 2 && Stops(rest, level)
    ensures ParseLevel(level, ts) == Ok(Parsed(e, rest))
  {
    if level <= 1 {
      assert ParseAnd(ts) == AndRest(e, rest);
      AndEnds(e, ts, rest, level);
    }
  }

  /** An expression printed for an atom's place is read back by the atom parser. */
  lemma {:induction false} AtomRoundTrip(e: Ast, rest: Tokens)
    requires Proper(e)
    ensures ParseAtomic(Print(e, 4) + rest) == Ok(Parsed(e, rest))
    decreases e, 2
  {
    if e.Name? || e.Constant? {
      assert PrintBare(e) == [e.token];
      SingleAtom(e.token, rest);
    } else {
      BareRoundTrip(e, [Sign(RParen)] + rest, 0);
      Parenthesized(PrintBare(e), rest, e);
    }
  }

  /** Printed for a level and followed by something that stops it, an expression is read back. */
  lemma {:induction false} LevelRoundTrip(e: Ast, rest: Tokens, level: nat)
    requires Proper(e) && level <= 4 && Stops(rest, level)
    ensures ParseLevel(level, Print(e, level) + rest) == Ok(Parsed(e, rest))
    decreases e, 3
  {
    hide ParseOr, ParseAnd, ParseNot, ParsePredicate, ParseAtomic, ParseLevel, PrintBare;
    if LevelOf(e) < level {
      AtomRoundTrip(e, rest);
      assert Print(e, 4) == Print(e, level);
      AtomIsEveryLevel(Print(e, level) + rest, e, rest, level);
    } else {
      BareRoundTrip(e, rest, level);
    }
  }

  lemma {:induction false} BareRoundTrip(e: Ast, rest: Tokens, level: nat)
    requires Proper(e) && level <= 4 && level <= LevelOf(e) && Stops(rest, level)
    ensures ParseLevel(level, PrintBare(e) + rest) == Ok(Parsed(e, rest))
    decreases e, 1
  {
    hide ParseOr, ParseAnd, ParseNot, ParsePredicate, ParseAtomic, ParseLevel;
    var ts := PrintBare(e) + rest;
    match e
    case Name(token) => SingleAtom(token, rest); AtomIsEveryLevel(ts, e, rest, level);
    case Constant(token) => SingleAtom(token, rest); AtomIsEveryLevel(ts, e, rest, level);
    case NullTest(operand, negated) =>
      NullTestRoundTrip(operand, negated, rest);
      PredicateIsEveryLevel(ts, e, rest, level);
    case Negation(operand) =>
      NegationRoundTrip(operand, rest);
      NotIsEveryLevel(ts, e, rest, level);
    case Combined(op, left, right) =>
      if op.OpOr? {
        OrPrefix(e, rest);
        OrEnds(e, ts, rest);
      } else if op.OpAnd? {
        AndPrefix(e, rest);
        AndEnds(e, ts, rest, level);
      } else {
        ComparisonRoundTrip(op, left, right, rest);
        PredicateIsEveryLevel(ts, e, rest, level);
      }
  }

  lemma {:induction false} SingleAtom(token: Token, rest: Tokens)
    ensures IsColumnName(token) ==> ParseAtomic([token] + rest) == Ok(Parsed(Name(token), rest))
    ensures IsConstant(token) ==> ParseAtomic([token] + rest) == Ok(Parsed(Constant(token), rest))
  {
    assert ([token] + rest)[1..] == rest;
  }

  lemma {:induction false} NullTestRoundTrip(operand: Ast, negated: bool, rest: Tokens)
    requires Proper(operand)
    ensures ParsePredicate(PrintBare(NullTest(operand, negated)) + rest) == Ok(Parsed(NullTest(operand, negated), rest))
    decreases operand, 4
  {
    hide ParseAtomic;
    var middle := if negated then [Sign(Not)] else [];
    var tail := [Sign(Is)] + (middle + ([Sign(Null)] + rest));
    assert PrintBare(NullTest(operand, negated)) + rest == Print(operand, 4) + tail;
    AtomRoundTrip(operand, tail);
    assert tail[1..] == middle + ([Sign(Null)] + rest);
    assert ([Sign(Null)] + rest)[1..] == rest;
    if negated { assert tail[2..] == [Sign(Null)] + rest; } else { assert tail[1..] == [Sign(Null)] + rest; }
  }

  lemma {:induction false} ComparisonRoundTrip(op: Operation, left: Ast, right: Ast, rest: Tokens)
    requires Proper(left) && Proper(right) && !op.OpOr? && !op.OpAnd?
    ensures ParsePredicate(PrintBare(Combined(op, left, right)) + rest) == Ok(Parsed(Combined(op, left, right), rest))
    decreases Combined(op, left, right), 0
  {
    hide ParseAtomic;
    var tail := [Sign(MarkOf(op))] + (Print(right, 4) + rest);
    assert PrintBare(Combined(op, left, right)) + rest == Print(left, 4) + tail;
    AtomRoundTrip(left, tail);
    assert tail[1..] == Print(right, 4) + rest;
    AtomRoundTrip(right, rest);
  }

  lemma {:induction false} NegationRoundTrip(operand: Ast, rest: Tokens)
    requires Proper(operand) && Stops(rest, 2)
    ensures ParseNot(PrintBare(Negation(operand)) + rest) == Ok(Parsed(Negation(operand), rest))
    decreases operand, 4
  {
    var ts := PrintBare(Negation(operand)) + rest;
    assert ts[1..] == Print(operand, 2) + rest;
    LevelRoundTrip(operand, rest, 2);
  }

  // ---------- Left-associative chains ----------

  /** Reading a printed AND chain up to a point where the loop of ParseAnd continues. */
  lemma {:induction false} AndPrefix(e: Ast, rest: Tokens)
    requires Proper(e) && LevelOf(e) >= 1 && Stops(rest, 2)
    ensures ParseAnd(PrintBare(e) + rest) == AndRest(e, rest)
    decreases e, if e.Combined? && e.op.OpAnd? then 0 else 5
  {
    hide ParseNot, Stops, ParsePredicate, ParseAtomic, ParseOr, ParseLevel;
    if e.Combined? && e.op.OpAnd? {
      var tail := [Sign(And)] + (Print(e.right, 2) + rest);
      assert PrintBare(e) + rest == Print(e.left, 1) + tail;
      AndStops(Print(e.right, 2) + rest);
      assert tail[1..] == Print(e.right, 2) + rest;
      LevelIsNot(e.right, rest);
      if LevelOf(e.left) >= 1 {
        AndPrefix(e.left, tail);
      } else {
        LevelIsNot(e.left, tail);
        assert Print(e.left, 1) == Print(e.left, 2);
      }
    } else {
      LevelIsNot(e, rest);
    }
  }

  lemma {:induction false} AndStops(rest: Tokens)
    ensures Stops([Sign(And)] + rest, 2) && At([Sign(And)] + rest, And)
  {
  }

  lemma {:induction false} OrStops(rest: Tokens)
    ensures Stops([Sign(Or)] + rest, 1) && At([Sign(Or)] + rest, Or)
  {
  }

  lemma {:induction false} LevelIsNot(e: Ast, rest: Tokens)
    requires Proper(e) && Stops(rest, 2)
    ensures ParseNot(Print(e, 2) + rest) == Ok(Parsed(e, rest))
    decreases e, 4
  {
    LevelRoundTrip(e, rest, 2);
  }

  lemma {:induction false} LevelIsAnd(e: Ast, rest: Tokens)
    requires Proper(e) && Stops(rest, 1)
    ensures ParseAnd(Print(e, 1) + rest) == Ok(Parsed(e, rest))
    decreases e, 4
  {
    LevelRoundTrip(e, rest, 1);
  }

  /** The same for an OR chain and the loop of ParseOr. */
  lemma {:induction false} OrPrefix(e: Ast, rest: Tokens)
    requires Proper(e) && Stops(rest, 1)
    ensures ParseOr(PrintBare(e) + rest) == OrRest(e, rest)
    decreases e, if e.Combined? && e.op.OpOr? then 0 else 5
  {
    hide ParseAnd, Stops, ParseNot, ParsePredicate, ParseAtomic, ParseLevel;
    if e.Combined? && e.op.OpOr? {
      var tail := [Sign(Or)] + (Print(e.right, 1) + rest);
      assert PrintBare(e) + rest == Print(e.left, 0) + tail;
      OrStops(Print(e.right, 1) + rest);
      assert tail[1..] == Print(e.right, 1) + rest;
      LevelIsAnd(e.right, rest);
      OrPrefix(e.left, tail);
    } else {
      LevelIsAnd(e, rest);
    }
  }

  lemma {:induction false} OrEnds(e: Ast, ts: Tokens, rest: Tokens)
    requires ParseOr(ts) == OrRest(e, rest) && Stops(rest, 0)
    ensures ParseLevel(0, ts) == Ok(Parsed(e, rest))
  {
  }

  lemma {:induction false} AndEnds(e: Ast, ts: Tokens, rest: Tokens, level: nat)
    requires ParseAnd(ts) == AndRest(e, rest) && level <= 1 && Stops(rest, level)
    ensures ParseLevel(level, ts) == Ok(Parsed(e, rest))
  {
    assert ParseAnd(ts) == Ok(Parsed(e, rest));
    if level == 0 { assert ParseOr(ts) == OrRest(e, rest); }
  }

  /** Every expression, printed with as few parentheses as the grammar allows, parses back to itself. */
  lemma {:induction false} PrintParse(e: Ast, rest: Tokens)
    requires Proper(e) && Stops(rest, 0)
    ensures ParseOr(Print(e, 0) + rest) == Ok(Parsed(e, rest))
  {
    LevelRoundTrip(e, rest, 0);
  }

  // ---------- What the grammar reads ----------

  /** Names (KEY is one, too), literals and NULL stand alone; any other mark but a parenthesis is refused. */
  lemma {:induction false} AtomsParse(t: Token, rest: Tokens)
    ensures t.Word? || t.KeyWord? ==> ParseAtomic([t] + rest) == Ok(Parsed(Name(t), rest))
    ensures t.Text? || t.Whole? || t.Decimal? || t == Sign(Null) ==>
              ParseAtomic([t] + rest) == Ok(Parsed(Constant(t), rest))
    ensures t.Sign? && t.mark != Null && t.mark != LParen ==> ParseAtomic([t] + rest) == Err
    ensures ParseAtomic([]) == Err
  {
    hide ParseOr;
    assert ([t] + rest)[1..] == rest;
  }

  /** The token as an operand. */
  function Atom(t: Token): (e: Ast) { if t.Word? || t.KeyWord? then Name(t) else Constant(t) }

  predicate IsAtom(t: Token) { t.Sign? ==> t.mark == Null }

  ghost predicate Reads(x: Token, mark: Mark, y: Token, op: Operation) {
    ParseOr([x, Sign(mark), y]) == Ok(Parsed(Combined(op, Atom(x), Atom(y)), []))
  }

  /** The tree that each operator makes. */
  lemma {:induction false} OperatorsParse(x: Token, y: Token)
    requires IsAtom(x) && IsAtom(y)
    ensures Reads(x, Equal, y, OpEqual) && Reads(x, NotEqual, y, OpNotEqual)
    ensures Reads(x, Less, y, OpLess) && Reads(x, LessEqual, y, OpLessEqual)
    ensures Reads(x, Greater, y, OpGreater) && Reads(x, GreaterEqual, y, OpGreaterEqual)
    ensures Reads(x, And, y, OpAnd) && Reads(x, Or, y, OpOr)
    ensures ParseOr([Sign(Not), x]) == Ok(Parsed(Negation(Atom(x)), []))
    ensures ParseOr([x, Sign(Is), Sign(Null)]) == Ok(Parsed(NullTest(Atom(x), false), []))
    ensures ParseOr([x, Sign(Is), Sign(Not), Sign(Null)]) == Ok(Parsed(NullTest(Atom(x), true), []))
  {
    hide ParseOr, Reads;
    TestsParse(x);
    OperatorParses(x, OpEqual, y);
    OperatorParses(x, OpNotEqual, y);
    OperatorParses(x, OpLess, y);
    OperatorParses(x, OpLessEqual, y);
    OperatorParses(x, OpGreater, y);
    OperatorParses(x, OpGreaterEqual, y);
    OperatorParses(x, OpAnd, y);
    OperatorParses(x, OpOr, y);
  }

  lemma {:induction false} Printed(e: Ast, ts: Tokens)
    requires Proper(e) && Print(e, 0) == ts
    ensures ParseOr(ts) == Ok(Parsed(e, []))
  {
    hide Print, ParseOr;
    PrintParse(e, []);
    assert ts + [] == ts;
  }

  lemma {:induction false} AtomPrints(t: Token, level: nat)
    requires IsAtom(t) && level <= 4
    ensures Print(Atom(t), level) == [t] && Proper(Atom(t))
  {
  }

  lemma {:induction false} TestsParse(x: Token)
    requires IsAtom(x)
    ensures ParseOr([Sign(Not), x]) == Ok(Parsed(Negation(Atom(x)), []))
    ensures ParseOr([x, Sign(Is), Sign(Null)]) == Ok(Parsed(NullTest(Atom(x), false), []))
    ensures ParseOr([x, Sign(Is), Sign(Not), Sign(Null)]) == Ok(Parsed(NullTest(Atom(x), true), []))
  {
    hide ParseOr, Atom, Print;
    AtomPrints(x, 2);
    AtomPrints(x, 4);
    BarePrints(Negation(Atom(x)));
    BarePrints(NullTest(Atom(x), false));
    BarePrints(NullTest(Atom(x), true));
    Printed(Negation(Atom(x)), [Sign(Not), x]);
    Printed(NullTest(Atom(x), false), [x, Sign(Is), Sign(Null)]);
    Printed(NullTest(Atom(x), true), [x, Sign(Is), Sign(Not), Sign(Null)]);
  }

  lemma {:induction false} BarePrints(e: Ast)
    ensures Print(e, 0) == PrintBare(e)
  {
  }

  lemma {:induction false} OperatorParses(x: Token, op: Operation, y: Token)
    requires IsAtom(x) && IsAtom(y)
    ensures Reads(x, MarkOf(op), y, op)
  {
    hide ParseOr, Atom, Print;
    var e := Combined(op, Atom(x), Atom(y));
    var left := if op.OpOr? then 0 else if op.OpAnd? then 1 else 4;
    var right := if op.OpOr? then 1 else if op.OpAnd? then 2 else 4;
    AtomPrints(x, left);
    AtomPrints(y, right);
    BarePrints(e);
    assert PrintBare(e) == [x] + [Sign(MarkOf(op))] + [y];
    Printed(e, [x, Sign(MarkOf(op)), y]);
  }

  // ---------- No shorter text has the same parse ----------

  lemma {:induction false} HigherIsLonger(e: Ast, low: nat, high: nat)
    requires low <= high
    ensures |Print(e, low)| <= |Print(e, high)| <= |Print(e, 0)| + 2
  {
  }

  lemma {:induction false} OrShortest(ts: Tokens)
    ensures var r := ParseOr(ts); r.Ok? ==> |Print(r.value.ast, 0)| + |r.value.rest| <= |ts|
    decreases |ts|, 5
  {
    hide Print;
    AndShortest(ts);
    var left := ParseAnd(ts);
    if left.Ok? {
      HigherIsLonger(left.value.ast, 0, 1);
      OrRestShortest(left.value.ast, left.value.rest);
    }
  }

  lemma {:induction false} OrRestShortest(left: Ast, ts: Tokens)
    ensures var r := OrRest(left, ts); r.Ok? ==> |Print(r.value.ast, 0)| + |r.value.rest| <= |Print(left, 0)| + |ts|
    decreases |ts|, 0
  {
    if At(ts, Or) {
      AndShortest(ts[1..]);
      var right := ParseAnd(ts[1..]);
      if right.Ok? { OrRestShortest(Combined(OpOr, left, right.value.ast), right.value.rest); }
    }
  }

  lemma {:induction false} AndShortest(ts: Tokens)
    ensures var r := ParseAnd(ts); r.Ok? ==> |Print(r.value.ast, 1)| + |r.value.rest| <= |ts|
    decreases |ts|, 4
  {
    hide Print;
    NotShortest(ts);
    var left := ParseNot(ts);
    if left.Ok? {
      HigherIsLonger(left.value.ast, 1, 2);
      AndRestShortest(left.value.ast, left.value.rest);
    }
  }

  lemma {:induction false} AndRestShortest(left: Ast, ts: Tokens)
    ensures var r := AndRest(left, ts); r.Ok? ==> |Print(r.value.ast, 1)| + |r.value.rest| <= |Print(left, 1)| + |ts|
    decreases |ts|, 0
  {
    if At(ts, And) {
      NotShortest(ts[1..]);
      var right := ParseNot(ts[1..]);
      if right.Ok? { AndRestShortest(Combined(OpAnd, left, right.value.ast), right.value.rest); }
    }
  }

  lemma {:induction false} NotShortest(ts: Tokens)
    ensures var r := ParseNot(ts); r.Ok? ==> |Print(r.value.ast, 2)| + |r.value.rest| <= |ts|
    decreases |ts|, 3
  {
    if At(ts, Not) {
      NotShortest(ts[1..]);
    } else {
      PredicateShortest(ts);
      if ParsePredicate(ts).Ok? { HigherIsLonger(ParsePredicate(ts).value.ast, 2, 3); }
    }
  }

  lemma {:induction false} PredicateShortest(ts: Tokens)
    ensures var r := ParsePredicate(ts); r.Ok? ==> |Print(r.value.ast, 3)| + |r.value.rest| <= |ts|
    decreases |ts|, 2
  {
    AtomicShortest(ts);
    var left := ParseAtomic(ts);
    if left.Ok? {
      HigherIsLonger(left.value.ast, 3, 4);
      if !At(left.value.rest, Is) && ComparisonAt(left.value.rest).Some? { AtomicShortest(left.value.rest[1..]); }
    }
  }

  lemma {:induction false} AtomicShortest(ts: Tokens)
    ensures var r := ParseAtomic(ts); r.Ok? ==> |Print(r.value.ast, 4)| + |r.value.rest| <= |ts|
    decreases |ts|, 1
  {
    if At(ts, LParen) {
      OrShortest(ts[1..]);
      if ParseOr(ts[1..]).Ok? { HigherIsLonger(ParseOr(ts[1..]).value.ast, 4, 4); }
    }
  }

  /** The printed form is the shortest token list that parses to the expression: no parentheses can be left out. */
  lemma {:induction false} PrintIsShortest(e: Ast, ts: Tokens)
    requires ParseOr(ts) == Ok(Parsed(e, []))
    ensures |Print(e, 0)| <= |ts|
  {
    OrShortest(ts);
  }

  // ---------- The parser as it runs ----------

  /** Walks over the tokens; every method stops behind what it has read, or fails. */
  class ExpressionParser {
    const tokens: Tokens
    var pos: nat

    ghost predicate Valid()
      reads this
    {
      pos <= |tokens|
    }

    ghost function Rest(): Tokens
      requires Valid()
      reads this
    {
      tokens[pos..]
    }

    constructor (tokens: Tokens)
      ensures Valid() && Rest() == tokens
    {
      this.tokens := tokens;
      pos := 0;
    }

    /** IsExpectedToken. */
    predicate Expects(mark: Mark)
      requires Valid()
      reads this
    {
      pos < |tokens| && tokens[pos] == Sign(mark)
    }

    method Advance()
      requires Valid() && pos < |tokens|
      modifies this
      ensures Valid() && Rest() == old(Rest())[1..]
    {
      pos := pos + 1;
    }

    method ParseOrExpression() returns (r: Result<Ast>)
      requires Valid()
      modifies this
      ensures Valid() && |Rest()| <= old(|Rest()|)
      ensures if r.Ok? then ParseOr(old(Rest())) == Ok(Parsed(r.value, Rest())) else ParseOr(old(Rest())).Err?
      decreases |tokens| - pos, 5
    {
      hide ParseAnd;
      var left := ParseAndExpression();
      if left.Err? { return Err; }
      var e := left.value;
      while Expects(Or)
        invariant Valid() && |Rest()| < old(|Rest()|) && OrRest(e, Rest()) == ParseOr(old(Rest()))
        decreases |tokens| - pos
      {
        Advance();
        var right := ParseAndExpression();
        if right.Err? { return Err; }
        e := Combined(OpOr, e, right.value);
      }
      return Ok(e);
    }

    method ParseAndExpression() returns (r: Result<Ast>)
      requires Valid()
      modifies this
      ensures Valid() && |Rest()| <= old(|Rest()|)
      ensures if r.Ok? then ParseAnd(old(Rest())) == Ok(Parsed(r.value, Rest())) else ParseAnd(old(Rest())).Err?
      decreases |tokens| - pos, 4
    {
      hide ParseNot;
      var left := ParseNotExpression();
      if left.Err? { return Err; }
      var e := left.value;
      while Expects(And)
        invariant Valid() && |Rest()| < old(|Rest()|) && AndRest(e, Rest()) == ParseAnd(old(Rest()))
        decreases |tokens| - pos
      {
        Advance();
        var right := ParseNotExpression();
        if right.Err? { return Err; }
        e := Combined(OpAnd, e, right.value);
      }
      return Ok(e);
    }

    method ParseNotExpression() returns (r: Result<Ast>)
      requires Valid()
      modifies this
      ensures Valid() && |Rest()| <= old(|Rest()|)
      ensures if r.Ok? then ParseNot(old(Rest())) == Ok(Parsed(r.value, Rest())) else ParseNot(old(Rest())).Err?
      decreases |tokens| - pos, 3
    {
      hide ParsePredicate;
      if Expects(Not) {
        Advance();
        var operand := ParseNotExpression();
        if operand.Err? { return Err; }
        return Ok(Negation(operand.value));
      }
      r := ParsePredicateExpression();
    }

    method ParsePredicateExpression() returns (r: Result<Ast>)
      requires Valid()
      modifies this
      ensures Valid() && |Rest()| <= old(|Rest()|)
      ensures if r.Ok? then ParsePredicate(old(Rest()))
              == Ok(Parsed(r.value, Rest())) else ParsePredicate(old(Rest())).Err?
      decreases |tokens| - pos, 2
    {
      hide ParseAtomic;
      var left := ParseAtomicExpression();
      if left.Err? { return Err; }
      if Expects(Is) {
        Advance();
        var negated := Expects(Not);
        if negated { Advance(); }
        if !Expects(Null) { return Err; }
        Advance();
        return Ok(NullTest(left.value, negated));
      }
      var op := ComparisonAt(if pos < |tokens| then [tokens[pos]] else []);
      if op.None? { return left; }
      Advance();
      var right := ParseAtomicExpression();
      if right.Err? { return Err; }
      return Ok(Combined(op.value, left.value, right.value));
    }

    method ParseAtomicExpression() returns (r: Result<Ast>)
      requires Valid()
      modifies this
      ensures Valid() && |Rest()| <= old(|Rest()|)
      ensures if r.Ok? then ParseAtomic(old(Rest())) == Ok(Parsed(r.value, Rest())) else ParseAtomic(old(Rest())).Err?
      decreases |tokens| - pos, 1
    {
      hide ParseOr;
      if Expects(LParen) {
        Advance();
        var inner := ParseOrExpression();
        if inner.Err? { return Err; }
        if !Expects(RParen) { return Err; }
        Advance();
        return inner;
      }
      if pos == |tokens| { return Err; }
      var token := tokens[pos];
      if IsColumnName(token) {
        Advance();
        return Ok(Name(token));
      }
      if IsConstant(token) {
        Advance();
        return Ok(Constant(token));
      }
      return Err;
    }
  }
}
