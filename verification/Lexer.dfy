/** The lexer: characters to tokens, and the rendering of tokens that it undoes. */
module Lexer {
  import opened Storage
  import opened Parser

  // ---------- Characters ----------

  predicate IsDigit(c: char) { '0' <= c <= '9' }
  predicate IsLetter(c: char) { 'a' <= c <= 'z' || 'A' <= c <= 'Z' }
  predicate StartsIdentifier(c: char) { IsLetter(c) || c == '_' }
  predicate InIdentifier(c: char) { IsLetter(c) || IsDigit(c) || c == '_' }
  predicate IsBlank(c: char) { c == ' ' || c == '\t' || c == '\n' || c == '\r' }

  function Upper(c: char): char { if 'a' <= c <= 'z' then c - 32 as char else c }

  function ToUpper(s: string): (u: string)
    ensures |u| == |s| && forall i :: 0 <= i < |s| ==> u[i] == Upper(s[i])
  {
    seq(|s|, i requires 0 <= i < |s| => Upper(s[i]))
  }

  /** The keyword of an upper-case word, tried one after the other; KEY keeps the text as it was typed. */
  function KeywordOf(upper: string, text: string): Token {
    if upper == "CREATE" then Sign(Create)
    else if upper == "TABLE" then Sign(Table)
    else if upper == "INSERT" then Sign(Insert)
    else if upper == "INTO" then Sign(Into)
    else if upper == "VALUES" then Sign(Values)
    else if upper == "SELECT" then Sign(Select)
    else if upper == "FROM" then Sign(From)
    else if upper == "WHERE" then Sign(Where)
    else if upper == "KEY" then KeyWord(text)
    else if upper == "PRIMARY" then Sign(Primary)
    else ConditionKeywordOf(upper, text)
  }

  function ConditionKeywordOf(upper: string, text: string): Token {
    if upper == "NULL" then Sign(Null)
    else if upper == "NOT" then Sign(Not)
    else if upper == "AND" then Sign(And)
    else if upper == "OR" then Sign(Or)
    else if upper == "IS" then Sign(Is)
    else if upper == "STRING" then Sign(StringType)
    else if upper == "INT64" then Sign(Int64Type)
    else if upper == "DOUBLE" then Sign(DoubleType)
    else AggregateKeywordOf(upper, text)
  }

  function AggregateKeywordOf(upper: string, text: string): Token {
    if upper == "COUNT" then Sign(Count)
    else if upper == "SUM" then Sign(Sum)
    else if upper == "AVG" then Sign(Avg)
    else if upper == "MIN" then Sign(Min)
    else if upper == "MAX" then Sign(Max)
    else ClauseKeywordOf(upper, text)
  }

  function ClauseKeywordOf(upper: string, text: string): Token {
    if upper == "GROUP" then Sign(Group)
    else if upper == "BY" then Sign(By)
    else if upper == "ORDER" then Sign(Order)
    else if upper == "LIMIT" then Sign(Limit)
    else if upper == "ASC" then Sign(Asc)
    else if upper == "DESC" then Sign(Desc)
    else Word(text)
  }

  // ---------- Reading from the front of a text ----------

  datatype Lexed = Lexed(token: Token, rest: string)

  /** Length of the leading run of characters of one kind. */
  function Run(s: string, p: char -> bool): (n: nat)
    ensures n <= |s| && (forall i :: 0 <= i < n ==> p(s[i])) && (n < |s| ==> !p(s[n]))
  {
    if s == [] || !p(s[0]) then 0 else 1 + Run(s[1..], p)
  }

  function Letters(): char -> bool { (c: char) => InIdentifier(c) }
  function Digits(): char -> bool { (c: char) => IsDigit(c) }
  function Blanks(): char -> bool { (c: char) => IsBlank(c) }

  function ReadWord(s: string): Lexed {
    var n := Run(s, Letters());
    Lexed(KeywordOf(ToUpper(s[..n]), s[..n]), s[n..])
  }

  function SignLength(s: string): nat { if s != [] && s[0] == '-' then 1 else 0 }

  /** Digits with an optional sign, then an optional fraction. */
  function ReadNumber(s: string): Result<Lexed> {
    var sign := SignLength(s);
    var whole := sign + Run(s[sign..], Digits());
    if whole == sign then Err
    else if whole < |s| && s[whole] == '.' then
      var end := whole + 1 + Run(s[whole + 1..], Digits());
      if end == whole + 1 then Err else Ok(Lexed(Decimal(s[..end]), s[end..]))
    else Ok(Lexed(Whole(s[..whole]), s[whole..]))
  }

  /** The text behind an opening quote, up to the closing one; two quotes stand for one. */
  function ReadQuoted(s: string): Result<(string, string)> {
    if s == [] then Err
    else if s[0] == '\'' then
      if |s| > 1 && s[1] == '\'' then
        var tail :- ReadQuoted(s[2..]);
        Ok((['\''] + tail.0, tail.1))
      else Ok(([], s[1..]))
    else
      var tail :- ReadQuoted(s[1..]);
      Ok(([s[0]] + tail.0, tail.1))
  }

  function ReadSymbol(s: string): Result<Lexed>
    requires s != []
  {
    var twice := |s| > 1 && s[1] == '=';
    match s[0]
    case '(' => Ok(Lexed(Sign(LParen), s[1..]))
    case ')' => Ok(Lexed(Sign(RParen), s[1..]))
    case ',' => Ok(Lexed(Sign(Comma), s[1..]))
    case ';' => Ok(Lexed(Sign(Semicolon), s[1..]))
    case '*' => Ok(Lexed(Sign(Star), s[1..]))
    case '=' => Ok(Lexed(Sign(Equal), s[1..]))
    case '!' => if twice then Ok(Lexed(Sign(NotEqual), s[2..])) else Err
    case '<' => if twice then Ok(Lexed(Sign(LessEqual), s[2..])) else Ok(Lexed(Sign(Less), s[1..]))
    case '>' => if twice then Ok(Lexed(Sign(GreaterEqual), s[2..])) else Ok(Lexed(Sign(Greater), s[1..]))
    case _ => Err
  }

  /** NextToken behind the blanks. */
  function ReadToken(s: string): Result<Lexed> {
    if s == [] then Ok(Lexed(Sign(EndOfFile), s))
    else if StartsIdentifier(s[0]) then Ok(ReadWord(s))
    else if IsDigit(s[0]) || (s[0] == '-' && |s| > 1 && IsDigit(s[1])) then ReadNumber(s)
    else if s[0] == '\'' then
      var r :- ReadQuoted(s[1..]);
      Ok(Lexed(Text(r.0), r.1))
    else ReadSymbol(s)
  }

  function NextToken(s: string): Result<Lexed> { ReadToken(s[Run(s, Blanks())..]) }

  // ---------- Rendering ----------

  function Doubled(s: string): string {
    if s == [] then [] else (if s[0] == '\'' then "''" else [s[0]]) + Doubled(s[1..])
  }

  predicate IsExpressionMark(m: Mark) {
    m in {Null, Not, And, Or, Is, LParen, RParen, Equal, NotEqual, Less, LessEqual, Greater, GreaterEqual}
  }

  function MarkText(m: Mark): string {
    match m
    case Null => "NULL"
    case Not => "NOT"
    case And => "AND"
    case Or => "OR"
    case Is => "IS"
    case LParen => "("
    case RParen => ")"
    case Equal => "="
    case NotEqual => "!="
    case Less => "<"
    case LessEqual => "<="
    case Greater => ">"
    case GreaterEqual => ">="
    case _ => ""
  }

  function Render(t: Token): string {
    match t
    case Word(text) => text
    case KeyWord(text) => text
    case Text(value) => "'" + Doubled(value) + "'"
    case Whole(digits) => digits
    case Decimal(digits) => digits
    case Sign(m) => MarkText(m)
  }

  predicate AllOf(s: string, p: char -> bool) { forall i :: 0 <= i < |s| ==> p(s[i]) }

  predicate IsWord(s: string) { s != [] && StartsIdentifier(s[0]) && AllOf(s, Letters()) }

  predicate IsWhole(s: string) {
    |s| > SignLength(s) && AllOf(s[SignLength(s)..], Digits())
  }

  /** A sign, digits, a point and digits, cut at the point. */
  ghost predicate IsDecimal(s: string) {
    exists n :: 0 < n < |s| - 1 && IsWhole(s[..n]) && s[n] == '.' && AllOf(s[n + 1..], Digits())
  }

  /** A token of an expression as the lexer makes it. */
  ghost predicate Renderable(t: Token) {
    match t
    case Word(text) => IsWord(text) && KeywordOf(ToUpper(text), text) == t
    case KeyWord(text) => IsWord(text) && ToUpper(text) == "KEY"
    case Text(_) => true
    case Whole(digits) => IsWhole(digits)
    case Decimal(digits) => IsDecimal(digits)
    case Sign(m) => IsExpressionMark(m)
  }

  /** Every token followed by a blank. */
  function RenderAll(ts: Tokens): string { if ts == [] then [] else Render(ts[0]) + [' '] + RenderAll(ts[1..]) }

  /** All tokens up to the end of the text. */
  function LexAll(s: string): Result<Tokens>
    decreases |s|
  {
    var next :- NextToken(s);
    if next.token == Sign(EndOfFile) then Ok([])
    else if |next.rest| >= |s| then Err
    else
      var tail :- LexAll(next.rest);
      Ok([next.token] + tail)
  }

  // ---------- Lexing undoes rendering ----------

  lemma {:induction false} RunOf(s: string, rest: string, p: char -> bool)
    requires AllOf(s, p) && (rest != [] ==> !p(rest[0]))
    ensures Run(s + rest, p) == |s|
  {
    if s == [] {
      assert s + rest == rest;
    } else {
      assert (s + rest)[1..] == s[1..] + rest;
      RunOf(s[1..], rest, p);
    }
  }

  /** Reading a quoted text inverts the doubling of quotes, for every text. */
  lemma {:induction false} QuoteRoundTrip(s: string, rest: string)
    requires rest != [] ==> rest[0] != '\''
    ensures ReadQuoted(Doubled(s) + ['\''] + rest) == Ok((s, rest))
  {
    var all := Doubled(s) + ['\''] + rest;
    if s == [] {
      assert all == ['\''] + rest;
    } else {
      var tail := Doubled(s[1..]) + ['\''] + rest;
      QuoteRoundTrip(s[1..], rest);
      if s[0] == '\'' {
        assert all == "''" + tail;
        assert all[2..] == tail;
      } else {
        assert all == [s[0]] + tail;
        assert all[1..] == tail;
      }
      assert s == [s[0]] + s[1..];
    }
  }

  lemma {:induction false} WordBack(text: string, rest: string)
    requires IsWord(text) && (rest != [] ==> !InIdentifier(rest[0]))
    ensures ReadToken(text + rest) == Ok(Lexed(KeywordOf(ToUpper(text), text), rest))
  {
    hide KeywordOf;
    RunOf(text, rest, Letters());
    assert (text + rest)[..|text|] == text && (text + rest)[|text|..] == rest;
  }

  /** A number starts with a digit, or with a minus sign and a digit. */
  lemma {:induction false} NumberStarts(s: string, more: string)
    requires IsWhole(s)
    ensures s != [] && !IsBlank(s[0]) && !StartsIdentifier(s[0])
    ensures IsDigit((s + more)[0]) || ((s + more)[0] == '-' && |s + more| > 1 && IsDigit((s + more)[1]))
  {
    var sign := SignLength(s);
    assert IsDigit(s[sign..][0]);
  }

  lemma {:induction false} WholeBack(s: string, rest: string)
    requires IsWhole(s) && (rest != [] ==> !IsDigit(rest[0]) && rest[0] != '.')
    ensures ReadNumber(s + rest) == Ok(Lexed(Whole(s), rest))
  {
    var all := s + rest;
    var sign := SignLength(s);
    RunOf(s[sign..], rest, Digits());
    assert all[sign..] == s[sign..] + rest;
    assert all[..|s|] == s && all[|s|..] == rest;
  }

  lemma {:induction false} WholeRun(whole: string, behind: string)
    requires IsWhole(whole) && (behind != [] ==> !IsDigit(behind[0]))
    ensures var all, sign := whole + behind, SignLength(whole);
            sign < |whole| && SignLength(all) == sign && Run(all[sign..], Digits()) == |whole| - sign
  {
    var sign := SignLength(whole);
    RunOf(whole[sign..], behind, Digits());
    assert (whole + behind)[sign..] == whole[sign..] + behind;
  }

  /** Where the whole part of a number ends. */
  function WholeEnd(s: string): (n: nat)
    ensures SignLength(s) <= n <= |s|
  {
    SignLength(s) + Run(s[SignLength(s)..], Digits())
  }

  lemma {:induction false} NumberIs(s: string)
    ensures var w := WholeEnd(s);
            ReadNumber(s) == if w == SignLength(s) then Err
                             else if w < |s| && s[w] == '.' then FractionAt(s, w)
                             else Ok(Lexed(Whole(s[..w]), s[w..]))
  {
    hide Run, SignLength, Digits;
  }

  /** The number whose point stands at n. */
  function FractionAt(s: string, n: nat): Result<Lexed>
    requires n < |s|
  {
    var end := n + 1 + Run(s[n + 1..], Digits());
    if end == n + 1 then Err else Ok(Lexed(Decimal(s[..end]), s[end..]))
  }

  lemma {:induction false} DecimalBack(whole: string, fraction: string, rest: string)
    requires IsWhole(whole) && fraction != [] && AllOf(fraction, Digits()) && (rest != [] ==> !IsDigit(rest[0]))
    ensures ReadNumber(whole + ['.'] + fraction + rest) == Ok(Lexed(Decimal(whole + ['.'] + fraction), rest))
  {
    hide Run, IsWhole, AllOf, SignLength, ReadNumber;
    var s, n := whole + ['.'] + fraction, |whole|;
    var all := s + rest;
    assert all == whole + (['.'] + (fraction + rest));
    WholeRun(whole, ['.'] + (fraction + rest));
    NumberIs(all);
    RunOf(fraction, rest, Digits());
    assert all[n] == '.' && all[n + 1..] == fraction + rest;
    assert all[..|s|] == s && all[|s|..] == rest;
  }

  lemma {:induction false} DecimalParts(s: string) returns (whole: string, fraction: string)
    requires IsDecimal(s)
    ensures s == whole + ['.'] + fraction && IsWhole(whole) && fraction != [] && AllOf(fraction, Digits())
  {
    hide IsWhole, AllOf;
    var n :| 0 < n < |s| - 1 && IsWhole(s[..n]) && s[n] == '.' && AllOf(s[n + 1..], Digits());
    whole, fraction := s[..n], s[n + 1..];
  }

  lemma {:induction false} NumberBack(t: Token, rest: string)
    requires (t.Whole? || t.Decimal?) && Renderable(t) && (rest != [] ==> !IsDigit(rest[0]) && rest[0] != '.')
    ensures ReadToken(Render(t) + rest) == Ok(Lexed(t, rest))
    ensures Render(t) != [] && !IsBlank(Render(t)[0])
  {
    hide ReadNumber, ReadSymbol, ReadQuoted, ReadWord, IsWhole, AllOf, IsDecimal;
    if t.Whole? {
      NumberStarts(t.digits, rest);
      WholeBack(t.digits, rest);
    } else {
      var whole, fraction := DecimalParts(t.digits);
      assert t.digits + rest == whole + (['.'] + fraction + rest);
      NumberStarts(whole, ['.'] + fraction + rest);
      DecimalBack(whole, fraction, rest);
    }
  }

  lemma {:induction false} KeywordBack(m: Mark)
    requires m in {Null, Not, And, Or, Is}
    ensures IsWord(MarkText(m)) && KeywordOf(ToUpper(MarkText(m)), MarkText(m)) == Sign(m)
  {
    var s := MarkText(m);
    assert ToUpper(s) == s;
  }

  lemma {:induction false} SymbolBack(m: Mark, rest: string)
    requires m in {LParen, RParen, Equal, NotEqual, Less, LessEqual, Greater, GreaterEqual}
    requires rest != [] ==> rest[0] == ' '
    ensures ReadToken(MarkText(m) + rest) == Ok(Lexed(Sign(m), rest))
  {
    hide ReadNumber, ReadQuoted, ReadWord;
    var text := MarkText(m);
    var s := text + rest;
    assert s[0] == text[0] && s[|text|..] == rest;
    if |text| == 2 { assert s[1] == text[1]; }
  }

  /** Any token of an expression, rendered and followed by a blank, is read back. */
  lemma {:induction false} TokenBack(t: Token, rest: string)
    requires Renderable(t)
    ensures NextToken(Render(t) + [' '] + rest) == Ok(Lexed(t, [' '] + rest))
    ensures Render(t) != []
  {
    hide KeywordOf, ReadToken, ReadNumber, ReadSymbol, ReadQuoted, IsDecimal;
    var tail := [' '] + rest;
    assert Render(t) + [' '] + rest == Render(t) + tail;
    match t
    case Word(text) => WordBack(text, tail); NoBlank(t, tail);
    case KeyWord(text) => KeyBack(text); WordBack(text, tail); NoBlank(t, tail);
    case Text(value) => TextBack(value, tail); NoBlank(t, tail);
    case Whole(_) => NumberBack(t, tail); NoBlank(t, tail);
    case Decimal(_) => NumberBack(t, tail); NoBlank(t, tail);
    case Sign(m) =>
      if m in {Null, Not, And, Or, Is} {
        KeywordBack(m);
        WordBack(MarkText(m), tail);
      } else {
        SymbolBack(m, tail);
      }
      NoBlank(t, tail);
  }

  lemma {:induction false} KeyBack(text: string)
    requires ToUpper(text) == "KEY"
    ensures KeywordOf(ToUpper(text), text) == KeyWord(text)
  {
  }

  lemma {:induction false} TextBack(value: string, rest: string)
    requires rest != [] ==> rest[0] != '\''
    ensures ReadToken("'" + Doubled(value) + "'" + rest) == Ok(Lexed(Text(value), rest))
  {
    hide ReadQuoted;
    QuoteRoundTrip(value, rest);
    var all := "'" + Doubled(value) + "'" + rest;
    assert all[1..] == Doubled(value) + ['\''] + rest;
  }

  /** No rendered token starts with a blank. */
  lemma {:induction false} NoBlank(t: Token, tail: string)
    requires Renderable(t) && tail != []
    ensures NextToken(Render(t) + tail) == ReadToken(Render(t) + tail) && Render(t) != []
  {
    hide ReadToken, KeywordOf;
    var s := Render(t) + tail;
    assert Render(t) != [] && !IsBlank(Render(t)[0]) by { FirstChar(t); }
    assert Run(s, Blanks()) == 0;
    assert s[0..] == s;
  }

  lemma {:induction false} FirstChar(t: Token)
    requires Renderable(t)
    ensures Render(t) != [] && !IsBlank(Render(t)[0])
  {
    hide KeywordOf, IsDecimal, IsWhole, AllOf, ToUpper;
    if t.Whole? || t.Decimal? { NumberBack(t, []); }
  }

  ghost predicate AllRenderable(ts: Tokens) { forall i :: 0 <= i < |ts| ==> Renderable(ts[i]) }

  /** A blank in front changes nothing. */
  lemma {:induction false} SkipOne(s: string)
    ensures NextToken([' '] + s) == NextToken(s)
  {
    hide ReadToken;
    assert ([' '] + s)[1..] == s;
    assert ([' '] + s)[1 + Run(s, Blanks())..] == s[Run(s, Blanks())..];
  }

  lemma {:induction false} LexRendered(ts: Tokens, front: string)
    requires AllRenderable(ts) && (front == [] || front == [' '])
    ensures LexAll(front + RenderAll(ts)) == Ok(ts)
    decreases |ts|
  {
    hide NextToken, Render, Renderable;
    var s := front + RenderAll(ts);
    if front != [] { SkipOne(RenderAll(ts)); } else { assert s == RenderAll(ts); }
    if ts == [] {
      assert RenderAll(ts) == [];
      EndBack();
    } else {
      var rest := RenderAll(ts[1..]);
      assert RenderAll(ts) == Render(ts[0]) + [' '] + rest;
      TokenBack(ts[0], rest);
      LexRendered(ts[1..], [' ']);
      NotTheEnd(ts[0]);
      assert ts == [ts[0]] + ts[1..];
    }
  }

  lemma {:induction false} EndBack()
    ensures NextToken([]) == Ok(Lexed(Sign(EndOfFile), []))
  {
  }

  lemma {:induction false} NotTheEnd(t: Token)
    requires Renderable(t)
    ensures t != Sign(EndOfFile)
  {
    hide KeywordOf;
  }

  /** A text of a well-formed token list lexes to that list. */
  lemma {:induction false} LexRenderRoundTrip(ts: Tokens)
    requires AllRenderable(ts)
    ensures LexAll(RenderAll(ts)) == Ok(ts)
  {
    LexRendered(ts, []);
    assert [] + RenderAll(ts) == RenderAll(ts);
  }

  ghost predicate RenderableLeaves(e: Ast) {
    match e
    case Name(token) => Renderable(token)
    case Constant(token) => Renderable(token)
    case Negation(operand) => RenderableLeaves(operand)
    case NullTest(operand, _) => RenderableLeaves(operand)
    case Combined(_, left, right) => RenderableLeaves(left) && RenderableLeaves(right)
  }

  lemma {:induction false} JoinRenderable(a: Tokens, b: Tokens)
    requires AllRenderable(a) && AllRenderable(b)
    ensures AllRenderable(a + b)
  {
    hide Renderable;
  }

  lemma {:induction false} MarkRenderable(m: Mark)
    requires IsExpressionMark(m)
    ensures AllRenderable([Sign(m)])
  {
    hide IsExpressionMark;
  }

  lemma {:induction false} TokenRenderable(t: Token)
    requires Renderable(t)
    ensures AllRenderable([t])
  {
    hide Renderable;
  }

  lemma {:induction false} PrintedIsRenderable(e: Ast, level: nat)
    requires RenderableLeaves(e)
    ensures AllRenderable(Print(e, level))
    decreases e, 1
  {
    hide AllRenderable, RenderableLeaves, PrintBare;
    BareIsRenderable(e);
    if LevelOf(e) < level {
      MarkRenderable(LParen);
      MarkRenderable(RParen);
      JoinRenderable([Sign(LParen)], PrintBare(e));
      JoinRenderable([Sign(LParen)] + PrintBare(e), [Sign(RParen)]);
    }
  }

  lemma {:induction false} BareIsRenderable(e: Ast)
    requires RenderableLeaves(e)
    ensures AllRenderable(PrintBare(e))
    decreases e, 0
  {
    hide AllRenderable, Print, Renderable;
    match e
    case Name(token) => TokenRenderable(token);
    case Constant(token) => TokenRenderable(token);
    case Negation(operand) =>
      PrintedIsRenderable(operand, 2);
      MarkRenderable(Not);
      JoinRenderable([Sign(Not)], Print(operand, 2));
    case NullTest(operand, negated) =>
      PrintedIsRenderable(operand, 4);
      NullTestRenderable(Print(operand, 4), negated);
    case Combined(op, left, right) =>
      var l, r := if op.OpOr? then 0 else if op.OpAnd? then 1 else 4,
          if op.OpOr? then 1 else if op.OpAnd? then 2 else 4;
      PrintedIsRenderable(left, l);
      PrintedIsRenderable(right, r);
      MarkRenderable(MarkOf(op));
      JoinRenderable(Print(left, l), [Sign(MarkOf(op))]);
      JoinRenderable(Print(left, l) + [Sign(MarkOf(op))], Print(right, r));
  }

  lemma {:induction false} NullTestRenderable(operand: Tokens, negated: bool)
    requires AllRenderable(operand)
    ensures AllRenderable(operand + [Sign(Is)] + (if negated then [Sign(Not)] else []) + [Sign(Null)])
  {
    hide Renderable;
    MarkRenderable(Is);
    MarkRenderable(Not);
    MarkRenderable(Null);
  }

  /** From tree to text and back: lexing and parsing the printed text gives the same expression. */
  lemma {:induction false} TextRoundTrip(e: Ast)
    requires Proper(e) && RenderableLeaves(e)
    ensures LexAll(RenderAll(Print(e, 0))) == Ok(Print(e, 0)) && ParseOr(Print(e, 0)) == Ok(Parsed(e, []))
  {
    hide LexAll, RenderAll, ParseOr, Print, RenderableLeaves;
    PrintedIsRenderable(e, 0);
    LexRenderRoundTrip(Print(e, 0));
    PrintParse(e, []);
    assert Print(e, 0) + [] == Print(e, 0);
  }

  // ---------- The lexer as it runs ----------

  /** Line and place in the line of a position, both from 1. */
  function LineAt(s: string, n: nat): nat
    requires n <= |s|
  {
    if n == 0 then 1 else LineAt(s, n - 1) + if s[n - 1] == '\n' then 1 else 0
  }

  function PlaceAt(s: string, n: nat): nat
    requires n <= |s|
  {
    if n == 0 || s[n - 1] == '\n' then 1 else PlaceAt(s, n - 1) + 1
  }

  /** What was read so far, in front of what the rest of the text gives. */
  function Attach(text: string, rest: Result<(string, string)>): Result<(string, string)> {
    var r :- rest;
    Ok((text + r.0, r.1))
  }

  lemma {:induction false} AttachMore(text: string, c: char, rest: Result<(string, string)>)
    ensures Attach(text, Attach([c], rest)) == Attach(text + [c], rest)
  {
    if rest.Ok? { assert text + ([c] + rest.value.0) == text + [c] + rest.value.0; }
  }

  lemma {:induction false} AttachNothing(rest: Result<(string, string)>)
    ensures Attach([], rest) == rest
  {
    if rest.Ok? { assert [] + rest.value.0 == rest.value.0; }
  }

  class TextLexer {
    const input: string
    var pos: nat
    var line: nat
    var positionInLine: nat

    ghost predicate Valid()
      reads this
    {
      pos <= |input| && line == LineAt(input, pos) && positionInLine == PlaceAt(input, pos)
    }

    ghost function Rest(): string
      requires pos <= |input|
      reads this
    {
      input[pos..]
    }

    constructor (input: string)
      ensures Valid() && Rest() == input
    {
      this.input := input;
      pos, line, positionInLine := 0, 1, 1;
    }

    method Advance()
      requires Valid() && pos < |input|
      modifies this
      ensures Valid() && pos == old(pos) + 1
    {
      if input[pos] == '\n' {
        line := line + 1;
        positionInLine := 1;
      } else {
        positionInLine := positionInLine + 1;
      }
      pos := pos + 1;
    }

    method SkipWhitespace()
      requires Valid()
      modifies this
      ensures Valid() && pos == old(pos) + Run(old(Rest()), Blanks())
    {
      pos := SkipRun(Blanks());
    }

    /** Moves over the leading characters of one kind. */
    method SkipRun(p: char -> bool) returns (end: nat)
      requires Valid()
      modifies this
      ensures Valid() && pos == end == old(pos) + Run(old(Rest()), p)
    {
      while pos < |input| && p(input[pos])
        invariant Valid() && old(pos) <= pos
        invariant pos + Run(Rest(), p) == old(pos) + Run(old(Rest()), p)
        decreases |input| - pos
      {
        assert Rest()[1..] == input[pos + 1..];
        Advance();
      }
      end := pos;
    }

    method ReadIdentifierOrKeyword() returns (t: Token)
      requires Valid()
      modifies this
      ensures Valid() && ReadWord(old(Rest())) == Lexed(t, Rest())
    {
      hide KeywordOf, Run, ToUpper;
      var start := pos;
      var end := SkipRun(Letters());
      assert input[start..][..end - start] == input[start..end] && input[start..][end - start..] == input[end..];
      t := KeywordOf(ToUpper(input[start..end]), input[start..end]);
    }

    /** Moves over an optional sign and the digits behind it. */
    method SkipWhole() returns (found: bool)
      requires Valid()
      modifies this
      ensures Valid()
      ensures var s := old(Rest()); pos == old(pos) + WholeEnd(s) && found == (WholeEnd(s) > SignLength(s))
    {
      hide Run;
      ghost var s := Rest();
      if pos < |input| && input[pos] == '-' { Advance(); }
      assert Rest() == s[SignLength(s)..];
      var digits := pos;
      var end := SkipRun(Digits());
      found := end > digits;
    }

    method ReadNumberToken() returns (r: Result<Token>)
      requires Valid()
      modifies this
      ensures Valid()
      ensures if r.Ok? then ReadNumber(old(Rest())) == Ok(Lexed(r.value, Rest())) else ReadNumber(old(Rest())).Err?
    {
      hide Run, SignLength, WholeEnd, ReadNumber, LineAt, PlaceAt;
      var start := pos;
      NumberIs(Rest());
      var found := SkipWhole();
      Window(start, pos);
      if !found { return Err; }
      if pos < |input| && input[pos] == '.' {
        r := ReadFraction(start);
        return;
      }
      return Ok(Whole(input[start..pos]));
    }

    /** The point and the digits behind it, of the number that started at `start`. */
    method ReadFraction(start: nat) returns (r: Result<Token>)
      requires Valid() && start <= pos < |input| && input[pos] == '.'
      modifies this
      ensures Valid()
      ensures var spec := FractionAt(input[start..], old(pos) - start);
              if r.Ok? then spec == Ok(Lexed(r.value, Rest())) else spec.Err?
    {
      hide Run, LineAt, PlaceAt;
      Advance();
      Window(start, pos);
      var point := pos;
      var end := SkipRun(Digits());
      if end == point { return Err; }
      Window(start, end);
      return Ok(Decimal(input[start..end]));
    }

    /** Positions in the text that was left at `start`. */
    lemma {:induction false} Window(start: nat, end: nat)
      requires start <= end <= |input|
      ensures input[start..][..end - start] == input[start..end] && input[start..][end - start..] == input[end..]
      ensures end < |input| ==> input[start..][end - start] == input[end]
      ensures |input[start..]| == |input| - start
    {
    }

    /** Behind the opening quote: doubled quotes are taken in as one, a single one closes the text. */
    method ReadString() returns (r: Result<Token>)
      requires Valid() && pos < |input| && input[pos] == '\''
      modifies this
      ensures Valid()
      ensures var spec := ReadQuoted(old(Rest())[1..]);
              if r.Ok? then spec.Ok? && r.value == Text(spec.value.0) && Rest() == spec.value.1 else spec.Err?
    {
      hide LineAt, PlaceAt;
      Advance();
      var text := "";
      ghost var spec := ReadQuoted(old(Rest())[1..]);
      assert Rest() == old(Rest())[1..];
      AttachNothing(spec);
      while pos < |input|
        invariant Valid() && Attach(text, ReadQuoted(Rest())) == spec
        decreases |input| - pos
      {
        assert Rest()[1..] == input[pos + 1..];
        if input[pos] == '\'' {
          if pos + 1 < |input| && input[pos + 1] == '\'' {
            assert Rest()[2..] == input[pos + 2..];
            AttachMore(text, '\'', ReadQuoted(input[pos + 2..]));
            text := text + ['\''];
            Advance();
            Advance();
            continue;
          }
          Advance();
          assert text + [] == text;
          return Ok(Text(text));
        }
        AttachMore(text, input[pos], ReadQuoted(input[pos + 1..]));
        text := text + [input[pos]];
        Advance();
      }
      return Err;
    }

    method NextTokenHere() returns (r: Result<Token>)
      requires Valid()
      modifies this
      ensures Valid()
      ensures if r.Ok? then NextToken(old(Rest())) == Ok(Lexed(r.value, Rest())) else NextToken(old(Rest())).Err?
    {
      hide Run, ReadWord, ReadNumber, ReadQuoted;
      SkipWhitespace();
      assert Rest() == old(Rest())[Run(old(Rest()), Blanks())..];
      if pos == |input| { return Ok(Sign(EndOfFile)); }
      var current := input[pos];
      if StartsIdentifier(current) {
        var t := ReadIdentifierOrKeyword();
        return Ok(t);
      }
      if IsDigit(current) || (current == '-' && pos + 1 < |input| && IsDigit(input[pos + 1])) {
        r := ReadNumberToken();
        return;
      }
      if current == '\'' {
        r := ReadString();
        return;
      }
      r := ReadSymbolToken();
    }

    method ReadSymbolToken() returns (r: Result<Token>)
      requires Valid() && pos < |input|
      modifies this
      ensures Valid()
      ensures if r.Ok? then ReadSymbol(old(Rest())) == Ok(Lexed(r.value, Rest())) else ReadSymbol(old(Rest())).Err?
    {
      var current := input[pos];
      ghost var s := Rest();
      Advance();
      assert Rest() == s[1..];
      var twice := pos < |input| && input[pos] == '=';
      assert twice ==> s[2..] == input[pos + 1..];
      match current {
        case '(' => return Ok(Sign(LParen));
        case ')' => return Ok(Sign(RParen));
        case ',' => return Ok(Sign(Comma));
        case ';' => return Ok(Sign(Semicolon));
        case '*' => return Ok(Sign(Star));
        case '=' => return Ok(Sign(Equal));
        case '!' =>
          if !twice { return Err; }
          Advance();
          return Ok(Sign(NotEqual));
        case '<' =>
          if !twice { return Ok(Sign(Less)); }
          Advance();
          return Ok(Sign(LessEqual));
        case '>' =>
          if !twice { return Ok(Sign(Greater)); }
          Advance();
          return Ok(Sign(GreaterEqual));
        case _ => return Err;
      }
    }
  }
}
