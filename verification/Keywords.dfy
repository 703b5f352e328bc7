/** What the lexer makes of the words and signs of a statement: keywords in any case, names, and the longest sign. */
module Keywords {
  import opened Storage
  import opened Parser
  import opened Lexer

  /** How a keyword is written in capitals. */
  function Spelling(m: Mark): Option<string> {
    match m
    case Create => Some("CREATE")
    case Table => Some("TABLE")
    case Insert => Some("INSERT")
    case Into => Some("INTO")
    case Values => Some("VALUES")
    case Select => Some("SELECT")
    case From => Some("FROM")
    case Where => Some("WHERE")
    case Primary => Some("PRIMARY")
    case Null => Some("NULL")
    case Not => Some("NOT")
    case And => Some("AND")
    case Or => Some("OR")
    case Is => Some("IS")
    case StringType => Some("STRING")
    case Int64Type => Some("INT64")
    case DoubleType => Some("DOUBLE")
    case Count => Some("COUNT")
    case Sum => Some("SUM")
    case Avg => Some("AVG")
    case Min => Some("MIN")
    case Max => Some("MAX")
    case Group => Some("GROUP")
    case By => Some("BY")
    case Order => Some("ORDER")
    case Limit => Some("LIMIT")
    case Asc => Some("ASC")
    case Desc => Some("DESC")
    case _ => None
  }

  /** The one keyword whose token keeps the text. */
  const KEY := "KEY"

  /** The keyword, each of its letters in capital or in small form. */
  predicate Spells(s: string, keyword: string) {
    |s| == |keyword| && forall i :: 0 <= i < |s| ==>
                          s[i] == keyword[i] || ('A' <= keyword[i] <= 'Z' && s[i] as int == keyword[i] as int + 32)
  }

  predicate SpellsKeyword(s: string) {
    Spells(s, KEY) || exists m: Mark :: Spelling(m).Some? && Spells(s, Spelling(m).value)
  }

  /** Nothing behind that would make the word longer. */
  predicate EndsWord(rest: string) {
    rest == [] || !('a' <= rest[0] <= 'z' || 'A' <= rest[0] <= 'Z' || '0' <= rest[0] <= '9' || rest[0] == '_')
  }

  predicate InCapitals(keyword: string) {
    && keyword != [] && 'A' <= keyword[0] <= 'Z'
    && forall i :: 0 <= i < |keyword| ==> 'A' <= keyword[i] <= 'Z' || '0' <= keyword[i] <= '9'
  }

  lemma {:induction false} UpperSpells(s: string, keyword: string)
    requires InCapitals(keyword)
    ensures ToUpper(s) == keyword <==> Spells(s, keyword)
    ensures Spells(s, keyword) ==> IsWord(s)
  {
    if Spells(s, keyword) {
      assert forall i :: 0 <= i < |s| ==> Upper(s[i]) == keyword[i];
      assert forall i :: 0 <= i < |s| ==> Letters()(s[i]);
    }
    if ToUpper(s) == keyword {
      forall i | 0 <= i < |s|
        ensures s[i] == keyword[i] || ('A' <= keyword[i] <= 'Z' && s[i] as int == keyword[i] as int + 32)
      {
        assert ToUpper(s)[i] == Upper(s[i]);
      }
    }
  }

  lemma {:induction false} EarlyCapitals(m: Mark)
    requires m in {Create, Table, Insert, Into, Values, Select, From, Where, Primary, Null, Not, And, Or, Is}
    ensures InCapitals(Spelling(m).value)
  {
  }

  lemma {:induction false} LateCapitals(m: Mark)
    requires m in {StringType, Int64Type, DoubleType, Count, Sum, Avg, Min, Max, Group, By, Order, Limit, Asc, Desc}
    ensures InCapitals(Spelling(m).value)
  {
  }

  lemma {:induction false} SpellingsAreCapitals(m: Mark)
    requires Spelling(m).Some?
    ensures InCapitals(Spelling(m).value)
  {
    hide InCapitals;
    if m in {Create, Table, Insert, Into, Values, Select, From, Where, Primary, Null, Not, And, Or, Is} {
      EarlyCapitals(m);
    } else {
      LateCapitals(m);
    }
  }

  lemma {:induction false} StatementKeyword(m: Mark, text: string)
    requires m in {Create, Table, Insert, Into, Values, Select, From, Where, Primary}
    ensures KeywordOf(Spelling(m).value, text) == Sign(m)
  {
    hide ConditionKeywordOf;
  }

  lemma {:induction false} ConditionKeyword(m: Mark, text: string)
    requires m in {Null, Not, And, Or, Is, StringType, Int64Type, DoubleType}
    ensures KeywordOf(Spelling(m).value, text) == Sign(m)
  {
    hide AggregateKeywordOf;
  }

  lemma {:induction false} AggregateKeyword(m: Mark, text: string)
    requires m in {Count, Sum, Avg, Min, Max}
    ensures KeywordOf(Spelling(m).value, text) == Sign(m)
  {
    hide ClauseKeywordOf;
  }

  lemma {:induction false} ClauseKeyword(m: Mark, text: string)
    requires m in {Group, By, Order}
    ensures KeywordOf(Spelling(m).value, text) == Sign(m)
  {
  }

  lemma {:induction false} EndKeyword(m: Mark, text: string)
    requires m in {Limit, Asc, Desc}
    ensures KeywordOf(Spelling(m).value, text) == Sign(m)
  {
  }

  lemma {:induction false} SpellingIsKeyword(m: Mark, text: string)
    requires Spelling(m).Some?
    ensures KeywordOf(Spelling(m).value, text) == Sign(m)
  {
    hide KeywordOf;
    if m in {Create, Table, Insert, Into, Values, Select, From, Where, Primary} {
      StatementKeyword(m, text);
    } else if m in {Null, Not, And, Or, Is, StringType, Int64Type, DoubleType} {
      ConditionKeyword(m, text);
    } else if m in {Count, Sum, Avg, Min, Max} {
      AggregateKeyword(m, text);
    } else if m in {Group, By, Order} {
      ClauseKeyword(m, text);
    } else {
      EndKeyword(m, text);
    }
  }

  /** Whatever is taken for a keyword is spelled like one. */
  predicate SpelledAs(t: Token, upper: string, text: string) {
    match t
    case Sign(m) => Spelling(m) == Some(upper)
    case KeyWord(s) => upper == KEY && s == text
    case Word(s) => s == text
    case _ => false
  }

  lemma {:induction false} ClauseKeywordIsSpelling(upper: string, text: string)
    ensures SpelledAs(ClauseKeywordOf(upper, text), upper, text)
  {
  }

  lemma {:induction false} AggregateKeywordIsSpelling(upper: string, text: string)
    ensures SpelledAs(AggregateKeywordOf(upper, text), upper, text)
  {
    hide ClauseKeywordOf;
    ClauseKeywordIsSpelling(upper, text);
  }

  lemma {:induction false} ConditionKeywordIsSpelling(upper: string, text: string)
    ensures SpelledAs(ConditionKeywordOf(upper, text), upper, text)
  {
    hide AggregateKeywordOf;
    AggregateKeywordIsSpelling(upper, text);
  }

  lemma {:induction false} KeywordIsSpelling(upper: string, text: string)
    ensures SpelledAs(KeywordOf(upper, text), upper, text)
  {
    hide ConditionKeywordOf;
    ConditionKeywordIsSpelling(upper, text);
  }

  lemma {:induction false} WordRead(s: string, rest: string)
    requires IsWord(s) && EndsWord(rest)
    ensures NextToken(s + rest) == Ok(Lexed(KeywordOf(ToUpper(s), s), rest))
  {
    hide KeywordOf, ReadToken;
    WordBack(s, rest);
    assert Run(s + rest, Blanks()) == 0;
    assert (s + rest)[0..] == s + rest;
  }

  /** A keyword in any case is read as its token. */
  lemma {:induction false} KeywordIsRead(m: Mark, s: string, rest: string)
    requires Spelling(m).Some? && Spells(s, Spelling(m).value) && EndsWord(rest)
    ensures NextToken(s + rest) == Ok(Lexed(Sign(m), rest))
  {
    hide KeywordOf, Spelling, Spells, NextToken, EndsWord;
    SpellingsAreCapitals(m);
    UpperSpells(s, Spelling(m).value);
    SpellingIsKeyword(m, s);
    WordRead(s, rest);
  }

  /** KEY in any case keeps the way it was written. */
  lemma {:induction false} KeyIsRead(s: string, rest: string)
    requires Spells(s, KEY) && EndsWord(rest)
    ensures NextToken(s + rest) == Ok(Lexed(KeyWord(s), rest))
  {
    hide Spells, NextToken, EndsWord;
    UpperSpells(s, KEY);
    WordRead(s, rest);
  }

  /** A letter or underscore, then letters, digits and underscores, that spell no keyword: a name, as it was written. */
  lemma {:induction false} NameIsRead(s: string, rest: string)
    requires s != [] && !('0' <= s[0] <= '9')
    requires forall i :: 0 <= i < |s| ==>
                           'a' <= s[i] <= 'z' || 'A' <= s[i] <= 'Z' || '0' <= s[i] <= '9' || s[i] == '_'
    requires !SpellsKeyword(s) && EndsWord(rest)
    ensures NextToken(s + rest) == Ok(Lexed(Word(s), rest))
  {
    hide KeywordOf, Spelling, Spells, NextToken, EndsWord;
    assert IsWord(s);
    WordRead(s, rest);
    KeywordIsSpelling(ToUpper(s), s);
    UpperSpells(s, KEY);
    if KeywordOf(ToUpper(s), s).Sign? {
      var m := KeywordOf(ToUpper(s), s).mark;
      SpellingsAreCapitals(m);
      UpperSpells(s, Spelling(m).value);
    }
  }

  // ---------- Everything that is no word ----------

  /** The sign that a text starts with, the longer one where two would do, and what is behind it. */
  lemma {:induction false} SignIsRead(rest: string)
    ensures NextToken("(" + rest) == Ok(Lexed(Sign(LParen), rest))
    ensures NextToken(")" + rest) == Ok(Lexed(Sign(RParen), rest))
    ensures NextToken("," + rest) == Ok(Lexed(Sign(Comma), rest))
    ensures NextToken(";" + rest) == Ok(Lexed(Sign(Semicolon), rest))
    ensures NextToken("*" + rest) == Ok(Lexed(Sign(Star), rest))
    ensures NextToken("=" + rest) == Ok(Lexed(Sign(Equal), rest))
  {
    hide ReadWord, ReadNumber, ReadQuoted;
    OneSign("(", rest);
    OneSign(")", rest);
    OneSign(",", rest);
    OneSign(";", rest);
    OneSign("*", rest);
    OneSign("=", rest);
  }

  lemma {:induction false} ComparisonIsRead(rest: string)
    ensures NextToken("!=" + rest) == Ok(Lexed(Sign(NotEqual), rest))
    ensures NextToken("<=" + rest) == Ok(Lexed(Sign(LessEqual), rest))
    ensures NextToken(">=" + rest) == Ok(Lexed(Sign(GreaterEqual), rest))
    ensures rest == [] || rest[0] != '=' ==>
              && NextToken("!" + rest) == Err
              && NextToken("<" + rest) == Ok(Lexed(Sign(Less), rest))
              && NextToken(">" + rest) == Ok(Lexed(Sign(Greater), rest))
  {
    hide ReadWord, ReadNumber, ReadQuoted;
    OneSign("!=", rest);
    OneSign("<=", rest);
    OneSign(">=", rest);
    OneSign("!", rest);
    OneSign("<", rest);
    OneSign(">", rest);
  }

  lemma {:induction false} OneSign(sign: string, rest: string)
    requires 1 <= |sign| <= 2 && sign[0] in {'(', ')', ',', ';', '*', '=', '!', '<', '>'}
    ensures (sign + rest)[0] == sign[0] && (sign + rest)[|sign|..] == rest
    ensures |sign| == 2 ==> (sign + rest)[1] == sign[1]
    ensures |sign| == 1 && rest != [] ==> (sign + rest)[1] == rest[0]
    ensures NextToken(sign + rest) == ReadSymbol(sign + rest)
  {
    hide ReadWord, ReadNumber, ReadQuoted, ReadSymbol;
    assert Run(sign + rest, Blanks()) == 0;
    assert (sign + rest)[0..] == sign + rest;
  }

  /** Blanks, tabs and line ends in front change nothing; a text of nothing else is at its end. */
  lemma {:induction false} BlankIsSkipped(c: char, s: string)
    requires c == ' ' || c == '\t' || c == '\n' || c == '\r'
    ensures NextToken([c] + s) == NextToken(s)
    ensures NextToken([]) == Ok(Lexed(Sign(EndOfFile), []))
  {
    hide ReadToken;
    assert ([c] + s)[1..] == s;
    assert ([c] + s)[1 + Run(s, Blanks())..] == s[Run(s, Blanks())..];
    EndBack();
  }

  predicate Numerals(s: string) { s != [] && forall i :: 0 <= i < |s| ==> '0' <= s[i] <= '9' }

  predicate IsMinus(sign: string) { sign == "" || sign == "-" }

  /** Digits, with a minus sign or not, are read up to the first character that is none. */
  lemma {:induction false} WholeIsRead(sign: string, digits: string, rest: string)
    requires IsMinus(sign) && Numerals(digits)
    requires rest == [] || (rest[0] != '.' && !('0' <= rest[0] <= '9'))
    ensures NextToken(sign + digits + rest) == Ok(Lexed(Whole(sign + digits), rest))
  {
    hide ReadToken;
    WholeOf(sign, digits);
    assert Renderable(Whole(sign + digits));
    NumberBack(Whole(sign + digits), rest);
    NoBlankInFront(sign + digits, rest);
  }

  /** With a point there are digits on both sides of it, or the text is refused. */
  lemma {:induction false} DecimalIsRead(sign: string, digits: string, fraction: string, rest: string)
    requires IsMinus(sign) && Numerals(digits) && (rest == [] || !('0' <= rest[0] <= '9'))
    ensures Numerals(fraction) ==>
              NextToken(sign + digits + "." + fraction + rest)
              == Ok(Lexed(Decimal(sign + digits + "." + fraction), rest))
    ensures NextToken(sign + digits + "." + rest) == Err
  {
    hide ReadNumber, IsWhole, ReadSymbol, ReadQuoted, ReadWord;
    var whole := sign + digits;
    WholeOf(sign, digits);
    if Numerals(fraction) {
      DecimalBack(whole, fraction, rest);
      assert whole + "." + fraction + rest == whole + ("." + fraction + rest);
      NumberStarts(whole, "." + fraction + rest);
      NoBlankInFront(whole, "." + fraction + rest);
    }
    assert whole + "." + rest == whole + ("." + rest);
    NumberStarts(whole, "." + rest);
    NoBlankInFront(whole, "." + rest);
    PointAlone(whole, rest);
  }

  lemma {:induction false} WholeOf(sign: string, digits: string)
    requires IsMinus(sign) && Numerals(digits)
    ensures IsWhole(sign + digits) && !IsBlank((sign + digits)[0])
  {
    assert (sign + digits)[SignLength(sign + digits)..] == digits;
  }

  lemma {:induction false} NoBlankInFront(s: string, rest: string)
    requires s != [] && !IsBlank(s[0])
    ensures NextToken(s + rest) == ReadToken(s + rest)
  {
    hide ReadToken;
    assert Run(s + rest, Blanks()) == 0;
    assert (s + rest)[0..] == s + rest;
  }

  lemma {:induction false} PointAlone(whole: string, rest: string)
    requires IsWhole(whole) && (rest == [] || !('0' <= rest[0] <= '9'))
    ensures ReadNumber(whole + ("." + rest)) == Err
  {
    hide ReadNumber, IsWhole, SignLength;
    var all := whole + ("." + rest);
    WholeRun(whole, "." + rest);
    NumberIs(all);
    assert all[|whole| + 1..] == rest;
  }

  /** A character that starts no token is refused; a minus sign only starts one in front of a digit. */
  lemma {:induction false} OthersAreRefused(c: char, rest: string)
    requires !('a' <= c <= 'z' || 'A' <= c <= 'Z' || '0' <= c <= '9' || c == '_')
    requires c !in {' ', '\t', '\n', '\r', '\'', '(', ')', ',', ';', '*', '=', '!', '<', '>'}
    requires c == '-' ==> rest == [] || !('0' <= rest[0] <= '9')
    ensures NextToken([c] + rest) == Err
  {
    hide ReadWord, ReadNumber, ReadQuoted;
    NoBlankInFront([c], rest);
  }
}
