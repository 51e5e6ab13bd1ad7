/** The `--where` clause of the select, update and delete commands: a
    `column=value` text becomes a typed literal and a row predicate. */
module Where {
  import opened Wrappers
  import opened Text

  /** A value as the front end compares it: the Python kinds bool, int,
      float, None and str. A float is kept as the text it was written as. */
  datatype Value = Bool(b: bool) | Int(i: int) | FloatLit(text: string) | Null | Str(s: string)

  /** A stored row: column name to value. */
  type Row = map<string, Value>

  /** The predicate handed to the table: every row, or the rows whose
      column equals the literal. */
  datatype Condition = MatchAll | Equals(column: string, value: Value)

  /** The one way building a condition fails: a text of digits and dots
      that Python's `float()` rejects. */
  datatype WhereError = InvalidFloat(text: string)

  /** Digits once the dots are removed: the test `cli.py` applies before
      calling `float()`. */
  predicate DigitsAndDots(v: string) {
    IsDigits(RemoveAll(v, '.'))
  }

  lemma DigitsAndDotsChars(v: string, i: int)
    requires DigitsAndDots(v) && 0 <= i < |v|
    ensures IsDigit(v[i]) || v[i] == '.'
  {
    if v[i] != '.' {
      RemoveAllKeeps(v, '.', i);
      var r := RemoveAll(v, '.');
      var k :| 0 <= k < |r| && r[k] == v[i];
    }
  }

  lemma DigitsAreDigitsAndDots(v: string)
    requires IsDigits(v)
    ensures DigitsAndDots(v) && Count(v, '.') == 0
  {
    CountAbsent(v, '.');
    RemoveAllAbsent(v, '.');
  }

  /** A text whose first character is a letter is neither digits nor digits and dots. */
  lemma LetterFirstNotNumeric(v: string)
    requires |v| > 0 && !IsDigit(v[0]) && v[0] != '.'
    ensures !IsDigits(v) && !DigitsAndDots(v)
  {
    if DigitsAndDots(v) {
      DigitsAndDotsChars(v, 0);
    }
  }

  /** The tests the classifier applies do not overlap except where the
      order resolves them: digits are also digits and dots. */
  lemma LiteralTestsDisjoint(v: string)
    ensures Lower(v) in {"true", "false", "null"} ==> !IsDigits(v) && !DigitsAndDots(v)
    ensures IsDigits(v) ==> DigitsAndDots(v) && Count(v, '.') == 0
    ensures DigitsAndDots(v) && Count(v, '.') == 0 ==> IsDigits(v)
  {
    var low := Lower(v);
    if low in {"true", "false", "null"} {
      assert low[0] == LowerChar(v[0]);
      LetterFirstNotNumeric(v);
    }
    if IsDigits(v) {
      DigitsAreDigitsAndDots(v);
    }
    if DigitsAndDots(v) && Count(v, '.') == 0 {
      RemoveAllAbsent(v, '.');
    }
  }

  /** The stripped value text classified in the order `cli.py` tests it: true/false
      in any case, all digits, digits and dots, null in any case, anything else. */
  function ParseLiteral(v: string): (r: Result<Value, WhereError>)
    ensures r == Ok(Bool(true)) <==> Lower(v) == "true"
    ensures r == Ok(Bool(false)) <==> Lower(v) == "false"
    ensures (r.Ok? && r.value.Int?) <==> IsDigits(v)
    ensures r.Ok? && r.value.Int? ==> IsDigits(v) && r.value.i == DecimalValue(v)
    ensures (r.Ok? && r.value.FloatLit?) <==> DigitsAndDots(v) && Count(v, '.') == 1
    ensures r.Ok? && r.value.FloatLit? ==> r.value.text == v
    ensures r.Err? <==> DigitsAndDots(v) && Count(v, '.') >= 2
    ensures r.Err? ==> r.error == InvalidFloat(v)
    ensures r == Ok(Null) <==> Lower(v) == "null"
    ensures (r.Ok? && r.value.Str?)
            <==> Lower(v) != "true" && Lower(v) != "false" && Lower(v) != "null" && !DigitsAndDots(v)
    ensures r.Ok? && r.value.Str? ==> r.value.s == v
  {
    var low := Lower(v);
    LiteralTestsDisjoint(v);
    if low == "true" then Ok(Bool(true))
    else if low == "false" then Ok(Bool(false))
    else if IsDigits(v) then Ok(Int(DecimalValue(v)))
    else if DigitsAndDots(v) then
      (if Count(v, '.') == 1 then Ok(FloatLit(v)) else Err(InvalidFloat(v)))
    else if low == "null" then Ok(Null)
    else Ok(Str(v))
  }

  /** `_create_condition_function`: without `=` every row matches (after a
      warning); otherwise the clause splits at its first `=`, both sides are
      stripped, and the right side is classified as a literal. */
  function CreateCondition(clause: string): (r: Result<Condition, WhereError>)
    ensures '=' !in clause ==> r == Ok(MatchAll)
    ensures r.Ok? && r.value.Equals? ==> '=' !in r.value.column
  {
    if '=' in clause then
      var (col, value) := SplitFirst(clause, '=');
      assert '=' !in Strip(col) by {
        var l := StripLeft(col);
        assert Strip(col) == l[..|Strip(col)|];
      }
      match ParseLiteral(Strip(value))
      case Ok(v) => Ok(Equals(Strip(col), v))
      case Err(e) => Err(e)
    else
      Ok(MatchAll)
  }

  /** Python's `row.get(col)`: a missing column reads as None. */
  function Get(row: Row, column: string): Value {
    if column in row then row[column] else Null
  }

  /** The predicate `lambda row: row.get(col) == value`, or `lambda row: True`. */
  predicate Matches(cond: Condition, row: Row) {
    match cond
    case MatchAll => true
    case Equals(column, value) => Get(row, column) == value
  }

  /** A clause without `=` selects every row. */
  lemma NoEqualsMatchesEveryRow(clause: string, row: Row)
    requires '=' !in clause
    ensures CreateCondition(clause).Ok? && Matches(CreateCondition(clause).value, row)
  {
  }

  /** Only the first `=` splits: the column is the stripped text before it and
      everything after it, further `=` included, is the stripped value text. */
  lemma SplitsAtFirstEquals(column: string, value: string)
    requires '=' !in column
    ensures ParseLiteral(Strip(value)).Ok? ==>
              CreateCondition(column + "=" + value) == Ok(Equals(Strip(column), ParseLiteral(Strip(value)).value))
    ensures ParseLiteral(Strip(value)).Err? ==>
              CreateCondition(column + "=" + value) == Err(ParseLiteral(Strip(value)).error)
  {
    var clause := column + "=" + value;
    IndexOfAfter(column, '=', value);
    var i := IndexOf(clause, '=');
    assert clause[..i] == column;
    assert clause[i + 1..] == value;
  }

  /** A clause whose value text classifies as a literal compares the stripped
      column with that literal. */
  lemma ClauseWithLiteral(column: string, value: string, lit: Value)
    requires '=' !in column
    requires ParseLiteral(Strip(value)) == Ok(lit)
    ensures CreateCondition(column + "=" + value) == Ok(Equals(Strip(column), lit))
  {
    SplitsAtFirstEquals(column, value);
  }

  lemma NullLiteral()
    ensures ParseLiteral(Strip("null")) == Ok(Null)
  {
    NullStripped();
    NullParses();
  }

  lemma NullParses()
    ensures ParseLiteral("null") == Ok(Null)
  {
    assert Lower("null") == "null";
    LetterFirstNotNumeric("null");
  }

  lemma NullStripped()
    ensures Strip("null") == "null"
  {
    assert "null" == [] + "null" + [];
    StripUnique("null", [], "null", []);
  }

  /** `column=null` compares with None, so it matches every row that lacks
      the column as well as every row holding None there. */
  lemma NullMatchesMissing(column: string, row: Row)
    requires '=' !in column
    ensures CreateCondition(column + "=" + "null") == Ok(Equals(Strip(column), Null))
    ensures Strip(column) !in row ==> Matches(Equals(Strip(column), Null), row)
  {
    NullLiteral();
    ClauseWithLiteral(column, "null", Null);
  }

  /** A condition written with the decimal text of a natural number parses
      back to that number as an int literal. */
  lemma IntLiteralRoundTrip(column: string, n: nat)
    requires '=' !in column
    ensures CreateCondition(column + "=" + ShowNat(n)) == Ok(Equals(Strip(column), Int(n)))
  {
    NatLiteral(n);
    ClauseWithLiteral(column, ShowNat(n), Int(n));
  }

  lemma NatLiteral(n: nat)
    ensures ParseLiteral(Strip(ShowNat(n))) == Ok(Int(n))
  {
    var t := ShowNat(n);
    assert forall i :: 0 <= i < |t| ==> !IsSpace(t[i]);
    StripUnique(t, [], t, []);
    DecimalValueOfShowNat(n);
  }

  /** A negative number is not all digits, so it stays text. */
  lemma NegativeNumberStaysText()
    ensures ParseLiteral("-5") == Ok(Str("-5"))
  {
    LetterFirstNotNumeric("-5");
    assert Lower("-5") == "-5";
  }

  /** A plain word stays text. */
  lemma WordStaysText()
    ensures ParseLiteral("abc") == Ok(Str("abc"))
  {
    LetterFirstNotNumeric("abc");
    assert Lower("abc") == "abc";
  }

  /** Two dots pass the digits-and-dots test but not `float()`: the clause
      is rejected rather than kept as text. */
  lemma TwoDotsRejected()
    ensures ParseLiteral("1.2.3") == Err(InvalidFloat("1.2.3"))
  {
    TwoDotsDigitsAndDots();
    TwoDotsCount();
  }

  lemma TwoDotsDigitsAndDots()
    ensures DigitsAndDots("1.2.3")
  {
    var v := "1.2.3";
    assert forall i :: 0 <= i < |v| ==> IsDigit(v[i]) || v[i] == '.';
    DotsRemovedLeaveDigits(v);
    TwoDotsCount();
  }

  /** Removing the dots from a text of digits and dots leaves only digits. */
  lemma {:induction false} DotsRemovedLeaveDigits(v: string)
    requires forall i :: 0 <= i < |v| ==> IsDigit(v[i]) || v[i] == '.'
    ensures forall i :: 0 <= i < |RemoveAll(v, '.')| ==> IsDigit(RemoveAll(v, '.')[i])
  {
    if v != [] {
      assert forall i :: 0 <= i < |v| - 1 ==> v[1..][i] == v[i + 1];
      DotsRemovedLeaveDigits(v[1..]);
      var head: string := if v[0] == '.' then [] else [v[0]];
      assert RemoveAll(v, '.') == head + RemoveAll(v[1..], '.');
    }
  }

  lemma TwoDotsCount()
    ensures Count("1.2.3", '.') == 2
  {
    assert Count(".3", '.') == 1;
    assert Count(".2.3", '.') == 2;
  }

  /** The row test compares with the stored value, a missing column reading as None. */
  lemma MatchesEquals(column: string, value: Value, row: Row)
    ensures Matches(Equals(column, value), row)
            <==> (column in row && row[column] == value) || (column !in row && value == Null)
  {
  }
}
