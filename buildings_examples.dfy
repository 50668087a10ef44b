/** The texts the creation of buildings is exercised with, and the two texts
    that show how the unescaped separator differs from a decimal point. */
module BuildingFactoryExamples {
  import opened BuildingValue
  import opened BuildingFactory

  /** A single digit is a field under either reading. */
  lemma DigitText(d: char, sep: Separator)
    requires IsDigit(d)
    ensures IsField(sep, [d]) && NoDelimiters([d])
    ensures FieldValue([d]) == Some(DigitValue(d) as real)
  {
    assert DigitsValue([d]) == DigitValue(d);
  }

  /** "1.0", "2.0", "3.0" and similar are fields under either reading. */
  lemma DecimalText(d: char, sep: Separator)
    requires IsDigit(d)
    ensures IsField(sep, [d, '.', '0']) && NoDelimiters([d, '.', '0'])
    ensures FieldValue([d, '.', '0']) == Some(DigitValue(d) as real)
  {
    var t := [d, '.', '0'];
    assert t[..1] == [d] && t[2..] == ['0'];
    assert !IsDigit(t[1]);
    assert DigitRun(t, 0) == 1;
    assert DigitsValue(t[..1]) == DigitValue(d);
    assert FractionValue(t[2..]) == 0.0;
  }

  /** A well-formed text makes the building it describes. */
  lemma CreateWholeNumbers(sep: Separator)
    ensures CreateWith(sep, "[1,2,3]") == Success(Building(1.0, 2.0, 3.0))
  {
    var s := "[1,2,3]";
    assert !IsWhitespace(s[0]) && '-' !in s;
    assert Bracketed("1", "2", "3") == s;
    DigitText('1', sep);
    DigitText('2', sep);
    DigitText('3', sep);
    CreateBracketed(sep, "1", "2", "3");
  }

  /** A building of height zero is refused. */
  lemma CreateZeroHeight(sep: Separator)
    ensures CreateWith(sep, "[1,2,0]") == Failure(TooFlat)
  {
    var s := "[1,2,0]";
    assert !IsWhitespace(s[0]) && '-' !in s;
    assert Bracketed("1", "2", "0") == s;
    DigitText('1', sep);
    DigitText('2', sep);
    DigitText('0', sep);
    CreateBracketed(sep, "1", "2", "0");
  }

  /** A building that starts after it ends is refused. */
  lemma CreateStartAfterEnd(sep: Separator)
    ensures CreateWith(sep, "[5,1,3]") == Failure(StartAfterEnd)
  {
    var s := "[5,1,3]";
    assert !IsWhitespace(s[0]) && '-' !in s;
    assert Bracketed("5", "1", "3") == s;
    DigitText('5', sep);
    DigitText('1', sep);
    DigitText('3', sep);
    CreateBracketed(sep, "5", "1", "3");
  }

  /** Decimals are read as such. */
  lemma CreateDecimalText(sep: Separator)
    ensures CreateWith(sep, "[1.0,2.0,3.0]") == Success(Building(1.0, 2.0, 3.0))
  {
    var s := "[1.0,2.0,3.0]";
    assert !IsWhitespace(s[0]) && '-' !in s;
    assert Bracketed("1.0", "2.0", "3.0") == s;
    DecimalText('1', sep);
    DecimalText('2', sep);
    DecimalText('3', sep);
    CreateBracketed(sep, "1.0", "2.0", "3.0");
  }

  /** Blank texts and texts with a '-' are refused before any matching. */
  lemma CreateRefusedEarly()
    ensures Create("") == Failure(Blank)
    ensures Create("[-1,2,0]") == Failure(NegativeValues)
    ensures Create("[1,-2,0]") == Failure(NegativeValues)
    ensures Create("[1,2,-1]") == Failure(NegativeValues)
  {
    assert "[-1,2,0]"[1] == '-' && !IsWhitespace("[-1,2,0]"[0]);
    assert "[1,-2,0]"[3] == '-' && !IsWhitespace("[1,-2,0]"[0]);
    assert "[1,2,-1]"[5] == '-' && !IsWhitespace("[1,2,-1]"[0]);
  }

  /** A missing field leaves nothing for the pattern to match. */
  lemma CreateWithoutStart(s: string)
    requires s == "[,1,3]"
    ensures Create(s) == Failure(NotParsable)
  {
    assert !IsWhitespace(s[0]) && '-' !in s;
    FindAtFirstBracket(AnyCharacter, s);
    assert DigitRun(s, 1) == 0;
    assert MatchAt(AnyCharacter, s, 0) == None;
  }

  lemma CreateWithoutEnd(s: string)
    requires s == "[1,,3]"
    ensures Create(s) == Failure(NotParsable)
  {
    assert !IsWhitespace(s[0]) && '-' !in s;
    FindAtFirstBracket(AnyCharacter, s);
    assert DigitRun(s, 3) == 0;
    assert FieldEnd(AnyCharacter, s, 1, 3) == None;
    assert DigitRun(s, 1) == 1;
    assert WithFraction(AnyCharacter, s, 2, 3, DigitRun(s, 3)) == None;
    assert MatchAt(AnyCharacter, s, 0) == None;
  }

  lemma CreateWithoutHeight(s: string)
    requires s == "[1,3,]"
    ensures Create(s) == Failure(NotParsable)
  {
    assert !IsWhitespace(s[0]) && '-' !in s;
    FindAtFirstBracket(AnyCharacter, s);
    assert DigitRun(s, 5) == 0;
    assert FieldEnd(AnyCharacter, s, 1, 5) == None;
    assert FieldEnd(AnyCharacter, s, 0, 5) == None;
    assert DigitRun(s, 3) == 1;
    assert WithFraction(AnyCharacter, s, 1, 5, DigitRun(s, 5)) == None;
    assert FieldEnd(AnyCharacter, s, 1, 3) == None;
    assert DigitRun(s, 1) == 1;
    assert WithFraction(AnyCharacter, s, 2, 3, DigitRun(s, 3)) == None;
    assert MatchAt(AnyCharacter, s, 0) == None;
  }

  // ---------------------------------------------------------------------------
  // The separator: an unescaped dot against a decimal point

  /** As written, "2e1" is a field, and it is read as twenty. */
  lemma ExponentAsWritten(s: string)
    requires s == "[1,2e1,3]"
    ensures Create(s) == Success(Building(1.0, 20.0, 3.0))
  {
    assert !IsWhitespace(s[0]) && '-' !in s;
    assert Bracketed("1", "2e1", "3") == s;
    DigitText('1', AnyCharacter);
    DigitText('3', AnyCharacter);
    ExponentField("2e1");
    CreateBracketed(AnyCharacter, "1", "2e1", "3");
  }

  /** Any character may stand between the digits of a field as written, and
      "2e1" is read as 2 times 10 to the power 1. */
  lemma ExponentField(t: string)
    requires t == "2e1"
    ensures IsField(AnyCharacter, t) && NoDelimiters(t)
    ensures FieldValue(t) == Some(20.0)
  {
    assert t[..1] == "2" && t[2..] == "1" && !IsDigit(t[1]);
    assert DigitRun(t, 0) == 1;
    assert DigitsValue(t[..1]) == 2 && DigitsValue(t[2..]) == 1;
    assert Scale(2.0, 1) == 20.0;
    assert t[1] == 'e' && AllDigits(t[2..]);
  }

  /** With a decimal point, "2e1" is no field, and nothing matches. */
  lemma ExponentEscaped(s: string)
    requires s == "[1,2e1,3]"
    ensures CreateWithEscapedDot(s) == Failure(NotParsable)
  {
    assert !IsWhitespace(s[0]) && '-' !in s;
    FindAtFirstBracket(DecimalPoint, s);
    assert DigitRun(s, 3) == 1;
    assert FieldEnd(DecimalPoint, s, 1, 3) == None;
    assert DigitRun(s, 1) == 1;
    assert MatchAt(DecimalPoint, s, 0) == None;
  }

  /** As written, four fields make a match whose first field is "1,2",
      which is not a number. */
  lemma FourFieldsAsWritten()
    ensures Create("[1,2,2,3]") == Failure(NotANumber("1,2"))
  {
    FourFieldsSplit("[1,2,2,3]");
    CommaIsNoNumber();
  }

  /** The fields of the match of four fields are "1,2", "2" and "3". */
  lemma FourFieldsSplit(s: string)
    requires s == "[1,2,2,3]"
    ensures Create(s) == FromFields("1,2", "2", "3")
  {
    assert !IsWhitespace(s[0]) && '-' !in s;
    FourFieldsMatch(s);
    assert s[1..4] == "1,2" && s[5..6] == "2" && s[7..8] == "3";
    CreateFromFields(AnyCharacter, s, Match(0, 4, 6, 8), "1,2", "2", "3");
  }

  /** A ',' between digits is neither a decimal point nor an exponent. */
  lemma CommaIsNoNumber()
    ensures FieldValue("1,2") == None
  {
    var t := "1,2";
    assert !IsDigit(t[1]) && DigitRun(t, 0) == 1 && t[2..] == "2";
  }

  /** The engine tries the longest first field first, and "1,2" lets the
      rest of the pattern match. */
  lemma FourFieldsMatch(s: string)
    requires s == "[1,2,2,3]"
    ensures Find(AnyCharacter, s) == Some(Match(0, 4, 6, 8))
  {
    FindAtFirstBracket(AnyCharacter, s);
    assert DigitRun(s, 9) == 0 && DigitRun(s, 7) == 1;
    assert FieldEnd(AnyCharacter, s, 0, 7) == Some(8);
    assert DigitRun(s, 5) == 1;
    assert WithFraction(AnyCharacter, s, 1, 7, 1) == None;
    assert FieldEnd(AnyCharacter, s, 1, 5) == Some(6);
    assert DigitRun(s, 3) == 1 && DigitRun(s, 1) == 1;
    assert FieldEnd(AnyCharacter, s, 2, 1) == Some(4);
  }

  /** With a decimal point, four fields make no match. */
  lemma FourFieldsEscaped(s: string)
    requires s == "[1,2,2,3]"
    ensures CreateWithEscapedDot(s) == Failure(NotParsable)
  {
    assert !IsWhitespace(s[0]) && '-' !in s;
    FindAtFirstBracket(DecimalPoint, s);
    assert DigitRun(s, 5) == 1;
    assert FieldEnd(DecimalPoint, s, 0, 5) == None;
    assert DigitRun(s, 3) == 1;
    assert FieldEnd(DecimalPoint, s, 1, 3) == None;
    assert DigitRun(s, 1) == 1;
    assert MatchAt(DecimalPoint, s, 0) == None;
  }
}
