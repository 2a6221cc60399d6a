/** Concrete instances of the value type's behaviour, one lemma per group of
    documented cases. */
module Examples {
  import opened Wrappers
  import opened Base23
  import C = Calculator

  function N(x: int): Base23Number {
    Base23Number(x)
  }

  /** Single glyphs denote their digit values. */
  lemma ParseSingleDigits()
    ensures Parse(Some("0")) == Success(N(0))
    ensures Parse(Some("1")) == Success(N(1))
    ensures Parse(Some("9")) == Success(N(9))
    ensures Parse(Some("A")) == Success(N(10))
    ensures Parse(Some("M")) == Success(N(22))
  {
  }

  /** Positional weights of two-digit numerals. */
  lemma ParseTwoDigits()
    ensures Parse(Some("10")) == Success(N(23))
    ensures Parse(Some("11")) == Success(N(24))
    ensures Parse(Some("1M")) == Success(N(45))
    ensures Parse(Some("MM")) == Success(N(528))
  {
  }

  /** The weight of the third digit is 23 squared. */
  lemma ParseThreeDigits()
    ensures Parse(Some("100")) == Success(N(529))
  {
  }

  /** A leading `-` negates; letters are read in either case. */
  lemma ParseSignAndCase()
    ensures Parse(Some("-1")) == Success(N(-1))
    ensures Parse(Some("-M")) == Success(N(-22))
    ensures Parse(Some("a")) == Success(N(10))
    ensures Parse(Some("m")) == Success(N(22))
  {
  }

  /** A lone sign, or a second sign, leaves no digits or an invalid digit. */
  lemma ParseRejectsSigns()
    ensures Parse(Some("-")) == Failure(Format)
    ensures Parse(Some("--1")) == Failure(Format)
  {
  }

  /** Absent text, empty text and characters outside the table. */
  lemma ParseRejects()
    ensures Parse(None) == Failure(NullInput)
    ensures Parse(Some("")) == Failure(Format)
    ensures Parse(Some("X")) == Failure(Format)
    ensures Parse(Some("1X")) == Failure(Format)
    ensures Parse(Some("@")) == Failure(Format)
    ensures Parse(Some("A@")) == Failure(Format)
    ensures Parse(Some("N")) == Failure(Format)
  {
  }

  /** The non-throwing parse reports failure with the zero value. */
  lemma TryParseRejects()
    ensures TryParse(None) == TryParseResult(false, N(0))
    ensures TryParse(Some("")) == TryParseResult(false, N(0))
    ensures TryParse(Some("-")) == TryParseResult(false, N(0))
    ensures TryParse(Some("1X")) == TryParseResult(false, N(0))
  {
  }

  /** Formatting of small values. */
  lemma FormatSmall()
    ensures ToString(N(0)) == "0"
    ensures ToString(N(1)) == "1"
    ensures ToString(N(9)) == "9"
    ensures ToString(N(10)) == "A"
    ensures ToString(N(22)) == "M"
  {
  }

  /** Formatting of two-digit values. */
  lemma FormatTwoDigits()
    ensures ToString(N(23)) == "10"
    ensures ToString(N(24)) == "11"
    ensures ToString(N(45)) == "1M"
    ensures ToString(N(528)) == "MM"
  {
  }

  /** 23 squared is the first three-digit value. */
  lemma FormatThreeDigits()
    ensures ToString(N(529)) == "100"
  {
  }

  /** Formatting of negative values. */
  lemma FormatNegative()
    ensures ToString(N(-1)) == "-1"
    ensures ToString(N(-22)) == "-M"
  {
  }

  /** Leading zeros, `-0` and lower case are accepted, so formatting does not
      undo parsing in general. */
  lemma NonCanonicalInput()
    ensures Parse(Some("0A")) == Success(N(10)) && ToString(N(10)) == "A"
    ensures Parse(Some("-0")) == Success(N(0)) && ToString(N(0)) == "0"
  {
    assert "0A"[..1] == "0";
    assert "-0"[1..] == "0";
  }

  /** Sums, differences and products of the documented cases: `10 + 1 = 11`,
      `M - A = C`, `M * 2 = 1L`. */
  lemma ArithmeticExamples()
    ensures Plus(N(23), N(1)) == N(24) && Parse(Some("11")) == Success(N(24))
    ensures Minus(N(22), N(10)) == N(12) && Parse(Some("C")) == Success(N(12))
    ensures Times(N(22), N(2)) == N(44) && ToString(N(44)) == "1L"
  {
  }

  /** `100 / 10 = 10`, `DivRem(100, 3) = (7F, 1)`, and a zero divisor fails. */
  lemma DivisionExamples()
    ensures Div(N(529), N(23)) == Success(N(23))
    ensures DivRem(N(529), N(3)) == Success(DivRemResult(N(176), N(1)))
    ensures ToString(N(176)) == "7F"
    ensures Div(N(23), N(0)) == Failure(DivideByZero)
    ensures Mod(N(23), N(0)) == Failure(DivideByZero)
    ensures DivRem(N(23), N(0)) == Failure(DivideByZero)
  {
  }

  /** Sums that carry into a new digit: `M + 1 = 10`, `MM + 1 = 100`. */
  lemma AdditionCarries()
    ensures Plus(N(22), N(1)) == N(23) && ToString(N(23)) == "10"
    ensures Plus(N(528), N(1)) == N(529) && ToString(N(529)) == "100"
  {
  }

  /** Differences that borrow: `10 - 1 = M`, `100 - 1 = MM`. */
  lemma SubtractionBorrows()
    ensures Minus(N(23), N(1)) == N(22) && ToString(N(22)) == "M"
    ensures Minus(N(529), N(1)) == N(528) && ToString(N(528)) == "MM"
  {
  }

  /** Products `10 * 2 = 20` and `10 * 10 = 100`. */
  lemma MultiplicationExamples()
    ensures Times(N(23), N(2)) == N(46) && ToString(N(46)) == "20"
    ensures Times(N(23), N(23)) == N(529) && ToString(N(529)) == "100"
  {
  }

  /** Quotients `10 / 2 = B` and `1M / 3 = F`. */
  lemma MoreQuotients()
    ensures Div(N(23), N(2)) == Success(N(11)) && ToString(N(11)) == "B"
    ensures Div(N(45), N(3)) == Success(N(15)) && ToString(N(15)) == "F"
  {
  }

  /** `DivRem(1M, 2) = (M, 1)` and `DivRem(MM, M) = (11, 0)`. */
  lemma MoreDivRems()
    ensures DivRem(N(45), N(2)) == Success(DivRemResult(N(22), N(1)))
    ensures DivRem(N(528), N(22)) == Success(DivRemResult(N(24), N(0)))
    ensures ToString(N(24)) == "11"
  {
  }

  /** Equal pairs, including a pair that differs only in case, under
      `Equals`, the object overload, `==` and `!=`. */
  lemma EqualPairs()
    ensures var x, y := Parse(Some("10")).value, Parse(Some("10")).value;
      Equals(x, y) && EqualsObject(x, Number(y)) && EqualOp(x, y) && !NotEqualOp(x, y)
    ensures var x, y := Parse(Some("A")).value, Parse(Some("a")).value;
      Equals(x, y) && EqualsObject(x, Number(y)) && EqualOp(x, y) && !NotEqualOp(x, y)
    ensures var x, y := Parse(Some("MM")).value, Parse(Some("MM")).value;
      Equals(x, y) && EqualsObject(x, Number(y)) && EqualOp(x, y) && !NotEqualOp(x, y)
  {
  }

  /** Unequal pairs, under `Equals`, the object overload, `==` and `!=`. */
  lemma UnequalPairs()
    ensures var x, y := Parse(Some("10")).value, Parse(Some("11")).value;
      !Equals(x, y) && !EqualsObject(x, Number(y)) && !EqualOp(x, y) && NotEqualOp(x, y)
    ensures var x, y := Parse(Some("A")).value, Parse(Some("B")).value;
      !Equals(x, y) && !EqualsObject(x, Number(y)) && !EqualOp(x, y) && NotEqualOp(x, y)
  {
  }

  /** The facade's sums, differences and products of the documented cases. */
  lemma FacadeArithmetic()
    ensures C.Add(N(23), N(1)) == N(24) && C.Add(N(22), N(1)) == N(23) && C.Add(N(528), N(1)) == N(529)
    ensures C.Subtract(N(23), N(1)) == N(22) && C.Subtract(N(529), N(1)) == N(528)
    ensures C.Subtract(N(22), N(10)) == N(12)
    ensures C.Multiply(N(23), N(2)) == N(46) && C.Multiply(N(23), N(23)) == N(529)
    ensures C.Multiply(N(22), N(2)) == N(44)
  {
  }

  /** The facade's quotients, quotient-remainder pairs and zero-divisor failure. */
  lemma FacadeDivision()
    ensures C.Divide(N(23), N(2)) == Success(N(11))
    ensures C.Divide(N(529), N(23)) == Success(N(23))
    ensures C.Divide(N(45), N(3)) == Success(N(15))
    ensures C.Divide(N(23), N(0)) == Failure(DivideByZero)
    ensures C.DivideWithRemainder(N(45), N(2)) == Success(DivRemResult(N(22), N(1)))
    ensures C.DivideWithRemainder(N(529), N(3)) == Success(DivRemResult(N(176), N(1)))
    ensures C.DivideWithRemainder(N(528), N(22)) == Success(DivRemResult(N(24), N(0)))
  {
  }

  /** Truncation toward zero on negative operands, where Euclidean division differs. */
  lemma NegativeDivision()
    ensures DivRem(N(-7), N(2)) == Success(DivRemResult(N(-3), N(-1)))
    ensures DivRem(N(7), N(-2)) == Success(DivRemResult(N(-3), N(1)))
    ensures DivRem(N(-7), N(-2)) == Success(DivRemResult(N(3), N(-1)))
  {
  }
}
