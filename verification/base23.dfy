/** The radix-23 value type: one unbounded signed integer, with base-23 text as
    its surface encoding. */
module Base23 {
  import opened Wrappers
  import opened Digits
  import opened TruncatedDivision

  /** The three ways an operation of the value type can fail. */
  datatype Error = NullInput | Format | DivideByZero

  /** An immutable radix-23 number; its identity is the wrapped integer. */
  datatype Base23Number = Base23Number(decimalValue: int)

  /** Outcome of the non-throwing parse: a success flag and the parsed value. */
  datatype TryParseResult = TryParseResult(ok: bool, result: Base23Number)

  /** Quotient and remainder returned together by `DivRem`. */
  datatype DivRemResult = DivRemResult(quotient: Base23Number, remainder: Base23Number)

  /** An operand that the object overload of `Equals` may receive. */
  datatype Boxed = Null | Number(number: Base23Number) | OtherObject

  // ---------------------------------------------------------------------------
  // Reference meaning of numerals

  function Pow(b: nat, e: nat): nat {
    if e == 0 then 1 else b * Pow(b, e - 1)
  }

  /** The value of a digit sequence, most significant digit first: the sum of
      `ds[i] * 23^(|ds| - 1 - i)`. */
  function Positional(ds: seq<nat>): nat {
    if |ds| == 0 then 0 else ds[0] * Pow(Base, |ds| - 1) + Positional(ds[1..])
  }

  /** Every character of `t` is in the character-to-digit table. */
  predicate AllGlyphs(t: string) {
    forall i :: 0 <= i < |t| ==> CharToDigit(t[i]).Some?
  }

  /** The digit values of a string of table characters. */
  function DigitValues(t: string): (ds: seq<nat>)
    requires AllGlyphs(t)
  {
    seq(|t|, i requires 0 <= i < |t| => CharToDigit(t[i]).value)
  }

  /** The text without its leading `-`, if it has one. */
  function Magnitude(t: string): string {
    if |t| > 0 && t[0] == '-' then t[1..] else t
  }

  /** The grammar the parser accepts: an optional single leading `-`, then one
      or more characters of the table. */
  predicate WellFormed(t: string) {
    |Magnitude(t)| > 0 && AllGlyphs(Magnitude(t))
  }

  /** The integer a well-formed numeral denotes. */
  function Denotation(t: string): int
    requires WellFormed(t)
  {
    var m: int := Positional(DigitValues(Magnitude(t)));
    if t[0] == '-' then -m else m
  }

  /** The shortest spelling of a value: upper-case glyphs, no leading zero, and
      no `-` on zero. */
  predicate Canonical(t: string) {
    && WellFormed(t)
    && (forall i :: 0 <= i < |Magnitude(t)| ==> UpperAscii(Magnitude(t)[i]) == Magnitude(t)[i])
    && (Magnitude(t)[0] == '0' ==> t == "0")
  }

  // ---------------------------------------------------------------------------
  // Parsing

  /** The parse loop: folds `acc * 23 + digit` over `t` from left to right and
      gives up at the first character outside the table. */
  function Fold(t: string): (r: Option<nat>)
    ensures r.Some? <==> AllGlyphs(t)
  {
    if |t| == 0 then Some(0)
    else
      match Fold(t[..|t| - 1])
      case None => None
      case Some(acc) =>
        match CharToDigit(t[|t| - 1])
        case None => None
        case Some(d) => Some(acc * Base + d)
  }

  /** Appending a digit multiplies the positional value by the radix and adds the digit. */
  lemma {:induction false} PositionalSnoc(ds: seq<nat>, d: nat)
    ensures Positional(ds + [d]) == Positional(ds) * Base + d
    decreases |ds|
  {
    if |ds| == 0 {
      assert Positional([d]) == d * Pow(Base, 0) + Positional([]);
    } else {
      var p := Pow(Base, |ds| - 1);
      assert (ds + [d])[1..] == ds[1..] + [d];
      PositionalSnoc(ds[1..], d);
      calc {
        Positional(ds + [d]);
        ds[0] * Pow(Base, |ds|) + Positional(ds[1..] + [d]);
        ds[0] * (Base * p) + Positional(ds[1..]) * Base + d;
        (ds[0] * p + Positional(ds[1..])) * Base + d;
      }
    }
  }

  /** The Horner fold computes the positional value of the digits. */
  lemma {:induction false} FoldIsPositional(t: string)
    requires AllGlyphs(t)
    ensures Fold(t) == Some(Positional(DigitValues(t)))
    decreases |t|
  {
    if |t| > 0 {
      var init := t[..|t| - 1];
      assert AllGlyphs(init);
      FoldIsPositional(init);
      var d := CharToDigit(t[|t| - 1]).value;
      assert DigitValues(t) == DigitValues(init) + [d];
      PositionalSnoc(DigitValues(init), d);
    }
  }

  /** The throwing parse: `NullInput` for an absent string, `Format` for text
      outside the grammar, otherwise the value the numeral denotes. */
  function Parse(s: Option<string>): (r: Result<Base23Number, Error>)
    ensures s.None? <==> r == Failure(NullInput)
    ensures s.Some? ==> (r.Success? <==> WellFormed(s.value))
    ensures s.Some? && !WellFormed(s.value) ==> r == Failure(Format)
    ensures r.Success? ==> r.value.decimalValue == Denotation(s.value)
  {
    match s
    case None => Failure(NullInput)
    case Some(t) =>
      if |t| == 0 then Failure(Format)
      else
        var negative := t[0] == '-';
        var start := if negative then 1 else 0;
        if |t| <= start then Failure(Format)
        else
          match Fold(t[start..])
          case None => Failure(Format)
          case Some(m) =>
            FoldIsPositional(t[start..]);
            var mag: int := m;
            var value := if negative then -mag else mag;
            Success(Base23Number(value))
  }

  /** The non-throwing parse. Absent, empty and malformed text all report
      failure, with the default (zero) value. */
  function TryParse(s: Option<string>): (res: TryParseResult)
    ensures res.ok <==> Parse(s).Success?
    ensures res.ok ==> res.result == Parse(s).value
    ensures !res.ok ==> res.result.decimalValue == 0
  {
    var failed := TryParseResult(false, Base23Number(0));
    if s.None? || |s.value| == 0 then failed
    else
      var t := s.value;
      var negative := t[0] == '-';
      var start := if negative then 1 else 0;
      if |t| <= start then failed
      else
        match Fold(t[start..])
        case None => failed
        case Some(m) =>
          var mag: int := m;
          var value := if negative then -mag else mag;
          TryParseResult(true, Base23Number(value))
  }

  // ---------------------------------------------------------------------------
  // Formatting

  /** The glyphs of a magnitude, most significant first, produced by repeated
      division by 23; empty for zero. */
  function FormatMagnitude(n: nat): (r: string)
    ensures |r| == 0 <==> n == 0
    ensures forall i :: 0 <= i < |r| ==> CharToDigit(r[i]).Some? && UpperAscii(r[i]) == r[i]
    ensures n > 0 ==> r[0] != '0'
  {
    if n == 0 then [] else FormatMagnitude(n / Base) + [DigitToChar(n % Base)]
  }

  /** Base-23 text of a value: `"0"` for zero, otherwise the magnitude's glyphs
      preceded by `-` when the value is negative. */
  function ToString(v: Base23Number): (r: string)
    ensures v.decimalValue == 0 ==> r == "0"
    ensures |r| > 0
    ensures r[0] == '-' <==> v.decimalValue < 0
    ensures Canonical(r)
  {
    if v.decimalValue == 0 then "0"
    else
      var digits := FormatMagnitude(Abs(v.decimalValue));
      if v.decimalValue < 0 then "-" + digits else digits
  }

  /** Folding the formatted magnitude gives the magnitude back. */
  lemma {:induction false} FoldFormatMagnitude(n: nat)
    ensures Fold(FormatMagnitude(n)) == Some(n)
  {
    if n > 0 {
      var r := FormatMagnitude(n);
      var c := DigitToChar(n % Base);
      FoldFormatMagnitude(n / Base);
      assert r == FormatMagnitude(n / Base) + [c];
      assert r[..|r| - 1] == FormatMagnitude(n / Base);
      assert r[|r| - 1] == c;
      assert CharToDigit(c) == Some(n % Base);
      assert Fold(r) == Some(n / Base * Base + n % Base);
    }
  }

  /** Parsing the text of any value gives that value back. */
  lemma RoundTrip(v: Base23Number)
    ensures Parse(Some(ToString(v))) == Success(v)
  {
    var t := ToString(v);
    var m := Magnitude(t);
    FoldIsPositional(m);
    if v.decimalValue == 0 {
      assert DigitValues(m) == [0];
    } else {
      FoldFormatMagnitude(Abs(v.decimalValue));
      assert m == FormatMagnitude(Abs(v.decimalValue));
    }
  }

  /** Formatting the fold of upper-case glyphs without a leading zero gives the
      glyphs back. */
  lemma {:induction false} FormatMagnitudeOfFold(t: string)
    requires |t| > 0 && AllGlyphs(t) && t[0] != '0'
    requires forall i :: 0 <= i < |t| ==> UpperAscii(t[i]) == t[i]
    ensures Fold(t).Some? && FormatMagnitude(Fold(t).value) == t
    decreases |t|
  {
    var init := t[..|t| - 1];
    var c := t[|t| - 1];
    var d := CharToDigit(c).value;
    GlyphOfDigit(c);
    if |init| == 0 {
      assert d != 0;
      assert FormatMagnitude(d) == FormatMagnitude(0) + [DigitToChar(d)];
      assert t == [c];
    } else {
      FormatMagnitudeOfFold(init);
      var m := Fold(init).value;
      var n := m * Base + d;
      assert n / Base == m && n % Base == d;
      assert t == init + [c];
    }
  }

  /** On canonical text, formatting inverts parsing. */
  lemma {:induction false} CanonicalRoundTrip(t: string)
    requires Canonical(t)
    ensures Parse(Some(t)).Success? && ToString(Parse(Some(t)).value) == t
  {
    var m := Magnitude(t);
    var v := Parse(Some(t)).value;
    FoldIsPositional(m);
    if t == "0" {
      assert DigitValues(m) == [0];
      assert v.decimalValue == 0;
    } else {
      FormatMagnitudeOfFold(m);
      var n := Positional(DigitValues(m));
      assert FormatMagnitude(n) == m;
      assert n != 0;
      assert Abs(v.decimalValue) == n;
      if t[0] == '-' {
        assert v.decimalValue < 0;
        assert t == "-" + m;
      } else {
        assert v.decimalValue > 0;
        assert t == m;
      }
    }
  }

  /** The text with every ASCII letter in upper case. */
  function UpperString(t: string): (u: string)
    ensures |u| == |t|
    ensures forall i :: 0 <= i < |t| ==> u[i] == UpperAscii(t[i])
  {
    if |t| == 0 then [] else UpperString(t[..|t| - 1]) + [UpperAscii(t[|t| - 1])]
  }

  /** Upper-casing keeps exactly the table characters and their digit values. */
  lemma UpperDigitValues(t: string)
    ensures AllGlyphs(UpperString(t)) <==> AllGlyphs(t)
    ensures AllGlyphs(t) ==> DigitValues(UpperString(t)) == DigitValues(t)
  {
    var u := UpperString(t);
    forall i | 0 <= i < |t|
      ensures CharToDigit(u[i]) == CharToDigit(t[i])
    {
      CaseInsensitive(t[i]);
    }
  }

  /** Upper-casing the text does not change what it parses to. */
  lemma {:induction false} ParseCaseInsensitive(t: string)
    ensures Parse(Some(UpperString(t))) == Parse(Some(t))
  {
    var u := UpperString(t);
    if |t| > 0 {
      assert u[0] == '-' <==> t[0] == '-';
      assert Magnitude(u) == UpperString(Magnitude(t));
      UpperDigitValues(Magnitude(t));
      assert WellFormed(u) <==> WellFormed(t);
      if WellFormed(t) {
        assert Denotation(u) == Denotation(t);
        assert Parse(Some(u)).value == Parse(Some(t)).value;
      } else {
        assert Parse(Some(u)) == Failure(Format);
      }
    } else {
      assert u == t;
    }
  }

  // ---------------------------------------------------------------------------
  // Arithmetic

  function Plus(a: Base23Number, b: Base23Number): Base23Number {
    Base23Number(a.decimalValue + b.decimalValue)
  }

  function Minus(a: Base23Number, b: Base23Number): Base23Number {
    Base23Number(a.decimalValue - b.decimalValue)
  }

  function Times(a: Base23Number, b: Base23Number): Base23Number {
    Base23Number(a.decimalValue * b.decimalValue)
  }

  /** The `/` operator: fails on a zero divisor, otherwise rounds toward zero. */
  function Div(a: Base23Number, b: Base23Number): (r: Result<Base23Number, Error>)
    ensures r.Failure? <==> b.decimalValue == 0
    ensures r.Failure? ==> r.error == DivideByZero
    ensures r.Success? ==>
      IsTruncDivRem(a.decimalValue, b.decimalValue, r.value.decimalValue,
                    a.decimalValue - r.value.decimalValue * b.decimalValue)
  {
    if b.decimalValue == 0 then Failure(DivideByZero)
    else
      QuotRem(a.decimalValue, b.decimalValue);
      Success(Base23Number(Quot(a.decimalValue, b.decimalValue)))
  }

  /** The `%` operator: fails on a zero divisor, otherwise the remainder of
      truncating division, which takes the sign of the dividend. */
  function Mod(a: Base23Number, b: Base23Number): (r: Result<Base23Number, Error>)
    ensures r.Failure? <==> b.decimalValue == 0
    ensures r.Failure? ==> r.error == DivideByZero
    ensures r.Success? ==>
      exists q :: IsTruncDivRem(a.decimalValue, b.decimalValue, q, r.value.decimalValue)
  {
    if b.decimalValue == 0 then Failure(DivideByZero)
    else
      QuotRem(a.decimalValue, b.decimalValue);
      Success(Base23Number(Rem(a.decimalValue, b.decimalValue)))
  }

  /** Quotient and remainder in one call, agreeing with `Div` and `Mod`. */
  function DivRem(a: Base23Number, b: Base23Number): (r: Result<DivRemResult, Error>)
    ensures r.Failure? <==> b.decimalValue == 0
    ensures r.Failure? ==> r.error == DivideByZero
    ensures r.Success? ==>
      IsTruncDivRem(a.decimalValue, b.decimalValue,
                    r.value.quotient.decimalValue, r.value.remainder.decimalValue)
    ensures r.Success? ==> Div(a, b) == Success(r.value.quotient)
    ensures r.Success? ==> Mod(a, b) == Success(r.value.remainder)
  {
    if b.decimalValue == 0 then Failure(DivideByZero)
    else
      var x, y := a.decimalValue, b.decimalValue;
      QuotRem(x, y);
      Success(DivRemResult(Base23Number(Quot(x, y)), Base23Number(Rem(x, y))))
  }

  /** Subtraction undoes addition and addition undoes subtraction. */
  lemma PlusMinusInverse(a: Base23Number, b: Base23Number)
    ensures Minus(Plus(a, b), b) == a
    ensures Plus(Minus(a, b), b) == a
  {
  }

  /** Dividing a product by a non-zero factor gives the other factor back exactly. */
  lemma TimesDivInverse(a: Base23Number, b: Base23Number)
    requires b.decimalValue != 0
    ensures Div(Times(a, b), b) == Success(a)
    ensures Mod(Times(a, b), b) == Success(Base23Number(0))
  {
    var p := Times(a, b).decimalValue;
    var q := Div(Times(a, b), b).value.decimalValue;
    assert IsTruncDivRem(p, b.decimalValue, a.decimalValue, 0);
    TruncDivRemUnique(p, b.decimalValue, q, p - q * b.decimalValue, a.decimalValue, 0);
    var m := Mod(Times(a, b), b).value.decimalValue;
    var q' :| IsTruncDivRem(p, b.decimalValue, q', m);
    TruncDivRemUnique(p, b.decimalValue, q', m, a.decimalValue, 0);
  }

  /** Quotient times divisor plus remainder rebuilds the dividend. */
  lemma DivRemReconstructs(a: Base23Number, b: Base23Number)
    requires b.decimalValue != 0
    ensures DivRem(a, b).Success?
    ensures Plus(Times(DivRem(a, b).value.quotient, b), DivRem(a, b).value.remainder) == a
  {
  }

  // ---------------------------------------------------------------------------
  // Equality

  /** `Equals` compares the underlying integers, so it is value identity. */
  function Equals(a: Base23Number, b: Base23Number): (r: bool)
    ensures r <==> a == b
  {
    a.decimalValue == b.decimalValue
  }

  /** The object overload: true only for a boxed number with the same value. */
  function EqualsObject(a: Base23Number, obj: Boxed): (r: bool)
    ensures r <==> obj == Number(a)
  {
    obj.Number? && Equals(a, obj.number)
  }

  /** The `==` operator. */
  function EqualOp(a: Base23Number, b: Base23Number): (r: bool)
    ensures r <==> a.decimalValue == b.decimalValue
  {
    Equals(a, b)
  }

  /** The `!=` operator: always the negation of `==`. */
  function NotEqualOp(a: Base23Number, b: Base23Number): (r: bool)
    ensures r <==> !EqualOp(a, b)
    ensures r <==> a.decimalValue != b.decimalValue
  {
    !Equals(a, b)
  }
}
