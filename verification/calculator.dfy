/** The calculator facade: named entry points that forward to the operators of
    the value type, adding no validation and no error translation of their own. */
module Calculator {
  import opened Wrappers
  import opened TruncatedDivision
  import B = Base23

  /** The sum of the two numbers. */
  function Add(a: B.Base23Number, b: B.Base23Number): (r: B.Base23Number)
    ensures r.decimalValue == a.decimalValue + b.decimalValue
  {
    B.Plus(a, b)
  }

  /** The difference `a - b`, negative when `b` exceeds `a`. */
  function Subtract(a: B.Base23Number, b: B.Base23Number): (r: B.Base23Number)
    ensures r.decimalValue == a.decimalValue - b.decimalValue
    ensures Add(r, b) == a
  {
    B.Minus(a, b)
  }

  /** The product of the two numbers. */
  function Multiply(a: B.Base23Number, b: B.Base23Number): (r: B.Base23Number)
    ensures r.decimalValue == a.decimalValue * b.decimalValue
  {
    B.Times(a, b)
  }

  /** The quotient rounded toward zero; fails when `b` is zero. */
  function Divide(a: B.Base23Number, b: B.Base23Number): (r: Result<B.Base23Number, B.Error>)
    ensures r.Failure? <==> b.decimalValue == 0
    ensures r.Failure? ==> r.error == B.DivideByZero
    ensures r.Success? ==>
      IsTruncDivRem(a.decimalValue, b.decimalValue, r.value.decimalValue,
                    a.decimalValue - r.value.decimalValue * b.decimalValue)
  {
    B.Div(a, b)
  }

  /** Quotient and remainder of `DivRem`, with the same zero-divisor failure;
      its quotient is the one `Divide` returns. */
  function DivideWithRemainder(a: B.Base23Number, b: B.Base23Number): (r: Result<B.DivRemResult, B.Error>)
    ensures r.Failure? <==> b.decimalValue == 0
    ensures r.Failure? ==> r.error == B.DivideByZero
    ensures r.Success? ==>
      IsTruncDivRem(a.decimalValue, b.decimalValue,
                    r.value.quotient.decimalValue, r.value.remainder.decimalValue)
    ensures r.Success? ==> Divide(a, b) == Success(r.value.quotient)
  {
    B.DivRem(a, b)
  }
}
