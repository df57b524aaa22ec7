/** `strong_type<Ty>` for an unsigned `Ty`: a wrapped integer whose
    arithmetic throws `ntl::overflow_error` instead of wrapping. `max` is
    `std::numeric_limits<Ty>::max()` and `lowest()` is 0. */
module SafeTypes {
  import opened Wrappers

  /** A value of the unsigned type with the given maximum. */
  predicate Fits(max: nat, x: int)
  {
    0 <= x <= max
  }

  /** `lhs + rhs`: throws unless `max - rhs >= lhs`, which is exactly the
      case where the sum fits. */
  function Add(max: nat, lhs: nat, rhs: nat): (r: Result<nat>)
    requires lhs <= max && rhs <= max
    ensures r.Err? <==> lhs + rhs > max
    ensures r.Err? ==> r.error == OverflowError
    ensures r.Ok? ==> r.value == lhs + rhs && Fits(max, r.value)
  {
    if max - rhs >= lhs then Ok(rhs + lhs) else Err(OverflowError)
  }

  /** `lhs - rhs`: throws unless `lowest() + rhs <= lhs`, which is exactly
      the case where the difference is not negative. */
  function Sub(max: nat, lhs: nat, rhs: nat): (r: Result<nat>)
    requires lhs <= max && rhs <= max
    ensures r.Err? <==> rhs > lhs
    ensures r.Err? ==> r.error == OverflowError
    ensures r.Ok? ==> r.value == lhs - rhs && Fits(max, r.value)
  {
    if 0 + rhs <= lhs then Ok(lhs - rhs) else Err(OverflowError)
  }

  /** `floor(max / b) >= a` holds exactly when `a * b <= max`. */
  lemma DivBoundIsProductBound(max: nat, a: nat, b: nat)
    requires b > 0
    ensures max / b >= a <==> a * b <= max
  {
    var q := max / b;
    assert max == q * b + max % b;
    if q >= a {
      MulMonotone(a, q, b);
    } else {
      MulMonotone(q + 1, a, b);
      assert (q + 1) * b == q * b + b;
    }
  }

  lemma MulMonotone(x: nat, y: nat, b: nat)
    requires x <= y
    ensures x * b <= y * b
  {
  }

  /** `lhs * rhs` as intended: throws exactly when the product does not fit;
      a zero operand gives zero. */
  function Mul(max: nat, lhs: nat, rhs: nat): (r: Result<nat>)
    requires lhs <= max && rhs <= max
    ensures r.Err? <==> lhs * rhs > max
    ensures r.Err? ==> r.error == OverflowError
    ensures r.Ok? ==> r.value == lhs * rhs && Fits(max, r.value)
  {
    if rhs == 0 then Ok(0)
    else
      DivBoundIsProductBound(max, lhs, rhs);
      if max / rhs >= lhs then Ok(rhs * lhs) else Err(OverflowError)
  }

  /** `lhs * rhs` as written: the check divides `max` by `rhs` first, so a
      zero right operand is a division by zero. */
  function MulAsWritten(max: nat, lhs: nat, rhs: nat): (r: Result<nat>)
    requires lhs <= max && rhs <= max
  {
    if rhs == 0 then Err(DivideByZero)
    else if max / rhs >= lhs then Ok(rhs * lhs) else Err(OverflowError)
  }

  /** The two differ exactly on a zero right operand, where the product is 0
      and fits; on every other input they agree. */
  lemma MulAsWrittenDividesByZero(max: nat, lhs: nat, rhs: nat)
    requires lhs <= max && rhs <= max
    ensures rhs == 0 ==> MulAsWritten(max, lhs, rhs) == Err(DivideByZero) && Mul(max, lhs, rhs) == Ok(0)
    ensures rhs != 0 ==> MulAsWritten(max, lhs, rhs) == Mul(max, lhs, rhs)
  {
  }

  /** `lhs / rhs`: unchecked; unsigned division truncates. Dividing by zero
      is undefined in C++, so the divisor must not be zero. */
  function Div(lhs: nat, rhs: nat): (r: nat)
    requires rhs != 0
    ensures r * rhs <= lhs < (r + 1) * rhs
    ensures r <= lhs
  {
    var q := lhs / rhs;
    assert lhs == q * rhs + lhs % rhs;
    MulAtLeastOne(q, rhs);
    q
  }

  lemma MulAtLeastOne(q: nat, b: nat)
    requires b >= 1
    ensures q <= q * b
  {
  }

  class StrongType {
    /** `std::numeric_limits<Ty>::max()`. */
    const max: nat
    /** `m_Value`. */
    var value: nat

    ghost predicate Valid()
      reads this
    {
      Fits(max, value)
    }

    /** `strong_type(other)`: holds the given value. */
    constructor (max: nat, other: nat)
      requires other <= max
      ensures this.max == max && value == other && Valid()
    {
      this.max := max;
      value := other;
    }

    /** `value()`. */
    function Value(): (r: nat)
      reads this
      requires Valid()
      ensures Fits(max, r)
    {
      value
    }

    /** `+=`: the check of `+`; on failure `m_Value` is unchanged. */
    method AddAssign(other: nat) returns (o: Outcome)
      requires Valid() && other <= max
      modifies this
      ensures Valid()
      ensures var r := Add(max, old(value), other);
        && (o == if r.Ok? then Pass else Fail(r.error))
        && value == if r.Ok? then r.value else old(value)
    {
      if max - other >= value {
        value := value + other;
        o := Pass;
      } else {
        o := Fail(OverflowError);
      }
    }

    /** `-=`: the check of `-`; on failure `m_Value` is unchanged. */
    method SubAssign(other: nat) returns (o: Outcome)
      requires Valid() && other <= max
      modifies this
      ensures Valid()
      ensures var r := Sub(max, old(value), other);
        && (o == if r.Ok? then Pass else Fail(r.error))
        && value == if r.Ok? then r.value else old(value)
    {
      if 0 + other <= value {
        value := value - other;
        o := Pass;
      } else {
        o := Fail(OverflowError);
      }
    }

    /** `*=`: the corrected check of `*`; on failure `m_Value` is
        unchanged. */
    method MulAssign(other: nat) returns (o: Outcome)
      requires Valid() && other <= max
      modifies this
      ensures Valid()
      ensures var r := Mul(max, old(value), other);
        && (o == if r.Ok? then Pass else Fail(r.error))
        && value == if r.Ok? then r.value else old(value)
    {
      if other == 0 {
        value := 0;
        o := Pass;
      } else {
        DivBoundIsProductBound(max, value, other);
        if max / other >= value {
          value := value * other;
          o := Pass;
        } else {
          o := Fail(OverflowError);
        }
      }
    }

    /** `*=` as written: the same `max / other` check as `*` as written, so
        `x *= 0` divides by zero where the corrected `*=` stores 0. */
    method MulAssignAsWritten(other: nat) returns (o: Outcome)
      requires Valid() && other <= max
      modifies this
      ensures Valid()
      ensures var r := MulAsWritten(max, old(value), other);
        && (o == if r.Ok? then Pass else Fail(r.error))
        && value == if r.Ok? then r.value else old(value)
      ensures other == 0 ==> o == Fail(DivideByZero) && value == old(value)
    {
      if other == 0 {
        o := Fail(DivideByZero);
      } else if max / other >= value {
        DivBoundIsProductBound(max, value, other);
        value := value * other;
        o := Pass;
      } else {
        o := Fail(OverflowError);
      }
    }

    /** `/=`: its check is `lowest() + other <= m_Value`, the subtraction
        check, so it throws whenever the divisor exceeds the value even
        though the quotient always fits. */
    method DivAssign(other: nat) returns (o: Outcome)
      requires Valid() && other <= max && other != 0
      modifies this
      ensures Valid()
      ensures o.Fail? <==> other > old(value)
      ensures o.Fail? ==> o.error == OverflowError && value == old(value)
      ensures o.Pass? ==> value == Div(old(value), other)
    {
      if 0 + other <= value {
        value := Div(value, other);
        o := Pass;
      } else {
        o := Fail(OverflowError);
      }
    }

    /** Postfix `++`: throws iff the value is `max` (the check is
        `max - 1 >= m_Value`); otherwise returns the old value. */
    method PostIncrement() returns (r: Result<nat>)
      requires Valid()
      modifies this
      ensures Valid()
      ensures r.Err? <==> old(value) == max
      ensures r.Err? ==> r.error == OverflowError && value == old(value)
      ensures r.Ok? ==> r.value == old(value) && value == old(value) + 1
    {
      if max - 1 >= value {
        r := Ok(value);
        value := value + 1;
      } else {
        r := Err(OverflowError);
      }
    }

    /** Prefix `++`: the same check; returns the new value. */
    method PreIncrement() returns (r: Result<nat>)
      requires Valid()
      modifies this
      ensures Valid()
      ensures r.Err? <==> old(value) == max
      ensures r.Err? ==> r.error == OverflowError && value == old(value)
      ensures r.Ok? ==> value == old(value) + 1 && r.value == value
    {
      if max - 1 >= value {
        value := value + 1;
        r := Ok(value);
      } else {
        r := Err(OverflowError);
      }
    }

    /** Postfix `--`: throws iff the value is `lowest()` (the check is
        `lowest() + 1 <= m_Value`); otherwise returns the old value. */
    method PostDecrement() returns (r: Result<nat>)
      requires Valid()
      modifies this
      ensures Valid()
      ensures r.Err? <==> old(value) == 0
      ensures r.Err? ==> r.error == OverflowError && value == old(value)
      ensures r.Ok? ==> r.value == old(value) && value == old(value) - 1
    {
      if 0 + 1 <= value {
        r := Ok(value);
        value := value - 1;
      } else {
        r := Err(OverflowError);
      }
    }

    /** Prefix `--`: the same check; returns the new value. */
    method PreDecrement() returns (r: Result<nat>)
      requires Valid()
      modifies this
      ensures Valid()
      ensures r.Err? <==> old(value) == 0
      ensures r.Err? ==> r.error == OverflowError && value == old(value)
      ensures r.Ok? ==> value == old(value) - 1 && r.value == value
    {
      if 0 + 1 <= value {
        value := value - 1;
        r := Ok(value);
      } else {
        r := Err(OverflowError);
      }
    }
  }

  /** `+` and `-` undo each other whenever the first succeeds. */
  lemma AddSubInverse(max: nat, a: nat, b: nat)
    requires a <= max && b <= max
    ensures Add(max, a, b).Ok? ==> Sub(max, Add(max, a, b).value, b) == Ok(a)
    ensures Sub(max, a, b).Ok? ==> Add(max, Sub(max, a, b).value, b) == Ok(a)
  {
  }
}
