/** Snapping a 64-bit integer camera parameter onto its range and increment,
    as the generic-parameter-access sample does before writing a value. */
module GenericParameterAccess {

  /** The C++ `int64_t`. */
  type int64 = x: int | -0x8000_0000_0000_0000 <= x < 0x8000_0000_0000_0000

  const Int64Modulus: int := 0x1_0000_0000_0000_0000

  /** The logical-error exceptions Adjust raises for bad arguments. */
  datatype AdjustError =
    | UnexpectedIncrement(inc: int64)
    | MinimumBiggerThanMaximum

  datatype Result<T> = Ok(value: T) | Err(error: AdjustError)

  /** `x` is one of the values `minimum + n * inc`. */
  predicate OnGrid(x: int, minimum: int, inc: int)
    requires inc > 0
  {
    (x - minimum) % inc == 0
  }

  /** Adjust, computed on unbounded integers: clamp `val` into
      [minimum, maximum] and, in range, round it down onto the grid
      `minimum + n * inc`. */
  function Adjust(val: int64, minimum: int64, maximum: int64, inc: int64): (r: Result<int64>)
    ensures r.Err? <==> inc <= 0 || minimum > maximum
    ensures inc <= 0 ==> r == Err(UnexpectedIncrement(inc))
    ensures inc > 0 && minimum > maximum ==> r == Err(MinimumBiggerThanMaximum)
    ensures r.Ok? ==> minimum <= r.value <= maximum
    ensures r.Ok? && val < minimum ==> r.value == minimum
    ensures r.Ok? && val > maximum ==> r.value == maximum
    ensures r.Ok? && minimum <= val <= maximum && inc == 1 ==> r.value == val
    ensures r.Ok? && minimum <= val <= maximum ==>
              && r.value <= val
              && OnGrid(r.value, minimum, inc)
              && val - r.value < inc
  {
    if inc <= 0 then Err(UnexpectedIncrement(inc))
    else if minimum > maximum then Err(MinimumBiggerThanMaximum)
    else if val < minimum then Ok(minimum)
    else if val > maximum then Ok(maximum)
    else if inc == 1 then Ok(val)
    else
      var r := minimum + ((val - minimum) / inc) * inc;
      GridStep(val - minimum, inc);
      Ok(r)
  }

  /** Rounding down with Euclidean division stays within one increment. */
  lemma GridStep(d: nat, inc: int)
    requires inc > 0
    ensures 0 <= (d / inc) * inc <= d
    ensures d - (d / inc) * inc < inc
    ensures ((d / inc) * inc) % inc == 0
  {
    var q := d / inc;
    assert d == q * inc + d % inc;
    assert q >= 0;
    MulNonNegative(q, inc);
    MulMod(q, inc);
  }

  lemma MulNonNegative(a: nat, b: nat)
    ensures a * b >= 0
  {
  }

  lemma MulMod(q: int, inc: int)
    requires inc > 0
    ensures (q * inc) % inc == 0
  {
    var m := q * inc;
    assert m == q * inc + 0;
    assert m / inc == q && m % inc == 0 by {
      DivModUnique(m, inc, q, 0);
    }
  }

  /** Euclidean quotient and remainder are the only pair that fits. */
  lemma DivModUnique(m: int, inc: int, q: int, rem: int)
    requires inc > 0 && 0 <= rem < inc && m == q * inc + rem
    ensures m / inc == q && m % inc == rem
  {
    var q', r' := m / inc, m % inc;
    assert m == q' * inc + r';
    assert (q - q') * inc == r' - rem;
    if q > q' {
      MulMonotone(q - q', inc);
    } else if q < q' {
      MulMonotone(q' - q, inc);
    }
  }

  lemma MulMonotone(k: int, inc: int)
    requires k >= 1 && inc > 0
    ensures k * inc >= inc
  {
    assert k * inc == (k - 1) * inc + inc;
    MulNonNegative(k - 1, inc);
  }

  /** Two distinct multiples of `inc` are at least `inc` apart. */
  lemma MultiplesApart(a: int, b: int, inc: int)
    requires inc > 0 && a % inc == 0 && b % inc == 0
    ensures a > b ==> a - b >= inc
  {
    var ka, kb := a / inc, b / inc;
    assert a == ka * inc && b == kb * inc;
    assert a - b == (ka - kb) * inc;
    if ka - kb >= 1 {
      MulMonotone(ka - kb, inc);
    } else {
      MulNonNegative(kb - ka, inc);
      assert a - b == -((kb - ka) * inc);
    }
  }

  /** In range, Adjust returns the LARGEST grid point not above `val`. */
  lemma AdjustIsLargestGridPoint(val: int64, minimum: int64, maximum: int64, inc: int64, g: int)
    requires inc > 0 && minimum <= val <= maximum
    requires minimum <= g <= val && OnGrid(g, minimum, inc)
    ensures g <= Adjust(val, minimum, maximum, inc).value
  {
    var r := Adjust(val, minimum, maximum, inc).value;
    MultiplesApart(g - minimum, r - minimum, inc);
  }

  /** A value already on the grid and in range is returned unchanged, so
      Adjust is idempotent on everything it returns for an in-range value. */
  lemma AdjustKeepsGridPoints(val: int64, minimum: int64, maximum: int64, inc: int64)
    requires inc > 0 && minimum <= val <= maximum && OnGrid(val, minimum, inc)
    ensures Adjust(val, minimum, maximum, inc) == Ok(val)
  {
    AdjustIsLargestGridPoint(val, minimum, maximum, inc, val);
  }

  lemma AdjustIdempotentInRange(val: int64, minimum: int64, maximum: int64, inc: int64)
    requires inc > 0 && minimum <= val <= maximum
    ensures var r := Adjust(val, minimum, maximum, inc).value;
      Adjust(r, minimum, maximum, inc) == Ok(r)
  {
    AdjustKeepsGridPoints(Adjust(val, minimum, maximum, inc).value, minimum, maximum, inc);
  }

  /** The maximum is returned for values above it, but the maximum itself is
      rounded down when it is not on the grid: Adjust is not idempotent in
      general. */
  lemma AdjustMaximumRoundedDown()
    ensures Adjust(11, 0, 10, 3) == Ok(10)
    ensures Adjust(10, 0, 10, 3) == Ok(9)
  {
  }

  /** `minimum == maximum` is accepted and pins the result. */
  lemma AdjustSinglePointRange(val: int64, bound: int64, inc: int64)
    requires inc > 0
    ensures Adjust(val, bound, bound, inc) == Ok(bound)
  {
  }

  // ---------------------------------------------------------------------
  // The rounding expression as the 64-bit code evaluates it.

  /** Two's-complement wrap-around of a mathematical integer into int64. */
  function Wrap64(x: int): (r: int64)
    ensures (x - r) % Int64Modulus == 0
    ensures -0x8000_0000_0000_0000 <= x < 0x8000_0000_0000_0000 ==> r == x
  {
    (x + 0x8000_0000_0000_0000) % Int64Modulus - 0x8000_0000_0000_0000
  }

  /** C++ integer division, which truncates toward zero: the remainder
      `a - q * b` has the sign of the dividend and is smaller than `b`. */
  function TruncDiv(a: int, b: int): (q: int)
    requires b > 0
    ensures a >= 0 ==> 0 <= a - q * b < b
    ensures a < 0 ==> -b < a - q * b <= 0
  {
    if a >= 0 then a / b else -((-a) / b)
  }

  /** Adjust with every intermediate of `minimum + ((val - minimum) / inc) * inc`
      kept to 64 bits, as a compiler with wrapping signed arithmetic
      evaluates it. */
  function AdjustAsWritten(val: int64, minimum: int64, maximum: int64, inc: int64): (r: Result<int64>)
    ensures r.Err? <==> inc <= 0 || minimum > maximum
    ensures r.Ok? && (val < minimum || val > maximum || inc == 1) ==>
              r == Adjust(val, minimum, maximum, inc)
  {
    if inc <= 0 then Err(UnexpectedIncrement(inc))
    else if minimum > maximum then Err(MinimumBiggerThanMaximum)
    else if val < minimum then Ok(minimum)
    else if val > maximum then Ok(maximum)
    else if inc == 1 then Ok(val)
    else
      var diff := Wrap64(val - minimum);
      var steps := Wrap64(TruncDiv(diff, inc) * inc);
      Ok(Wrap64(minimum + steps))
  }

  /** When the range spans more than the largest int64, `val - minimum`
      overflows and the 64-bit result is rounded UP, past `val`. */
  lemma AdjustAsWrittenOverflows()
    ensures AdjustAsWritten(0, -0x8000_0000_0000_0000, 0x7FFF_FFFF_FFFF_FFFF, 3) == Ok(2)
    ensures Adjust(0, -0x8000_0000_0000_0000, 0x7FFF_FFFF_FFFF_FFFF, 3) == Ok(-2)
  {
    assert Wrap64(0 - -0x8000_0000_0000_0000) == -0x8000_0000_0000_0000;
    assert TruncDiv(-0x8000_0000_0000_0000, 3) == -3074457345618258602;
  }

  /** When the range spans no more than the largest int64, nothing
      overflows and the 64-bit code computes Adjust. */
  lemma AdjustAsWrittenAgrees(val: int64, minimum: int64, maximum: int64, inc: int64)
    requires maximum - minimum < 0x8000_0000_0000_0000
    ensures AdjustAsWritten(val, minimum, maximum, inc) == Adjust(val, minimum, maximum, inc)
  {
    if inc > 1 && minimum <= val <= maximum {
      var d := val - minimum;
      GridStep(d, inc);
      assert Wrap64(d) == d;
      assert TruncDiv(d, inc) * inc == (d / inc) * inc;
      assert Wrap64((d / inc) * inc) == (d / inc) * inc;
    }
  }
}
