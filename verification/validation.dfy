/** The integer-parameter check shared by `run_query` (`max_results`) and
    `get_users` (`max_items`). */
module Validation {
  import opened Wrappers
  import opened Errors

  /** What the host hands over for an integer parameter, classified by how
      Python's `float(p).is_integer()` and `int(p)` treat it. */
  datatype IntParam =
    | Absent          // None
    | Int(i: int)     // float(p) is integral and int(p) succeeds, giving i
    | NonIntegral     // float(p) has a fractional part (or is infinite / nan)
    | Unparseable     // float(p) or int(p) raises

  /** The integers the check lets through. */
  predicate Admissible(i: int, allowZero: bool) {
    i > 0 || (allowZero && i == 0)
  }

  /** `_validate_integer`: `None` passes unchanged, every other value must be an
      admissible integer, and each rejection names the constraint broken. */
  function ValidateInteger(p: IntParam, key: string, allowZero: bool): (r: Result<Option<int>, ActionFailure>)
    ensures r.Success? <==> p.Absent? || (p.Int? && Admissible(p.i, allowZero))
    ensures r.Success? ==> (r.value.Some? <==> p.Int?)
    ensures r.Success? && p.Int? ==> r.value.value == p.i
    ensures p.NonIntegral? || p.Unparseable? ==> r == Failure(InvalidInteger("", key))
    ensures p.Int? && p.i < 0 ==> r == Failure(InvalidInteger("non-negative", key))
    ensures p == Int(0) && !allowZero ==> r == Failure(InvalidInteger("non-zero positive", key))
  {
    match p
    case Absent => Success(None)
    case NonIntegral => Failure(InvalidInteger("", key))
    case Unparseable => Failure(InvalidInteger("", key))
    case Int(i) =>
      if i < 0 then Failure(InvalidInteger("non-negative", key))
      else if !allowZero && i == 0 then Failure(InvalidInteger("non-zero positive", key))
      else Success(Some(i))
  }

  /** Validation is idempotent: a value it accepted is accepted again, unchanged. */
  lemma ValidateIdempotent(p: IntParam, key: string, allowZero: bool)
    requires ValidateInteger(p, key, allowZero).Success?
    ensures var v := ValidateInteger(p, key, allowZero).value;
            v.Some? ==> ValidateInteger(Int(v.value), key, allowZero) == Success(v)
  {
  }

  /** Allowing zero only ever turns a rejection of zero into an acceptance. */
  lemma AllowZeroOnlyAdmitsZero(p: IntParam, key: string)
    ensures ValidateInteger(p, key, true) != ValidateInteger(p, key, false) <==> p == Int(0)
  {
  }
}
