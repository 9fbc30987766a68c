/** Python-level values and outcomes shared by the three entity classes:
    optional values (`None`), the exceptions the setters and `save` raise,
    dynamically typed arguments, and the two text-validation disciplines. */
module Values {

  /** Python's `None` or a present value. Also models a nullable SQL column. */
  datatype Option<T> = None | Some(value: T)

  /** The exceptions raised by the entity classes:
      `TypeError`, `ValueError` and `AttributeError`. */
  datatype Error = TypeErr | ValueErr | AttrErr

  /** Either what a call returned, or the exception it raised. */
  datatype Result<T> = Success(value: T) | Failure(error: Error) {

    /** The object after the statement ran: the new value on success, and
        `prior` (left untouched) when the call raised. */
    function GetOr(prior: T): T {
      match this
      case Success(v) => v
      case Failure(_) => prior
    }
  }

  /** A dynamically typed argument: a Python `str`, or anything else
      (an `int`, `None`, ...). */
  datatype Value = Str(s: string) | Other

  /** The value is a non-empty string. */
  predicate IsText(v: Value) {
    v.Str? && v.s != ""
  }

  /** The check every required text field runs: first "is a string"
      (`TypeError`), then "is non-empty" (`ValueError`). */
  function CheckText(v: Value): (r: Result<string>)
    ensures r.Success? <==> IsText(v)
    ensures r.Success? ==> r.value == v.s
    ensures v.Other? ==> r == Failure(TypeErr)
    ensures v == Str("") ==> r == Failure(ValueErr)
  {
    match v
    case Other => Failure(TypeErr)
    case Str(s) => if |s| == 0 then Failure(ValueErr) else Success(s)
  }

  /** A one-shot text setter. `slot` is the attribute's current value, `None`
      while it has never been assigned. The "already set" guard runs before
      any validation, so a set slot rejects every value, even a non-string. */
  function AssignOnce(slot: Option<string>, v: Value): (r: Result<string>)
    ensures r.Success? <==> slot.None? && IsText(v)
    ensures r.Success? ==> r.value == v.s
    ensures slot.Some? ==> r.error == AttrErr
    ensures slot.None? && v.Other? ==> r.error == TypeErr
    ensures slot.None? && v == Str("") ==> r.error == ValueErr
  {
    if slot.Some? then Failure(AttrErr) else CheckText(v)
  }
}
