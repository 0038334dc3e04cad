/** The Relay pagination arguments, the rules that decide which combinations are
    legal, and the page size they ask for. */
module RelayPagination {
  import opened Wrappers
  import opened Machine
  import opened RelayCursor

  /** `relay::Pagination`: `first`/`after` page forwards, `last`/`before` backwards. */
  datatype Pagination = Pagination(first: Option<int32>, after: Option<Cursor>, last: Option<int32>, before: Option<Cursor>)

  /** The five ways `validate` refuses arguments, in the order its match tries them. */
  datatype PaginationError = FirstOutOfRange | LastOutOfRange | FirstAndLast | FirstWithBefore | LastWithAfter {
    /** The `code` extension of the field error. */
    function Code(): string {
      match this
      case FirstOutOfRange => "VALUE_OUT_OF_RANGE"
      case LastOutOfRange => "VALUE_OUT_OF_RANGE"
      case FirstAndLast => "INVALID_PARAM_COMBINATION"
      case FirstWithBefore => "DIRECTION_CONFLICT"
      case LastWithAfter => "DIRECTION_CONFLICT"
    }

    function Message(): string {
      match this
      case FirstOutOfRange => "'first' argument must be positive number"
      case LastOutOfRange => "'last' argument must be positive number"
      case FirstAndLast => "Cannot use both 'first' and 'last'"
      case FirstWithBefore => "'first' cannot be used with 'before'"
      case LastWithAfter => "'last' cannot be used with 'after'"
    }

    /** The `min`/`max` extensions of the two range errors. */
    function Range(): Option<(int, int)> {
      if FirstOutOfRange? || LastOutOfRange? then Some((0, I32_MAX as int)) else None
    }

    /** The `allowed` extension of the combination error. */
    function Allowed(): seq<string> {
      if FirstAndLast? then ["first+after", "last+before"] else []
    }
  }

  /** `Pagination::validate`: the arms of its match, tried in order. */
  function Validate(p: Pagination): (r: Outcome<PaginationError>)
  {
    if p.first.Some? && p.first.value < 0 then Fail(FirstOutOfRange)
    else if p.last.Some? && p.last.value < 0 then Fail(LastOutOfRange)
    else if p.first.Some? && p.last.Some? then Fail(FirstAndLast)
    else if p.first.Some? && p.before.Some? then Fail(FirstWithBefore)
    else if p.after.Some? && p.last.Some? then Fail(LastWithAfter)
    else Pass
  }

  /** An independent statement of the legal combinations: sizes are not negative,
      and at most one direction is used. `after` with `before`, and no arguments at
      all, are legal. */
  predicate Legal(p: Pagination) {
    && (p.first.Some? ==> p.first.value >= 0)
    && (p.last.Some? ==> p.last.value >= 0)
    && !(p.first.Some? && p.last.Some?)
    && !(p.first.Some? && p.before.Some?)
    && !(p.after.Some? && p.last.Some?)
  }

  /** `Pagination::limit`: `first`, else `last`, else 10. */
  function Limit(p: Pagination): (n: int32)
    ensures p.first.Some? ==> n == p.first.value
    ensures p.first.None? && p.last.Some? ==> n == p.last.value
    ensures p.first.None? && p.last.None? ==> n == 10
  {
    match p.first
    case Some(f) => f
    case None => match p.last case Some(l) => l case None => 10
  }

  // ----- properties -----

  /** `validate` accepts exactly the legal combinations. */
  lemma ValidateAcceptsLegal(p: Pagination)
    ensures Validate(p) == Pass <==> Legal(p)
  {
  }

  /** Which error `validate` reports, for every combination, given the order of its
      arms: a negative `first` wins over everything, a negative `last` over the
      combination rules, and so on. */
  lemma ValidateErrors(p: Pagination)
    ensures Validate(p) == Fail(FirstOutOfRange) <==> p.first.Some? && p.first.value < 0
    ensures Validate(p) == Fail(LastOutOfRange) <==>
      (p.first.None? || p.first.value >= 0) && p.last.Some? && p.last.value < 0
    ensures Validate(p) == Fail(FirstAndLast) <==>
      p.first.Some? && p.first.value >= 0 && p.last.Some? && p.last.value >= 0
    ensures Validate(p) == Fail(FirstWithBefore) <==>
      p.first.Some? && p.first.value >= 0 && p.last.None? && p.before.Some?
    ensures Validate(p) == Fail(LastWithAfter) <==>
      p.first.None? && p.after.Some? && p.last.Some? && p.last.value >= 0
  {
  }

  /** After a successful `validate`, the page size is not negative; with no size
      given it is 10. */
  lemma LimitOfValid(p: Pagination)
    requires Validate(p) == Pass
    ensures 0 <= Limit(p)
    ensures p.first.None? && p.last.None? ==> Limit(p) == 10
  {
  }
}
