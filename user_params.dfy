/** Helpers/UserParams.cs: the mutable parameter object of the member listing,
    bound from the query string and then completed by UsersController.GetUsers. */
module Params {
  import opened Queries

  /** The largest page a client may ask for. */
  const MaxPageSize: int := 50

  const DefaultPageNumber: int := 1
  const DefaultPageSize: int := 10

  /** The age bounds a fresh object starts with; the repository skips the age
      filter exactly when both are still at these values. */
  const DefaultMinAge: int := 18
  const DefaultMaxAge: int := 99

  /** What the `PageSize` setter stores: oversized requests are capped at the
      maximum, everything else (zero and negatives included) is kept. */
  function ClampPageSize(value: int): (stored: int)
    ensures stored <= MaxPageSize
    ensures value > MaxPageSize ==> stored == MaxPageSize
    ensures value <= MaxPageSize ==> stored == value
  {
    if value > MaxPageSize then MaxPageSize else value
  }

  /** Storing what the getter returns changes nothing. */
  lemma ClampPageSizeIdempotent(value: int)
    ensures ClampPageSize(ClampPageSize(value)) == ClampPageSize(value)
  {
  }

  class UserParams {
    var pageNumber: int
    /** The private backing field of the `PageSize` property. */
    var pageSize: int
    var userId: int
    /** A null string is `None`. */
    var gender: Option<string>
    var minAge: int
    var maxAge: int
    /** Bound from the query string but read nowhere. */
    var orderBy: Option<string>

    /** The setter's guarantee: the stored page size never exceeds the cap. */
    ghost predicate Valid()
      reads this
    {
      pageSize <= MaxPageSize
    }

    /** The field initialisers; reference fields start out null and `int` fields at 0. */
    constructor ()
      ensures Valid()
      ensures pageNumber == DefaultPageNumber && pageSize == DefaultPageSize
      ensures userId == 0 && gender == None && orderBy == None
      ensures minAge == DefaultMinAge && maxAge == DefaultMaxAge
    {
      pageNumber := DefaultPageNumber;
      pageSize := DefaultPageSize;
      userId := 0;
      gender := None;
      minAge := DefaultMinAge;
      maxAge := DefaultMaxAge;
      orderBy := None;
    }

    /** The `PageSize` getter. */
    function PageSize(): (size: int)
      reads this
      requires Valid()
      ensures size <= MaxPageSize
    {
      pageSize
    }

    /** The `PageSize` setter: writes the clamped value and no other field. */
    method SetPageSize(value: int)
      modifies this`pageSize
      ensures Valid()
      ensures pageSize == ClampPageSize(value)
    {
      pageSize := if value > MaxPageSize then MaxPageSize else value;
    }
  }
}
