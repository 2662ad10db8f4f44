/** Optional values and results with an error, used wherever the source
    returns `undefined`/`null` or throws. */
module Wrappers {

  datatype Option<+T> = None | Some(value: T) {
    function GetOr(default: T): T {
      match this
      case Some(v) => v
      case None => default
    }
  }

  datatype Result<+R, +E> = Success(value: R) | Failure(error: E)
}

/** The validation errors the value objects throw (the source throws a plain
    `Error` whose message names the failing field). */
module Errors {

  datatype ValidationError =
    | InvalidLatitude(lat: real)
    | InvalidLongitude(lon: real)
    | EmptyPlaceId
}

/** What a storage adapter hands back for a key: nothing stored, a value
    that is not an array, or an array of items. */
module Storage {

  datatype Stored<T> = Absent | NotAList | Items(items: seq<T>)
}
