/** `CustomHTTPException`: an HTTP error carrying a status code, an error code, a
    description and headers, whose call overrides the fields it is given, in place. The
    module-level instances are shared by every handler that raises them. */
module HttpExceptions {
  import opened Wrappers

  type Headers = map<string, string>

  /** The four fields of an exception. */
  datatype Details = Details(statusCode: int, error: Option<string>,
                             errorDescription: Option<string>, headers: Option<Headers>)

  /** The arguments of a call; `None` is an argument left out. */
  datatype Overrides = Overrides(statusCode: Option<int>, error: Option<string>,
                                 errorDescription: Option<string>, headers: Option<Headers>)

  const NoOverrides: Overrides := Overrides(None, None, None, None)

  /** An argument, if given, else the current value. */
  function Pick<T>(arg: Option<T>, current: T): T
  {
    if arg.Some? then arg.value else current
  }

  /** An optional argument, if given, else the current optional value. */
  function PickSome<T>(arg: Option<T>, current: Option<T>): (r: Option<T>)
    ensures r.Some? <==> arg.Some? || current.Some?
    ensures r == arg || r == current
  {
    if arg.Some? then arg else current
  }

  /** The fields after a call with `o`: each given argument replaces its field. */
  function Override(d: Details, o: Overrides): (r: Details)
    ensures o.statusCode.Some? ==> r.statusCode == o.statusCode.value
    ensures o.statusCode.None? ==> r.statusCode == d.statusCode
    ensures o.error.Some? ==> r.error == o.error
    ensures o.error.None? ==> r.error == d.error
    ensures o.errorDescription.Some? ==> r.errorDescription == o.errorDescription
    ensures o.errorDescription.None? ==> r.errorDescription == d.errorDescription
    ensures o.headers.Some? ==> r.headers == o.headers
    ensures o.headers.None? ==> r.headers == d.headers
  {
    Details(Pick(o.statusCode, d.statusCode), PickSome(o.error, d.error),
            PickSome(o.errorDescription, d.errorDescription), PickSome(o.headers, d.headers))
  }

  /** `a` then `b` as one set of arguments: `b` wherever it gives one, else `a`. */
  function Merge(a: Overrides, b: Overrides): Overrides
  {
    Overrides(PickSome(b.statusCode, a.statusCode), PickSome(b.error, a.error),
              PickSome(b.errorDescription, a.errorDescription), PickSome(b.headers, a.headers))
  }

  /** A call without arguments changes nothing. */
  lemma OverrideNothing(d: Details)
    ensures Override(d, NoOverrides) == d
  {
  }

  /** Calling twice with the same arguments is calling once. */
  lemma OverrideIdempotent(d: Details, o: Overrides)
    ensures Override(Override(d, o), o) == Override(d, o)
  {
  }

  /** Two calls in a row are one call with the later arguments winning. */
  lemma OverrideTwice(d: Details, a: Overrides, b: Overrides)
    ensures Override(Override(d, a), b) == Override(d, Merge(a, b))
  {
  }

  /** No call ever clears a field that is set. */
  lemma OverrideNeverClears(d: Details, o: Overrides)
    ensures d.error.Some? ==> Override(d, o).error.Some?
    ensures d.errorDescription.Some? ==> Override(d, o).errorDescription.Some?
    ensures d.headers.Some? ==> Override(d, o).headers.Some?
  {
  }

  class CustomHttpException {
    var statusCode: int
    var error: Option<string>
    var errorDescription: Option<string>
    var headers: Option<Headers>

    /** `CustomHTTPException(status_code, error, error_description, headers)` stores its
        arguments as they are. */
    constructor (statusCode: int, error: Option<string>, errorDescription: Option<string>,
                 headers: Option<Headers>)
      ensures this.statusCode == statusCode && this.error == error
      ensures this.errorDescription == errorDescription && this.headers == headers
    {
      this.statusCode := statusCode;
      this.error := error;
      this.errorDescription := errorDescription;
      this.headers := headers;
    }

    function Current(): Details
      reads this
    {
      Details(statusCode, error, errorDescription, headers)
    }

    /** `exception(status_code, error, error_description, headers)`: the given fields are
        replaced in this very object, which is returned, so every holder of it sees the
        change. */
    method Call(statusCode: Option<int>, error: Option<string>, errorDescription: Option<string>,
                headers: Option<Headers>) returns (r: CustomHttpException)
      modifies this
      ensures r == this
      ensures Current() == Override(old(Current()), Overrides(statusCode, error, errorDescription, headers))
    {
      this.statusCode := if statusCode.Some? then statusCode.value else this.statusCode;
      this.error := if error.Some? then error else this.error;
      this.errorDescription := if errorDescription.Some? then errorDescription else this.errorDescription;
      this.headers := if headers.Some? then headers else this.headers;
      return this;
    }
  }

  /** The fields `INVALID_REQUEST_EXCEPTION` is created with. */
  const InvalidRequest: Details := Details(400, Some("invalid_request"), Some("Invalid request data"), None)

  /** `INVALID_REQUEST_EXCEPTION`, made once when the module is loaded. */
  method NewInvalidRequestException() returns (e: CustomHttpException)
    ensures fresh(e) && e.Current() == InvalidRequest
  {
    e := new CustomHttpException(400, Some("invalid_request"), Some("Invalid request data"), None);
  }

  /** Two raises of one shared instance: the first customises the description, the second
      passes nothing, and still carries the first one's description, since both return the
      same object. */
  method RaiseSharedTwice(shared: CustomHttpException, description: string)
    returns (first: CustomHttpException, second: CustomHttpException)
    modifies shared
    ensures first == second == shared
    ensures second.errorDescription == Some(description)
    ensures second.statusCode == old(shared.statusCode) && second.error == old(shared.error)
  {
    first := shared.Call(None, None, Some(description), None);
    second := shared.Call(None, None, None, None);
  }
}
