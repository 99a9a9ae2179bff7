/**
 * HTTP as the pipeline sees it: `requests.get(url)` is a function from URLs
 * to responses supplied by the caller, and `raise_for_status` turns an error
 * status into an exception.
 */
module Web {
  import opened Results
  import opened Storage

  datatype Response = Response(status: int, content: Bytes)

  /** The statuses for which `requests.Response.raise_for_status` raises: client and server errors. */
  predicate IsHttpError(status: int) {
    400 <= status < 600
  }

  /** `r.raise_for_status()` followed by `r.content`. */
  function RaiseForStatus(resp: Response): (r: Result<Bytes>)
    ensures r.Err? <==> IsHttpError(resp.status)
    ensures r.Err? ==> r.error == HttpStatus(resp.status)
    ensures r.Ok? ==> r.value == resp.content
  {
    if IsHttpError(resp.status) then Err(HttpStatus(resp.status)) else Ok(resp.content)
  }
}
