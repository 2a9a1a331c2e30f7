/** The client's course service: every request goes through `handleApiCall`, which rejects at
    once when no login token is stored and otherwise hands the request to axios, whose promise
    resolves with the response body for a 2xx status and rejects for any other. */
module CourseService {

  /** What a page receives for one request: the response body, or a rejected promise. */
  datatype Reply<T> = Resolved(data: T) | Rejected

  /** The reply to a request the server answers with `status` and `body`. Without a stored
      token the request never leaves the client and the reply is rejected whatever the
      server would have answered. */
  function ServiceReply<T>(hasToken: bool, status: int, body: T): (r: Reply<T>)
    ensures r.Resolved? <==> hasToken && 200 <= status < 300
    ensures r.Resolved? ==> r.data == body
    ensures !hasToken ==> r == Rejected
  {
    if !hasToken then Rejected
    else if 200 <= status < 300 then Resolved(body)
    else Rejected
  }
}
