/** `UserValidationClientAdapter.existsUser`: the request URL and the
    classification of what the HTTP call produced. The transport itself is
    an input. */
module UserValidation {
  import opened Errors
  import opened Ports

  const FailurePrefix := "Failed to validate user: "

  /** The URL `existsUser` requests: the base, a slash, then the user id. */
  function RequestUrl(base: string, userId: string): string {
    base + "/" + userId
  }

  /** For a fixed base the URL names the user: the id is exactly what follows
      the base and the slash, so distinct ids give distinct URLs. */
  lemma RequestUrlDeterminesUser(base: string, userId: string, other: string)
    ensures RequestUrl(base, userId)[..|base| + 1] == base + "/"
    ensures RequestUrl(base, userId)[|base| + 1..] == userId
    ensures RequestUrl(base, userId) == RequestUrl(base, other) ==> userId == other
  {
  }

  /** What the remote side did, as the final reply after the client has
      followed any redirects it follows. */
  datatype RawReply =
    | HttpReply(status: int, hasBody: bool)
    | NoReply(message: string)          // connection refused, timeout, ...
    | UnreadableBody(message: string)   // a reply whose body would not decode

  /** What `getForEntity` did: returned a response entity, threw
      `HttpClientErrorException.NotFound`, or threw something else. */
  datatype HttpOutcome =
    | Returned(status: int, hasBody: bool)
    | NotFoundRaised
    | Raised(cause: Cause)

  /** Status codes an `HttpStatusCode` can be made from. */
  predicate Readable(status: int) {
    100 <= status <= 999
  }

  /** RestTemplate with its default error handler: a status outside 100..999
      cannot be read and raises; 404 raises NotFound; any other 4xx or 5xx
      raises; everything else comes back as a response. */
  function Exchange(raw: RawReply): (o: HttpOutcome)
    ensures o.NotFoundRaised? <==> raw.HttpReply? && raw.status == 404
    ensures o.Returned? <==> raw.HttpReply? && Readable(raw.status) && !(400 <= raw.status < 600)
    ensures o.Returned? ==> o.status == raw.status && o.hasBody == raw.hasBody
    ensures raw.HttpReply? && !Readable(raw.status) ==> o == Raised(InvalidStatus(raw.status))
    ensures raw.HttpReply? && 400 <= raw.status < 600 && raw.status != 404 ==>
      o == Raised(HttpStatusError(raw.status))
    ensures raw.NoReply? ==> o == Raised(IoError(raw.message))
    ensures raw.UnreadableBody? ==> o == Raised(DecodeError(raw.message))
  {
    match raw
    case HttpReply(status, hasBody) =>
      if !Readable(status) then Raised(InvalidStatus(status))
      else if status == 404 then NotFoundRaised
      else if 400 <= status < 600 then Raised(HttpStatusError(status))
      else Returned(status, hasBody)
    case NoReply(m) => Raised(IoError(m))
    case UnreadableBody(m) => Raised(DecodeError(m))
  }

  /** `existsUser` given the outcome of the GET: true only for 200 OK with a
      body; false for any other returned response and for NotFound; every
      other exception becomes UserValidationException carrying it. */
  function ExistsUser(userId: string, outcome: HttpOutcome): (r: UserCheck)
    ensures r == Exists <==> outcome == Returned(200, true)
    ensures r == Absent <==> outcome.NotFoundRaised? || (outcome.Returned? && outcome != Returned(200, true))
    ensures r.Unavailable? <==> outcome.Raised?
    ensures r.Unavailable? ==> r == Unavailable(FailurePrefix + userId, outcome.cause)
  {
    match outcome
    case Returned(status, hasBody) => if status == 200 && hasBody then Exists else Absent
    case NotFoundRaised => Absent
    case Raised(cause) => Unavailable(FailurePrefix + userId, cause)
  }

  /** The decision table over what the remote side did: exists only for a 200
      with a body; absent for 404 and for every other readable status below
      400 or from 600 up (a 204, a 3xx the client does not follow, a 200
      without a body); unavailable for the remaining 4xx/5xx, for an
      unreadable status, for no reply, and for an unreadable body. */
  lemma DecisionTable(userId: string, raw: RawReply)
    ensures var r := ExistsUser(userId, Exchange(raw));
      && (r == Exists <==> raw == HttpReply(200, true))
      && (r == Absent <==>
            && raw.HttpReply? && raw != HttpReply(200, true)
            && (raw.status == 404 || (Readable(raw.status) && !(400 <= raw.status < 600))))
      && (r.Unavailable? <==>
            || !raw.HttpReply?
            || !Readable(raw.status)
            || (400 <= raw.status < 600 && raw.status != 404))
  {
  }
}
