/** The API server's response value: a successful body with the extra headers
    gathered for it, or one of two error bodies, and how it is turned into an
    HTTP response. */
module ApiUtil {
  import W = Wrappers
  import opened Strings
  import opened Clock

  type Header = (string, string)

  /** `ApiResponse`. All three carry their text as `body`. */
  datatype ApiResponse =
    | Ok(body: string, headers: seq<Header>)
    | InternalError(body: string)
    | NotFound(body: string)

  /** What `respond_to` builds: the status code, the body, and the header
      writes in the order they are made. */
  datatype Response = Response(status: nat, body: string, rawHeaders: seq<Header>)

  const CONTENT_TYPE: Header := ("Content-Type", "Application/json")

  /** `new_ok_from_string`: a successful body with no extra headers. */
  function NewOkFromString(data: string): (r: ApiResponse)
    ensures r.Ok? && r.body == data && r.headers == []
  {
    Ok(data, [])
  }

  /** `add_header`: a successful response gets the pair as its last header; an
      error response has no headers and is passed on as it is. */
  function AddHeader(r: ApiResponse, k: string, v: string): (q: ApiResponse)
    ensures q.Ok? <==> r.Ok?
    ensures q.body == r.body
    ensures r.Ok? ==> q.headers == r.headers + [(k, v)]
    ensures !r.Ok? ==> q == r
  {
    match r
    case Ok(body, headers) => Ok(body, headers + [(k, v)])
    case _ => r
  }

  /** `nocache`: marks a response as freshly fetched. */
  function Nocache(r: ApiResponse): (q: ApiResponse)
    ensures q.Ok? <==> r.Ok?
    ensures q.body == r.body
    ensures r.Ok? ==> q.headers == r.headers + [("X-Cached", "false")]
    ensures !r.Ok? ==> q == r
  {
    AddHeader(r, "X-Cached", "false")
  }

  /** `cached`: marks a response as served from the cache, then gives the
      entry's age in whole seconds, in decimal; `timestamp` is when the entry
      was stored and `now` the monotonic clock at the call. */
  function Cached(r: ApiResponse, timestamp: int, now: int): (q: ApiResponse)
    ensures q.Ok? <==> r.Ok?
    ensures q.body == r.body
    ensures r.Ok? ==>
              q.headers == r.headers + [("X-Cached", "true"), ("X-Cached-Age", NatToString(AsSecs(Elapsed(timestamp, now))))]
    ensures !r.Ok? ==> q == r
  {
    AddHeader(AddHeader(r, "X-Cached", "true"), "X-Cached-Age", NatToString(AsSecs(Elapsed(timestamp, now))))
  }

  /** The age header of a cached response reads back as the entry's age. */
  lemma CachedAgeReadsBack(data: string, timestamp: int, now: int)
    ensures var q := Cached(NewOkFromString(data), timestamp, now);
            |q.headers| == 2 && q.headers[0] == ("X-Cached", "true")
            && q.headers[1].0 == "X-Cached-Age"
            && ParseUnsigned(q.headers[1].1, AsSecs(Elapsed(timestamp, now)) + 1)
               == W.Some(AsSecs(Elapsed(timestamp, now)))
  {
    ParseUnsignedRoundTrip(AsSecs(Elapsed(timestamp, now)), AsSecs(Elapsed(timestamp, now)) + 1);
  }

  /** The status `respond_to` answers with. */
  function Status(r: ApiResponse): nat {
    match r
    case Ok(_, _) => 200
    case InternalError(_) => 500
    case NotFound(_) => 404
  }

  /** `respond_to`: the status of the variant and its body; a successful
      response then writes its headers in order, and the JSON content type
      last. Error responses write no header. */
  method RespondTo(r: ApiResponse) returns (resp: Response)
    ensures resp.status == Status(r) && resp.body == r.body
    ensures r.Ok? ==> resp.rawHeaders == r.headers + [CONTENT_TYPE]
    ensures !r.Ok? ==> resp.rawHeaders == []
  {
    resp := Response(Status(r), r.body, []);
    match r
    case Ok(_, headers) =>
      var i := 0;
      while i < |headers|
        invariant 0 <= i <= |headers|
        invariant resp == Response(Status(r), r.body, headers[..i])
      {
        resp := resp.(rawHeaders := resp.rawHeaders + [headers[i]]);
        i := i + 1;
      }
      resp := resp.(rawHeaders := resp.rawHeaders + [CONTENT_TYPE]);
      assert headers[..i] == headers;
    case _ =>
  }

  /** Adding a header never changes the status or the body, and its pair is
      written just before the content type, after every earlier header. */
  lemma AddHeaderKeepsStatus(r: ApiResponse, k: string, v: string)
    ensures Status(AddHeader(r, k, v)) == Status(r)
    ensures AddHeader(r, k, v).body == r.body
    ensures r.Ok? ==> AddHeader(r, k, v).headers + [CONTENT_TYPE] == r.headers + [(k, v), CONTENT_TYPE]
  {
  }

  /** The codes tell the variants apart, and only a success answers 200. */
  lemma StatusDistinguishes(r: ApiResponse)
    ensures Status(r) == 200 <==> r.Ok?
    ensures Status(r) == 500 <==> r.InternalError?
    ensures Status(r) == 404 <==> r.NotFound?
  {
  }
}
