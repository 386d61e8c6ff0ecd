/**
 The edge view interceptor: on every viewer request it takes the last `/`-segment of
 the URI, percent-decodes it, and, unless that name is empty or `favicon.ico`, logs a
 view with the client's user agent to the fixed log group. It always hands the request
 on unchanged; a malformed escape makes `decodeURIComponent` throw before anything is
 logged.
 */
module ViewLogger {
  import opened Js
  import opened Text
  import opened UriComponent
  import opened ActivityLog

  /** One value of a CloudFront header. */
  datatype Header = Header(key: string, value: string)

  /** The CloudFront request the interceptor receives, headers keyed by lower-case name. */
  datatype CfRequest = CfRequest(uri: string, httpMethod: string, querystring: string,
                                 headers: map<string, seq<Header>>)

  /** The request handed on, with the logging run it took if any; or the `URIError`
      that `decodeURIComponent` threw. */
  datatype ViewResult = Forwarded(request: CfRequest, logging: Option<LogRun>) | UriError

  const LogGroup := "/aws/lambda/file-activities"

  /** Views go to the fixed group, named the same way by puts and creates. */
  const ViewDestination := Destination(Some(LogGroup), LogGroup)

  const UnknownAgent := "Unknown"
  const Favicon := "favicon.ico"

  /** `decodeURIComponent(request.uri.split("/").pop() || "")`; `pop` on a split never
      yields `undefined`, so the `|| ""` changes nothing. */
  function ObjectName(uri: string): (name: Option<string>)
    ensures name == Decode(LastPiece(uri, '/'))
    ensures '%' !in uri ==> name == Some(LastPiece(uri, '/'))
  {
    var segment := LastPiece(uri, '/');
    assert '%' !in uri ==> Decode(segment) == Some(segment) by {
      if '%' !in uri {
        assert forall i :: 0 <= i < |segment| ==> segment[i] == uri[|uri| - |segment| + i];
        DecodePlain(segment);
      }
    }
    Decode(segment)
  }

  /** The names not worth logging: empty, or exactly `favicon.ico`. */
  predicate IsSkipped(name: string): (skipped: bool)
    ensures skipped <==> name in {"", Favicon}
  {
    name == "" || name == Favicon
  }

  /** The request names a user agent: a first `user-agent` value that is not empty. */
  predicate HasUserAgent(headers: map<string, seq<Header>>) {
    "user-agent" in headers && |headers["user-agent"]| > 0 && headers["user-agent"][0].value != ""
  }

  /** `request.headers["user-agent"]?.[0]?.value || "Unknown"`: the first user-agent
      value when there is one and it is not empty, else "Unknown"; never empty. */
  function UserAgent(headers: map<string, seq<Header>>): (agent: string)
    ensures agent != ""
    ensures HasUserAgent(headers) ==> agent == headers["user-agent"][0].value
    ensures !HasUserAgent(headers) ==> agent == UnknownAgent
  {
    if HasUserAgent(headers) then headers["user-agent"][0].value else UnknownAgent
  }

  /** The interceptor. */
  function HandleView(request: CfRequest, clock: Clock, replies: seq<Reply>): (r: ViewResult)
    ensures r.Forwarded? ==> r.request == request
    ensures r.UriError? <==> ObjectName(request.uri).None?
    ensures r.Forwarded? ==> (r.logging.None? <==> IsSkipped(ObjectName(request.uri).value))
  {
    match ObjectName(request.uri)
    case None => UriError
    case Some(name) =>
      if IsSkipped(name) then Forwarded(request, None)
      else
        var agent := UserAgent(request.headers);
        Forwarded(request, Some(Record(ViewDestination, clock, Activity(View, name, Some(agent)), replies)))
  }

  /** The run a logged view makes: the activity log's run for the decoded name. */
  lemma LoggedRun(request: CfRequest, clock: Clock, replies: seq<Reply>) returns (run: LogRun)
    requires HandleView(request, clock, replies).Forwarded?
    requires HandleView(request, clock, replies).logging.Some?
    ensures ObjectName(request.uri).Some?
    ensures run == HandleView(request, clock, replies).logging.value
    ensures run == Record(ViewDestination, clock,
                          Activity(View, ObjectName(request.uri).value, Some(UserAgent(request.headers))),
                          replies)
  {
    run := HandleView(request, clock, replies).logging.value;
  }

  /** Every call a view makes targets `/aws/lambda/file-activities` and the stream of
      the day; every put carries a "view" entry with the decoded name and user agent. */
  lemma ViewLogTargets(request: CfRequest, clock: Clock, replies: seq<Reply>)
    requires HandleView(request, clock, replies).Forwarded?
    requires HandleView(request, clock, replies).logging.Some?
    ensures var calls := HandleView(request, clock, replies).logging.value.calls;
      var name := ObjectName(request.uri).value;
      forall c :: c in calls ==>
        if c.PutLogEvents? then
          c == PutLogEvents(Some(LogGroup), StreamName(clock), clock.millis,
                            LogEntry(Activity(View, name, Some(UserAgent(request.headers))), clock.iso))
        else c == CreateLogStream(LogGroup, StreamName(clock))
  {
    var run := LoggedRun(request, clock, replies);
    forall c | c in run.calls
      ensures c.PutLogEvents? ==> c.putGroup == Some(LogGroup)
    {
      var i :| 0 <= i < |run.calls| && run.calls[i] == c;
    }
  }

  /** A URI ending in `/` names the empty object: nothing is logged. */
  lemma TrailingSlashIsSkipped(request: CfRequest, clock: Clock, replies: seq<Reply>)
    requires |request.uri| > 0 && request.uri[|request.uri| - 1] == '/'
    ensures HandleView(request, clock, replies) == Forwarded(request, None)
  {
    var uri := request.uri;
    assert uri == uri[..|uri| - 1] + ['/'] + "";
    LastPieceOfJoined(uri[..|uri| - 1], '/', "");
  }

  /** A request for any name under any path logs that name when it arrives encoded by
      `encodeURIComponent`: encoding never yields a `/`, and decoding undoes it. */
  lemma EncodedNameIsLogged(request: CfRequest, path: string, name: string, clock: Clock,
                            replies: seq<Reply>)
    requires request.uri == path + "/" + Encode(name)
    requires !IsSkipped(name)
    ensures HandleView(request, clock, replies) ==
      Forwarded(request, Some(Record(ViewDestination, clock,
                                     Activity(View, name, Some(UserAgent(request.headers))), replies)))
  {
    EncodingHasNoSlash(name);
    LastPieceOfJoined(path, '/', Encode(name));
    DecodeInvertsEncode(name);
  }

  /** A request whose last segment decodes to `favicon.ico` is not logged, however the
      segment is escaped. */
  lemma EncodedFaviconIsSkipped(request: CfRequest, path: string, segment: string, clock: Clock,
                                replies: seq<Reply>)
    requires '/' !in segment && Decode(segment) == Some(Favicon)
    requires request.uri == path + "/" + segment
    ensures HandleView(request, clock, replies) == Forwarded(request, None)
  {
    LastPieceOfJoined(path, '/', segment);
  }

  /** A malformed escape in the last segment throws before any log call. */
  lemma MalformedNameThrows(request: CfRequest, clock: Clock, replies: seq<Reply>)
    requires Decode(LastPiece(request.uri, '/')).None?
    ensures HandleView(request, clock, replies) == UriError
  {
  }
}
