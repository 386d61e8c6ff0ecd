/**
 The upload-URL handler behind the API: answer a CORS preflight, require a
 `fileName` query parameter, ask the presigner for a one-hour upload URL, log the
 upload, and answer with the signed URL and the public media URL. Every response
 carries the same CORS headers.

 The presigner is an outcome given to the handler (a URL, or a thrown error); the
 log service is a script of replies and the clock a pair of readings, both passed
 through to the activity logger. Response bodies are datatypes, not JSON text.
 */
module UploadHandler {
  import opened Js
  import opened Text
  import opened ContentTypes
  import opened ActivityLog

  /** The handler's environment variables; each may be unset. */
  datatype Env = Env(bucketName: Option<string>, logGroupName: Option<string>,
                     cloudfrontDomain: Option<string>)

  /** The parts of an API Gateway event the handler reads. */
  datatype Event = Event(httpMethod: string, query: Option<map<string, string>>)

  /** What the handler asks the presigner to sign: a put of one object. */
  datatype SignRequest = SignRequest(bucket: Option<string>, key: string, contentType: string,
                                     expiresIn: nat)

  /** How the presigner answers. */
  datatype SignOutcome = Signed(url: string) | SignFailed(reason: Thrown)

  datatype Body =
    | Empty                                              // ""
    | ClientError(error: string)                         // {"error": ...}
    | ServerError(error: string, message: Option<string>) // {"error": ..., "message": ...}
    | Urls(signedUrl: string, mediaUrl: string)          // {"signedUrl": ..., "mediaUrl": ...}

  datatype Response = Response(statusCode: int, headers: map<string, string>, body: Body)

  /** A response, with the presigner request and the logging run it took, if any. */
  datatype Invocation = Invocation(response: Response, signing: Option<SignRequest>,
                                   logging: Option<LogRun>)

  const CorsHeaders: map<string, string> := map[
    "Access-Control-Allow-Origin" := "*",
    "Access-Control-Allow-Headers" := "Content-Type,X-Amz-Date,Authorization,X-Api-Key",
    "Access-Control-Allow-Methods" := "GET,OPTIONS"
  ]

  /** Lifetime of a signed upload URL, in seconds. */
  const UrlLifetime: nat := 3600

  const FileNameRequired := "fileName is required"
  const InternalServerError := "Internal Server Error"

  /** `event.queryStringParameters?.fileName`. */
  function QueryFileName(event: Event): (r: Option<string>)
    ensures r.Some? <==> event.query.Some? && "fileName" in event.query.value
    ensures r.Some? ==> r.value == event.query.value["fileName"]
  {
    if event.query.Some? && "fileName" in event.query.value then Some(event.query.value["fileName"])
    else None
  }

  /** `https://${process.env.CLOUDFRONT_DOMAIN}/${fileName}`, with no escaping. */
  function MediaUrl(env: Env, fileName: string): (url: string)
    ensures "https://" <= url
    ensures |fileName| < |url| && url[|url| - |fileName|..] == fileName
    ensures url[|url| - |fileName| - 1] == '/'
  {
    "https://" + Render(env.cloudfrontDomain) + "/" + fileName
  }

  /** Uploads are logged to `LOG_GROUP_NAME`: the put names it as it is (possibly
      unset), the create names it or "". */
  function UploadDestination(env: Env): (dest: Destination)
    ensures dest.putGroup == env.logGroupName
    ensures env.logGroupName.Some? ==> dest.createGroup == env.logGroupName.value
    ensures env.logGroupName.None? ==> dest.createGroup == ""
  {
    Destination(env.logGroupName, env.logGroupName.GetOr(""))
  }

  /** The handler. */
  function Handle(env: Env, event: Event, sign: SignOutcome, clock: Clock, replies: seq<Reply>)
    : (inv: Invocation)
    ensures inv.response.headers == CorsHeaders
    ensures inv.response.statusCode in {200, 400, 500}
    ensures inv.response.statusCode == 500 <==> inv.response.body.ServerError?
    ensures inv.logging.Some? ==> inv.signing.Some? && inv.response.statusCode == 200
  {
    if event.httpMethod == "OPTIONS" then
      Invocation(Response(200, CorsHeaders, Empty), None, None)
    else
      var fileName := OrEmpty(QueryFileName(event));
      if fileName == "" then
        Invocation(Response(400, CorsHeaders, ClientError(FileNameRequired)), None, None)
      else
        var request := SignRequest(env.bucketName, fileName, ContentType(fileName), UrlLifetime);
        match sign
        case SignFailed(reason) =>
          Invocation(Response(500, CorsHeaders, ServerError(InternalServerError, reason.message)),
                     Some(request), None)
        case Signed(url) =>
          var run := Record(UploadDestination(env), clock, Activity(Upload, fileName, None), replies);
          Invocation(Response(200, CorsHeaders, Urls(url, MediaUrl(env, fileName))),
                     Some(request), Some(run))
  }

  /** A request carries a usable file name: present and not empty. */
  predicate HasFileName(event: Event) {
    QueryFileName(event).Some? && QueryFileName(event).value != ""
  }

  /** A preflight is answered 200 with an empty body and the CORS headers alone,
      without signing or logging. */
  lemma PreflightIsAnsweredAtOnce(env: Env, event: Event, sign: SignOutcome, clock: Clock,
                                  replies: seq<Reply>)
    requires event.httpMethod == "OPTIONS"
    ensures Handle(env, event, sign, clock, replies) ==
      Invocation(Response(200, CorsHeaders, Empty), None, None)
  {
  }

  /** Without a usable file name (no query parameters, no `fileName`, or an empty
      one) the answer is 400 "fileName is required", without signing or logging. */
  lemma MissingFileNameIsRejected(env: Env, event: Event, sign: SignOutcome, clock: Clock,
                                  replies: seq<Reply>)
    requires event.httpMethod != "OPTIONS"
    requires event.query.None? || "fileName" !in event.query.value
             || event.query.value["fileName"] == ""
    ensures Handle(env, event, sign, clock, replies) ==
      Invocation(Response(400, CorsHeaders, ClientError(FileNameRequired)), None, None)
  {
  }

  /** A signed request is answered 200 with the signer's URL and the media URL; the
      presigner was asked for a one-hour put of that key with its content type, and
      the upload was logged under that name. */
  lemma SignedRequestSucceeds(env: Env, event: Event, url: string, clock: Clock,
                              replies: seq<Reply>)
    requires event.httpMethod != "OPTIONS" && HasFileName(event)
    ensures var name := QueryFileName(event).value;
      var inv := Handle(env, event, Signed(url), clock, replies);
      && inv.response == Response(200, CorsHeaders,
                                  Urls(url, "https://" + Render(env.cloudfrontDomain) + "/" + name))
      && inv.signing == Some(SignRequest(env.bucketName, name, ContentType(name), 3600))
      && inv.logging ==
         Some(Record(UploadDestination(env), clock, Activity(Upload, name, None), replies))
  {
  }

  /** A presigner failure is answered 500 with the error's message, and nothing is
      logged. */
  lemma SignFailureIsServerError(env: Env, event: Event, reason: Thrown, clock: Clock,
                                 replies: seq<Reply>)
    requires event.httpMethod != "OPTIONS" && HasFileName(event)
    ensures var inv := Handle(env, event, SignFailed(reason), clock, replies);
      && inv.response == Response(500, CorsHeaders, ServerError(InternalServerError, reason.message))
      && inv.logging.None?
  {
  }

  /** Logging never changes the response: the same request and presigner outcome get
      the same response whatever the log service replies and whatever the clock says. */
  lemma ResponseIgnoresLogging(env: Env, event: Event, sign: SignOutcome,
                               clock1: Clock, replies1: seq<Reply>,
                               clock2: Clock, replies2: seq<Reply>)
    ensures Handle(env, event, sign, clock1, replies1).response ==
            Handle(env, event, sign, clock2, replies2).response
  {
  }

  /** The answer is 200 exactly for a preflight or a signed request with a file name. */
  lemma SuccessIffPreflightOrSigned(env: Env, event: Event, sign: SignOutcome, clock: Clock,
                                    replies: seq<Reply>)
    ensures Handle(env, event, sign, clock, replies).response.statusCode == 200 <==>
      event.httpMethod == "OPTIONS" || (HasFileName(event) && sign.Signed?)
  {
  }

  /** The logged upload names the signed key and goes to `LOG_GROUP_NAME`: every put
      of the run carries the upload entry, every create names the group or "". */
  lemma UploadLogTargetsFileName(env: Env, event: Event, url: string, clock: Clock,
                                 replies: seq<Reply>)
    requires event.httpMethod != "OPTIONS" && HasFileName(event)
    ensures var inv := Handle(env, event, Signed(url), clock, replies);
      var name := QueryFileName(event).value;
      forall c :: c in inv.logging.value.calls ==>
        if c.PutLogEvents? then
          c == PutLogEvents(env.logGroupName, StreamName(clock), clock.millis,
                            LogEntry(Activity(Upload, name, None), clock.iso))
        else c == CreateLogStream(env.logGroupName.GetOr(""), StreamName(clock))
  {
    var name := QueryFileName(event).value;
    var run := Record(UploadDestination(env), clock, Activity(Upload, name, None), replies);
    assert Handle(env, event, Signed(url), clock, replies).logging.value == run;
    forall c | c in run.calls
      ensures c.PutLogEvents? ==> c.putGroup == env.logGroupName
    {
      var i :| 0 <= i < |run.calls| && run.calls[i] == c;
    }
  }

  /** The content type the presigner is asked for is the code's own value for every
      name whose extension is not `constructor` or `__proto__`: one of the table types
      or the generic binary type. */
  lemma SignedTypeAgreesWithCode(env: Env, event: Event, sign: SignOutcome, clock: Clock,
                                 replies: seq<Reply>)
    requires event.httpMethod != "OPTIONS" && HasFileName(event)
    requires var name := QueryFileName(event).value;
      Extension(name) != "constructor" && Extension(name) != "__proto__"
    ensures var inv := Handle(env, event, sign, clock, replies);
      && inv.signing.Some?
      && JsString(inv.signing.value.contentType) == ContentTypeAsWritten(QueryFileName(event).value)
      && inv.signing.value.contentType in KnownTypes
  {
    AsWrittenAgreesElsewhere(QueryFileName(event).value);
  }

  /** The media URL ends in the key: its last `/`-segment is the file name whenever
      the name has no `/`. */
  lemma MediaUrlEndsInKey(env: Env, fileName: string)
    requires '/' !in fileName
    ensures LastPiece(MediaUrl(env, fileName), '/') == fileName
  {
    assert MediaUrl(env, fileName) == "https://" + Render(env.cloudfrontDomain) + ['/'] + fileName;
    LastPieceOfJoined("https://" + Render(env.cloudfrontDomain), '/', fileName);
  }
}
