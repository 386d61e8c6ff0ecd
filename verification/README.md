# File sharing: upload URLs, view logging and deployment configuration

A Dafny model of the serverless file-sharing service's request logic:

- **Upload handler** (`lambda/index.ts`). It answers a CORS preflight and
  requires a `fileName` query parameter. It asks the S3 presigner for a one-hour
  upload URL, with a content type taken from the file's extension. It logs the
  upload to CloudWatch Logs and answers with the signed URL and the public
  CloudFront media URL. Every response carries the same CORS headers.
- **Edge view logger** (`lambda/view-logger.ts`). It percent-decodes the last
  `/`-segment of a viewer request's URI. Unless that name is empty or
  `favicon.ico`, it logs a view with the client's user agent (default `Unknown`)
  to the fixed group `/aws/lambda/file-activities`. It always forwards the
  request unchanged.
- **Activity logger**. Both handlers carry a copy of it. It puts one event into
  the log stream named after the current UTC date. When the stream does not
  exist (`ResourceNotFoundException`), it creates the stream and starts the whole
  procedure again. It swallows every other failure.
- **Deployment configuration** (`config/env.ts`). Account and region come from
  the environment, and the bucket name is derived from both. Validation throws
  an error naming every empty field.

The model's modules:

| module | what it holds |
|---|---|
| `Js` | Optional values, the empty-string and `??` defaults, template-literal rendering and thrown values |
| `Text` | `split` with one-character separators and the pieces the code takes from it, plus ASCII lowercasing |
| `ContentTypes` | `getContentType`, both as written and corrected |
| `ActivityLog` | The shared logging procedure |
| `UriComponent` | `decodeURIComponent`, with `encodeURIComponent` as its partner |
| `UploadHandler` | The upload handler |
| `ViewLogger` | The view interceptor |
| `EnvConfig` | Configuration building and validation |

External services are replaced by values:

- The log service is a **script**: the replies its calls receive, in order.
  `ActivityLog.Record` returns the calls made and how the procedure ended.
- The presigner is an outcome given to the handler: a URL or a thrown error.
- The clock is a pair of readings, `toISOString()` and `Date.now()`.
- Responses are datatypes, not JSON text.

The recovery from a missing stream is plain recursion with no bound: the
procedure creates the stream and calls itself again. `ActivityLog.RecoveryIsUnbounded`
shows that `n` recovery rounds make `n` creates and `n + 1` puts.

## Model

| member | source | states |
|---|---|---|
| `Js.Render` | lambda/index.ts:117 | A template literal renders a present value as itself and an absent one as the text "undefined" |
| `Js.OrEmpty` | lambda/index.ts:90-92 | Defaulting to "" gives an empty string exactly when the value is absent or empty; otherwise it is the value itself |
| `Text.Join` | config/env.ts:28 | `join` gives "" for no pieces and the piece itself for one; otherwise the text starts with the first piece followed by the separator |
| `Text.Split` | lambda/index.ts:30 | `split` gives at least one piece, no piece contains the separator, and joining the pieces with the separator gives back the input |
| `Text.FirstPiece` | lambda/index.ts:45 | `split(sep)[0]` is a prefix without the separator that ends at the input's end or at its first separator |
| `Text.LastPiece` | lambda/index.ts:30 | `split(sep).pop()` is a suffix without the separator that starts at the input's start or right after its last separator |
| `Text.LowerChar` | lambda/index.ts:30 | `A` to `Z` become the letter at the same place in `a` to `z`; every other character is left as it is |
| `Text.LowerAscii` | lambda/index.ts:30 | Lowercasing keeps the length and lowercases each character in place |
| `Text.LowerAsciiOfLowerCase` | lambda/index.ts:30 | Lowercasing leaves a string without upper-case letters unchanged |
| `ContentTypes.Extension` | lambda/index.ts:30 | The extension is the text after the name's last `.` (the whole name when there is none), lowercased. It is no longer than the name, and it holds neither a `.` nor an upper-case letter |
| `ContentTypes.ExtensionOfDottedName` | lambda/index.ts:30 | The extension of `stem.raw`, for a dot-free `raw`, is `raw` lowercased, whatever dots the stem holds |
| `ContentTypes.PropertyGet` | lambda/index.ts:31-40 | Reading a key of the table object finds the own entry when there is one. Otherwise it finds the member every object inherits from `Object.prototype`, and otherwise nothing |
| `ContentTypes.ContentTypeAsWritten` | lambda/index.ts:29-41 | The code's own result: when it is a string, it is the table lookup's content type; otherwise it is the inherited `Object.prototype` member that the extension names |
| `ContentTypes.ContentType` | lambda/index.ts:29-41 | The content type is one of the six table types or `application/octet-stream`, and it is the generic type exactly when the lowercased extension is not in the table |
| `ContentTypes.ContentTypeOfDottedName` | lambda/index.ts:30-40 | For `stem.ext`, only `ext` decides the type, whatever dots the stem holds: the table entry of `ext` lowercased, or the generic type |
| `ContentTypes.ContentTypeOfDotlessName` | lambda/index.ts:30-40 | A name without a dot is looked up whole |
| `ContentTypes.ContentTypeIgnoresCase` | lambda/index.ts:30 | Names whose last segments agree up to letter case get the same type |
| `ContentTypes.UpperCaseExample` | lambda/index.ts:30-40 | `x.JPG` is `image/jpeg` |
| `ContentTypes.LastSegmentExample` | lambda/index.ts:30-40 | `a.pdf.png` is `image/png` |
| `ContentTypes.DotlessExample` | lambda/index.ts:30-40 | `pdf`, with no dot, is `application/pdf` |
| `ContentTypes.LowerCaseInheritedKeys` | lambda/index.ts:40 | A string without upper-case letters names an `Object.prototype` member exactly when it is `constructor` or `__proto__` |
| `ContentTypes.InheritedKeysReachable` | lambda/index.ts:30-40 | Of the members every object inherits, a lowercased extension can name only `constructor` and `__proto__` |
| `ContentTypes.AsWrittenAgreesElsewhere` | lambda/index.ts:31-40 | For every other extension, the code's object lookup gives the same string as the table lookup |
| `ContentTypes.AsWrittenConstructorSegment` | lambda/index.ts:40 | A last segment that lowercases to `constructor` makes the code return the inherited `Object` constructor instead of a string; the table lookup gives the generic type |
| `ContentTypes.AsWrittenConstructorExtension` | lambda/index.ts:40 | The discrepancy on the concrete name `report.Constructor` |
| `ContentTypes.AsWrittenProtoSegment` | lambda/index.ts:40 | A last segment that lowercases to `__proto__` makes the code return the object's prototype, `Object.prototype`, instead of a string; the table lookup gives the generic type |
| `ContentTypes.AsWrittenProtoExtension` | lambda/index.ts:40 | The same discrepancy on the concrete name `x.__proto__` |
| `ActivityLog.IsMissingStream` | lambda/index.ts:63 | Only a rejection named `ResourceNotFoundException` counts as a missing stream, and a thrown value that is not an `Error` instance never does |
| `ActivityLog.Record` | lambda/index.ts:44-77 | A run makes no more calls than the script has replies; call `i` is the put of the entry when `i` is even and the stream's creation when it is odd, with the group, the date stream, the event time and the entry fixed by the inputs |
| `ActivityLog.RecordIsExplained` | lambda/view-logger.ts:8-45 | The run satisfies a separate, non-recursive characterisation. Every reply but the last keeps the procedure going: a put answered "stream missing", or a creation that succeeded. The ending is fixed by the last reply: written, put failed or create failed. Or the script ran out |
| `ActivityLog.ExplanationIsUnique` | lambda/index.ts:62-76 | A script fits at most one run under that characterisation |
| `ActivityLog.RecordIsTheExplainedRun` | lambda/index.ts:44-77 | The procedure's run is exactly the run the script explains |
| `ActivityLog.OneRecovery` | lambda/index.ts:62-69 | "Stream missing", then a successful create, then any other reply: put, create, put, and the retry's reply decides the ending |
| `ActivityLog.RecoveryIsUnbounded` | lambda/index.ts:69 | `n` recovery rounds before a successful put make `2n + 1` calls, `n` of them creates, and end written: the retry has no bound |
| `ActivityLog.StreamName` | lambda/index.ts:45 | The stream name is a prefix of the timestamp without `T`, and it ends at the timestamp's end or at its first `T` |
| `ActivityLog.StreamNameIsDate` | lambda/index.ts:45 | For a `toISOString` timestamp, the stream is named by its date, `YYYY-MM-DD` |
| `UriComponent.HexValue` | lambda/view-logger.ts:50 | A hexadecimal digit's value is its position in `0123456789abcdef` or in `0123456789ABCDEF`, so both letter cases mean the same |
| `UriComponent.HexDigit` | lambda/view-logger.ts:50 | The digit written for a value is the upper-case digit at that position of `0123456789ABCDEF`, and it reads back as that value |
| `UriComponent.Utf8Decode` | lambda/view-logger.ts:50 | A decoded UTF-8 sequence has exactly the length its lead byte announces |
| `UriComponent.Decode` | lambda/view-logger.ts:50 | A decoded component is never longer than its encoding. Each escape `%XY` stands for the byte written by the hexadecimal digits `X` and `Y` in either letter case (`UriComponent.OctetsReadEscapes`, `UriComponent.HexValue`). The `URIError` is the absent result; which inputs raise it is `UriComponent.DecodeFailsExactlyAtMalformedUnit` |
| `UriComponent.Utf8DecodeMatchesRfc3629` | lambda/view-logger.ts:50 | An escaped byte sequence of one to four bytes decodes exactly when it is well formed by the table in section 4 of RFC 3629: no overlong form, no surrogate, nothing above U+10FFFF |
| `UriComponent.OctetsReadEscapes` | lambda/view-logger.ts:50 | Reading `n` escaped bytes fails exactly when one of the first `n` three-character groups is not a `%XX` escape; otherwise byte `k` is the value of escape `k` |
| `UriComponent.MalformedUnitFails` | lambda/view-logger.ts:50 | A `%` that starts a malformed unit throws, whatever follows. A unit is malformed when it is not an escape, has a continuation byte or a byte above 0xF7 as its lead, lacks one of the escapes its lead announces, or escapes a sequence that is not well-formed UTF-8 |
| `UriComponent.DecodeAppend` | lambda/view-logger.ts:50 | After a prefix that decodes, the rest decodes independently: the results are joined, and the whole fails exactly when the rest fails |
| `UriComponent.DecodeFailureHasACause` | lambda/view-logger.ts:50 | A component that throws has a position where the text before decodes and a malformed unit starts |
| `UriComponent.DecodeFailsExactlyAtMalformedUnit` | lambda/view-logger.ts:50 | `decodeURIComponent` throws exactly when, after a prefix that decodes, a malformed unit starts |
| `UriComponent.EscapedLetterExample` | lambda/view-logger.ts:50 | An escape of a character that needs none still decodes: `%41` is `A` |
| `UriComponent.EscapedSlashExample` | lambda/view-logger.ts:50 | A lower-case escape decodes too: `%2f` is `/` |
| `UriComponent.DecodePlain` | lambda/view-logger.ts:50 | Text without `%` decodes to itself |
| `UriComponent.Utf8RoundTrip` | lambda/view-logger.ts:50 | UTF-8 decoding inverts UTF-8 encoding for every Unicode scalar value |
| `UriComponent.DecodeInvertsEncode` | lambda/view-logger.ts:50 | `decodeURIComponent(encodeURIComponent(s)) == s` for every string `s` |
| `UriComponent.EncodingHasNoSlash` | lambda/view-logger.ts:50 | An encoded component holds no `/`, so it is one whole URI segment |
| `UploadHandler.Handle` | lambda/index.ts:79-138 | Every response carries the CORS headers and has status 200, 400 or 500. Status 500 comes exactly with a server-error body. Logging happens only after signing, and only on a 200 |
| `UploadHandler.PreflightIsAnsweredAtOnce` | lambda/index.ts:82-88 | `OPTIONS` gets 200 with an empty body, without signing or logging |
| `UploadHandler.MissingFileNameIsRejected` | lambda/index.ts:90-98 | No query parameters, no `fileName` or an empty one: 400 "fileName is required", without signing or logging |
| `UploadHandler.SignedRequestSucceeds` | lambda/index.ts:100-126 | With a file name and a signed URL: 200 with that URL and `https://<domain>/<name>`. The presigner was asked for a 3600-second put of that key with its content type. The upload was logged |
| `UploadHandler.SignFailureIsServerError` | lambda/index.ts:127-137 | A presigner failure gives 500 "Internal Server Error" with the error's message, and nothing is logged |
| `UploadHandler.ResponseIgnoresLogging` | lambda/index.ts:62-76 | Logging failures are swallowed: the response does not depend on the log service's replies or on the clock |
| `UploadHandler.SuccessIffPreflightOrSigned` | lambda/index.ts:79-138 | The status is 200 exactly for a preflight, or for a request with a file name whose signing succeeded |
| `UploadHandler.UploadDestination` | lambda/index.ts:49-66 | The put names `LOG_GROUP_NAME` as it is, possibly unset; the create names it, or "" when it is unset |
| `UploadHandler.UploadLogTargetsFileName` | lambda/index.ts:44-69 | Every put of the upload's run names `LOG_GROUP_NAME` as it is and carries the upload entry for the signed key; every create names the group or "" |
| `UploadHandler.QueryFileName` | lambda/index.ts:90 | The file name is present exactly when there are query parameters and one of them is `fileName`, and then it is that parameter's value |
| `UploadHandler.MediaUrl` | lambda/index.ts:117 | The media URL starts with `https://` and ends with `/` followed by the file name |
| `UploadHandler.SignedTypeAgreesWithCode` | lambda/index.ts:102-106 | Except for the extensions `constructor` and `__proto__`, the signed content type is the code's own `getContentType` result, a known type |
| `UploadHandler.MediaUrlEndsInKey` | lambda/index.ts:117 | The media URL's last segment is the file name when the name has no `/` |
| `ViewLogger.ObjectName` | lambda/view-logger.ts:50 | The name is the percent-decoding of the last `/`-segment, and it is absent (the `URIError`) exactly when that segment does not decode. For a URI without `%`, it is the segment itself |
| `ViewLogger.IsSkipped` | lambda/view-logger.ts:51 | A name is skipped exactly when it is empty or is `favicon.ico` |
| `ViewLogger.UserAgent` | lambda/view-logger.ts:56 | The user agent is the first `user-agent` value when there is a non-empty one, else "Unknown"; never empty |
| `ViewLogger.HandleView` | lambda/view-logger.ts:47-61 | The request is forwarded unchanged. A `URIError` happens exactly when the last segment does not decode. Nothing is logged exactly when the decoded name is empty or `favicon.ico` |
| `ViewLogger.ViewLogTargets` | lambda/view-logger.ts:8-37 | Every call of a view's run targets `/aws/lambda/file-activities` and the date stream; every put carries the view entry with the decoded name and user agent |
| `ViewLogger.TrailingSlashIsSkipped` | lambda/view-logger.ts:50-54 | A URI ending in `/` is forwarded without logging |
| `ViewLogger.EncodedNameIsLogged` | lambda/view-logger.ts:50-58 | A request whose last segment is `encodeURIComponent(name)` logs `name` itself, under any path |
| `ViewLogger.EncodedFaviconIsSkipped` | lambda/view-logger.ts:50-54 | A last segment that decodes to `favicon.ico` is not logged, however it is escaped |
| `ViewLogger.MalformedNameThrows` | lambda/view-logger.ts:50 | A malformed last segment throws before any log call |
| `EnvConfig.Variable` | config/env.ts:8-9 | A variable read with an empty-string default is empty exactly when the variable is unset or empty; otherwise it is the variable's value |
| `EnvConfig.GetEnvConfig` | config/env.ts:7-15 | Account and region are the variables (unset meaning ""). The bucket name starts with `file-sharing-bucket-`, and what follows is account, `-` and region |
| `EnvConfig.BucketNameReadsBack` | config/env.ts:13 | When the account has no `-`, the bucket name's rest after the prefix splits at its first `-` into the account and the region |
| `EnvConfig.Missing` | config/env.ts:18-24 | The missing list holds exactly the empty fields, in declaration order |
| `EnvConfig.MissingIsDetermined` | config/env.ts:20-24 | Any list with exactly the empty fields, in declaration order, is the missing list |
| `EnvConfig.SortedByRankIsDetermined` | config/env.ts:20-24 | Two lists strictly ordered by field position with the same members are equal |
| `EnvConfig.Validate` | config/env.ts:17-31 | Validation fails exactly when some field is empty. The message is "Missing required environment variables: " followed by the empty fields' names, joined with ", " |
| `EnvConfig.BuiltConfigMissesOnlyAccountOrRegion` | config/env.ts:7-31 | A built configuration always has a bucket name, so validation passes exactly when account and region are both set |
| `EnvConfig.BothMissingMessage` | config/env.ts:26-30 | With neither variable set, the message names `AWS_ACCOUNT, AWS_REGION` |
| `EnvConfig.BucketNameDeterminesAccountAndRegion` | config/env.ts:13 | When the account has no `-`, the bucket name determines account and region |

## Left out

- Clock: the code reads the clock separately for the stream name, the event time and the entry, and again on each retry. The model takes one reading per run, so a run that crosses midnight is not modelled.
- `toLowerCase` is modelled for ASCII letters only. Other characters are left as they are. The table's extensions are plain ASCII.
- Strings are sequences of Unicode scalar values. A lone surrogate in a JavaScript string, and the `URIError` that `encodeURIComponent` throws for it, are not modelled.
- The view handler's unpacking of `event.Records[0].cf.request` is not modelled. The model starts from the request, and a record-less event is not modelled.
- Thrown values are modelled as objects, each with an optional `name` and `message`. A thrown `null` or `undefined` is not modelled; reading `error.message` on it would throw inside the handler's catch.
- Console output (`console.error`, `console.info`) is not modelled: it does not change any result.
- JSON serialisation of response bodies and log messages is not modelled. Bodies and entries are datatypes, and an absent `message` or `userAgent` is the absent value that `JSON.stringify` omits.
- The S3 presigner's URL format and the SDK clients' configuration are not modelled: the region at lambda/index.ts:18-19 and lambda/view-logger.ts:4. The presigner is an outcome parameter, and the log service a script of replies.
- UploadHandler.Handle: signs with the corrected `ContentTypes.ContentType`, not the code's value at lambda/index.ts:105. The two differ only for the extensions `constructor` and `__proto__`, where the code passes an inherited member (see Findings). Everywhere else they agree: `UploadHandler.SignedTypeAgreesWithCode` and `ContentTypes.AsWrittenAgreesElsewhere`.
- UploadHandler.SignedRequestSucceeds: states the corrected content type, for the reason given for `UploadHandler.Handle`.
- `ActivityLog.StreamNameIsDate` covers years 0 to 9999. `toISOString` writes other years with a sign and six digits.
- The unused list of required variables and the commented-out check at lambda/index.ts:6-16 are not modelled: they have no effect.
- `EnvConfig.Validate` takes a configuration with exactly the three fields, in declaration order. That is the order `Object.entries` reports for the object `getEnvConfig` builds. An object with extra or reordered keys is not modelled.
- Concurrency between invocations is not modelled. Each invocation is modelled alone, with its awaits in sequence.
- lib/file-sharing-stack.ts and bin/file-sharing.ts, the infrastructure definition, are not part of this model.

## Findings

| source | as written | input that shows it | evidently intended | confidence | as-written member | corrected member |
|---|---|---|---|---|---|---|
| lambda/index.ts:40 | `types[ext]` on an object literal also finds members inherited from `Object.prototype`. Of those, a lowercased extension reaches `constructor` and `__proto__`, and both are truthy values that are not strings | `report.Constructor` (also `x.constructor`, `x.__proto__`): the content type is the `Object` constructor function (for `x.__proto__`, `Object.prototype`) | Every extension outside the table gets `application/octet-stream` | not executed | `ContentTypes.AsWrittenConstructorExtension` | `ContentTypes.ContentType` |
