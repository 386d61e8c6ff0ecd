/**
 The activity logger shared by both handlers (`logFileActivity` and its copy
 `logViewActivity`): put one event into the stream named after today's date; if the
 put fails because the stream does not exist, create the stream and start the whole
 procedure again; swallow every other failure.

 The log service is replaced by a script: the replies its calls receive, in order.
 A run lists the calls that were answered and how the procedure ended; it has no
 failure of its own, because every failure is caught. When the script runs out
 while the procedure would still go on, the run ends with `ScriptEnded`.
 */
module ActivityLog {
  import opened Js
  import opened Text

  datatype Action = Upload | View

  /** What is being logged: the action, the object's name and, for views, the
      client's user agent (`undefined` for uploads, so absent from the message). */
  datatype Activity = Activity(action: Action, fileName: string, userAgent: Option<string>)

  /** The JSON message of one log event. */
  datatype LogEntry = LogEntry(activity: Activity, timestamp: string)

  /** The clock's two readings: `new Date().toISOString()` and `Date.now()`. */
  datatype Clock = Clock(iso: string, millis: int)

  /** The log group a put names (it may be `undefined`) and the one a create names. */
  datatype Destination = Destination(putGroup: Option<string>, createGroup: string)

  datatype Call =
    | PutLogEvents(putGroup: Option<string>, stream: string, eventTime: int, entry: LogEntry)
    | CreateLogStream(createGroup: string, stream: string)

  /** How the log service answers one call. */
  datatype Reply = Fulfilled | Rejected(reason: Thrown)

  datatype Ending =
    | Written                        // a put succeeded
    | PutFailed(reason: Thrown)      // a put failed for another reason; swallowed
    | CreateFailed(reason: Thrown)   // creating the stream failed; swallowed
    | ScriptEnded                    // no reply left for the next call

  datatype LogRun = LogRun(calls: seq<Call>, ending: Ending)

  const ResourceNotFound := "ResourceNotFoundException"

  /** `error instanceof Error && error.name === "ResourceNotFoundException"`. */
  predicate IsMissingStream(r: Reply): (missing: bool)
    ensures missing ==> r.Rejected? && r.reason.name == Some(ResourceNotFound)
    ensures r.Rejected? && !r.reason.isError ==> !missing
  {
    r.Rejected? && r.reason.isError && r.reason.name == Some(ResourceNotFound)
  }

  /** `new Date().toISOString().split("T")[0]`. */
  function StreamName(clock: Clock): (name: string)
    ensures name <= clock.iso && 'T' !in name
    ensures |name| == |clock.iso| || clock.iso[|name|] == 'T'
  {
    FirstPiece(clock.iso, 'T')
  }

  function PutCall(dest: Destination, clock: Clock, activity: Activity): (call: Call) {
    PutLogEvents(dest.putGroup, StreamName(clock), clock.millis, LogEntry(activity, clock.iso))
  }

  function CreateCall(dest: Destination, clock: Clock): (call: Call) {
    CreateLogStream(dest.createGroup, StreamName(clock))
  }

  /** The call a run makes at position `i`: puts at even positions, creates at odd. */
  function ExpectedCall(dest: Destination, clock: Clock, activity: Activity, i: nat): (call: Call) {
    if i % 2 == 0 then PutCall(dest, clock, activity) else CreateCall(dest, clock)
  }

  /** The logging procedure, run against the script `replies`. */
  function Record(dest: Destination, clock: Clock, activity: Activity, replies: seq<Reply>)
    : (run: LogRun)
    ensures |run.calls| <= |replies|
    ensures forall i :: 0 <= i < |run.calls| ==>
      run.calls[i] == ExpectedCall(dest, clock, activity, i)
    decreases |replies|
  {
    var put := PutCall(dest, clock, activity);
    if |replies| == 0 then LogRun([], ScriptEnded)
    else if replies[0].Fulfilled? then LogRun([put], Written)
    else if !IsMissingStream(replies[0]) then LogRun([put], PutFailed(replies[0].reason))
    else if |replies| == 1 then LogRun([put], ScriptEnded)
    else
      var create := CreateCall(dest, clock);
      if replies[1].Rejected? then LogRun([put, create], CreateFailed(replies[1].reason))
      else
        var retry := Record(dest, clock, activity, replies[2..]);
        RetryFollowsRecovery(dest, clock, activity, retry.calls);
        LogRun([put, create] + retry.calls, retry.ending)
  }

  /** A retry's calls, behind the failed put and the create, keep the alternation. */
  lemma RetryFollowsRecovery(dest: Destination, clock: Clock, activity: Activity, calls: seq<Call>)
    requires forall i :: 0 <= i < |calls| ==> calls[i] == ExpectedCall(dest, clock, activity, i)
    ensures var all := [PutCall(dest, clock, activity), CreateCall(dest, clock)] + calls;
      forall i :: 0 <= i < |all| ==> all[i] == ExpectedCall(dest, clock, activity, i)
  {
    var all := [PutCall(dest, clock, activity), CreateCall(dest, clock)] + calls;
    forall i | 2 <= i < |all|
      ensures all[i] == ExpectedCall(dest, clock, activity, i)
    {
      assert all[i] == calls[i - 2];
    }
  }

  // ---------------------------------------------------------------------------
  // An independent description of a run.

  /** Whether reply `r` to call number `i` keeps the procedure going: a put answered
      "stream missing", or a create that succeeded. */
  predicate Continues(i: nat, r: Reply) {
    if i % 2 == 0 then IsMissingStream(r) else r.Fulfilled?
  }

  /** How the procedure ends when reply `r` to call number `i` stops it. */
  function Stop(i: nat, r: Reply): (ending: Ending)
    requires !Continues(i, r)
  {
    if i % 2 == 0 then (if r.Fulfilled? then Written else PutFailed(r.reason))
    else CreateFailed(r.reason)
  }

  /** `run` is explained by the script: its calls alternate put and create with the
      expected arguments, every reply but the last kept the procedure going, and the
      ending is fixed by the last reply, or the script ran out. */
  ghost predicate Explains(run: LogRun, dest: Destination, clock: Clock, activity: Activity,
                           replies: seq<Reply>)
  {
    var n := |run.calls|;
    && n <= |replies|
    && (forall i :: 0 <= i < n ==> run.calls[i] == ExpectedCall(dest, clock, activity, i))
    && (forall i :: 0 <= i < n - 1 ==> Continues(i, replies[i]))
    && if n > 0 && !Continues(n - 1, replies[n - 1]) then run.ending == Stop(n - 1, replies[n - 1])
       else n == |replies| && run.ending == ScriptEnded
  }

  /** The procedure's run is explained by its script. */
  lemma {:induction false} RecordIsExplained(dest: Destination, clock: Clock, activity: Activity,
                                             replies: seq<Reply>)
    ensures Explains(Record(dest, clock, activity, replies), dest, clock, activity, replies)
    decreases |replies|
  {
    if |replies| >= 2 && IsMissingStream(replies[0]) && replies[1].Fulfilled? {
      var tail := replies[2..];
      RecordIsExplained(dest, clock, activity, tail);
      var retry := Record(dest, clock, activity, tail);
      var run := Record(dest, clock, activity, replies);
      var n := |run.calls|;
      assert run.calls[2..] == retry.calls;
      forall i | 0 <= i < n - 1
        ensures Continues(i, replies[i])
      {
        if i >= 2 {
          assert replies[i] == tail[i - 2];
          assert Continues(i - 2, tail[i - 2]);
        }
      }
      if n > 2 {
        assert replies[n - 1] == tail[n - 3];
      }
    }
  }

  /** A script explains at most one run: the description above pins the calls and
      the ending down completely. */
  lemma {:induction false} ExplanationIsUnique(run1: LogRun, run2: LogRun, dest: Destination,
                                               clock: Clock, activity: Activity,
                                               replies: seq<Reply>)
    requires Explains(run1, dest, clock, activity, replies)
    requires Explains(run2, dest, clock, activity, replies)
    ensures run1 == run2
  {
    // Both runs follow the same expected calls, and the shorter one would have
    // stopped, or run out of script, where the longer went on: the lengths agree.
  }

  /** The exact run: whatever the script, the procedure's run is the one run the
      script explains. */
  lemma RecordIsTheExplainedRun(run: LogRun, dest: Destination, clock: Clock, activity: Activity,
                                replies: seq<Reply>)
    requires Explains(run, dest, clock, activity, replies)
    ensures Record(dest, clock, activity, replies) == run
  {
    RecordIsExplained(dest, clock, activity, replies);
    ExplanationIsUnique(Record(dest, clock, activity, replies), run, dest, clock, activity, replies);
  }

  // ---------------------------------------------------------------------------
  // The recovery step, and how often it can repeat.

  /** The reply of a put whose stream does not exist. */
  const StreamMissing := Rejected(Thrown(true, Some(ResourceNotFound), None))

  /** A missing stream is created once and the put is retried once; the retry's
      reply ends the run unless it is "stream missing" again. */
  lemma OneRecovery(dest: Destination, clock: Clock, activity: Activity, last: Reply)
    requires !IsMissingStream(last)
    ensures var run := Record(dest, clock, activity, [StreamMissing, Fulfilled, last]);
      && run.calls == [PutCall(dest, clock, activity), CreateCall(dest, clock),
                       PutCall(dest, clock, activity)]
      && run.ending == (if last.Fulfilled? then Written else PutFailed(last.reason))
  {
    assert [StreamMissing, Fulfilled, last][2..] == [last];
  }

  /** `n` rounds of "stream missing" followed by a successful create. */
  function Rounds(n: nat): (rs: seq<Reply>)
    ensures |rs| == 2 * n
  {
    if n == 0 then [] else [StreamMissing, Fulfilled] + Rounds(n - 1)
  }

  function CreateCount(calls: seq<Call>): (count: nat) {
    if |calls| == 0 then 0
    else (if calls[0].CreateLogStream? then 1 else 0) + CreateCount(calls[1..])
  }

  /** The retry is plain recursion with no bound: a script of `n` recovery rounds
      before the put succeeds makes `n` creates and `n + 1` puts. */
  lemma {:induction false} RecoveryIsUnbounded(dest: Destination, clock: Clock,
                                               activity: Activity, n: nat)
    ensures var run := Record(dest, clock, activity, Rounds(n) + [Fulfilled]);
      && |run.calls| == 2 * n + 1
      && CreateCount(run.calls) == n
      && run.ending == Written
  {
    if n > 0 {
      RecoveryIsUnbounded(dest, clock, activity, n - 1);
      var replies := Rounds(n) + [Fulfilled];
      assert replies[2..] == Rounds(n - 1) + [Fulfilled];
      var run := Record(dest, clock, activity, replies);
      var retry := Record(dest, clock, activity, replies[2..]);
      assert run.calls == [PutCall(dest, clock, activity), CreateCall(dest, clock)] + retry.calls;
      assert run.calls[1..][1..] == retry.calls;
    }
  }

  // ---------------------------------------------------------------------------
  // Stream names.

  predicate IsDigit(c: char) {
    '0' <= c <= '9'
  }

  /** The shape `toISOString` gives for years 0 to 9999: `YYYY-MM-DDTHH:mm:ss.sssZ`. */
  predicate IsIsoTimestamp(s: string) {
    && |s| == 24
    && IsDigit(s[0]) && IsDigit(s[1]) && IsDigit(s[2]) && IsDigit(s[3]) && s[4] == '-'
    && IsDigit(s[5]) && IsDigit(s[6]) && s[7] == '-' && IsDigit(s[8]) && IsDigit(s[9])
    && s[10] == 'T'
  }

  /** For a timestamp of that shape the stream is named by its date, `YYYY-MM-DD`. */
  lemma StreamNameIsDate(clock: Clock)
    requires IsIsoTimestamp(clock.iso)
    ensures StreamName(clock) == clock.iso[..10]
  {
    var s := clock.iso;
    assert forall i :: 0 <= i < 10 ==> s[i] != 'T';
  }
}
