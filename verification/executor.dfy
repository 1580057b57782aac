/**
  The statement executor: synchronous execution with a bounded retry on write
  timeouts, the asynchronous pass-through, and the failure classification of
  fire-and-forget execution.

  The driver session is a script: `session(i)` is what the i-th (0-based) call of
  `session.execute` in one run returns or throws. Statements, result sets and
  futures are opaque type parameters. The two Java copies of the executor (in
  packages se.primenta and com.tingcore) differ only in logger and log marker,
  so one model serves both.
 */
module Executor {
  import opened Wrappers
  import opened Failures

  /** MAX_STORE_RETRIES. */
  const MaxStoreRetries: nat := 3

  const TimeoutMessage: string := "Timeout problems when storing data."

  /** What one driver call returns or throws. */
  datatype Outcome<R> = Ok(result: R) | Failed(failure: Failure)

  predicate IsWriteTimeout<R>(o: Outcome<R>) {
    o.Failed? && o.failure.WriteTimeout?
  }

  /** How a run of retryExecute ends: a result (possibly Java's initial null), or an exception. */
  datatype RetryOutcome<R> = Returned(result: R) | ReturnedNull | Raised(error: Error)

  /**
    One run of retryExecute: how it ended, the statements it passed to
    `session.execute` in call order, and the write types of the warnings it logged.
   */
  datatype Run<S, R> = Run(outcome: RetryOutcome<R>, sent: seq<S>, warnings: seq<WriteType>)

  // ---------------------------------------------------------------------------
  // Reference description of a run

  /**
    The number of calls a run makes once the calls before `i` have all timed out:
    it stops at the first call that does not time out, and at call MaxStoreRetries.
   */
  function CallsFrom<R>(session: nat -> Outcome<R>, i: nat): (n: nat)
    requires i < MaxStoreRetries
    ensures i < n <= MaxStoreRetries
    ensures forall k :: i <= k < n - 1 ==> IsWriteTimeout(session(k))
    ensures n < MaxStoreRetries ==> !IsWriteTimeout(session(n - 1))
    decreases MaxStoreRetries - i
  {
    if i + 1 == MaxStoreRetries || !IsWriteTimeout(session(i)) then i + 1 else CallsFrom(session, i + 1)
  }

  function CallCount<R>(session: nat -> Outcome<R>): nat {
    CallsFrom(session, 0)
  }

  /** The write type a timed-out call reports. */
  function WriteTypeOf<R>(o: Outcome<R>): WriteType
    requires IsWriteTimeout(o)
  {
    o.failure.writeType
  }

  /** How a run ends, given the outcome of its last call. */
  function Verdict<R>(last: Outcome<R>): RetryOutcome<R> {
    match last
    case Ok(r) => Returned(r)
    case Failed(f) =>
      if f.WriteTimeout? then Raised(Persistence(Some(TimeoutMessage), f)) else Raised(Propagated(f))
  }

  /** Write types of the first `k` calls, which all timed out. */
  function TimeoutTypes<R>(session: nat -> Outcome<R>, k: nat): (ws: seq<WriteType>)
    requires forall i :: 0 <= i < k ==> IsWriteTimeout(session(i))
    ensures |ws| == k
    ensures forall i :: 0 <= i < k ==> ws[i] == WriteTypeOf(session(i))
  {
    if k == 0 then [] else TimeoutTypes(session, k - 1) + [WriteTypeOf(session(k - 1))]
  }

  /** The run retryExecute is meant to make: calls up to the first non-timeout, capped. */
  function ExpectedRun<S, R>(stmt: S, session: nat -> Outcome<R>): (run: Run<S, R>)
    ensures 1 <= |run.sent| <= MaxStoreRetries
    ensures forall i :: 0 <= i < |run.sent| ==> run.sent[i] == stmt
    ensures forall i :: 0 <= i < |run.sent| - 1 ==> IsWriteTimeout(session(i))
    ensures run.outcome == Verdict(session(|run.sent| - 1))
    ensures !run.outcome.ReturnedNull?
  {
    var n := CallCount(session);
    Run(Verdict(session(n - 1)), seq(n, _ => stmt), TimeoutTypes(session, n - 1))
  }

  // ---------------------------------------------------------------------------
  // The executor's operations

  /**
    retryExecute: calls `session.execute(statement)` inside
    `while (tries <= MAX_STORE_RETRIES)`, returns the first result, logs a warning
    for a write timeout while `tries < MAX_STORE_RETRIES`, throws
    PersistenceRuntimeException for the write timeout of the last allowed try, and
    lets every other failure through. Although the guard admits a fourth
    iteration, the third write timeout already throws.
   */
  method RetryExecute<S, R>(stmt: S, session: nat -> Outcome<R>) returns (run: Run<S, R>)
    ensures 1 <= |run.sent| <= MaxStoreRetries
    ensures forall i :: 0 <= i < |run.sent| ==> run.sent[i] == stmt
    ensures forall i :: 0 <= i < |run.sent| - 1 ==> IsWriteTimeout(session(i))
    ensures run.outcome == Verdict(session(|run.sent| - 1))
    ensures !run.outcome.ReturnedNull?
    ensures run == ExpectedRun(stmt, session)
  {
    var tries: nat := 0;
    var result: Option<R> := None;
    var sent: seq<S> := [];
    var warnings: seq<WriteType> := [];
    while tries <= MaxStoreRetries
      invariant tries < MaxStoreRetries
      invariant result.None?
      invariant sent == seq(tries, _ => stmt)
      invariant forall i :: 0 <= i < tries ==> IsWriteTimeout(session(i))
      invariant warnings == TimeoutTypes(session, tries)
      invariant CallsFrom(session, tries) == CallCount(session)
    {
      tries := tries + 1;
      sent := sent + [stmt];
      match session(tries - 1)
      case Ok(r) =>
        result := Some(r);
        break;
      case Failed(f) =>
        if f.WriteTimeout? {
          if tries < MaxStoreRetries {
            warnings := warnings + [f.writeType];
          } else {
            return Run(Raised(Persistence(Some(TimeoutMessage), f)), sent, warnings);
          }
        } else {
          return Run(Raised(Propagated(f)), sent, warnings);
        }
    }
    if result.Some? {
      run := Run(Returned(result.value), sent, warnings);
    } else {
      run := Run(ReturnedNull, sent, warnings);
    }
  }

  /** execute: exactly one run of retryExecute on the caller's statement. */
  method Execute<S, R>(stmt: S, session: nat -> Outcome<R>) returns (run: Run<S, R>)
    ensures run == ExpectedRun(stmt, session)
    ensures |run.sent| <= MaxStoreRetries
  {
    run := RetryExecute(stmt, session);
  }

  /**
    executeAsync: one `session.executeAsync` call whose future is handed back
    unchanged; no synchronous call and no retry.
   */
  method ExecuteAsync<S, F>(stmt: S, driverFuture: F) returns (future: F, asyncSent: seq<S>, syncSent: seq<S>)
    ensures future == driverFuture
    ensures asyncSent == [stmt] && syncSent == []
  {
    future := driverFuture;
    asyncSent := [stmt];
    syncSent := [];
  }

  /** What the fire-and-forget callback does: errors logged, and the fallback run if one was made. */
  datatype Callback<S, R> = Callback(errorsLogged: nat, fallback: Option<Run<S, R>>)

  /** `onFailure`'s test: every failure except a QueryValidationException falls back to retryExecute. */
  predicate FallsBack(f: Failure) {
    !f.QueryValidation?
  }

  function SyncCalls<S, R>(cb: Callback<S, R>): nat {
    if cb.fallback.Some? then |cb.fallback.value.sent| else 0
  }

  /**
    fireAndForget: one `session.executeAsync` call; the callback does nothing on
    success, logs a QueryValidationException, and on any other failure logs and
    makes one synchronous retryExecute run whose outcome nobody sees.
   */
  method FireAndForget<S, R>(stmt: S, asyncOutcome: Outcome<R>, session: nat -> Outcome<R>)
    returns (asyncSent: seq<S>, cb: Callback<S, R>)
    ensures asyncSent == [stmt]
    ensures asyncOutcome.Ok? ==> cb == Callback(0, None)
    ensures asyncOutcome.Failed? && !FallsBack(asyncOutcome.failure) ==> cb == Callback(1, None)
    ensures asyncOutcome.Failed? && FallsBack(asyncOutcome.failure) ==>
      cb == Callback(1, Some(ExpectedRun(stmt, session)))
    ensures SyncCalls(cb) <= MaxStoreRetries
  {
    asyncSent := [stmt];
    match asyncOutcome
    case Ok(_) =>
      cb := Callback(0, None);
    case Failed(t) =>
      if t.QueryValidation? {
        cb := Callback(1, None);
      } else {
        var run := RetryExecute(stmt, session);
        cb := Callback(1, Some(run));
      }
  }

  // ---------------------------------------------------------------------------
  // Properties of a run

  /** A first call that succeeds: one call, its result unchanged, no warning. */
  lemma FirstCallSucceeds<S, R>(stmt: S, session: nat -> Outcome<R>, r: R)
    requires session(0) == Ok(r)
    ensures ExpectedRun(stmt, session) == Run(Returned(r), [stmt], [])
  {
  }

  /** k write timeouts and then a success: the (k+1)-th result after k+1 calls and k warnings. */
  lemma TimeoutsThenSuccess<S, R>(stmt: S, session: nat -> Outcome<R>, k: nat, r: R)
    requires k < MaxStoreRetries
    requires forall i :: 0 <= i < k ==> IsWriteTimeout(session(i))
    requires session(k) == Ok(r)
    ensures var run := ExpectedRun(stmt, session);
      run.outcome == Returned(r) && |run.sent| == k + 1 && |run.warnings| == k
  {
    assert CallCount(session) == k + 1;
  }

  /** Three write timeouts raise PersistenceRuntimeException with the third as cause, after two warnings. */
  lemma ThreeTimeoutsRaise<S, R>(stmt: S, session: nat -> Outcome<R>)
    requires IsWriteTimeout(session(0)) && IsWriteTimeout(session(1)) && IsWriteTimeout(session(2))
    ensures var run := ExpectedRun(stmt, session);
      && run.outcome == Raised(Persistence(Some("Timeout problems when storing data."), session(2).failure))
      && |run.sent| == 3
      && run.warnings == [WriteTypeOf(session(0)), WriteTypeOf(session(1))]
  {
  }

  /** A failure other than a write timeout leaves unwrapped on the call where it happens. */
  lemma OtherFailurePropagates<S, R>(stmt: S, session: nat -> Outcome<R>, k: nat)
    requires k < MaxStoreRetries
    requires forall i :: 0 <= i < k ==> IsWriteTimeout(session(i))
    requires session(k).Failed? && !session(k).failure.WriteTimeout?
    ensures var run := ExpectedRun(stmt, session);
      run.outcome == Raised(Propagated(session(k).failure)) && |run.sent| == k + 1
  {
    assert CallCount(session) == k + 1;
  }

  /**
    A warning is logged for every write timeout but the one that throws: a run
    raising the timeout error made MaxStoreRetries calls and MaxStoreRetries - 1
    warnings; any other run warned once per call before its last.
   */
  lemma WarningsPrecedeLastCall<S, R>(stmt: S, session: nat -> Outcome<R>)
    ensures var run := ExpectedRun(stmt, session);
      && |run.warnings| == |run.sent| - 1
      && (forall i :: 0 <= i < |run.warnings| ==> run.warnings[i] == WriteTypeOf(session(i)))
      && (run.outcome.Raised? && run.outcome.error.Persistence? <==> |run.sent| == MaxStoreRetries && IsWriteTimeout(session(MaxStoreRetries - 1)))
  {
  }

  /** A returned result is the result of the last call, never the initial null. */
  lemma ReturnedIsLastResult<S, R>(stmt: S, session: nat -> Outcome<R>)
    ensures var run := ExpectedRun(stmt, session);
      && !run.outcome.ReturnedNull?
      && (run.outcome.Returned? ==> session(|run.sent| - 1) == Ok(run.outcome.result))
  {
  }
}
