/** What the critical sections of Alamofire's AuthenticationInterceptor do to its locked state. */
module AuthSpec {
  import opened Bits

  /** At most `maximumAttempts` refreshes within any `interval`. */
  datatype RefreshWindow = RefreshWindow(interval: real, maximumAttempts: int)

  datatype AuthError = MissingCredential | ExcessiveRefresh | RefreshFailed(code: nat)

  /** What a completion is called with: the first two by adapt, the others by retry. */
  datatype Outcome = Adapted(credential: nat) | NotAdapted(error: AuthError)
                   | Retry | DoNotRetry | DoNotRetryWithError(error: AuthError)

  /** MutableState. Credentials and callers are told apart by numbers. */
  datatype State = State(
    credential: Option<nat>,
    isRefreshing: bool,
    refreshTimestamps: seq<real>,
    refreshWindow: Option<RefreshWindow>,
    adaptOperations: seq<nat>,
    requestsToRetry: seq<nat>)

  /** A block on the dispatch queue: a refresh, or the callers to adapt and retry, or to turn down. */
  datatype Block = Refreshing(credential: nat)
                 | Resume(adapts: seq<nat>, retries: seq<nat>)
                 | TurnDown(error: AuthError, adapts: seq<nat>, retries: seq<nat>)

  /** How many of the timestamps are no earlier than `min`. */
  function CountSince(timestamps: seq<real>, min: real): (n: nat)
    ensures n <= |timestamps|
  {
    if timestamps == [] then 0
    else CountSince(timestamps[..|timestamps| - 1], min) + (if min <= timestamps[|timestamps| - 1] then 1 else 0)
  }

  /** isRefreshExcessive. */
  predicate Excessive(st: State, now: real) {
    match st.refreshWindow
    case None => false
    case Some(w) => CountSince(st.refreshTimestamps, now - w.interval) >= w.maximumAttempts
  }

  /** No caller waits any more. */
  function Released(st: State): State {
    st.(adaptOperations := [], requestsToRetry := [], isRefreshing := false)
  }

  /** handleRefreshSuccess: the new state and the block that is dispatched. */
  function RefreshSucceeded(st: State, credential: nat): (State, Block) {
    (Released(st).(credential := Some(credential)), Resume(st.adaptOperations, st.requestsToRetry))
  }

  /** handleRefreshFailure. */
  function RefreshFailure(st: State, error: AuthError): (State, Block) {
    (Released(st), TurnDown(error, st.adaptOperations, st.requestsToRetry))
  }

  /** refresh: the clock is read once for the check and once more for the timestamp. */
  function Refresh(st: State, credential: nat, check: real, stamp: real): (State, Block) {
    if Excessive(st, check) then RefreshFailure(st, ExcessiveRefresh)
    else (st.(refreshTimestamps := st.refreshTimestamps + [stamp], isRefreshing := true), Refreshing(credential))
  }

  /** The critical section of adapt: the new state, the blocks dispatched, and the outcome unless it is deferred. */
  function AdaptLocked(st: State, id: nat, requiresRefresh: bool, check: real, stamp: real)
    : (State, seq<Block>, Option<Outcome>)
  {
    var queued := st.(adaptOperations := st.adaptOperations + [id]);
    if st.isRefreshing then (queued, [], None)
    else match st.credential
      case None => (st, [], Some(NotAdapted(MissingCredential)))
      case Some(c) =>
        if requiresRefresh then
          var r := Refresh(queued, c, check, stamp);
          (r.0, [r.1], None)
        else (st, [], Some(Adapted(c)))
  }

  /** The critical section of retry, with the credential that was read before it. */
  function RetryLocked(st: State, id: nat, credential: nat, check: real, stamp: real): (State, seq<Block>) {
    var queued := st.(requestsToRetry := st.requestsToRetry + [id]);
    if st.isRefreshing then (queued, [])
    else
      var r := Refresh(queued, credential, check, stamp);
      (r.0, [r.1])
  }

  /** What retry finds out before it takes the lock. */
  datatype Verdict = NoResponse | OtherError | OldCredential | SameCredential

  /** The part of retry outside of the lock: an answer, or the credential to go on with. */
  function RetryUnlocked(credential: Option<nat>, verdict: Verdict): (r: (Option<Outcome>, nat))
    ensures r.0.None? <==> verdict.SameCredential? && credential.Some?
    ensures r.0.None? ==> Some(r.1) == credential
  {
    if verdict in {NoResponse, OtherError} then (Some(DoNotRetry), 0)
    else match credential
      case None => (Some(DoNotRetryWithError(MissingCredential)), 0)
      case Some(c) => if verdict == OldCredential then (Some(Retry), 0) else (None, c)
  }
}
