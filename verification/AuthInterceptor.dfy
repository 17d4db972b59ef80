/** The methods of Alamofire's AuthenticationInterceptor, which change its state under the lock. */
module AuthInterceptor {
  import opened Bits
  import opened AuthSpec

  class AuthenticationInterceptor {
    var credential: Option<nat>
    var isRefreshing: bool
    var refreshTimestamps: seq<real>
    var refreshWindow: Option<RefreshWindow>
    var adaptOperations: seq<nat>
    var requestsToRetry: seq<nat>
    /** Blocks dispatched to the serial queue. */
    var queue: seq<Block>

    ghost function Value(): State
      reads this
    {
      State(credential, isRefreshing, refreshTimestamps, refreshWindow, adaptOperations, requestsToRetry)
    }

    constructor (credential: Option<nat>, refreshWindow: Option<RefreshWindow>)
      ensures Value() == State(credential, false, [], refreshWindow, [], []) && queue == []
    {
      this.credential := credential;
      isRefreshing := false;
      refreshTimestamps := [];
      this.refreshWindow := refreshWindow;
      adaptOperations := [];
      requestsToRetry := [];
      queue := [];
    }

    /** isRefreshExcessive. */
    method IsRefreshExcessive(now: real) returns (excessive: bool)
      ensures excessive == Excessive(Value(), now)
    {
      if refreshWindow.None? {
        return false;
      }
      var min := now - refreshWindow.value.interval;
      var attempts := 0;
      for i := 0 to |refreshTimestamps|
        invariant attempts == CountSince(refreshTimestamps[..i], min)
      {
        assert refreshTimestamps[..i + 1][..i] == refreshTimestamps[..i];
        if min <= refreshTimestamps[i] {
          attempts := attempts + 1;
        }
      }
      assert refreshTimestamps[..|refreshTimestamps|] == refreshTimestamps;
      excessive := attempts >= refreshWindow.value.maximumAttempts;
    }

    /** handleRefreshSuccess. */
    method HandleRefreshSuccess(newCredential: nat)
      modifies this
      ensures var r := RefreshSucceeded(old(Value()), newCredential); Value() == r.0 && queue == old(queue) + [r.1]
    {
      credential := Some(newCredential);
      var adapts, retries := adaptOperations, requestsToRetry;
      adaptOperations, requestsToRetry := [], [];
      isRefreshing := false;
      queue := queue + [Resume(adapts, retries)];
    }

    /** handleRefreshFailure. */
    method HandleRefreshFailure(error: AuthError)
      modifies this
      ensures var r := RefreshFailure(old(Value()), error); Value() == r.0 && queue == old(queue) + [r.1]
    {
      var adapts, retries := adaptOperations, requestsToRetry;
      adaptOperations, requestsToRetry := [], [];
      isRefreshing := false;
      queue := queue + [TurnDown(error, adapts, retries)];
    }

    /** refresh; `check` and `stamp` are the two readings of the clock. */
    method StartRefresh(staleCredential: nat, check: real, stamp: real)
      modifies this
      ensures var r := Refresh(old(Value()), staleCredential, check, stamp);
        Value() == r.0 && queue == old(queue) + [r.1]
    {
      var excessive := IsRefreshExcessive(check);
      if excessive {
        HandleRefreshFailure(ExcessiveRefresh);
        return;
      }
      refreshTimestamps := refreshTimestamps + [stamp];
      isRefreshing := true;
      queue := queue + [Refreshing(staleCredential)];
    }

    /** adapt, up to calling the completion. */
    method Adapt(id: nat, requiresRefresh: bool, check: real, stamp: real) returns (outcome: Option<Outcome>)
      modifies this
      ensures var r := AdaptLocked(old(Value()), id, requiresRefresh, check, stamp);
        Value() == r.0 && queue == old(queue) + r.1 && outcome == r.2
    {
      if isRefreshing {
        adaptOperations := adaptOperations + [id];
        return None;
      }
      if credential.None? {
        return Some(NotAdapted(MissingCredential));
      }
      if requiresRefresh {
        adaptOperations := adaptOperations + [id];
        StartRefresh(credential.value, check, stamp);
        return None;
      }
      outcome := Some(Adapted(credential.value));
    }

    /** retry before the lock is taken; this reads the credential. */
    method BeginRetry(verdict: Verdict) returns (outcome: Option<Outcome>, seen: nat)
      ensures (outcome, seen) == RetryUnlocked(credential, verdict)
      ensures outcome == Some(DoNotRetry) <==> verdict in {NoResponse, OtherError}
      ensures outcome == Some(Retry) <==> verdict == OldCredential && credential.Some?
      ensures outcome == None <==> verdict == SameCredential && credential == Some(seen)
    {
      seen := 0;
      if verdict == NoResponse || verdict == OtherError {
        return Some(DoNotRetry), seen;
      }
      if credential.None? {
        return Some(DoNotRetryWithError(MissingCredential)), seen;
      }
      if verdict == OldCredential {
        return Some(Retry), seen;
      }
      outcome, seen := None, credential.value;
    }

    /** retry under the lock. */
    method FinishRetry(id: nat, seen: nat, check: real, stamp: real)
      modifies this
      ensures var r := RetryLocked(old(Value()), id, seen, check, stamp);
        Value() == r.0 && queue == old(queue) + r.1
    {
      requestsToRetry := requestsToRetry + [id];
      if isRefreshing {
        return;
      }
      StartRefresh(seen, check, stamp);
    }
  }
}
