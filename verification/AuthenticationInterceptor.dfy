/** The critical sections of AuthenticationInterceptor as methods on its mutable state. */
module AuthenticationInterceptorClass {
  import opened Options
  import opened Authentication
  import opened AuthenticationLaws

  datatype RefreshAnswer = Refreshed(credential: Credential) | NotRefreshed(code: nat)

  class AuthenticationInterceptor {
    var credential: Option<Credential>
    var isRefreshing: bool
    var refreshTimestamps: seq<real>
    var refreshWindow: Option<RefreshWindow>
    var adaptOperations: seq<Op>
    var requestsToRetry: seq<Op>
    /** Blocks dispatched to the interceptor's serial queue. */
    var queue: seq<Block>
    /** Refreshes the authenticator has been asked for and not answered. */
    ghost var refreshing: nat

    ghost function View(): Locked
      reads this
    {
      Locked(MutableState(credential, isRefreshing, refreshTimestamps, refreshWindow, adaptOperations, requestsToRetry), queue)
    }

    /** A refresh is under way exactly when it is marked so, and otherwise nothing waits for one. */
    ghost predicate Valid()
      reads this
    {
      SingleFlight(View(), refreshing)
    }

    constructor (credential: Option<Credential>, refreshWindow: Option<RefreshWindow>)
      ensures Valid() && View() == Initial(credential, refreshWindow, 0.0).l
    {
      refreshing := 0;
      this.credential, this.refreshWindow, isRefreshing := credential, refreshWindow, false;
      refreshTimestamps, adaptOperations, requestsToRetry, queue := [], [], [], [];
    }

    /** The critical section of adapt. */
    method Adapt(op: Op, requiresRefresh: bool, checked: real, started: real) returns (result: AdaptResult)
      requires Valid()
      modifies this
      ensures Valid() && refreshing == old(refreshing)
      ensures result == AdaptResultOf(old(View()), requiresRefresh)
      ensures View() == AdaptLocked(old(View()), op, requiresRefresh, checked, started)
    {
      if isRefreshing {
        adaptOperations := adaptOperations + [op];
        return AdaptDeferred;
      }
      if credential.None? {
        return DoNotAdapt(MissingCredential);
      }
      if requiresRefresh {
        adaptOperations := adaptOperations + [op];
        Refresh(credential.value, checked, started);
        return AdaptDeferred;
      }
      return AdaptResult.Adapt(credential.value);
    }

    /** The critical section of retry, with the credential read before it. */
    method Retry(op: Op, credential: Credential, checked: real, started: real)
      requires Valid()
      modifies this
      ensures Valid() && refreshing == old(refreshing)
      ensures View() == RetryLocked(old(View()), op, credential, checked, started)
    {
      requestsToRetry := requestsToRetry + [op];
      if isRefreshing { return; }
      Refresh(credential, checked, started);
    }

    /** Called only while no refresh is under way. */
    method Refresh(credential: Credential, checked: real, started: real)
      requires !isRefreshing && RefreshBlocks(queue) + refreshing == 0
      modifies this
      ensures Valid() && refreshing == old(refreshing)
      ensures View() == Authentication.Refresh(old(View()), credential, checked, started)
    {
      RefreshSingle(View(), credential, checked, started, refreshing);
      var excessive := CheckExcessive(checked);
      if excessive {
        HandleFailure(ExcessiveRefresh);
        return;
      }
      refreshTimestamps := refreshTimestamps + [started];
      isRefreshing := true;
      queue := queue + [RefreshBlock(credential)];
    }

    /** isRefreshExcessive: a fold over the timestamps. */
    method CheckExcessive(now: real) returns (excessive: bool)
      ensures excessive == IsRefreshExcessive(View().m, now)
    {
      if refreshWindow.None? { return false; }
      var refreshWindowMin := now - refreshWindow.value.interval;
      var attempts := 0;
      for i := 0 to |refreshTimestamps|
        invariant attempts == AttemptsSince(refreshTimestamps[..i], refreshWindowMin)
      {
        assert refreshTimestamps[..i + 1][..i] == refreshTimestamps[..i];
        if refreshWindowMin <= refreshTimestamps[i] {
          attempts := attempts + 1;
        }
      }
      assert refreshTimestamps[..|refreshTimestamps|] == refreshTimestamps;
      return attempts >= refreshWindow.value.maximumAttempts;
    }

    /** The block that asks the authenticator for the refresh, outside the lock. */
    method StartRefresh() returns (credential: Credential)
      requires Valid() && queue != [] && queue[0].RefreshBlock?
      modifies this
      ensures Valid() && refreshing == old(refreshing) + 1 == 1 && credential == old(queue[0].credential)
      ensures View() == old(View()).(queue := old(queue[1..]))
    {
      credential := queue[0].credential;
      queue := queue[1..];
      refreshing := refreshing + 1;
    }

    /** What the authenticator calls when it is done, once for each refresh. */
    method RefreshCompleted(answer: RefreshAnswer)
      requires Valid() && refreshing > 0
      modifies this
      ensures Valid() && refreshing == old(refreshing) - 1 == 0 && !isRefreshing
      ensures View() == match answer
        case Refreshed(credential) => HandleRefreshSuccess(old(View()), credential)
        case NotRefreshed(code) => HandleRefreshFailure(old(View()), RefreshError(code))
    {
      RefreshBlocksAppend(queue, SuccessBlock(None, adaptOperations, requestsToRetry));
      match answer {
        case Refreshed(credential) =>
          HandleSuccess(credential);
        case NotRefreshed(code) =>
          RefreshBlocksAppend(queue, FailureBlock(RefreshError(code), adaptOperations, requestsToRetry));
          HandleFailure(RefreshError(code));
      }
      refreshing := refreshing - 1;
    }

    method HandleSuccess(credential: Credential)
      modifies this
      ensures refreshing == old(refreshing)
      ensures View() == HandleRefreshSuccess(old(View()), credential)
    {
      this.credential := Some(credential);
      var adapts, retries := adaptOperations, requestsToRetry;
      adaptOperations, requestsToRetry := [], [];
      isRefreshing := false;
      queue := queue + [SuccessBlock(None, adapts, retries)];
    }

    method HandleFailure(error: AuthenticationError)
      modifies this
      ensures refreshing == old(refreshing)
      ensures View() == HandleRefreshFailure(old(View()), error)
    {
      var adapts, retries := adaptOperations, requestsToRetry;
      adaptOperations, requestsToRetry := [], [];
      isRefreshing := false;
      queue := queue + [FailureBlock(error, adapts, retries)];
    }
  }
}
