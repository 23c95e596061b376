/** Which refreshes are refused: exactly those with too many starts in the closed window before them. */
module RefreshDecisions {
  import opened Options
  import opened Authentication
  import opened AuthenticationLaws

  /** A refresh the step comes to: for whom, from what, and the two readings of the clock. */
  datatype Coming = Coming(op: Op, credential: Credential, checked: real, started: real)

  /** A credential that requires a refresh, in an adapt, or a retry's credential, with no refresh under way. */
  function Comes(s: System, e: Event): Option<Coming>
    requires Enabled(s, e)
  {
    if s.l.m.isRefreshing then None
    else
      match e
      case AdaptLock(c, requiresRefresh, checked, started) =>
        if requiresRefresh && s.l.m.credential.Some? then
          Some(Coming(s.calls[c].op, s.l.m.credential.value, checked, started))
        else None
      case RetryLock(c, checked, started) =>
        Some(Coming(s.calls[c].op, s.calls[c].credential, checked, started))
      case RunBlock(requiresRefresh, checked, started) => (
        match s.l.queue[0]
        case SuccessBlock(current, adapts, _) =>
          if requiresRefresh && current.None? && adapts != [] && s.l.m.credential.Some? then
            Some(Coming(adapts[0], s.l.m.credential.value, checked, started))
          else None
        case _ => None)
      case _ => None
  }

  /** As many starts as are allowed lie in the closed interval of the window's length that ends now. */
  predicate TooMany(timestamps: seq<real>, window: Option<RefreshWindow>, now: real) {
    && window.Some?
    && AttemptsWithin(timestamps, now - window.value.interval, now) >= window.value.maximumAttempts
  }

  lemma {:induction false} SinceIsWithin(t: seq<real>, from: real, to: real)
    requires forall i | 0 <= i < |t| :: t[i] <= to
    ensures AttemptsSince(t, from) == AttemptsWithin(t, from, to)
    decreases |t|
  {
    if t != [] { SinceIsWithin(t[..|t| - 1], from, to); }
  }

  /** What is dispatched for it: a failure for the one that waits, or the refresh itself. */
  function Dispatched(r: Coming, refused: bool): Block {
    if !refused then RefreshBlock(r.credential)
    else if r.op.AdaptOp? then FailureBlock(ExcessiveRefresh, [r.op], [])
    else FailureBlock(ExcessiveRefresh, [], [r.op])
  }

  /** One block more, and a start more exactly when the refresh is not refused. */
  predicate Decided(l: Locked, after: Locked, r: Coming, refused: bool) {
    var m, n := l.m, |l.queue|;
    && |after.queue| == n + 1 && after.queue[n] == Dispatched(r, refused)
    && (forall k | 0 < k < n :: after.queue[k] == l.queue[k])
    && after.m.refreshTimestamps == m.refreshTimestamps + (if refused then [] else [r.started])
    && after.m.isRefreshing == !refused
    && after.m.credential == m.credential && after.m.refreshWindow == m.refreshWindow
  }

  lemma RefreshDecided(l: Locked, op: Op, credential: Credential, checked: real, started: real)
    requires !l.m.isRefreshing && l.m.adaptOperations == [] && l.m.requestsToRetry == []
    requires forall i | 0 <= i < |l.m.refreshTimestamps| :: l.m.refreshTimestamps[i] <= checked
    ensures var queued := l.(m := if op.AdaptOp? then l.m.(adaptOperations := l.m.adaptOperations + [op])
                                  else l.m.(requestsToRetry := l.m.requestsToRetry + [op]));
            Decided(l, Refresh(queued, credential, checked, started), Coming(op, credential, checked, started),
                    TooMany(l.m.refreshTimestamps, l.m.refreshWindow, checked))
  {
    hide AttemptsSince, AttemptsWithin;
    if l.m.refreshWindow.Some? {
      SinceIsWithin(l.m.refreshTimestamps, checked - l.m.refreshWindow.value.interval, checked);
    }
    assert [] + [op] == [op];
  }

  /** What a state of a run gives. */
  predicate Ready(s: System) {
    && (!s.l.m.isRefreshing ==> s.l.m.adaptOperations == [] && s.l.m.requestsToRetry == [])
    && (forall i | 0 <= i < |s.l.m.refreshTimestamps| :: s.l.m.refreshTimestamps[i] <= s.now)
    && (forall c | 0 <= c < |s.calls| :: KindOfCall(s.calls[c]))
    && (forall b <- s.l.queue :: KindOfBlock(b))
  }

  lemma RunsAreReady(credential: Option<Credential>, window: Option<RefreshWindow>, now: real, events: seq<Event>)
    requires Runs(Initial(credential, window, now), events)
    ensures Ready(After(Initial(credential, window, now), events))
    ensures After(Initial(credential, window, now), events).l.m.refreshWindow == window
  {
    EveryRun(credential, window, now, events);
    hide Runs, After, Places, KindOfCall, KindOfBlock;
  }

  lemma AdaptDecided(l: Locked, op: Op, checked: real, started: real)
    requires !l.m.isRefreshing && l.m.adaptOperations == [] && l.m.requestsToRetry == []
    requires forall i | 0 <= i < |l.m.refreshTimestamps| :: l.m.refreshTimestamps[i] <= checked
    requires l.m.credential.Some? && op.AdaptOp?
    ensures Decided(l, AdaptLocked(l, op, true, checked, started), Coming(op, l.m.credential.value, checked, started),
                    TooMany(l.m.refreshTimestamps, l.m.refreshWindow, checked))
  {
    hide Refresh, Decided, TooMany;
    RefreshDecided(l, op, l.m.credential.value, checked, started);
  }

  lemma StepDecided(s: System, e: Event)
    requires Ready(s) && Enabled(s, e) && Comes(s, e).Some?
    ensures var r := Comes(s, e).value;
            Decided(s.l, Next(s, e).l, r, TooMany(s.l.m.refreshTimestamps, s.l.m.refreshWindow, r.checked))
  {
    hide Refresh, TooMany, AdaptLocked, Known;
    match e
    case AdaptLock(c, _, checked, started) =>
      AdaptDecided(s.l, s.calls[c].op, checked, started);
    case RetryLock(c, checked, started) =>
      RefreshDecided(s.l, s.calls[c].op, s.calls[c].credential, checked, started);
    case RunBlock(_, checked, started) =>
      var op := s.l.queue[0].adapts[0];
      assert KindOfBlock(s.l.queue[0]) && op.AdaptOp?;
      AdaptDecided(s.l, op, checked, started);
      HeadRuns(s, checked, started);
      BehindHead(s, op, checked, started);
  }

  /** Behind the head of the queue the step of a success block is the critical section of its adapt. */
  lemma HeadRuns(s: System, checked: real, started: real)
    requires Enabled(s, RunBlock(true, checked, started)) && Comes(s, RunBlock(true, checked, started)).Some?
    ensures var after := AdaptLocked(s.l, s.l.queue[0].adapts[0], true, checked, started);
            var l := Next(s, RunBlock(true, checked, started)).l;
            l.m == after.m && |l.queue| == |after.queue| && l.queue[1..] == after.queue[1..]
    ensures AdaptLocked(s.l, s.l.queue[0].adapts[0], true, checked, started).queue != []
  {
    HeadStays(s.l, s.l.queue[0].adapts[0], true, checked, started);
    hide AdaptLocked, Known;
  }

  lemma BehindHead(s: System, op: Op, checked: real, started: real)
    requires Enabled(s, RunBlock(true, checked, started)) && Comes(s, RunBlock(true, checked, started)).Some?
    requires op == s.l.queue[0].adapts[0]
    requires var r := Comes(s, RunBlock(true, checked, started)).value;
             Decided(s.l, AdaptLocked(s.l, op, true, checked, started), r,
                     TooMany(s.l.m.refreshTimestamps, s.l.m.refreshWindow, r.checked))
    ensures var r := Comes(s, RunBlock(true, checked, started)).value;
            Decided(s.l, Next(s, RunBlock(true, checked, started)).l, r,
                    TooMany(s.l.m.refreshTimestamps, s.l.m.refreshWindow, r.checked))
  {
    HeadRuns(s, checked, started);
    hide AdaptLocked, Known, TooMany, Next, Dispatched;
    var a, b := AdaptLocked(s.l, op, true, checked, started).queue, Next(s, RunBlock(true, checked, started)).l.queue;
    forall k | 0 < k < |b| ensures b[k] == a[k] { assert b[k] == b[1..][k - 1] == a[1..][k - 1]; }
  }

  // ---------------------------------------------------------------- every run

  /**
   In every run a step that comes to a refresh dispatches it and notes its start, unless as many starts as the window
   allows lie in the closed interval that ends with the reading of the clock; then it dispatches the failure of the one
   completion that waits.  Without a window none is refused.
   */
  lemma RefusedExactly(credential: Option<Credential>, window: Option<RefreshWindow>, now: real, events: seq<Event>,
                       e: Event)
    requires Runs(Initial(credential, window, now), events)
    requires Enabled(After(Initial(credential, window, now), events), e)
    requires Comes(After(Initial(credential, window, now), events), e).Some?
    ensures var s := After(Initial(credential, window, now), events);
            var r := Comes(s, e).value;
            Decided(s.l, Next(s, e).l, r, TooMany(s.l.m.refreshTimestamps, window, r.checked))
  {
    RunsAreReady(credential, window, now, events);
    hide Runs, After, Ready, Comes, Decided, TooMany, Next, Enabled;
    StepDecided(After(Initial(credential, window, now), events), e);
  }

  /** No other step notes a start or dispatches a refresh or such a failure. */
  lemma NothingElseDecided(s: System, e: Event)
    requires Enabled(s, e) && Comes(s, e).None?
    ensures Next(s, e).l.m.refreshTimestamps == s.l.m.refreshTimestamps
    ensures forall b <- Next(s, e).l.queue ::
      b.RefreshBlock? || (b.FailureBlock? && b.error == ExcessiveRefresh) ==>
        exists a <- s.l.queue :: a.RefreshBlock? == b.RefreshBlock? && a.FailureBlock? == b.FailureBlock?
          && (b.FailureBlock? ==> a.error == b.error)
  {
  }
}
