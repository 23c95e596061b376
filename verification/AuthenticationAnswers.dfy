/** Why each completion is answered as it is. */
module AuthenticationAnswers {
  import opened Options
  import opened Authentication
  import opened AuthenticationLaws
  import opened RefreshCredentials
  import opened RefreshDecisions

  /** The adapt whose critical section the step is, with what its credential says then. */
  function Adapting(s: System, e: Event): Option<(Op, bool)>
    requires Enabled(s, e)
  {
    match e
    case AdaptLock(c, requiresRefresh, _, _) => Some((s.calls[c].op, requiresRefresh))
    case RunBlock(requiresRefresh, _, _) => (
      match s.l.queue[0]
      case SuccessBlock(current, adapts, _) =>
        if current.None? && adapts != [] then Some((adapts[0], requiresRefresh)) else None
      case _ => None)
    case _ => None
  }

  /** The step comes to a refresh for the completion, and too many have started. */
  predicate Excessive(s: System, e: Event, op: Op)
    requires Enabled(s, e)
  {
    && Comes(s, e).Some? && Comes(s, e).value.op == op
    && TooMany(s.l.m.refreshTimestamps, s.l.m.refreshWindow, Comes(s, e).value.checked)
  }

  predicate ReadBy(s: System, e: Event, op: Op) {
    e.RetryRead? && e.call < |s.calls| && s.calls[e.call].op == op
  }

  /** The step settles the completion's answer. */
  predicate Settles(s: System, e: Event, a: Answered)
    requires Enabled(s, e)
  {
    var m := s.l.m;
    match a.answer
    case Adapted(credential) =>
      Adapting(s, e) == Some((a.op, false)) && !m.isRefreshing && m.credential == Some(credential)
    case AdaptFailed(error) => (
      match error
      case MissingCredential =>
        Adapting(s, e).Some? && Adapting(s, e).value.0 == a.op && !m.isRefreshing && m.credential == None
      case ExcessiveRefresh => a.op.AdaptOp? && Excessive(s, e, a.op)
      case RefreshError(code) => e == RefreshFailed(code) && a.op in m.adaptOperations)
    case Retry =>
      || (e.RefreshSucceeded? && a.op in m.requestsToRetry)
      || (ReadBy(s, e, a.op) && !e.authenticatedWithIt && m.credential.Some?)
    case DoNotRetry => e.RetryDecline? && s.calls[e.call].op == a.op
    case DoNotRetryWithError(error) => (
      match error
      case MissingCredential => ReadBy(s, e, a.op) && m.credential == None
      case ExcessiveRefresh => a.op.RetryOp? && Excessive(s, e, a.op)
      case RefreshError(code) => e == RefreshFailed(code) && a.op in m.requestsToRetry)
  }

  predicate InBlock(b: Block, a: Answered) {
    match b
    case RefreshBlock(_) => false
    case SuccessBlock(current, _, retries) => current == Some(a) || (a.answer == Retry && a.op in retries)
    case FailureBlock(error, adapts, retries) =>
      || (a.answer == AdaptFailed(error) && a.op in adapts)
      || (a.answer == DoNotRetryWithError(error) && a.op in retries)
  }

  predicate InQueue(queue: seq<Block>, a: Answered) {
    exists i :: 0 <= i < |queue| && InBlock(queue[i], a)
  }

  /** Given, about to be given, or in a dispatched block. */
  predicate Settled(s: System, a: Answered) {
    a in s.answered || Finishing(a.op, a.answer) in s.calls || InQueue(s.l.queue, a)
  }

  // ---------------------------------------------------------------- queues

  lemma QueueAppended(queue: seq<Block>, b: Block, a: Answered)
    ensures InQueue(queue + [b], a) <==> InQueue(queue, a) || InBlock(b, a)
  {
    hide InBlock;
    var longer := queue + [b];
    assert longer[|queue|] == b;
    forall i | 0 <= i < |queue| ensures longer[i] == queue[i] {}
  }

  lemma QueueHeadSplit(queue: seq<Block>, a: Answered)
    requires queue != []
    ensures InQueue(queue, a) <==> InBlock(queue[0], a) || InQueue(queue[1..], a)
  {
    hide InBlock;
    var rest := queue[1..];
    assert forall i | 0 < i < |queue| :: queue[i] == rest[i - 1];
    assert forall i | 0 <= i < |rest| :: rest[i] == queue[i + 1];
  }

  // ---------------------------------------------------------------- critical sections

  lemma RefreshSettles(l: Locked, op: Op, credential: Credential, checked: real, started: real, a: Answered)
    requires !l.m.isRefreshing && l.m.adaptOperations == [] && l.m.requestsToRetry == []
    requires forall i | 0 <= i < |l.m.refreshTimestamps| :: l.m.refreshTimestamps[i] <= checked
    ensures var queued := l.(m := if op.AdaptOp? then l.m.(adaptOperations := l.m.adaptOperations + [op])
                                  else l.m.(requestsToRetry := l.m.requestsToRetry + [op]));
            InQueue(Refresh(queued, credential, checked, started).queue, a)
            <==> InQueue(l.queue, a)
                 || (TooMany(l.m.refreshTimestamps, l.m.refreshWindow, checked) && a.op == op
                     && a.answer == if op.AdaptOp? then AdaptFailed(ExcessiveRefresh)
                                    else DoNotRetryWithError(ExcessiveRefresh))
  {
    hide AttemptsSince, AttemptsWithin;
    if l.m.refreshWindow.Some? {
      SinceIsWithin(l.m.refreshTimestamps, checked - l.m.refreshWindow.value.interval, checked);
    }
    hide InQueue;
    var failed :=
      if op.AdaptOp? then FailureBlock(ExcessiveRefresh, [op], []) else FailureBlock(ExcessiveRefresh, [], [op]);
    QueueAppended(l.queue, RefreshBlock(credential), a);
    QueueAppended(l.queue, failed, a);
    assert [] + [op] == [op];
  }

  lemma AdaptSettles(l: Locked, op: Op, requiresRefresh: bool, checked: real, started: real, a: Answered)
    requires !l.m.isRefreshing ==> l.m.adaptOperations == [] && l.m.requestsToRetry == []
    requires forall i | 0 <= i < |l.m.refreshTimestamps| :: l.m.refreshTimestamps[i] <= checked
    requires op.AdaptOp?
    ensures InQueue(AdaptLocked(l, op, requiresRefresh, checked, started).queue, a)
       <==> InQueue(l.queue, a)
            || (!l.m.isRefreshing && l.m.credential.Some? && requiresRefresh
                && TooMany(l.m.refreshTimestamps, l.m.refreshWindow, checked)
                && a == Answered(op, AdaptFailed(ExcessiveRefresh)))
  {
    hide Refresh, InQueue, TooMany;
    if !l.m.isRefreshing && l.m.credential.Some? {
      RefreshSettles(l, op, l.m.credential.value, checked, started, a);
    }
  }

  // ---------------------------------------------------------------- steps

  lemma CallsWithout(calls: seq<Call>, i: nat, x: Call)
    requires i < |calls|
    ensures x in calls <==> x in Without(calls, i) || x == calls[i]
  {
    assert calls == calls[..i] + [calls[i]] + calls[i + 1..];
  }

  lemma CallsUpdated(calls: seq<Call>, i: nat, c: Call, x: Call)
    requires i < |calls|
    ensures x in calls[i := c] <==> x == c || x in Without(calls, i)
  {
    assert calls[i := c] == calls[..i] + [c] + calls[i + 1..];
  }

  lemma AdaptStepSettles(s: System, c: nat, requiresRefresh: bool, checked: real, started: real, a: Answered)
    requires Ready(s) && Enabled(s, AdaptLock(c, requiresRefresh, checked, started))
    ensures var e := AdaptLock(c, requiresRefresh, checked, started);
            Settled(Next(s, e), a) <==> Settled(s, a) || Settles(s, e, a)
  {
    hide AdaptLocked, TooMany, InQueue, Without;
    var op := s.calls[c].op;
    assert KindOfCall(s.calls[c]);
    AdaptSettles(s.l, op, requiresRefresh, checked, started, a);
    var x := Finishing(a.op, a.answer);
    CallsWithout(s.calls, c, x);
    match AdaptResultOf(s.l, requiresRefresh)
    case Adapt(credential) => CallsUpdated(s.calls, c, Finishing(op, Adapted(credential)), x);
    case DoNotAdapt(error) => CallsUpdated(s.calls, c, Finishing(op, AdaptFailed(error)), x);
    case AdaptDeferred =>
  }

  lemma RetryStepSettles(s: System, c: nat, checked: real, started: real, a: Answered)
    requires Ready(s) && Enabled(s, RetryLock(c, checked, started))
    ensures var e := RetryLock(c, checked, started);
            Settled(Next(s, e), a) <==> Settled(s, a) || Settles(s, e, a)
  {
    hide Refresh, TooMany, InQueue, Without;
    var op := s.calls[c].op;
    assert KindOfCall(s.calls[c]);
    CallsWithout(s.calls, c, Finishing(a.op, a.answer));
    if !s.l.m.isRefreshing { RefreshSettles(s.l, op, s.calls[c].credential, checked, started, a); }
  }

  lemma AnsweredMore(answered: seq<Answered>, x: Answered, a: Answered)
    ensures a in answered + [x] <==> a in answered || a == x
  {
  }

  lemma BlockStepSettles(s: System, requiresRefresh: bool, checked: real, started: real, a: Answered)
    requires Ready(s) && Enabled(s, RunBlock(requiresRefresh, checked, started))
    ensures var e := RunBlock(requiresRefresh, checked, started);
            Settled(Next(s, e), a) <==> Settled(s, a) || Settles(s, e, a)
  {
    hide AdaptLocked, TooMany, InQueue, Known;
    var b, s' := s.l.queue[0], Next(s, RunBlock(requiresRefresh, checked, started));
    assert KindOfBlock(b);
    QueueHeadSplit(s.l.queue, a);
    if s'.l.queue != [] { QueueHeadSplit(s'.l.queue, a); }
    if b.SuccessBlock? && b.current.None? && b.adapts != [] {
      var after := AdaptLocked(s.l, b.adapts[0], requiresRefresh, checked, started);
      assert b.adapts[0].AdaptOp?;
      AdaptSettles(s.l, b.adapts[0], requiresRefresh, checked, started, a);
      HeadStays(s.l, b.adapts[0], requiresRefresh, checked, started);
      QueueHeadSplit(after.queue, a);
      assert s'.l.queue[1..] == after.queue[1..];
    }
  }

  lemma CallStepSettles(s: System, e: Event, a: Answered)
    requires Enabled(s, e) && (e.CallAdapt? || e.CallRetry? || e.RetryDecline? || e.RetryRead? || e.Complete?)
    ensures Settled(Next(s, e), a) <==> Settled(s, a) || Settles(s, e, a)
  {
    hide InQueue, Known, Without;
    var x := Finishing(a.op, a.answer);
    match e
    case RetryDecline(c) =>
      CallsWithout(s.calls, c, x);
      CallsUpdated(s.calls, c, Finishing(s.calls[c].op, DoNotRetry), x);
    case RetryRead(c, _) =>
      CallsWithout(s.calls, c, x);
      CallsUpdated(s.calls, c, Next(s, e).calls[c], x);
    case Complete(c) =>
      CallsWithout(s.calls, c, x);
      AnsweredMore(s.answered, Answered(s.calls[c].op, s.calls[c].answer), a);
    case _ =>
  }

  lemma AnswerStepSettles(s: System, e: Event, a: Answered)
    requires Ready(s) && Enabled(s, e) && (e.RefreshSucceeded? || e.RefreshFailed? || e.SetCredential?)
    ensures Settled(Next(s, e), a) <==> Settled(s, a) || Settles(s, e, a)
  {
    hide InQueue;
    match e
    case RefreshSucceeded(credential) =>
      QueueAppended(s.l.queue, SuccessBlock(None, s.l.m.adaptOperations, s.l.m.requestsToRetry), a);
    case RefreshFailed(code) =>
      QueueAppended(s.l.queue, FailureBlock(RefreshError(code), s.l.m.adaptOperations, s.l.m.requestsToRetry), a);
    case _ =>
  }

  /** A step settles exactly the answers it has a reason for, and none is ever taken back. */
  lemma StepSettles(s: System, e: Event, a: Answered)
    requires Ready(s) && Enabled(s, e)
    ensures Settled(Next(s, e), a) <==> Settled(s, a) || Settles(s, e, a)
  {
    hide Ready, Enabled, Next, Settled, Settles;
    match e
    case AdaptLock(c, requiresRefresh, checked, started) =>
      AdaptStepSettles(s, c, requiresRefresh, checked, started, a);
    case RetryLock(c, checked, started) => RetryStepSettles(s, c, checked, started, a);
    case RunBlock(requiresRefresh, checked, started) => BlockStepSettles(s, requiresRefresh, checked, started, a);
    case RefreshSucceeded(_) => AnswerStepSettles(s, e, a);
    case RefreshFailed(_) => AnswerStepSettles(s, e, a);
    case SetCredential(_) => AnswerStepSettles(s, e, a);
    case _ => CallStepSettles(s, e, a);
  }

  // ---------------------------------------------------------------- every run

  predicate SettledAt(start: System, events: seq<Event>, k: nat, a: Answered) {
    k < |events| && Runs(start, events[..k]) && Enabled(After(start, events[..k]), events[k])
    && Settles(After(start, events[..k]), events[k], a)
  }

  /** Some step of the run settles the answer. */
  ghost predicate SettledInRun(start: System, events: seq<Event>, a: Answered) {
    exists k: nat :: SettledAt(start, events, k, a)
  }

  /**
   In every run the answers given, about to be given or dispatched are exactly those some step had the reason for: the
   credential of that moment, none there, the failure of the refresh waited for, too many refreshes, a refresh that
   succeeded, another credential than the request's.
   */
  lemma {:induction false} SettledExactly(credential: Option<Credential>, window: Option<RefreshWindow>, now: real,
                                          events: seq<Event>, a: Answered)
    requires Runs(Initial(credential, window, now), events)
    ensures Settled(After(Initial(credential, window, now), events), a)
       <==> SettledInRun(Initial(credential, window, now), events, a)
    decreases |events|
  {
    var start := Initial(credential, window, now);
    if events == [] {
      NothingSettled(start, a);
    } else {
      hide *;
      var before, e := events[..|events| - 1], events[|events| - 1];
      assert events == before + [e];
      LastStep(start, events);
      SettledExactly(credential, window, now, before, a);
      RunsAreReady(credential, window, now, before);
      SettledOneMore(start, before, e, a);
    }
  }

  lemma SettledOneMore(start: System, before: seq<Event>, e: Event, a: Answered)
    requires Runs(start, before) && Enabled(After(start, before), e) && Ready(After(start, before))
    requires Settled(After(start, before), a) <==> SettledInRun(start, before, a)
    ensures Settled(Next(After(start, before), e), a) <==> SettledInRun(start, before + [e], a)
  {
    hide *;
    StepSettles(After(start, before), e, a);
    SettledAtMore(start, before + [e], before, e, a);
  }

  lemma NothingSettled(start: System, a: Answered)
    requires start.answered == [] && start.calls == [] && start.l.queue == []
    ensures !Settled(start, a) && !SettledInRun(start, [], a)
  {
  }

  lemma SettledAtMore(start: System, events: seq<Event>, before: seq<Event>, e: Event, a: Answered)
    requires events == before + [e] && Runs(start, before) && Enabled(After(start, before), e)
    ensures SettledInRun(start, events, a) <==> SettledInRun(start, before, a) || Settles(After(start, before), e, a)
  {
    hide Enabled, Settles, Runs, After;
    var n := |before|;
    assert events[..n] == before;
    forall k: nat | k < n ensures SettledAt(start, events, k, a) <==> SettledAt(start, before, k, a) {
      assert events[..k] == before[..k] && events[k] == before[k];
    }
    assert SettledAt(start, events, n, a) <==> Settles(After(start, before), events[n], a);
  }

  /** Only a refresh that succeeds and setting one from outside replace the credential, with just the one they bring. */
  lemma CredentialAfter(s: System, e: Event)
    requires Enabled(s, e)
    ensures Next(s, e).l.m.credential
         == if e.RefreshSucceeded? then Some(e.credential)
            else if e.SetCredential? then e.newCredential
            else s.l.m.credential
  {
    hide Known;
  }
}
