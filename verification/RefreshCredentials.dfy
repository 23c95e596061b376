/** Which credential a refresh starts from. */
module RefreshCredentials {
  import opened Options
  import opened Authentication
  import opened AuthenticationLaws

  /** The step dispatches a refresh from the credential. */
  predicate Dispatches(s: System, e: Event, credential: Credential) {
    Enabled(s, e)
    && var queue := Next(s, e).l.queue;
       RefreshBlocks(queue) == RefreshBlocks(s.l.queue) + 1 && queue[|queue| - 1] == RefreshBlock(credential)
  }

  /** The critical section dispatches at most one refresh, behind everything else. */
  lemma RefreshDispatch(l: Locked, credential: Credential, checked: real, started: real)
    ensures var queue := Refresh(l, credential, checked, started).queue;
            queue != [] && RefreshBlocks(queue) <= RefreshBlocks(l.queue) + 1
            && (RefreshBlocks(queue) == RefreshBlocks(l.queue) + 1 ==> queue[|queue| - 1] == RefreshBlock(credential))
  {
    RefreshBlocksAppend(l.queue, RefreshBlock(credential));
    RefreshBlocksAppend(l.queue, FailureBlock(ExcessiveRefresh, l.m.adaptOperations, l.m.requestsToRetry));
  }

  lemma AdaptDispatch(l: Locked, op: Op, requiresRefresh: bool, checked: real, started: real)
    ensures var queue := AdaptLocked(l, op, requiresRefresh, checked, started).queue;
            RefreshBlocks(queue) <= RefreshBlocks(l.queue) + 1
            && (RefreshBlocks(queue) == RefreshBlocks(l.queue) + 1 ==>
                  queue != [] && l.m.credential.Some? && queue[|queue| - 1] == RefreshBlock(l.m.credential.value))
  {
    hide Refresh, RefreshBlocks;
    if l.m.credential.Some? {
      var queued := l.(m := l.m.(adaptOperations := l.m.adaptOperations + [op]));
      RefreshDispatch(queued, l.m.credential.value, checked, started);
    }
  }

  lemma BlockDispatch(s: System, requiresRefresh: bool, checked: real, started: real, credential: Credential)
    requires Dispatches(s, RunBlock(requiresRefresh, checked, started), credential)
    ensures s.l.m.credential == Some(credential)
  {
    hide AdaptLocked, RefreshBlocks;
    var b, s' := s.l.queue[0], Next(s, RunBlock(requiresRefresh, checked, started));
    Behind(s.l.queue);
    if b.SuccessBlock? && b.current.None? && b.adapts != [] {
      AdaptDispatch(s.l, b.adapts[0], requiresRefresh, checked, started);
      HeadStays(s.l, b.adapts[0], requiresRefresh, checked, started);
      var l := AdaptLocked(s.l, b.adapts[0], requiresRefresh, checked, started);
      HeadBlocks(l.queue, s'.l.queue[0]);
    } else if s'.l.queue != s.l.queue[1..] {
      HeadBlocks(s.l.queue, s'.l.queue[0]);
    }
  }

  lemma Behind(queue: seq<Block>)
    requires queue != []
    ensures RefreshBlocks(queue[1..]) <= RefreshBlocks(queue)
  {
  }

  /** A refresh starts from the current credential, or from the one that its retry read before taking the lock. */
  lemma DispatchedFrom(s: System, e: Event, credential: Credential)
    requires Dispatches(s, e, credential)
    ensures if e.RetryLock? then s.calls[e.call] == RetryWithCredential(s.calls[e.call].op, credential)
            else s.l.m.credential == Some(credential)
  {
    hide Refresh, AdaptLocked, RefreshBlocks, StepBlock, ClockOk, Known;
    match e
    case AdaptLock(c, requiresRefresh, checked, started) =>
      AdaptDispatch(s.l, s.calls[c].op, requiresRefresh, checked, started);
    case RetryLock(c, checked, started) =>
      var queued := s.l.(m := s.l.m.(requestsToRetry := s.l.m.requestsToRetry + [s.calls[c].op]));
      RefreshDispatch(queued, s.calls[c].credential, checked, started);
    case RunBlock(requiresRefresh, checked, started) =>
      BlockDispatch(s, requiresRefresh, checked, started, credential);
    case RefreshSucceeded(_) =>
      RefreshBlocksAppend(s.l.queue, SuccessBlock(None, s.l.m.adaptOperations, s.l.m.requestsToRetry));
    case RefreshFailed(code) =>
      RefreshBlocksAppend(s.l.queue, FailureBlock(RefreshError(code), s.l.m.adaptOperations, s.l.m.requestsToRetry));
    case _ =>
  }

  /** It starts from another credential than the current one exactly when a retry read one that was replaced since. */
  lemma StaleExactly(s: System, e: Event, credential: Credential)
    requires Dispatches(s, e, credential)
    ensures s.l.m.credential != Some(credential)
       <==> e.RetryLock? && s.l.m.credential != Some(s.calls[e.call].credential)
  {
    DispatchedFrom(s, e, credential);
  }

  // ---------------------------------------------------------------- what a retry has read

  lemma {:induction false} RunsPrefix(s: System, events: seq<Event>, k: nat)
    requires Runs(s, events) && k <= |events|
    ensures Runs(s, events[..k]) && Runs(After(s, events[..k]), events[k..])
    ensures After(After(s, events[..k]), events[k..]) == After(s, events)
    decreases k
  {
    hide Next, Enabled;
    if k == 0 {
      assert events[..0] == [] && events[0..] == events;
    } else {
      var rest := events[1..];
      RunsPrefix(Next(s, events[0]), rest, k - 1);
      assert events[..k][0] == events[0] && events[..k][1..] == rest[..k - 1] && events[k..] == rest[k - 1..];
    }
  }

  /** Step `k` of the run is the reading of the credential by the retry of `op`, when it was the current one. */
  predicate ReadAt(start: System, events: seq<Event>, k: nat, op: Op, credential: Credential)
  {
    && k < |events| && events[k].RetryRead? && Runs(start, events[..k])
    && var s := After(start, events[..k]);
       events[k].call < |s.calls| && s.calls[events[k].call] == RetryCall(op) && s.l.m.credential == Some(credential)
  }

  /** A call that holds a credential held it before the step, or the step is its reading. */
  lemma HeldBefore(s: System, e: Event, op: Op, credential: Credential)
    requires Enabled(s, e) && RetryWithCredential(op, credential) in Next(s, e).calls
    ensures RetryWithCredential(op, credential) in s.calls
         || (e.RetryRead? && e.call < |s.calls| && s.calls[e.call] == RetryCall(op)
             && s.l.m.credential == Some(credential))
  {
    hide AdaptLocked, RetryLocked, StepBlock, AdaptResultOf, ClockOk, Known, Without;
    var held := RetryWithCredential(op, credential);
    match e
    case AdaptLock(c, requiresRefresh, _, _) =>
      if AdaptResultOf(s.l, requiresRefresh).AdaptDeferred? { InWithout(s.calls, c, held); }
    case RetryLock(c, _, _) => InWithout(s.calls, c, held);
    case Complete(c) => InWithout(s.calls, c, held);
    case RunBlock(requiresRefresh, checked, started) => BlockCalls(s, requiresRefresh, checked, started);
    case _ =>
  }

  lemma InWithout<T>(a: seq<T>, i: nat, x: T)
    requires i < |a| && x in Without(a, i)
    ensures x in a
  {
  }

  /** Running a block leaves the calls outside as they are. */
  lemma BlockCalls(s: System, requiresRefresh: bool, checked: real, started: real)
    requires s.l.queue != []
    ensures StepBlock(s, requiresRefresh, checked, started).calls == s.calls
  {
    hide AdaptLocked, AdaptResultOf;
  }

  /** In every run a credential held by a retry was the current one when it was read. */
  lemma {:induction false} HeldWasRead(start: System, events: seq<Event>, op: Op, credential: Credential)
    returns (k: nat)
    requires start.calls == [] && Runs(start, events)
    requires RetryWithCredential(op, credential) in After(start, events).calls
    ensures ReadAt(start, events, k, op, credential)
    decreases |events|
  {
    hide Next, Enabled;
    var n := |events| - 1;
    assert events != [];
    RunsPrefix(start, events, n);
    var before, s, e := events[..n], After(start, events[..n]), events[n];
    assert events[n..] == [e] && [e][1..] == [];
    assert After(s, [e]) == Next(s, e);
    HeldBefore(s, e, op, credential);
    if RetryWithCredential(op, credential) in s.calls {
      k := HeldWasRead(start, before, op, credential);
      assert events[..k] == before[..k];
    } else {
      k := n;
    }
  }

  /**
   In every run, a refresh that does not start from the current credential starts from one that its retry read
   at an earlier step, when it was the current one.
   */
  lemma StaleRefreshWasRead(credential: Option<Credential>, window: Option<RefreshWindow>, now: real,
                            events: seq<Event>, e: Event, from: Credential) returns (k: nat)
    requires Runs(Initial(credential, window, now), events)
    requires Dispatches(After(Initial(credential, window, now), events), e, from)
    ensures var s := After(Initial(credential, window, now), events);
            s.l.m.credential != Some(from) ==>
              && e.RetryLock? && e.call < |s.calls|
              && s.calls[e.call] == RetryWithCredential(s.calls[e.call].op, from)
              && ReadAt(Initial(credential, window, now), events, k, s.calls[e.call].op, from)
  {
    var s := After(Initial(credential, window, now), events);
    k := 0;
    DispatchedFrom(s, e, from);
    if s.l.m.credential != Some(from) {
      assert s.calls[e.call] in s.calls;
      k := HeldWasRead(Initial(credential, window, now), events, s.calls[e.call].op, from);
    }
  }

  /** While a refresh waits in the queue, only setting a credential from outside replaces the current one. */
  lemma ReplacedOnlyBySetting(credential: Option<Credential>, window: Option<RefreshWindow>, now: real,
                              events: seq<Event>, e: Event)
    requires Runs(Initial(credential, window, now), events)
    requires Enabled(After(Initial(credential, window, now), events), e)
    requires RefreshBlocks(After(Initial(credential, window, now), events).l.queue) > 0
    ensures var s := After(Initial(credential, window, now), events);
            Next(s, e).l.m.credential == s.l.m.credential || e.SetCredential?
  {
    AlwaysSingleFlight(credential, window, now, events);
    hide RefreshBlocks, Runs, After, Known, ClockOk;
  }

  // ---------------------------------------------------------------- from dispatch to start

  /** The credential after events of which only setting one from outside changes it. */
  function LastSet(credential: Option<Credential>, events: seq<Event>): Option<Credential> {
    if events == [] then credential
    else
      var e := events[|events| - 1];
      if e.SetCredential? then e.newCredential else LastSet(credential, events[..|events| - 1])
  }

  lemma RefreshAppends(l: Locked, credential: Credential, checked: real, started: real)
    ensures Refresh(l, credential, checked, started).m.credential == l.m.credential
    ensures exists b: Block ::
      && Refresh(l, credential, checked, started).queue == l.queue + [b]
      && (b.FailureBlock? || b == RefreshBlock(credential))
  {
    if IsRefreshExcessive(l.m, checked) {
      var b := FailureBlock(ExcessiveRefresh, l.m.adaptOperations, l.m.requestsToRetry);
      assert Refresh(l, credential, checked, started).queue == l.queue + [b];
    } else {
      assert Refresh(l, credential, checked, started).queue == l.queue + [RefreshBlock(credential)];
    }
  }

  /** A refresh block behind the critical section was there before, or has just been dispatched. */
  lemma RefreshQueued(l: Locked, credential: Credential, checked: real, started: real, from: Credential)
    ensures var after := Refresh(l, credential, checked, started);
            after.m.credential == l.m.credential
            && (RefreshBlock(from) in after.queue ==>
                  || RefreshBlock(from) in l.queue
                  || (after.queue == l.queue + [RefreshBlock(from)] && from == credential))
  {
    hide Refresh;
    RefreshAppends(l, credential, checked, started);
  }

  lemma AdaptQueued(l: Locked, op: Op, requiresRefresh: bool, checked: real, started: real, from: Credential)
    ensures var after := AdaptLocked(l, op, requiresRefresh, checked, started);
            after.m.credential == l.m.credential
            && (RefreshBlock(from) in after.queue ==>
                  RefreshBlock(from) in l.queue || after.queue == l.queue + [RefreshBlock(from)])
  {
    hide Refresh;
    if l.m.credential.Some? {
      var queued := l.(m := l.m.(adaptOperations := l.m.adaptOperations + [op]));
      RefreshQueued(queued, l.m.credential.value, checked, started, from);
    }
  }

  lemma BlockQueued(s: System, requiresRefresh: bool, checked: real, started: real, from: Credential)
    requires Enabled(s, RunBlock(requiresRefresh, checked, started))
    requires RefreshBlock(from) in Next(s, RunBlock(requiresRefresh, checked, started)).l.queue
    ensures Next(s, RunBlock(requiresRefresh, checked, started)).l.m.credential == s.l.m.credential
    ensures RefreshBlock(from) in s.l.queue || Dispatches(s, RunBlock(requiresRefresh, checked, started), from)
  {
    hide AdaptLocked, RefreshBlocks;
    var b, s' := s.l.queue[0], Next(s, RunBlock(requiresRefresh, checked, started));
    if b.SuccessBlock? && b.current.None? && b.adapts != [] {
      var op := b.adapts[0];
      var l := AdaptLocked(s.l, op, requiresRefresh, checked, started);
      AdaptQueued(s.l, op, requiresRefresh, checked, started, from);
      HeadStays(s.l, op, requiresRefresh, checked, started);
      HeadBlocks(l.queue, s'.l.queue[0]);
      if RefreshBlock(from) !in s.l.queue {
        RefreshBlocksAppend(s.l.queue, RefreshBlock(from));
        assert RefreshBlock(from) in l.queue;
      }
    }
  }

  lemma QueuedBefore(s: System, e: Event, from: Credential)
    requires Enabled(s, e) && RefreshBlock(from) in Next(s, e).l.queue
    ensures RefreshBlock(from) in s.l.queue || (Dispatches(s, e, from) && Next(s, e).l.m.credential == s.l.m.credential)
  {
    hide Refresh, AdaptLocked, RefreshBlocks, StepBlock, ClockOk, Known;
    RefreshBlocksAppend(s.l.queue, RefreshBlock(from));
    match e
    case AdaptLock(c, requiresRefresh, checked, started) =>
      AdaptQueued(s.l, s.calls[c].op, requiresRefresh, checked, started, from);
    case RetryLock(c, checked, started) =>
      var queued := s.l.(m := s.l.m.(requestsToRetry := s.l.m.requestsToRetry + [s.calls[c].op]));
      RefreshQueued(queued, s.calls[c].credential, checked, started, from);
    case RunBlock(requiresRefresh, checked, started) => BlockQueued(s, requiresRefresh, checked, started, from);
    case _ =>
  }

  lemma {:induction false} SomeRefreshBlock(queue: seq<Block>, from: Credential)
    requires RefreshBlock(from) in queue
    ensures RefreshBlocks(queue) > 0
  {
    if queue[0] != RefreshBlock(from) { SomeRefreshBlock(queue[1..], from); }
  }

  lemma LastStep(start: System, events: seq<Event>)
    requires Runs(start, events) && events != []
    ensures var n := |events| - 1;
            && Runs(start, events[..n]) && Enabled(After(start, events[..n]), events[n])
            && After(start, events) == Next(After(start, events[..n]), events[n])
  {
    hide Next, Enabled;
    var n := |events| - 1;
    RunsPrefix(start, events, n);
    assert events[n..] == [events[n]] && [events[n]][1..] == [];
  }

  /** Step `k` of the run dispatches the refresh. */
  predicate DispatchedAt(start: System, events: seq<Event>, k: nat, from: Credential) {
    k < |events| && Runs(start, events[..k]) && Dispatches(After(start, events[..k]), events[k], from)
  }

  /** Step `k` dispatched the refresh, and since then only setting it has changed the current credential. */
  predicate DispatchedSince(start: System, events: seq<Event>, k: nat, from: Credential) {
    && DispatchedAt(start, events, k, from) && Runs(start, events)
    && After(start, events).l.m.credential == LastSet(After(start, events[..k]).l.m.credential, events[k + 1..])
  }

  /**
   In every run, a refresh waiting to be started was dispatched at some step, and the current credential is the one
   of then or the last one set from outside since: the refresh starts from another one exactly when that one is another.
   */
  lemma {:induction false} WaitingSince(credential: Option<Credential>, window: Option<RefreshWindow>, now: real,
                                        events: seq<Event>, from: Credential) returns (k: nat)
    requires Runs(Initial(credential, window, now), events)
    requires RefreshBlock(from) in After(Initial(credential, window, now), events).l.queue
    ensures DispatchedSince(Initial(credential, window, now), events, k, from)
    decreases |events|
  {
    var start := Initial(credential, window, now);
    assert events != [];
    hide Next, Enabled, Dispatches, Initial, Runs, After, DispatchedSince, LastSet;
    var n := |events| - 1;
    LastStep(start, events);
    var before, s, e := events[..n], After(start, events[..n]), events[n];
    if RefreshBlock(from) in s.l.queue {
      k := WaitingSince(credential, window, now, before, from);
      SomeRefreshBlock(s.l.queue, from);
      SetOrKept(credential, window, now, before, e);
      WaitingLonger(start, events, k, from);
    } else {
      QueuedBefore(s, e, from);
      JustDispatched(start, events, from);
      k := n;
    }
  }

  lemma JustDispatched(start: System, events: seq<Event>, from: Credential)
    requires Runs(start, events) && events != []
    requires var n := |events| - 1;
             Runs(start, events[..n]) && Dispatches(After(start, events[..n]), events[n], from)
             && After(start, events).l.m.credential == After(start, events[..n]).l.m.credential
    ensures DispatchedSince(start, events, |events| - 1, from)
  {
    hide Runs, After, Dispatches;
  }

  lemma WaitingLonger(start: System, events: seq<Event>, k: nat, from: Credential)
    requires Runs(start, events) && events != [] && DispatchedSince(start, events[..|events| - 1], k, from)
    requires var n := |events| - 1;
             After(start, events).l.m.credential
             == if events[n].SetCredential? then events[n].newCredential
                else After(start, events[..n]).l.m.credential
    ensures DispatchedSince(start, events, k, from)
  {
    hide Runs, After, Dispatches;
    var n := |events| - 1;
    var before, since := events[..n], events[k + 1..];
    assert events[..k] == before[..k] && events[k] == before[k];
    assert since[|since| - 1] == events[n] && since[..|since| - 1] == before[k + 1..];
  }

  lemma SetOrKept(credential: Option<Credential>, window: Option<RefreshWindow>, now: real,
                  events: seq<Event>, e: Event)
    requires Runs(Initial(credential, window, now), events)
    requires Enabled(After(Initial(credential, window, now), events), e)
    requires RefreshBlocks(After(Initial(credential, window, now), events).l.queue) > 0
    ensures var s := After(Initial(credential, window, now), events);
            Next(s, e).l.m.credential == if e.SetCredential? then e.newCredential else s.l.m.credential
  {
    ReplacedOnlyBySetting(credential, window, now, events, e);
  }

  // ---------------------------------------------------------------- witnesses

  lemma Cons(s: System, e: Event, events: seq<Event>)
    requires Enabled(s, e) && Runs(Next(s, e), events)
    ensures Runs(s, [e] + events) && After(s, [e] + events) == After(Next(s, e), events)
  {
    assert ([e] + events)[1..] == events;
  }

  /** A run behind which a refresh is dispatched from a credential that has been replaced. */
  lemma RefreshFromReplacedCredential() returns (events: seq<Event>, e: Event)
    ensures Runs(Initial(Some(1), None, 0.0), events)
    ensures var s := After(Initial(Some(1), None, 0.0), events);
            Dispatches(s, e, 1) && s.l.m.credential == Some(2)
  {
    var op, s0 := RetryOp(0), Initial(Some(1), None, 0.0);
    var s1 := Next(s0, CallRetry(op));
    var s2 := Next(s1, RetryRead(0, true));
    var s3 := Next(s2, SetCredential(Some(2)));
    e := RetryLock(0, 0.0, 0.0);
    assert Next(s3, e).l.queue == [RefreshBlock(1)];
    assert RefreshBlocks([RefreshBlock(1)]) == 1 + RefreshBlocks([]) by { assert [RefreshBlock(1)][1..] == []; }
    assert Dispatches(s3, e, 1) && s3.l.m.credential == Some(2);
    hide Next, Enabled, Dispatches;
    events := [SetCredential(Some(2))];
    Cons(s2, SetCredential(Some(2)), []);
    Cons(s1, RetryRead(0, true), events);
    events := [RetryRead(0, true)] + events;
    Cons(s0, CallRetry(op), events);
    events := [CallRetry(op)] + events;
  }

  /** A refresh already dispatched may go stale before it runs, without any retry. */
  lemma QueuedRefreshGoesStale() returns (events: seq<Event>)
    ensures Runs(Initial(Some(1), None, 0.0), events) && forall e <- events :: !e.CallRetry?
    ensures var s := After(Initial(Some(1), None, 0.0), events);
            s.l.queue == [RefreshBlock(1)] && s.l.m.credential == Some(2)
  {
    var op, s0 := AdaptOp(0), Initial(Some(1), None, 0.0);
    var lock := AdaptLock(0, true, 0.0, 0.0);
    var s1 := Next(s0, CallAdapt(op));
    var s2 := Next(s1, lock);
    var s3 := Next(s2, SetCredential(Some(2)));
    assert s3.l.queue == [RefreshBlock(1)] && s3.l.m.credential == Some(2);
    hide Next, Enabled;
    events := [SetCredential(Some(2))];
    Cons(s2, SetCredential(Some(2)), []);
    Cons(s1, lock, events);
    events := [lock] + events;
    Cons(s0, CallAdapt(op), events);
    events := [CallAdapt(op)] + events;
  }
}
