/** What holds in every run of the authentication interceptor. */
module AuthenticationLaws {
  import opened Options
  import opened Authentication

  // ---------------------------------------------------------------- conservation of completions

  /** The completion an event hands in. */
  function HandedIn(e: Event): multiset<Op> {
    match e
    case CallAdapt(op) => multiset{op}
    case CallRetry(op) => multiset{op}
    case _ => multiset{}
  }

  /** The running block answers a completion it held. */
  lemma AnswerFromHead(s: System, b: Block, a: Answered)
    requires s.l.queue != [] && BlockOps(s.l.queue[0]) == BlockOps(b) + multiset{a.op}
    ensures Places(s.(l := s.l.(queue := s.l.queue[0 := b]), answered := s.answered + [a])) == Places(s)
  {
    hide CallOps, BlockOps;
    var s' := s.(l := s.l.(queue := s.l.queue[0 := b]), answered := s.answered + [a]);
    QueueHead(s.l.queue, b);
    AnsweredAppend(s.answered, a);
    assert LockedOps(s.l) == LockedOps(s'.l) + multiset{a.op};
  }

  lemma FirstOf(ops: seq<Op>)
    requires ops != []
    ensures multiset(ops) == multiset{ops[0]} + multiset(ops[1..])
  {
    assert ops == [ops[0]] + ops[1..];
  }

  lemma BlockStepPlaces(s: System, requiresRefresh: bool, checked: real, started: real)
    requires s.l.queue != []
    ensures Places(StepBlock(s, requiresRefresh, checked, started)) == Places(s)
  {
    hide Places;
    match s.l.queue[0]
    case RefreshBlock(_) => DropHead(s);
    case SuccessBlock(_, _, _) => SuccessStepPlaces(s, requiresRefresh, checked, started);
    case FailureBlock(_, _, _) => FailureStepPlaces(s, requiresRefresh, checked, started);
  }

  lemma SuccessStepPlaces(s: System, requiresRefresh: bool, checked: real, started: real)
    requires s.l.queue != [] && s.l.queue[0].SuccessBlock?
    ensures Places(StepBlock(s, requiresRefresh, checked, started)) == Places(s)
  {
    hide Places, AdaptLocked, AdaptResultOf;
    var b := s.l.queue[0];
    if b.current.Some? {
      AnswerFromHead(s, SuccessBlock(None, b.adapts, b.retries), b.current.value);
    } else if b.adapts != [] {
      hide StepBlock;
      DeferredAdapt(s, requiresRefresh, checked, started);
    } else if b.retries != [] {
      FirstOf(b.retries);
      AnswerFromHead(s, SuccessBlock(None, [], b.retries[1..]), Answered(b.retries[0], Retry));
    } else {
      DropHead(s);
    }
  }

  lemma FailureStepPlaces(s: System, requiresRefresh: bool, checked: real, started: real)
    requires s.l.queue != [] && s.l.queue[0].FailureBlock?
    ensures Places(StepBlock(s, requiresRefresh, checked, started)) == Places(s)
  {
    hide Places;
    var b := s.l.queue[0];
    if b.adapts != [] {
      FirstOf(b.adapts);
      AnswerFromHead(s, FailureBlock(b.error, b.adapts[1..], b.retries), Answered(b.adapts[0], AdaptFailed(b.error)));
    } else if b.retries != [] {
      FirstOf(b.retries);
      AnswerFromHead(s, FailureBlock(b.error, [], b.retries[1..]), Answered(b.retries[0], DoNotRetryWithError(b.error)));
    } else {
      DropHead(s);
    }
  }

  /** A block that holds no completion is done. */
  lemma DropHead(s: System)
    requires s.l.queue != [] && BlockOps(s.l.queue[0]) == multiset{}
    ensures forall n :: Places(s.(l := s.l.(queue := s.l.queue[1..]), refreshing := n)) == Places(s)
  {
    hide CallOps, AnsweredOps, BlockOps;
  }

  /** An adapt run again from a success block may be queued once more, for yet another refresh. */
  lemma DeferredAdapt(s: System, requiresRefresh: bool, checked: real, started: real)
    requires s.l.queue != [] && s.l.queue[0].SuccessBlock? && s.l.queue[0].current.None? && s.l.queue[0].adapts != []
    ensures Places(StepBlock(s, requiresRefresh, checked, started)) == Places(s)
  {
    var op := s.l.queue[0].adapts[0];
    var l := AdaptLocked(s.l, op, requiresRefresh, checked, started);
    var s' := StepBlock(s, requiresRefresh, checked, started);
    AdaptHead(s, requiresRefresh, checked, started);
    hide *;
    var after := s'.l.queue[0];
    AdaptOps(s.l, op, requiresRefresh, checked, started);
    HeadSwap(l, after);
    var moved := if AdaptResultOf(s.l, requiresRefresh) == AdaptDeferred then multiset{op} else multiset{};
    Cancel(LockedOps(s'.l), LockedOps(s.l), BlockOps(after) + moved);
    SamePlaces(s, s');
  }

  lemma SamePlaces(s: System, s': System)
    requires s.calls == s'.calls && s.answered == s'.answered && LockedOps(s.l) == LockedOps(s'.l)
    ensures Places(s) == Places(s')
  {
  }

  lemma HeadSwap(l: Locked, b: Block)
    requires l.queue != []
    ensures LockedOps(l.(queue := l.queue[0 := b])) + BlockOps(l.queue[0]) == LockedOps(l) + BlockOps(b)
  {
    hide BlockOps;
    QueueHead(l.queue, b);
  }

  lemma Cancel(a: multiset<Op>, b: multiset<Op>, c: multiset<Op>)
    requires a + c == b + c
    ensures a == b
  {
    forall op: Op ensures a[op] == b[op] {
      assert (a + c)[op] == (b + c)[op];
    }
  }

  lemma AdaptHead(s: System, requiresRefresh: bool, checked: real, started: real)
    requires s.l.queue != [] && s.l.queue[0].SuccessBlock? && s.l.queue[0].current.None? && s.l.queue[0].adapts != []
    ensures var op := s.l.queue[0].adapts[0];
            var l := AdaptLocked(s.l, op, requiresRefresh, checked, started);
            var s' := StepBlock(s, requiresRefresh, checked, started);
            && l.queue != [] && l.queue[0] == s.l.queue[0] && s'.l.queue != []
            && s'.l == l.(queue := l.queue[0 := s'.l.queue[0]])
            && s'.calls == s.calls && s'.answered == s.answered
            && BlockOps(s.l.queue[0]) == BlockOps(s'.l.queue[0])
               + (if AdaptResultOf(s.l, requiresRefresh) == AdaptDeferred then multiset{op} else multiset{})
  {
    hide IsRefreshExcessive, HandleRefreshFailure;
    FirstOf(s.l.queue[0].adapts);
    HeadStays(s.l, s.l.queue[0].adapts[0], requiresRefresh, checked, started);
    hide AdaptLocked;
  }

  /** The critical section of adapt only adds to the end of the queue. */
  lemma HeadStays(l: Locked, op: Op, requiresRefresh: bool, checked: real, started: real)
    requires l.queue != []
    ensures AdaptLocked(l, op, requiresRefresh, checked, started).queue != []
    ensures AdaptLocked(l, op, requiresRefresh, checked, started).queue[0] == l.queue[0]
  {
  }

  /** Steps of a call that do not take the lock to queue it. */
  lemma CallStepPlaces(s: System, e: Event)
    requires Enabled(s, e)
    requires e.CallAdapt? || e.CallRetry? || e.RetryDecline? || e.RetryRead? || e.Complete?
    ensures Places(Next(s, e)) == Places(s) + HandedIn(e)
  {
    hide CallOps, AnsweredOps, LockedOps, Known;
    match e
    case CallAdapt(op) => CallOpsAppend(s.calls, AdaptCall(op));
    case CallRetry(op) => CallOpsAppend(s.calls, RetryCall(op));
    case RetryDecline(c) => CallOpsUpdate(s.calls, c, Finishing(s.calls[c].op, DoNotRetry));
    case RetryRead(c, authenticatedWithIt) => CallOpsUpdate(s.calls, c, Next(s, e).calls[c]);
    case Complete(c) =>
      CallOpsWithout(s.calls, c);
      AnsweredAppend(s.answered, Answered(s.calls[c].op, s.calls[c].answer));
  }

  lemma StepPlaces(s: System, e: Event)
    requires Enabled(s, e)
    ensures Places(Next(s, e)) == Places(s) + HandedIn(e)
  {
    hide CallOps, AnsweredOps, QueueOps, LockedOps, StepBlock, AdaptLocked, RetryLocked, ClockOk, Known;
    match e
    case AdaptLock(c, requiresRefresh, checked, started) => AdaptStepPlaces(s, c, requiresRefresh, checked, started);
    case RetryLock(c, checked, started) => RetryStepPlaces(s, c, checked, started);
    case RunBlock(requiresRefresh, checked, started) => BlockStepPlaces(s, requiresRefresh, checked, started);
    case RefreshSucceeded(credential) => SuccessPlaces(s.l, credential);
    case RefreshFailed(code) => FailurePlaces(s.l, RefreshError(code));
    case SetCredential(credential) => CredentialPlaces(s.l, credential);
    case _ => CallStepPlaces(s, e);
  }

  lemma CredentialPlaces(l: Locked, credential: Option<Credential>)
    ensures LockedOps(l.(m := l.m.(credential := credential))) == LockedOps(l)
  {
  }

  /** Either handler moves both waiting queues into one dispatched block. */
  lemma SuccessPlaces(l: Locked, credential: Credential)
    ensures LockedOps(HandleRefreshSuccess(l, credential)) == LockedOps(l)
  {
    hide QueueOps;
    QueueOpsAppend(l.queue, SuccessBlock(None, l.m.adaptOperations, l.m.requestsToRetry));
  }

  lemma FailurePlaces(l: Locked, error: AuthenticationError)
    ensures LockedOps(HandleRefreshFailure(l, error)) == LockedOps(l)
  {
    hide QueueOps;
    QueueOpsAppend(l.queue, FailureBlock(error, l.m.adaptOperations, l.m.requestsToRetry));
  }

  lemma AdaptStepPlaces(s: System, c: nat, requiresRefresh: bool, checked: real, started: real)
    requires Enabled(s, AdaptLock(c, requiresRefresh, checked, started))
    ensures Places(Next(s, AdaptLock(c, requiresRefresh, checked, started))) == Places(s)
  {
    hide CallOps, AnsweredOps, QueueOps, LockedOps, AdaptLocked;
    var op := s.calls[c].op;
    AdaptOps(s.l, op, requiresRefresh, checked, started);
    match AdaptResultOf(s.l, requiresRefresh)
    case Adapt(credential) => CallOpsUpdate(s.calls, c, Finishing(op, Adapted(credential)));
    case DoNotAdapt(error) => CallOpsUpdate(s.calls, c, Finishing(op, AdaptFailed(error)));
    case AdaptDeferred => CallOpsWithout(s.calls, c);
  }

  lemma RetryStepPlaces(s: System, c: nat, checked: real, started: real)
    requires Enabled(s, RetryLock(c, checked, started))
    ensures Places(Next(s, RetryLock(c, checked, started))) == Places(s)
  {
    hide CallOps, AnsweredOps, QueueOps, Refresh;
    CallOpsWithout(s.calls, c);
    var queued := s.l.(m := s.l.m.(requestsToRetry := s.l.m.requestsToRetry + [s.calls[c].op]));
    RefreshOps(queued, s.calls[c].credential, checked, started);
    assert LockedOps(queued) == LockedOps(s.l) + multiset{s.calls[c].op};
  }

  // ---------------------------------------------------------------- a single refresh

  function RefreshBlocks(queue: seq<Block>): nat {
    if queue == [] then 0 else (if queue[0].RefreshBlock? then 1 else 0) + RefreshBlocks(queue[1..])
  }

  /** Refreshes dispatched or under way. */
  function Outstanding(s: System): nat {
    RefreshBlocks(s.l.queue) + s.refreshing
  }

  lemma {:induction false} RefreshBlocksAppend(queue: seq<Block>, b: Block)
    ensures RefreshBlocks(queue + [b]) == RefreshBlocks(queue) + if b.RefreshBlock? then 1 else 0
  {
    if queue != [] {
      assert (queue + [b])[1..] == queue[1..] + [b];
      RefreshBlocksAppend(queue[1..], b);
    }
  }

  /** `isRefreshing` is exactly "one refresh outstanding", and nothing waits while there is none. */
  predicate SingleFlight(l: Locked, refreshing: nat) {
    && RefreshBlocks(l.queue) + refreshing == (if l.m.isRefreshing then 1 else 0)
    && (!l.m.isRefreshing ==> l.m.adaptOperations == [] && l.m.requestsToRetry == [])
  }

  lemma RefreshSingle(l: Locked, credential: Credential, checked: real, started: real, refreshing: nat)
    requires RefreshBlocks(l.queue) + refreshing == 0 && !l.m.isRefreshing
    ensures SingleFlight(Refresh(l, credential, checked, started), refreshing)
  {
    RefreshBlocksAppend(l.queue, RefreshBlock(credential));
    RefreshBlocksAppend(l.queue, FailureBlock(ExcessiveRefresh, l.m.adaptOperations, l.m.requestsToRetry));
  }

  lemma AdaptSingle(l: Locked, op: Op, requiresRefresh: bool, checked: real, started: real, refreshing: nat)
    requires SingleFlight(l, refreshing)
    ensures SingleFlight(AdaptLocked(l, op, requiresRefresh, checked, started), refreshing)
  {
    var queued := l.(m := l.m.(adaptOperations := l.m.adaptOperations + [op]));
    if l.m.credential.Some? && !l.m.isRefreshing {
      RefreshSingle(queued, l.m.credential.value, checked, started, refreshing);
    }
  }

  lemma HeadBlocks(queue: seq<Block>, b: Block)
    requires queue != [] && queue[0].RefreshBlock? == b.RefreshBlock?
    ensures RefreshBlocks(queue[0 := b]) == RefreshBlocks(queue)
  {
    assert queue[0 := b][1..] == queue[1..];
  }

  lemma StepSingle(s: System, e: Event)
    requires Enabled(s, e) && SingleFlight(s.l, s.refreshing)
    ensures SingleFlight(Next(s, e).l, Next(s, e).refreshing)
  {
    match e
    case AdaptLock(c, requiresRefresh, checked, started) =>
      AdaptSingle(s.l, s.calls[c].op, requiresRefresh, checked, started, s.refreshing);
    case RetryLock(c, checked, started) =>
      var queued := s.l.(m := s.l.m.(requestsToRetry := s.l.m.requestsToRetry + [s.calls[c].op]));
      if !s.l.m.isRefreshing { RefreshSingle(queued, s.calls[c].credential, checked, started, s.refreshing); }
    case RunBlock(requiresRefresh, checked, started) => BlockSingle(s, requiresRefresh, checked, started);
    case RefreshSucceeded(credential) =>
      RefreshBlocksAppend(s.l.queue, SuccessBlock(None, s.l.m.adaptOperations, s.l.m.requestsToRetry));
    case RefreshFailed(code) =>
      RefreshBlocksAppend(s.l.queue, FailureBlock(RefreshError(code), s.l.m.adaptOperations, s.l.m.requestsToRetry));
    case _ =>
  }

  lemma BlockSingle(s: System, requiresRefresh: bool, checked: real, started: real)
    requires s.l.queue != [] && SingleFlight(s.l, s.refreshing)
    ensures var s' := StepBlock(s, requiresRefresh, checked, started); SingleFlight(s'.l, s'.refreshing)
  {
    var s' := StepBlock(s, requiresRefresh, checked, started);
    var b := s.l.queue[0];
    if b.SuccessBlock? && b.current.None? && b.adapts != [] {
      AdaptSingle(s.l, b.adapts[0], requiresRefresh, checked, started, s.refreshing);
      var l := AdaptLocked(s.l, b.adapts[0], requiresRefresh, checked, started);
      assert l.queue[0] == b;
      HeadBlocks(l.queue, s'.l.queue[0]);
    } else if s'.l.queue != s.l.queue[1..] {
      HeadBlocks(s.l.queue, s'.l.queue[0]);
    }
  }

  // ---------------------------------------------------------------- the right kind of answer

  predicate FitsOp(a: Answered) {
    a.op.AdaptOp? == (a.answer.Adapted? || a.answer.AdaptFailed?)
  }

  predicate AllAdapts(ops: seq<Op>) {
    forall i | 0 <= i < |ops| :: ops[i].AdaptOp?
  }

  predicate AllRetries(ops: seq<Op>) {
    forall i | 0 <= i < |ops| :: ops[i].RetryOp?
  }

  predicate KindOfCall(c: Call) {
    match c
    case AdaptCall(op) => op.AdaptOp?
    case RetryCall(op) => op.RetryOp?
    case RetryWithCredential(op, _) => op.RetryOp?
    case Finishing(op, answer) => FitsOp(Answered(op, answer))
  }

  predicate KindOfBlock(b: Block) {
    match b
    case RefreshBlock(_) => true
    case SuccessBlock(current, adapts, retries) =>
      (current.Some? ==> FitsOp(current.value)) && AllAdapts(adapts) && AllRetries(retries)
    case FailureBlock(_, adapts, retries) => AllAdapts(adapts) && AllRetries(retries)
  }

  predicate LockedKinds(l: Locked) {
    && AllAdapts(l.m.adaptOperations) && AllRetries(l.m.requestsToRetry)
    && forall i | 0 <= i < |l.queue| :: KindOfBlock(l.queue[i])
  }

  /** Adapts and retries are never mixed up, and each is answered in its own way. */
  predicate Kinds(s: System) {
    && LockedKinds(s.l)
    && (forall i | 0 <= i < |s.calls| :: KindOfCall(s.calls[i]))
    && forall i | 0 <= i < |s.answered| :: FitsOp(s.answered[i])
  }

  lemma AdaptKinds(l: Locked, op: Op, requiresRefresh: bool, checked: real, started: real)
    requires LockedKinds(l) && op.AdaptOp?
    ensures LockedKinds(AdaptLocked(l, op, requiresRefresh, checked, started))
  {
  }

  lemma HandleKinds(l: Locked, credential: Credential, error: AuthenticationError)
    requires LockedKinds(l)
    ensures LockedKinds(HandleRefreshSuccess(l, credential)) && LockedKinds(HandleRefreshFailure(l, error))
  {
  }

  lemma RetryKinds(l: Locked, op: Op, credential: Credential, checked: real, started: real)
    requires LockedKinds(l) && op.RetryOp?
    ensures LockedKinds(RetryLocked(l, op, credential, checked, started))
  {
  }

  lemma StepKinds(s: System, e: Event)
    requires Enabled(s, e) && Kinds(s)
    ensures Kinds(Next(s, e))
  {
    hide LockedKinds, RetryLocked, AdaptLocked, HandleRefreshSuccess, HandleRefreshFailure, Known, ClockOk, StepBlock;
    match e
    case AdaptLock(c, requiresRefresh, checked, started) => AdaptStepKinds(s, c, requiresRefresh, checked, started);
    case RetryDecline(c) => assert KindOfCall(s.calls[c]);
    case RetryRead(c, _) => assert KindOfCall(s.calls[c]);
    case RetryLock(c, checked, started) =>
      assert KindOfCall(s.calls[c]);
      RetryKinds(s.l, s.calls[c].op, s.calls[c].credential, checked, started);
    case Complete(c) => assert KindOfCall(s.calls[c]);
    case RunBlock(requiresRefresh, checked, started) => BlockKinds(s, requiresRefresh, checked, started);
    case RefreshSucceeded(credential) => HandleKinds(s.l, credential, MissingCredential);
    case RefreshFailed(code) => HandleKinds(s.l, 0, RefreshError(code));
    case SetCredential(credential) => CredentialKinds(s.l, credential);
    case _ =>
  }

  lemma CredentialKinds(l: Locked, credential: Option<Credential>)
    requires LockedKinds(l)
    ensures LockedKinds(l.(m := l.m.(credential := credential)))
  {
  }

  lemma AdaptStepKinds(s: System, c: nat, requiresRefresh: bool, checked: real, started: real)
    requires Enabled(s, AdaptLock(c, requiresRefresh, checked, started)) && Kinds(s)
    ensures Kinds(Next(s, AdaptLock(c, requiresRefresh, checked, started)))
  {
    hide AdaptLocked, LockedKinds;
    assert KindOfCall(s.calls[c]);
    AdaptKinds(s.l, s.calls[c].op, requiresRefresh, checked, started);
  }

  lemma BlockKinds(s: System, requiresRefresh: bool, checked: real, started: real)
    requires s.l.queue != [] && Kinds(s)
    ensures Kinds(StepBlock(s, requiresRefresh, checked, started))
  {
    var b := s.l.queue[0];
    assert KindOfBlock(b);
    if b.SuccessBlock? && b.current.None? && b.adapts != [] {
      AdaptKinds(s.l, b.adapts[0], requiresRefresh, checked, started);
      var l := AdaptLocked(s.l, b.adapts[0], requiresRefresh, checked, started);
      assert l.queue[0] == b;
    }
  }

  // ---------------------------------------------------------------- the sliding window

  predicate Sorted(t: seq<real>) {
    forall i, j | 0 <= i <= j < |t| :: t[i] <= t[j]
  }

  /** Any refresh starts more than `interval` after the one `max` places before it. */
  predicate Spaced(t: seq<real>, interval: real, max: nat) {
    forall i | 0 <= i && i + max < |t| :: t[i + max] - t[i] > interval
  }

  /** Without positive maximum no refresh starts at all; a negative interval limits nothing. */
  predicate Limited(t: seq<real>, window: RefreshWindow) {
    if window.maximumAttempts <= 0 then t == []
    else window.interval >= 0.0 ==> Spaced(t, window.interval, window.maximumAttempts)
  }

  predicate WindowKept(m: MutableState, now: real) {
    && Sorted(m.refreshTimestamps)
    && (forall i | 0 <= i < |m.refreshTimestamps| :: m.refreshTimestamps[i] <= now)
    && (m.refreshWindow.Some? ==> Limited(m.refreshTimestamps, m.refreshWindow.value))
  }

  lemma {:induction false} SinceAtLeast(t: seq<real>, k: nat, min: real)
    requires Sorted(t) && k < |t| && min <= t[k]
    ensures AttemptsSince(t, min) >= |t| - k
    decreases |t|
  {
    if k < |t| - 1 { SinceAtLeast(t[..|t| - 1], k, min); }
  }

  lemma RefreshWindowKept(l: Locked, credential: Credential, checked: real, started: real, now: real)
    requires WindowKept(l.m, now) && now <= checked <= started
    ensures WindowKept(Refresh(l, credential, checked, started).m, started)
  {
    var t, m := l.m.refreshTimestamps, l.m;
    if !IsRefreshExcessive(m, checked) && m.refreshWindow.Some? && m.refreshWindow.value.interval >= 0.0 {
      var max, interval := m.refreshWindow.value.maximumAttempts, m.refreshWindow.value.interval;
      var t' := t + [started];
      forall i | 0 <= i && i + max < |t'| ensures t'[i + max] - t'[i] > interval {
        if i + max == |t| {
          if max > 0 && t[i] >= checked - interval {
            SinceAtLeast(t, i, checked - interval);
          }
        }
      }
    }
  }

  lemma StepWindow(s: System, e: Event)
    requires Enabled(s, e) && WindowKept(s.l.m, s.now)
    ensures WindowKept(Next(s, e).l.m, Next(s, e).now) && Next(s, e).l.m.refreshWindow == s.l.m.refreshWindow
  {
    match e
    case AdaptLock(c, requiresRefresh, checked, started) => AdaptWindow(s, s.calls[c].op, requiresRefresh, checked, started);
    case RetryLock(c, checked, started) =>
      var queued := s.l.(m := s.l.m.(requestsToRetry := s.l.m.requestsToRetry + [s.calls[c].op]));
      RefreshWindowKept(queued, s.calls[c].credential, checked, started, s.now);
    case RunBlock(requiresRefresh, checked, started) =>
      var b := s.l.queue[0];
      if b.SuccessBlock? && b.current.None? && b.adapts != [] {
        AdaptWindow(s, b.adapts[0], requiresRefresh, checked, started);
      }
    case _ =>
  }

  lemma AdaptWindow(s: System, op: Op, requiresRefresh: bool, checked: real, started: real)
    requires WindowKept(s.l.m, s.now) && ClockOk(s, checked, started)
    ensures WindowKept(AdaptLocked(s.l, op, requiresRefresh, checked, started).m, started)
    ensures AdaptLocked(s.l, op, requiresRefresh, checked, started).m.refreshWindow == s.l.m.refreshWindow
  {
    var queued := s.l.(m := s.l.m.(adaptOperations := s.l.m.adaptOperations + [op]));
    if s.l.m.credential.Some? {
      RefreshWindowKept(queued, s.l.m.credential.value, checked, started, s.now);
    }
  }

  /** Refreshes started in the closed interval from `from` to `to`. */
  function AttemptsWithin(t: seq<real>, from: real, to: real): nat {
    if t == [] then 0
    else AttemptsWithin(t[..|t| - 1], from, to) + (if from <= t[|t| - 1] <= to then 1 else 0)
  }

  lemma {:induction false} WithinAtMost(t: seq<real>, k: nat, from: real, to: real)
    requires k <= |t| && forall i | 0 <= i < k :: t[i] < from
    ensures AttemptsWithin(t, from, to) <= |t| - k
    decreases |t|
  {
    if k < |t| { WithinAtMost(t[..|t| - 1], k, from, to); }
    else if t != [] { WithinAtMost(t[..|t| - 1], k - 1, from, to); }
  }

  lemma {:induction false} SpacedLimits(t: seq<real>, interval: real, max: nat, from: real)
    requires Sorted(t) && Spaced(t, interval, max) && interval >= 0.0
    ensures AttemptsWithin(t, from, from + interval) <= max
    decreases |t|
  {
    if t != [] {
      var n := |t|;
      if from <= t[n - 1] <= from + interval {
        if max < n {
          forall i | 0 <= i < n - max ensures t[i] < from {
            assert t[i + max] - t[i] > interval;
          }
          WithinAtMost(t, n - max, from, from + interval);
        } else {
          WithinAtMost(t, 0, from, from + interval);
        }
      } else {
        SpacedLimits(t[..n - 1], interval, max, from);
      }
    }
  }

  // ---------------------------------------------------------------- every run

  ghost predicate Invariant(s: System) {
    && (forall op: Op :: Places(s)[op] <= 1)
    && SingleFlight(s.l, s.refreshing)
    && Kinds(s)
    && WindowKept(s.l.m, s.now)
  }

  lemma StepKeeps(s: System, e: Event)
    requires Enabled(s, e) && Invariant(s)
    ensures Invariant(Next(s, e))
  {
    hide Enabled, Next, Places, SingleFlight, Kinds, WindowKept;
    StepPlaces(s, e);
    StepSingle(s, e);
    StepKinds(s, e);
    StepWindow(s, e);
    NoDuplicate(s, e);
  }

  /** Only completions not known before are handed in. */
  lemma NoDuplicate(s: System, e: Event)
    requires Enabled(s, e) && forall op: Op :: Places(s)[op] <= 1
    ensures forall op: Op :: (Places(s) + HandedIn(e))[op] <= 1
  {
  }

  lemma {:induction false} RunKeeps(s: System, events: seq<Event>)
    requires Runs(s, events) && Invariant(s)
    ensures Invariant(After(s, events)) && After(s, events).l.m.refreshWindow == s.l.m.refreshWindow
    decreases |events|
  {
    if events != [] {
      StepKeeps(s, events[0]);
      StepWindow(s, events[0]);
      RunKeeps(Next(s, events[0]), events[1..]);
    }
  }

  lemma EveryRun(credential: Option<Credential>, window: Option<RefreshWindow>, now: real, events: seq<Event>)
    requires Runs(Initial(credential, window, now), events)
    ensures Invariant(After(Initial(credential, window, now), events))
    ensures After(Initial(credential, window, now), events).l.m.refreshWindow == window
  {
    RunKeeps(Initial(credential, window, now), events);
  }

  lemma {:induction false} EmptyInterval(t: seq<real>, from: real, to: real)
    requires to < from
    ensures AttemptsWithin(t, from, to) == 0
    decreases |t|
  {
    if t != [] { EmptyInterval(t[..|t| - 1], from, to); }
  }

  /** In no run do more than `maximumAttempts` refreshes start within any closed interval of the window's length. */
  lemma SlidingWindow(credential: Option<Credential>, window: RefreshWindow, now: real, events: seq<Event>, from: real)
    requires Runs(Initial(credential, Some(window), now), events)
    ensures AttemptsWithin(After(Initial(credential, Some(window), now), events).l.m.refreshTimestamps,
                           from, from + window.interval)
         <= if window.maximumAttempts > 0 then window.maximumAttempts else 0
  {
    hide Runs, After, Places, Kinds, SingleFlight;
    EveryRun(credential, Some(window), now, events);
    var t := After(Initial(credential, Some(window), now), events).l.m.refreshTimestamps;
    if window.interval < 0.0 {
      EmptyInterval(t, from, from + window.interval);
    } else if window.maximumAttempts > 0 {
      SpacedLimits(t, window.interval, window.maximumAttempts, from);
    }
  }

  /** In every run `isRefreshing` means exactly one outstanding refresh, and otherwise nothing waits for one. */
  lemma AlwaysSingleFlight(credential: Option<Credential>, window: Option<RefreshWindow>, now: real, events: seq<Event>)
    requires Runs(Initial(credential, window, now), events)
    ensures var s := After(Initial(credential, window, now), events);
            Outstanding(s) == (if s.l.m.isRefreshing then 1 else 0)
            && (!s.l.m.isRefreshing ==> s.l.m.adaptOperations == [] && s.l.m.requestsToRetry == [])
  {
    EveryRun(credential, window, now, events);
  }

  function AllHandedIn(events: seq<Event>): multiset<Op> {
    if events == [] then multiset{} else HandedIn(events[0]) + AllHandedIn(events[1..])
  }

  lemma {:induction false} RunPlaces(s: System, events: seq<Event>)
    requires Runs(s, events)
    ensures Places(After(s, events)) == Places(s) + AllHandedIn(events)
    decreases |events|
  {
    if events != [] {
      StepPlaces(s, events[0]);
      RunPlaces(Next(s, events[0]), events[1..]);
    }
  }

  /** Nothing is running, dispatched or outstanding. */
  predicate Quiet(s: System) {
    s.calls == [] && s.l.queue == [] && s.refreshing == 0
  }

  /**
   Completions are conserved: in every run each one handed in is in exactly one place, so it is never
   answered twice, and adapts and retries are answered in their own ways; once the system is quiet every
   one of them has been answered.
   */
  lemma CompletionsConserved(credential: Option<Credential>, window: Option<RefreshWindow>, now: real, events: seq<Event>)
    requires Runs(Initial(credential, window, now), events)
    ensures var s := After(Initial(credential, window, now), events);
            && Places(s) == AllHandedIn(events)
            && (forall op: Op :: Places(s)[op] <= 1)
            && (forall op: Op :: AnsweredOps(s.answered)[op] <= 1)
            && (forall i | 0 <= i < |s.answered| :: FitsOp(s.answered[i]))
            && (Quiet(s) ==> AnsweredOps(s.answered) == AllHandedIn(events))
  {
    EveryRun(credential, window, now, events);
    RunPlaces(Initial(credential, window, now), events);
    var s := After(Initial(credential, window, now), events);
    forall op: Op ensures AnsweredOps(s.answered)[op] <= 1 {
      assert AnsweredOps(s.answered)[op] <= Places(s)[op];
    }
  }
}
