/** AuthenticationInterceptor: adapts and retries that queue behind a single credential refresh. */
module Authentication {
  // Every `mutableState.write` and every step of the serial dispatch queue is one atomic step; the steps of
  // all threads interleave freely.

  import opened Options

  type Credential = nat

  /** A completion handed to `adapt` or to `retry`. */
  datatype Op = AdaptOp(id: nat) | RetryOp(id: nat)

  datatype AuthenticationError = MissingCredential | ExcessiveRefresh | RefreshError(code: nat)

  /** What a completion is called with. */
  datatype Answer =
    | Adapted(credential: Credential)
    | AdaptFailed(error: AuthenticationError)
    | Retry
    | DoNotRetry
    | DoNotRetryWithError(error: AuthenticationError)

  datatype RefreshWindow = RefreshWindow(interval: real, maximumAttempts: int)

  datatype MutableState = MutableState(
    credential: Option<Credential>,
    isRefreshing: bool,
    refreshTimestamps: seq<real>,
    refreshWindow: Option<RefreshWindow>,
    adaptOperations: seq<Op>,
    requestsToRetry: seq<Op>)

  /**
   Blocks on the interceptor's queue; the first one is running. `current` is an adapt on its way to its
   completion.
   */
  datatype Block =
    | RefreshBlock(credential: Credential)
    | SuccessBlock(current: Option<Answered>, adapts: seq<Op>, retries: seq<Op>)
    | FailureBlock(error: AuthenticationError, adapts: seq<Op>, retries: seq<Op>)

  datatype Answered = Answered(op: Op, answer: Answer)

  /** The state behind the lock together with the blocks dispatched from inside it. */
  datatype Locked = Locked(m: MutableState, queue: seq<Block>)

  datatype AdaptResult = Adapt(credential: Credential) | DoNotAdapt(error: AuthenticationError) | AdaptDeferred

  // ---------------------------------------------------------------- inside the lock

  /** The reduce of isRefreshExcessive. */
  function AttemptsSince(timestamps: seq<real>, min: real): nat {
    if timestamps == [] then 0
    else AttemptsSince(timestamps[..|timestamps| - 1], min) + (if min <= timestamps[|timestamps| - 1] then 1 else 0)
  }

  predicate IsRefreshExcessive(m: MutableState, now: real) {
    m.refreshWindow.Some?
    && AttemptsSince(m.refreshTimestamps, now - m.refreshWindow.value.interval) >= m.refreshWindow.value.maximumAttempts
  }

  function HandleRefreshSuccess(l: Locked, credential: Credential): Locked {
    Locked(l.m.(credential := Some(credential), adaptOperations := [], requestsToRetry := [], isRefreshing := false),
           l.queue + [SuccessBlock(None, l.m.adaptOperations, l.m.requestsToRetry)])
  }

  function HandleRefreshFailure(l: Locked, error: AuthenticationError): Locked {
    Locked(l.m.(adaptOperations := [], requestsToRetry := [], isRefreshing := false),
           l.queue + [FailureBlock(error, l.m.adaptOperations, l.m.requestsToRetry)])
  }

  /** refresh, with the two readings of the clock it makes. */
  function Refresh(l: Locked, credential: Credential, checked: real, started: real): Locked {
    if IsRefreshExcessive(l.m, checked) then HandleRefreshFailure(l, ExcessiveRefresh)
    else Locked(l.m.(refreshTimestamps := l.m.refreshTimestamps + [started], isRefreshing := true),
                l.queue + [RefreshBlock(credential)])
  }

  /** The critical section of adapt; `requiresRefresh` is what the credential says at that moment. */
  function AdaptResultOf(l: Locked, requiresRefresh: bool): AdaptResult {
    if l.m.isRefreshing then AdaptDeferred
    else if l.m.credential.None? then DoNotAdapt(MissingCredential)
    else if requiresRefresh then AdaptDeferred
    else Adapt(l.m.credential.value)
  }

  function AdaptLocked(l: Locked, op: Op, requiresRefresh: bool, checked: real, started: real): Locked {
    if AdaptResultOf(l, requiresRefresh) != AdaptDeferred then l
    else
      var queued := l.(m := l.m.(adaptOperations := l.m.adaptOperations + [op]));
      if l.m.isRefreshing then queued else Refresh(queued, l.m.credential.value, checked, started)
  }

  /** The critical section of retry, with the credential read before the lock was taken. */
  function RetryLocked(l: Locked, op: Op, credential: Credential, checked: real, started: real): Locked {
    var queued := l.(m := l.m.(requestsToRetry := l.m.requestsToRetry + [op]));
    if l.m.isRefreshing then queued else Refresh(queued, credential, checked, started)
  }

  // ---------------------------------------------------------------- the system

  /** A call of adapt or retry on some thread. */
  datatype Call =
    | AdaptCall(op: Op)
    | RetryCall(op: Op)
    | RetryWithCredential(op: Op, credential: Credential)
    | Finishing(op: Op, answer: Answer)

  datatype System = System(
    l: Locked,
    refreshing: nat,          // refreshes the authenticator has been asked for and not answered
    calls: seq<Call>,
    answered: seq<Answered>,
    now: real)

  datatype Event =
    | CallAdapt(op: Op)
    | CallRetry(op: Op)
    | AdaptLock(call: nat, requiresRefresh: bool, checked: real, started: real)
    | RetryDecline(call: nat)
    | RetryRead(call: nat, authenticatedWithIt: bool)
    | RetryLock(call: nat, checked: real, started: real)
    | Complete(call: nat)
    | RunBlock(requiresRefresh: bool, checked: real, started: real)
    | RefreshSucceeded(credential: Credential)
    | RefreshFailed(code: nat)
    | SetCredential(newCredential: Option<Credential>)

  /** The clock does not run backwards. */
  predicate ClockOk(s: System, checked: real, started: real) {
    s.now <= checked <= started
  }

  /** Handed in before: in a call, queued, dispatched or answered. */
  predicate Known(s: System, op: Op) {
    op in Places(s)
  }

  predicate Enabled(s: System, e: Event) {
    match e
    case CallAdapt(op) => op.AdaptOp? && !Known(s, op)
    case CallRetry(op) => op.RetryOp? && !Known(s, op)
    case AdaptLock(c, _, checked, started) => c < |s.calls| && s.calls[c].AdaptCall? && ClockOk(s, checked, started)
    case RetryDecline(c) => c < |s.calls| && s.calls[c].RetryCall?
    case RetryRead(c, _) => c < |s.calls| && s.calls[c].RetryCall?
    case RetryLock(c, checked, started) => c < |s.calls| && s.calls[c].RetryWithCredential? && ClockOk(s, checked, started)
    case Complete(c) => c < |s.calls| && s.calls[c].Finishing?
    case RunBlock(_, checked, started) => s.l.queue != [] && ClockOk(s, checked, started)
    case RefreshSucceeded(_) => s.refreshing > 0
    case RefreshFailed(_) => s.refreshing > 0
    case SetCredential(_) => true
  }

  function Without<T>(a: seq<T>, i: nat): seq<T>
    requires i < |a|
  {
    a[..i] + a[i + 1..]
  }

  /** One step of the block at the head of the queue. */
  function StepBlock(s: System, requiresRefresh: bool, checked: real, started: real): System
    requires s.l.queue != []
  {
    var rest := s.l.(queue := s.l.queue[1..]);
    match s.l.queue[0]
    case RefreshBlock(_) => s.(l := rest, refreshing := s.refreshing + 1)
    case SuccessBlock(current, adapts, retries) => (
      if current.Some? then
        s.(l := s.l.(queue := s.l.queue[0 := SuccessBlock(None, adapts, retries)]), answered := s.answered + [current.value])
      else if adapts != [] then
        var result := AdaptResultOf(s.l, requiresRefresh);
        var l := AdaptLocked(s.l, adapts[0], requiresRefresh, checked, started);
        var answer := match result
          case Adapt(c) => Some(Answered(adapts[0], Adapted(c)))
          case DoNotAdapt(e) => Some(Answered(adapts[0], AdaptFailed(e)))
          case AdaptDeferred => None;
        s.(l := l.(queue := l.queue[0 := SuccessBlock(answer, adapts[1..], retries)]), now := started)
      else if retries != [] then
        s.(l := s.l.(queue := s.l.queue[0 := SuccessBlock(None, [], retries[1..])]),
           answered := s.answered + [Answered(retries[0], Retry)])
      else s.(l := rest))
    case FailureBlock(error, adapts, retries) =>
      if adapts != [] then
        s.(l := s.l.(queue := s.l.queue[0 := FailureBlock(error, adapts[1..], retries)]),
           answered := s.answered + [Answered(adapts[0], AdaptFailed(error))])
      else if retries != [] then
        s.(l := s.l.(queue := s.l.queue[0 := FailureBlock(error, [], retries[1..])]),
           answered := s.answered + [Answered(retries[0], DoNotRetryWithError(error))])
      else s.(l := rest)
  }

  function Next(s: System, e: Event): System
    requires Enabled(s, e)
  {
    match e
    case CallAdapt(op) => s.(calls := s.calls + [AdaptCall(op)])
    case CallRetry(op) => s.(calls := s.calls + [RetryCall(op)])
    case AdaptLock(c, requiresRefresh, checked, started) =>
      var op := s.calls[c].op;
      var s' := s.(l := AdaptLocked(s.l, op, requiresRefresh, checked, started), now := started);
      (match AdaptResultOf(s.l, requiresRefresh)
       case Adapt(credential) => s'.(calls := s.calls[c := Finishing(op, Adapted(credential))])
       case DoNotAdapt(error) => s'.(calls := s.calls[c := Finishing(op, AdaptFailed(error))])
       case AdaptDeferred => s'.(calls := Without(s.calls, c)))
    case RetryDecline(c) => s.(calls := s.calls[c := Finishing(s.calls[c].op, DoNotRetry)])
    case RetryRead(c, authenticatedWithIt) =>
      var op := s.calls[c].op;
      if s.l.m.credential.None? then s.(calls := s.calls[c := Finishing(op, DoNotRetryWithError(MissingCredential))])
      else if !authenticatedWithIt then s.(calls := s.calls[c := Finishing(op, Retry)])
      else s.(calls := s.calls[c := RetryWithCredential(op, s.l.m.credential.value)])
    case RetryLock(c, checked, started) =>
      s.(l := RetryLocked(s.l, s.calls[c].op, s.calls[c].credential, checked, started),
         calls := Without(s.calls, c), now := started)
    case Complete(c) => s.(calls := Without(s.calls, c), answered := s.answered + [Answered(s.calls[c].op, s.calls[c].answer)])
    case RunBlock(requiresRefresh, checked, started) => StepBlock(s, requiresRefresh, checked, started)
    case RefreshSucceeded(credential) => s.(l := HandleRefreshSuccess(s.l, credential), refreshing := s.refreshing - 1)
    case RefreshFailed(code) => s.(l := HandleRefreshFailure(s.l, RefreshError(code)), refreshing := s.refreshing - 1)
    case SetCredential(credential) => s.(l := s.l.(m := s.l.m.(credential := credential)))
  }

  function Initial(credential: Option<Credential>, window: Option<RefreshWindow>, now: real): System {
    System(Locked(MutableState(credential, false, [], window, [], []), []), 0, [], [], now)
  }

  /** A run from `s`: every event is enabled where it happens. */
  predicate Runs(s: System, events: seq<Event>)
    decreases |events|
  {
    events == [] || (Enabled(s, events[0]) && Runs(Next(s, events[0]), events[1..]))
  }

  function After(s: System, events: seq<Event>): System
    requires Runs(s, events)
    decreases |events|
  {
    if events == [] then s else After(Next(s, events[0]), events[1..])
  }

  // ---------------------------------------------------------------- where the completions are

  function CallOps(calls: seq<Call>): multiset<Op> {
    if calls == [] then multiset{} else multiset{calls[0].op} + CallOps(calls[1..])
  }

  function BlockOps(b: Block): multiset<Op> {
    match b
    case RefreshBlock(_) => multiset{}
    case SuccessBlock(current, adapts, retries) =>
      (if current.Some? then multiset{current.value.op} else multiset{}) + multiset(adapts) + multiset(retries)
    case FailureBlock(_, adapts, retries) => multiset(adapts) + multiset(retries)
  }

  function QueueOps(queue: seq<Block>): multiset<Op> {
    if queue == [] then multiset{} else BlockOps(queue[0]) + QueueOps(queue[1..])
  }

  function AnsweredOps(answered: seq<Answered>): multiset<Op> {
    if answered == [] then multiset{}
    else AnsweredOps(answered[..|answered| - 1]) + multiset{answered[|answered| - 1].op}
  }

  /** Waiting behind the lock or in a dispatched block. */
  function LockedOps(l: Locked): multiset<Op> {
    multiset(l.m.adaptOperations) + multiset(l.m.requestsToRetry) + QueueOps(l.queue)
  }

  /** Every completion handed in, wherever it is, as often as it is there. */
  function Places(s: System): multiset<Op> {
    CallOps(s.calls) + LockedOps(s.l) + AnsweredOps(s.answered)
  }

  lemma {:induction false} QueueOpsAppend(queue: seq<Block>, b: Block)
    ensures QueueOps(queue + [b]) == QueueOps(queue) + BlockOps(b)
  {
    if queue == [] {
    } else {
      assert (queue + [b])[1..] == queue[1..] + [b];
      QueueOpsAppend(queue[1..], b);
    }
  }

  lemma {:induction false} CallOpsAppend(calls: seq<Call>, c: Call)
    ensures CallOps(calls + [c]) == CallOps(calls) + multiset{c.op}
  {
    if calls != [] {
      assert (calls + [c])[1..] == calls[1..] + [c];
      CallOpsAppend(calls[1..], c);
    }
  }

  lemma {:induction false} CallOpsWithout(calls: seq<Call>, i: nat)
    requires i < |calls|
    ensures CallOps(calls) == CallOps(Without(calls, i)) + multiset{calls[i].op}
  {
    if i == 0 {
      assert Without(calls, 0) == calls[1..];
    } else {
      assert Without(calls, i)[1..] == Without(calls[1..], i - 1);
      CallOpsWithout(calls[1..], i - 1);
    }
  }

  /** Moving on within a call does not move its completion. */
  lemma {:induction false} CallOpsUpdate(calls: seq<Call>, i: nat, c: Call)
    requires i < |calls| && c.op == calls[i].op
    ensures CallOps(calls[i := c]) == CallOps(calls)
  {
    if i == 0 {
      assert calls[i := c][1..] == calls[1..];
    } else {
      assert calls[i := c][1..] == calls[1..][i - 1 := c];
      CallOpsUpdate(calls[1..], i - 1, c);
    }
  }

  lemma QueueHead(queue: seq<Block>, b: Block)
    requires queue != []
    ensures QueueOps(queue[0 := b]) == BlockOps(b) + QueueOps(queue[1..])
    ensures QueueOps(queue) == BlockOps(queue[0]) + QueueOps(queue[1..])
  {
    assert queue[0 := b][1..] == queue[1..];
  }

  lemma AnsweredAppend(answered: seq<Answered>, a: Answered)
    ensures AnsweredOps(answered + [a]) == AnsweredOps(answered) + multiset{a.op}
  {
    assert (answered + [a])[..|answered|] == answered;
  }

  lemma RefreshOps(l: Locked, credential: Credential, checked: real, started: real)
    ensures LockedOps(Refresh(l, credential, checked, started)) == LockedOps(l)
  {
    QueueOpsAppend(l.queue, RefreshBlock(credential));
    QueueOpsAppend(l.queue, FailureBlock(ExcessiveRefresh, l.m.adaptOperations, l.m.requestsToRetry));
  }

  lemma AdaptOps(l: Locked, op: Op, requiresRefresh: bool, checked: real, started: real)
    ensures LockedOps(AdaptLocked(l, op, requiresRefresh, checked, started))
         == LockedOps(l) + if AdaptResultOf(l, requiresRefresh) == AdaptDeferred then multiset{op} else multiset{}
  {
    var queued := l.(m := l.m.(adaptOperations := l.m.adaptOperations + [op]));
    if l.m.credential.Some? { RefreshOps(queued, l.m.credential.value, checked, started); }
  }
}
