/** Request: finishing, and the response serializers that run one after the other before all completions. */
module SerializerPipeline {
  // Each access to the protected mutable state is one atomic step.  `finish`, the completion of a serializer and
  // the processing of the next one run as blocks of the serial underlying queue; appending, cancelling, resuming,
  // suspending and the serializers themselves interleave freely with the steps of those blocks.

  import opened Options

  datatype State = Initialized | Resumed | Suspended | Cancelled | Finished {
    predicate CanTransitionTo(state: State) {
      if Initialized? then true
      else if state.Initialized? || Cancelled? || Finished? then false
      else if state.Finished? || state.Cancelled? then true
      else this != state
    }
  }

  /** A response serializer, also standing for the completion it comes with. */
  type Serializer = nat

  datatype MutableState = MutableState(
    state: State,
    responseSerializers: seq<Serializer>,
    responseSerializerCompletions: seq<Serializer>,
    responseSerializerProcessingFinished: bool,
    isFinishing: bool)

  datatype Block = FinishBlock | ProcessBlock | ResumeBlock | CompleteBlock(serializer: Serializer)

  /** The state behind the lock together with the underlying queue that is dispatched to from inside it. */
  datatype Locked = Locked(m: MutableState, queue: seq<Block>)

  // ---------------------------------------------------------------- inside the lock

  function AppendSerializer(l: Locked, serializer: Serializer): Locked {
    var state := if l.m.state.Finished? then Resumed else l.m.state;
    Locked(l.m.(responseSerializers := l.m.responseSerializers + [serializer], state := state),
           l.queue
           + (if l.m.responseSerializerProcessingFinished then [ProcessBlock] else [])
           + (if state.CanTransitionTo(Resumed) then [ResumeBlock] else []))
  }

  function NextSerializer(m: MutableState): Option<Serializer> {
    var index := |m.responseSerializerCompletions|;
    if index < |m.responseSerializers| then Some(m.responseSerializers[index]) else None
  }

  function ClearSerializers(m: MutableState): MutableState {
    MutableState(if m.state.CanTransitionTo(Finished) then Finished else m.state, [], [], true, false)
  }

  function DidComplete(m: MutableState, serializer: Serializer): MutableState {
    m.(responseSerializerCompletions := m.responseSerializerCompletions + [serializer])
  }

  /** cancel; without a task still to complete it also has to finish the request itself. */
  function CancelLocked(l: Locked, taskUnderWay: bool): Locked {
    if !l.m.state.CanTransitionTo(Cancelled) then l
    else Locked(l.m.(state := Cancelled), if taskUnderWay then l.queue else l.queue + [FinishBlock])
  }

  function MoveTo(m: MutableState, state: State): MutableState {
    if m.state.CanTransitionTo(state) then m.(state := state) else m
  }

  // ---------------------------------------------------------------- the system

  /** How far the running block of the underlying queue has come. */
  datatype Running =
    | Idle
    | Finishing                         // past the guard of finish
    | Processing                        // about to ask for the next serializer
    | Clearing                          // there was none left
    | Invoking(completions: seq<Serializer>)

  datatype System = System(
    l: Locked,
    running: Running,
    inFlight: seq<Serializer>,          // started, completion not yet reported
    appended: seq<Serializer>,
    started: seq<Serializer>,
    invoked: seq<Serializer>,
    firstRound: Option<seq<Serializer>>) // what had been started at the first clearing

  datatype Event =
    | Append(serializer: Serializer)
    | Cancel(taskUnderWay: bool)
    | Resume
    | Suspend
    | CompleteTask
    | RunBlock(startImmediately: bool)
    | Advance
    | Report(k: nat)

  predicate Enabled(s: System, e: Event) {
    match e
    case Append(serializer) => serializer !in s.appended
    case RunBlock(_) => s.running.Idle? && s.l.queue != []
    case Advance => !s.running.Idle?
    case Report(k) => k < |s.inFlight|
    case _ => true
  }

  /** `startImmediately` is what the delegate says when the block asks it. */
  function StartBlock(s: System, startImmediately: bool): System
    requires s.l.queue != []
  {
    var s' := s.(l := s.l.(queue := s.l.queue[1..]));
    match s.l.queue[0]
    case FinishBlock => if s.l.m.isFinishing then s' else s'.(running := Finishing)
    case ProcessBlock => s'.(running := Processing)
    case ResumeBlock => if startImmediately then s'.(l := s'.l.(m := MoveTo(s.l.m, Resumed))) else s'
    case CompleteBlock(serializer) => s'.(l := s'.l.(m := DidComplete(s.l.m, serializer)), running := Processing)
  }

  function StepRunning(s: System): System {
    match s.running
    case Idle => s
    case Finishing => s.(l := s.l.(m := s.l.m.(isFinishing := true)), running := Processing)
    case Processing => (
      match NextSerializer(s.l.m)
      case Some(next) => s.(running := Idle, started := s.started + [next], inFlight := s.inFlight + [next])
      case None => s.(running := Clearing))
    case Clearing =>
      s.(l := s.l.(m := ClearSerializers(s.l.m)), running := Invoking(s.l.m.responseSerializerCompletions),
         firstRound := if s.firstRound.None? then Some(s.started) else s.firstRound)
    case Invoking(completions) =>
      if completions == [] then s.(running := Idle)
      else s.(running := Invoking(completions[1..]), invoked := s.invoked + [completions[0]])
  }

  function Next(s: System, e: Event): System
    requires Enabled(s, e)
  {
    match e
    case Append(serializer) => s.(l := AppendSerializer(s.l, serializer), appended := s.appended + [serializer])
    case Cancel(taskUnderWay) => s.(l := CancelLocked(s.l, taskUnderWay))
    case Resume => s.(l := s.l.(m := MoveTo(s.l.m, Resumed)))
    case Suspend => s.(l := s.l.(m := MoveTo(s.l.m, Suspended)))
    case CompleteTask => s.(l := s.l.(queue := s.l.queue + [FinishBlock]))
    case RunBlock(startImmediately) => StartBlock(s, startImmediately)
    case Advance => StepRunning(s)
    case Report(k) =>
      s.(l := s.l.(queue := s.l.queue + [CompleteBlock(s.inFlight[k])]), inFlight := s.inFlight[..k] + s.inFlight[k + 1..])
  }

  function Initial(): System {
    System(Locked(MutableState(Initialized, [], [], false, false), []), Idle, [], [], [], [], None)
  }

  predicate Runs(s: System, events: seq<Event>)
    decreases |events|
  {
    events == [] || (Enabled(s, events[0]) && Runs(Next(s, events[0]), events[1..]))
  }

  function After(s: System, events: seq<Event>): System
    requires Runs(s, events)
    decreases |events|
  {
    if events == [] then s else After(Next(s, events[0]), events[1..])
  }

  // ---------------------------------------------------------------- the first round

  /** Serializers whose completion is on the underlying queue. */
  function Reported(queue: seq<Block>): seq<Serializer> {
    if queue == [] then []
    else (if queue[0].CompleteBlock? then [queue[0].serializer] else []) + Reported(queue[1..])
  }

  lemma {:induction false} ReportedAppend(queue: seq<Block>, b: Block)
    ensures Reported(queue + [b]) == Reported(queue) + if b.CompleteBlock? then [b.serializer] else []
  {
    if queue != [] {
      assert (queue + [b])[1..] == queue[1..] + [b];
      ReportedAppend(queue[1..], b);
    }
  }

  /** Appending dispatches no completion. */
  lemma AppendReports(l: Locked, serializer: Serializer)
    ensures Reported(AppendSerializer(l, serializer).queue) == Reported(l.queue)
    ensures ProcessBlock in AppendSerializer(l, serializer).queue ==>
      ProcessBlock in l.queue || l.m.responseSerializerProcessingFinished
  {
    hide Reported;
    var queue := l.queue + (if l.m.responseSerializerProcessingFinished then [ProcessBlock] else []);
    assert l.queue + [] == l.queue && queue + [] == queue;
    ReportedAppend(l.queue, ProcessBlock);
    ReportedAppend(queue, ResumeBlock);
  }

  /** Serializers that were started and whose completion has not been taken in yet. */
  function Pending(s: System): seq<Serializer> {
    Reported(s.l.queue) + s.inFlight
  }

  predicate Distinct(a: seq<Serializer>) {
    forall i, j :: 0 <= i < j < |a| ==> a[i] != a[j]
  }

  /** Before the first clearing: one thing at a time, in the order of appending. */
  predicate InFirstRound(s: System) {
    var m := s.l.m;
    var busy := s.running.Finishing? || s.running.Processing? || s.running.Clearing?;
    && m.responseSerializers == s.appended
    && s.started == m.responseSerializerCompletions + Pending(s)
    && s.started <= s.appended
    && ProcessBlock !in s.l.queue
    && !s.running.Invoking? && s.invoked == [] && s.firstRound == None
    && |Pending(s)| + (if busy then 1 else 0) == (if m.isFinishing || s.running.Finishing? then 1 else 0)
    && (!m.isFinishing ==> s.started == [])
  }

  /** From the first clearing on: its completions are being called, or have been called, in order. */
  predicate AfterFirstRound(s: System) {
    && s.firstRound.Some? && s.firstRound.value <= s.appended && s.firstRound.value <= s.started
    && (|| (s.running.Invoking? && s.invoked + s.running.completions == s.firstRound.value)
        || s.firstRound.value <= s.invoked)
  }

  predicate Inv(s: System) {
    && Distinct(s.appended)
    && (if s.l.m.responseSerializerProcessingFinished then AfterFirstRound(s) else InFirstRound(s))
  }

  /** What the state behind the lock keeps to by itself. */
  predicate Consistent(l: Locked) {
    !l.m.responseSerializerProcessingFinished ==>
      && ProcessBlock !in l.queue
      && |l.m.responseSerializerCompletions| <= |l.m.responseSerializers|
      && (!l.m.isFinishing ==> l.m.responseSerializerCompletions == [])
  }

  lemma InvIsConsistent(s: System)
    requires Inv(s)
    ensures Consistent(s.l)
  {
    hide Reported;
  }

  lemma FirstRoundAppend(s: System, serializer: Serializer)
    requires Inv(s) && !s.l.m.responseSerializerProcessingFinished && Enabled(s, Append(serializer))
    ensures InFirstRound(Next(s, Append(serializer)))
  {
    hide Reported;
    AppendReports(s.l, serializer);
  }

  /** The state of the request does not matter here. */
  lemma FirstRoundState(s: System, state: State)
    requires InFirstRound(s)
    ensures InFirstRound(s.(l := s.l.(m := s.l.m.(state := state))))
  {
    hide Reported;
  }

  lemma FirstRoundFinish(s: System)
    requires InFirstRound(s)
    ensures InFirstRound(s.(l := s.l.(queue := s.l.queue + [FinishBlock])))
  {
    hide Reported;
    ReportedAppend(s.l.queue, FinishBlock);
  }

  lemma FirstRoundReport(s: System, k: nat)
    requires InFirstRound(s) && Enabled(s, Report(k))
    ensures InFirstRound(Next(s, Report(k)))
  {
    hide Reported;
    var b, s' := CompleteBlock(s.inFlight[k]), Next(s, Report(k));
    ReportedAppend(s.l.queue, b);
    assert |Pending(s)| == 1 && k == 0;
    assert Reported(s.l.queue) == [] && s'.inFlight == [];
    assert Pending(s) == [s.inFlight[k]] == Pending(s');
  }

  lemma FirstRoundQueue(s: System, e: Event)
    requires InFirstRound(s) && Enabled(s, e)
    requires e.Cancel? || e.Resume? || e.Suspend? || e.CompleteTask? || e.Report?
    ensures InFirstRound(Next(s, e))
  {
    hide InFirstRound;
    match e
    case Cancel(taskUnderWay) =>
      FirstRoundState(s, Cancelled);
      FirstRoundFinish(s.(l := s.l.(m := s.l.m.(state := Cancelled))));
    case Resume => FirstRoundState(s, Resumed);
    case Suspend => FirstRoundState(s, Suspended);
    case CompleteTask => FirstRoundFinish(s);
    case Report(k) => FirstRoundReport(s, k);
  }

  lemma FirstRoundBlock(s: System, startImmediately: bool)
    requires Inv(s) && !s.l.m.responseSerializerProcessingFinished && Enabled(s, RunBlock(startImmediately))
    ensures InFirstRound(Next(s, RunBlock(startImmediately)))
  {
    var s' := Next(s, RunBlock(startImmediately));
    assert s.l.queue == [s.l.queue[0]] + s.l.queue[1..];
    if s.l.queue[0].CompleteBlock? {
      assert s'.inFlight == [] && Reported(s'.l.queue) == [];
    }
  }

  lemma FirstRoundAdvance(s: System)
    requires Inv(s) && !s.l.m.responseSerializerProcessingFinished && Enabled(s, Advance)
    ensures Inv(Next(s, Advance))
  {
    hide Reported, AfterFirstRound;
    var s' := Next(s, Advance);
    if s.running.Processing? {
      assert Pending(s) == [] && s.inFlight == [];
      if NextSerializer(s.l.m).Some? { assert Pending(s') == [NextSerializer(s.l.m).value]; }
    } else if s.running.Clearing? {
      ClearedFirstRound(s);
    }
  }

  lemma ClearedFirstRound(s: System)
    requires Inv(s) && !s.l.m.responseSerializerProcessingFinished && s.running.Clearing?
    ensures AfterFirstRound(Next(s, Advance))
  {
    hide Reported;
    assert Pending(s) == [];
  }

  lemma LaterStep(s: System, e: Event)
    requires Inv(s) && s.l.m.responseSerializerProcessingFinished && Enabled(s, e)
    ensures AfterFirstRound(Next(s, e)) && Next(s, e).l.m.responseSerializerProcessingFinished
  {
  }

  lemma StepKeepsInv(s: System, e: Event)
    requires Inv(s) && Enabled(s, e)
    ensures Inv(Next(s, e))
  {
    hide InFirstRound, AfterFirstRound;
    if s.l.m.responseSerializerProcessingFinished {
      LaterStep(s, e);
    } else {
      match e
      case Append(serializer) => FirstRoundAppend(s, serializer);
      case RunBlock(startImmediately) => FirstRoundBlock(s, startImmediately);
      case Advance => FirstRoundAdvance(s);
      case _ => FirstRoundQueue(s, e);
    }
  }

  lemma {:induction false} RunKeepsInv(s: System, events: seq<Event>)
    requires Inv(s) && Runs(s, events)
    ensures Inv(After(s, events))
    decreases |events|
  {
    hide Inv;
    if events != [] {
      StepKeepsInv(s, events[0]);
      RunKeepsInv(Next(s, events[0]), events[1..]);
    }
  }
}
