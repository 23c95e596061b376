/** The response serializer pipeline in all its rounds: when a serializer is started a second time. */
module SerializerRounds {
  import opened Options
  import opened SerializerPipeline

  // ---------------------------------------------------------------- every round

  /** Started serializers that are still listed have completed or are pending, in the order of the list. */
  predicate Listed(s: System) {
    var list, done := s.l.m.responseSerializers, |s.l.m.responseSerializerCompletions|;
    && Distinct(s.appended) && Distinct(list)
    && (forall x <- list :: x in s.appended)
    && (forall x <- s.started :: x in s.appended)
    && (forall x <- Pending(s) :: x in s.started)
    && (forall k | 0 <= k < |list| && list[k] in s.started :: k < done || list[k] in Pending(s))
    && (forall k | 0 <= k < |list| && list[k] in Pending(s) :: k <= done)
  }

  lemma ListedAppend(s: System, x: Serializer)
    requires Listed(s) && Enabled(s, Append(x))
    ensures Listed(Next(s, Append(x)))
  {
    hide Reported;
    AppendReports(s.l, x);
    assert Pending(Next(s, Append(x))) == Pending(s);
  }

  lemma ListedBlock(s: System, startImmediately: bool)
    requires Listed(s) && Enabled(s, RunBlock(startImmediately))
    ensures Listed(Next(s, RunBlock(startImmediately)))
  {
    var b, s' := s.l.queue[0], Next(s, RunBlock(startImmediately));
    assert Pending(s) == (if b.CompleteBlock? then [b.serializer] else []) + Pending(s');
    hide Reported;
    var list := s.l.m.responseSerializers;
    forall k | 0 <= k < |list| && list[k] in s.started
      ensures k < |s'.l.m.responseSerializerCompletions| || list[k] in Pending(s')
    {
      if b.CompleteBlock? && list[k] == b.serializer { assert list[k] in Pending(s); }
    }
    forall x | x in Pending(s') ensures x in Pending(s) {
    }
  }

  lemma ListedAdvance(s: System)
    requires Listed(s) && Enabled(s, Advance)
    ensures Listed(Next(s, Advance))
  {
    hide Reported;
    if s.running.Processing? && NextSerializer(s.l.m).Some? {
      var x, s' := NextSerializer(s.l.m).value, Next(s, Advance);
      assert Pending(s') == Pending(s) + [x];
    }
  }

  lemma ListedReport(s: System, k: nat)
    requires Listed(s) && Enabled(s, Report(k))
    ensures Listed(Next(s, Report(k)))
  {
    hide Reported;
    var s' := Next(s, Report(k));
    ReportedAppend(s.l.queue, CompleteBlock(s.inFlight[k]));
    assert s.inFlight == s.inFlight[..k] + [s.inFlight[k]] + s.inFlight[k + 1..];
    forall x ensures x in Pending(s') <==> x in Pending(s) {
    }
  }

  lemma ListedStep(s: System, e: Event)
    requires Listed(s) && Enabled(s, e)
    ensures Listed(Next(s, e))
  {
    hide Reported;
    match e
    case Append(x) => ListedAppend(s, x);
    case RunBlock(startImmediately) => ListedBlock(s, startImmediately);
    case Advance => ListedAdvance(s);
    case Report(k) => ListedReport(s, k);
    case _ => ReportedAppend(s.l.queue, FinishBlock);
  }

  lemma {:induction false} ListedRun(s: System, events: seq<Event>)
    requires Listed(s) && Runs(s, events)
    ensures Listed(After(s, events))
    decreases |events|
  {
    hide Listed, Next, Enabled;
    if events != [] {
      ListedStep(s, events[0]);
      ListedRun(Next(s, events[0]), events[1..]);
    }
  }

  // ---------------------------------------------------------------- started twice

  /** In every run, what is about to be started has been started before exactly when it is still pending. */
  lemma StartedBefore(events: seq<Event>)
    requires Runs(Initial(), events)
    requires var s := After(Initial(), events); s.running.Processing? && NextSerializer(s.l.m).Some?
    ensures var s := After(Initial(), events);
            var x := NextSerializer(s.l.m).value;
            x in s.started <==> x in Pending(s)
  {
    InitialListed();
    hide Reported;
    ListedRun(Initial(), events);
  }

  /** The step starts a serializer whose completion is still to come. */
  predicate StartsPending(s: System, e: Event) {
    e.Advance? && s.running.Processing? && NextSerializer(s.l.m).Some? && NextSerializer(s.l.m).value in Pending(s)
  }

  lemma {:induction false} RunsPrefix(s: System, events: seq<Event>, k: nat)
    requires Runs(s, events) && k <= |events|
    ensures Runs(s, events[..k]) && Runs(After(s, events[..k]), events[k..])
    ensures After(After(s, events[..k]), events[k..]) == After(s, events)
    decreases k
  {
    hide Next, Enabled;
    if k == 0 {
      assert events[..0] == [] && events[0..] == events;
    } else {
      var rest := events[1..];
      RunsPrefix(Next(s, events[0]), rest, k - 1);
      assert events[..k][0] == events[0] && events[..k][1..] == rest[..k - 1] && events[k..] == rest[k - 1..];
    }
  }

  /** Step `k` of the run is such a step. */
  predicate StartsPendingAt(start: System, events: seq<Event>, k: nat) {
    k < |events| && Runs(start, events[..k]) && StartsPending(After(start, events[..k]), events[k])
  }

  lemma StartsOnce(s: System, e: Event)
    requires Listed(s) && Enabled(s, e)
    ensures Distinct(Next(s, e).started) <==> Distinct(s.started) && !StartsPending(s, e)
  {
    hide Reported;
    if e.Advance? && s.running.Processing? && NextSerializer(s.l.m).Some? {
      var x, n := NextSerializer(s.l.m).value, |s.started|;
      var after := s.started + [x];
      assert Next(s, e).started == after && after[n] == x;
      assert forall i | 0 <= i < n :: after[i] == s.started[i];
    }
  }

  /** In every run a serializer is started twice exactly when a step starts one whose completion is still to come. */
  lemma {:induction false} StartedTwiceExactly(events: seq<Event>)
    requires Runs(Initial(), events)
    ensures Distinct(After(Initial(), events).started) <==> forall k: nat :: !StartsPendingAt(Initial(), events, k)
    decreases |events|
  {
    InitialListed();
    hide Next, Enabled, Listed, StartsPending, Initial;
    if events != [] {
      var n := |events| - 1;
      var before, e := events[..n], events[n];
      RunsPrefix(Initial(), events, n);
      var s := After(Initial(), before);
      assert events[n..] == [e] && [e][1..] == [];
      assert After(s, [e]) == Next(s, e);
      StartedTwiceExactly(before);
      ListedRun(Initial(), before);
      StartsOnce(s, e);
      forall k: nat | k < n ensures StartsPendingAt(Initial(), events, k) <==> StartsPendingAt(Initial(), before, k) {
        assert events[..k] == before[..k];
      }
      assert StartsPendingAt(Initial(), events, n) <==> StartsPending(s, e);
    }
  }

  lemma InitialListed()
    ensures Listed(Initial()) && Distinct(Initial().started)
  {
  }

  // ---------------------------------------------------------------- a witness

  lemma Cons(s: System, e: Event, events: seq<Event>)
    requires Enabled(s, e) && Runs(Next(s, e), events)
    ensures Runs(s, [e] + events) && After(s, [e] + events) == After(Next(s, e), events)
  {
    assert ([e] + events)[1..] == events;
  }

  /** Finished once without any serializer. */
  function FinishedRequest(): System {
    Initial().(l := Locked(MutableState(Finished, [], [], true, false), []), firstRound := Some([]))
  }

  lemma FinishedRequestReached() returns (events: seq<Event>)
    ensures Runs(Initial(), events) && After(Initial(), events) == FinishedRequest()
  {
    var s0 := Initial();
    var s1 := Next(s0, CompleteTask);
    var s2 := Next(s1, RunBlock(true));
    var s3 := Next(s2, Advance);
    var s4 := Next(s3, Advance);
    var s5 := Next(s4, Advance);
    assert Next(s5, Advance) == FinishedRequest();
    events := [Advance];
    Cons(s5, Advance, []);
    Cons(s4, Advance, events);
    events := [Advance] + events;
    Cons(s3, Advance, events);
    events := [Advance] + events;
    Cons(s2, Advance, events);
    events := [Advance] + events;
    Cons(s1, RunBlock(true), events);
    events := [RunBlock(true)] + events;
    Cons(s0, CompleteTask, events);
    events := [CompleteTask] + events;
  }

  /** After the first round two appends schedule the processing twice, and both start the first of them. */
  lemma StartedTwice(a: Serializer, b: Serializer) returns (events: seq<Event>)
    requires a != b
    ensures Runs(FinishedRequest(), events) && After(FinishedRequest(), events).started == [a, a]
  {
    var s0 := FinishedRequest();
    var s1 := Next(s0, Append(a));
    var s2 := Next(s1, Append(b));
    var s3 := Next(s2, RunBlock(true));
    var s4 := Next(s3, Advance);
    var s5 := Next(s4, RunBlock(true));
    assert Next(s5, Advance).started == [a, a];
    events := [Advance];
    Cons(s5, Advance, []);
    Cons(s4, RunBlock(true), events);
    events := [RunBlock(true)] + events;
    Cons(s3, Advance, events);
    events := [Advance] + events;
    Cons(s2, RunBlock(true), events);
    events := [RunBlock(true)] + events;
    Cons(s1, Append(b), events);
    events := [Append(b)] + events;
    Cons(s0, Append(a), events);
    events := [Append(a)] + events;
  }

  // ---------------------------------------------------------------- an append that is not disturbed

  /** After the first round, with nothing pending, queued or being processed. */
  predicate Quiet(s: System) {
    s.l.m.responseSerializerProcessingFinished && s.running.Idle? && s.l.queue == [] && s.inFlight == []
  }

  predicate Busy(s: System) {
    || s.running.Finishing? || s.running.Processing? || s.running.Clearing?
    || ProcessBlock in s.l.queue || Pending(s) != []
  }

  /** Between rounds nothing is left behind. */
  predicate Drained(s: System) {
    var m := s.l.m;
    m.responseSerializerProcessingFinished && !Busy(s) ==>
      m.responseSerializers == [] && m.responseSerializerCompletions == [] && !m.isFinishing
  }

  lemma DrainedStep(s: System, e: Event)
    requires Drained(s) && Enabled(s, e)
    ensures Drained(Next(s, e))
  {
    hide Reported;
    match e
    case Append(x) => AppendReports(s.l, x);
    case RunBlock(startImmediately) => DrainedBlock(s, startImmediately);
    case Report(k) =>
      ReportedAppend(s.l.queue, CompleteBlock(s.inFlight[k]));
      assert s.inFlight[k] in Pending(s);
    case Advance =>
    case _ => ReportedAppend(s.l.queue, FinishBlock);
  }

  lemma DrainedBlock(s: System, startImmediately: bool)
    requires Drained(s) && Enabled(s, RunBlock(startImmediately))
    ensures Drained(Next(s, RunBlock(startImmediately)))
  {
    assert s.l.queue == [s.l.queue[0]] + s.l.queue[1..];
  }

  lemma {:induction false} DrainedRun(s: System, events: seq<Event>)
    requires Drained(s) && Runs(s, events)
    ensures Drained(After(s, events))
    decreases |events|
  {
    hide Drained, Next, Enabled;
    if events != [] {
      DrainedStep(s, events[0]);
      DrainedRun(Next(s, events[0]), events[1..]);
    }
  }

  /** No further append, and nothing that finishes the request again. */
  predicate Undisturbed(events: seq<Event>) {
    forall e <- events :: !e.Append? && !e.CompleteTask? && !(e.Cancel? && !e.taskUnderWay)
  }

  /** The blocks of the queue that have to do with serializers. */
  function Work(queue: seq<Block>): seq<Block> {
    if queue == [] then []
    else (if queue[0].ResumeBlock? then [] else [queue[0]]) + Work(queue[1..])
  }

  lemma {:induction false} WorkAppend(queue: seq<Block>, b: Block)
    ensures Work(queue + [b]) == Work(queue) + if b.ResumeBlock? then [] else [b]
  {
    if queue != [] {
      assert (queue + [b])[1..] == queue[1..] + [b];
      WorkAppend(queue[1..], b);
    }
  }

  datatype Phase = Scheduled | Starting | Running | Reporting | Checking | Emptying | Calling | Over

  /** How far the round of the one serializer `x`, appended in the state `s0`, has come. */
  predicate InPhase(s0: System, x: Serializer, s: System, phase: Phase) {
    var m, work := s.l.m, Work(s.l.queue);
    && m.responseSerializerProcessingFinished && !m.isFinishing
    && m.responseSerializers == (if phase.Calling? || phase.Over? then [] else [x])
    && m.responseSerializerCompletions == (if phase.Checking? || phase.Emptying? then [x] else [])
    && work == (if phase.Scheduled? then [ProcessBlock] else if phase.Reporting? then [CompleteBlock(x)] else [])
    && s.inFlight == (if phase.Running? then [x] else [])
    && s.started == (if phase.Scheduled? || phase.Starting? then s0.started else s0.started + [x])
    && s.invoked == (if phase.Over? then s0.invoked + [x] else s0.invoked)
    && (match phase
        case Starting => s.running.Processing?
        case Checking => s.running.Processing?
        case Emptying => s.running.Clearing?
        case Calling => s.running == Invoking([x])
        case Over => s.running.Idle? || s.running == Invoking([])
        case _ => s.running.Idle?)
  }

  lemma PhaseBlock(s0: System, x: Serializer, s: System, phase: Phase, startImmediately: bool)
    requires InPhase(s0, x, s, phase) && Enabled(s, RunBlock(startImmediately))
    ensures InPhase(s0, x, Next(s, RunBlock(startImmediately)),
                    if s.l.queue[0].ResumeBlock? then phase else if phase.Scheduled? then Starting else Checking)
  {
    var b, rest := s.l.queue[0], s.l.queue[1..];
    assert Work(s.l.queue) == (if b.ResumeBlock? then [] else [b]) + Work(rest);
    if !b.ResumeBlock? {
      assert |Work(s.l.queue)| == 1 + |Work(rest)|;
      assert Work(rest) == [] && b == Work(s.l.queue)[0];
      assert [] + [x] == [x];
    }
  }

  lemma PhaseAdvance(s0: System, x: Serializer, s: System, phase: Phase) returns (next: Phase)
    requires InPhase(s0, x, s, phase) && Enabled(s, Advance)
    ensures InPhase(s0, x, Next(s, Advance), next)
  {
    hide Work;
    match phase
    case Starting => next := Running;
    case Checking => next := Emptying;
    case Emptying => next := Calling;
    case _ => next := Over;
  }

  lemma PhaseReport(s0: System, x: Serializer, s: System, phase: Phase, k: nat)
    requires InPhase(s0, x, s, phase) && Enabled(s, Report(k))
    ensures InPhase(s0, x, Next(s, Report(k)), Reporting)
  {
    hide Work;
    WorkAppend(s.l.queue, CompleteBlock(x));
  }

  /** Resuming, suspending and cancelling a task under way only change the state. */
  lemma PhaseState(s0: System, x: Serializer, s: System, phase: Phase, e: Event)
    requires InPhase(s0, x, s, phase) && Enabled(s, e)
    requires e.Resume? || e.Suspend? || (e.Cancel? && e.taskUnderWay)
    ensures InPhase(s0, x, Next(s, e), phase)
  {
    hide Work;
  }

  lemma PhaseStep(s0: System, x: Serializer, s: System, phase: Phase, e: Event) returns (next: Phase)
    requires InPhase(s0, x, s, phase) && Enabled(s, e) && Undisturbed([e])
    ensures InPhase(s0, x, Next(s, e), next)
  {
    hide InPhase, Next, Reported;
    assert e in [e];
    next := phase;
    match e
    case RunBlock(startImmediately) =>
      PhaseBlock(s0, x, s, phase, startImmediately);
      if !s.l.queue[0].ResumeBlock? { next := if phase.Scheduled? then Starting else Checking; }
    case Advance => next := PhaseAdvance(s0, x, s, phase);
    case Report(k) =>
      PhaseReport(s0, x, s, phase, k);
      next := Reporting;
    case _ => PhaseState(s0, x, s, phase, e);
  }

  lemma {:induction false} PhaseRun(s0: System, x: Serializer, s: System, phase: Phase, events: seq<Event>)
    returns (end: Phase)
    requires InPhase(s0, x, s, phase) && Runs(s, events) && Undisturbed(events)
    ensures InPhase(s0, x, After(s, events), end)
    decreases |events|
  {
    hide InPhase, Next, Enabled;
    end := phase;
    if events != [] {
      assert Undisturbed([events[0]]) && Undisturbed(events[1..]);
      var next := PhaseStep(s0, x, s, phase, events[0]);
      end := PhaseRun(s0, x, Next(s, events[0]), next, events[1..]);
    }
  }

  /**
   A serializer appended after the first round while nothing is pending, queued or being processed is started
   once and its completion called once, as long as nothing more is appended and the request is not finished again.
   */
  lemma QuietAppend(events: seq<Event>, x: Serializer, later: seq<Event>)
    requires Runs(Initial(), events) && Quiet(After(Initial(), events)) && x !in After(Initial(), events).appended
    requires Runs(Next(After(Initial(), events), Append(x)), later) && Undisturbed(later)
    ensures var s, end := After(Initial(), events), After(Next(After(Initial(), events), Append(x)), later);
            && (end.started == s.started || end.started == s.started + [x])
            && (end.invoked == s.invoked || end.invoked == s.invoked + [x])
            && (Quiet(end) ==> end.started == s.started + [x] && end.invoked == s.invoked + [x])
  {
    var s := After(Initial(), events);
    DrainedRun(Initial(), events);
    assert !Busy(s);
    var appended := Next(s, Append(x));
    assert Work([ProcessBlock]) == [ProcessBlock];
    WorkAppend([ProcessBlock], ResumeBlock);
    assert appended.l.queue == [ProcessBlock] || appended.l.queue == [ProcessBlock] + [ResumeBlock];
    assert InPhase(s, x, appended, Scheduled);
    var end := PhaseRun(s, x, appended, Scheduled, later);
  }
}
