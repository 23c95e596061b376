/** What holds in every run of the response serializer pipeline. */
module SerializerPipelineLaws {
  import opened Options
  import opened SerializerPipeline

  lemma InitialInv()
    ensures Inv(Initial())
  {
  }

  /** The serializers of the first round: those started until the first clearing. */
  function FirstRound(s: System): seq<Serializer> {
    if s.firstRound.Some? then s.firstRound.value else s.started
  }

  /**
   In every run, however often the request is finished or cancelled: the serializers of the first round start in
   the order they were appended, each once and one at a time; no completion is called before all of them
   completed; and then exactly their completions are called, in order.
   */
  lemma FirstRoundInOrder(events: seq<Event>)
    requires Runs(Initial(), events)
    ensures var s := After(Initial(), events);
            && FirstRound(s) <= s.started && FirstRound(s) <= s.appended && Distinct(FirstRound(s))
            && (s.firstRound.None? ==>
                  && |s.inFlight| <= 1
                  && s.started == s.l.m.responseSerializerCompletions + Pending(s) && |Pending(s)| <= 1
                  && s.invoked == [])
            && (s.firstRound.Some? ==> s.invoked <= FirstRound(s) || FirstRound(s) <= s.invoked)
            && (s.firstRound.Some? && s.running.Idle? ==> FirstRound(s) <= s.invoked)
  {
    InitialInv();
    RunKeepsInv(Initial(), events);
  }

  predicate NoAdvance(events: seq<Event>) {
    forall e <- events :: !e.Advance?
  }

  function Appends(events: seq<Event>): seq<Serializer> {
    if events == [] then []
    else (if events[0].Append? then [events[0].serializer] else []) + Appends(events[1..])
  }

  /** While a block is about to clear, the rest of the request can only append, dispatch and change its state. */
  predicate OnlyAppended(s: System, s': System, serializers: seq<Serializer>) {
    && s'.running.Clearing? && s'.started == s.started && s'.firstRound == s.firstRound
    && s'.appended == s.appended + serializers
    && Pending(s') == [] && s'.invoked == s.invoked
    && s'.l.m.responseSerializerCompletions == s.l.m.responseSerializerCompletions
  }

  lemma ClearingStep(s: System, e: Event)
    requires s.running.Clearing? && Pending(s) == [] && Enabled(s, e) && !e.Advance?
    ensures OnlyAppended(s, Next(s, e), if e.Append? then [e.serializer] else [])
  {
    hide Reported;
    ReportedAppend(s.l.queue, FinishBlock);
    if e.Append? { AppendReports(s.l, e.serializer); }
  }

  lemma {:induction false} WhileClearing(s: System, events: seq<Event>)
    requires s.running.Clearing? && Pending(s) == [] && Runs(s, events) && NoAdvance(events)
    ensures OnlyAppended(s, After(s, events), Appends(events))
    decreases |events|
  {
    hide Next, Enabled;
    if events != [] {
      ClearingStep(s, events[0]);
      WhileClearing(Next(s, events[0]), events[1..]);
    }
  }

  /** When nothing is left to start, everything appended has been started and is complete. */
  lemma NoneLeft(s: System)
    requires Inv(s) && s.firstRound.None? && s.running.Processing? && NextSerializer(s.l.m).None?
    ensures s.appended == s.started == s.l.m.responseSerializerCompletions
    ensures Pending(s) == [] && s.invoked == [] && StepRunning(s) == s.(running := Clearing)
  {
    hide Reported;
    assert |Pending(s)| == 0;
  }

  /** A serializer that is appended, but is nowhere from where it could be started or its completion be called. */
  predicate Gone(s: System, x: Serializer) {
    && x in s.appended && x !in s.l.m.responseSerializers
    && x !in s.started && x !in Pending(s) && x !in s.l.m.responseSerializerCompletions
    && x !in s.invoked && (s.running.Invoking? ==> x !in s.running.completions)
  }

  lemma GoneStep(s: System, e: Event, x: Serializer)
    requires Gone(s, x) && Enabled(s, e)
    ensures Gone(Next(s, e), x)
  {
    hide Reported;
    match e
    case Append(serializer) => AppendReports(s.l, serializer);
    case Cancel(_) => ReportedAppend(s.l.queue, FinishBlock);
    case CompleteTask => ReportedAppend(s.l.queue, FinishBlock);
    case RunBlock(startImmediately) => GoneBlock(s, startImmediately, x);
    case Report(k) =>
      assert s.inFlight[k] in Pending(s);
      ReportedAppend(s.l.queue, CompleteBlock(s.inFlight[k]));
    case Advance => GoneAdvance(s, x);
    case _ =>
  }

  lemma GoneBlock(s: System, startImmediately: bool, x: Serializer)
    requires Gone(s, x) && Enabled(s, RunBlock(startImmediately))
    ensures Gone(Next(s, RunBlock(startImmediately)), x)
  {
    assert Reported(s.l.queue)
        == (if s.l.queue[0].CompleteBlock? then [s.l.queue[0].serializer] else []) + Reported(s.l.queue[1..]);
    if s.l.queue[0].CompleteBlock? { assert s.l.queue[0].serializer in Pending(s); }
  }

  lemma GoneAdvance(s: System, x: Serializer)
    requires Gone(s, x) && Enabled(s, Advance)
    ensures Gone(Next(s, Advance), x)
  {
    hide Reported;
    if s.running.Invoking? && s.running.completions != [] {
      assert s.running.completions[0] in s.running.completions;
    }
  }

  lemma {:induction false} GoneForever(s: System, events: seq<Event>, x: Serializer)
    requires Gone(s, x) && Runs(s, events)
    ensures Gone(After(s, events), x)
    decreases |events|
  {
    hide Gone, Next, Enabled;
    if events != [] {
      GoneStep(s, events[0], x);
      GoneForever(Next(s, events[0]), events[1..], x);
    }
  }

  /**
   The check that nothing is left and the clearing are two steps.  The first round is what had been appended by
   the check, so it is complete exactly when nothing is appended between the two.
   */
  lemma LostBetweenCheckAndClear(s: System, between: seq<Event>)
    requires Inv(s) && s.firstRound.None? && s.running.Processing? && NextSerializer(s.l.m).None?
    requires Runs(StepRunning(s), between) && NoAdvance(between)
    ensures var cleared := StepRunning(After(StepRunning(s), between));
            && FirstRound(cleared) == s.appended == s.started
            && cleared.l.m.responseSerializers == []
            && cleared.appended == s.appended + Appends(between)
            && (FirstRound(cleared) == cleared.appended <==> Appends(between) == [])
  {
    hide Inv, Next, Enabled, NextSerializer;
    var checked := StepRunning(s);
    NoneLeft(s);
    WhileClearing(checked, between);
    var s' := After(checked, between);
    assert StepRunning(s').firstRound == Some(s'.started);
    assert |s.appended + Appends(between)| == |s.appended| + |Appends(between)|;
  }

  /** What is appended between them is never started, and its completion never called, in any later run. */
  lemma LostInFirstRound(s: System, between: seq<Event>, later: seq<Event>, x: Serializer)
    requires Inv(s) && s.firstRound.None? && s.running.Processing? && NextSerializer(s.l.m).None?
    requires Runs(StepRunning(s), between) && NoAdvance(between) && x in Appends(between)
    requires Runs(StepRunning(After(StepRunning(s), between)), later)
    ensures var end := After(StepRunning(After(StepRunning(s), between)), later);
            x !in end.started && x !in end.invoked && x !in end.l.m.responseSerializers
  {
    var checked := StepRunning(s);
    NoneLeft(s);
    StepKeepsInv(s, Advance);
    RunKeepsInv(checked, between);
    hide Next, Enabled, NextSerializer, Reported;
    WhileClearing(checked, between);
    var s' := After(checked, between);
    assert x in s'.appended && x !in s.appended by { NotBefore(s.appended, Appends(between), x); }
    GoneForever(StepRunning(s'), later, x);
  }

  lemma NotBefore(a: seq<Serializer>, b: seq<Serializer>, x: Serializer)
    requires Distinct(a + b) && x in b
    ensures x !in a && x in a + b
  {
    var j :| 0 <= j < |b| && b[j] == x;
    forall i | 0 <= i < |a| ensures a[i] != x {
      assert (a + b)[i] == a[i] && (a + b)[|a| + j] == x;
    }
  }

  // ---------------------------------------------------------------- states

  /** States change only as `canTransitionTo` allows, but for appending to a finished request, which resumes it. */
  lemma StateChanges(s: System, e: Event)
    requires Enabled(s, e)
    ensures var now := Next(s, e).l.m.state;
            || now == s.l.m.state
            || s.l.m.state.CanTransitionTo(now)
            || (s.l.m.state.Finished? && e.Append? && now == Resumed)
  {
  }

  lemma {:induction false} CancelledForever(s: System, events: seq<Event>)
    requires s.l.m.state.Cancelled? && Runs(s, events)
    ensures After(s, events).l.m.state.Cancelled?
    decreases |events|
  {
    if events != [] {
      StateChanges(s, events[0]);
      CancelledForever(Next(s, events[0]), events[1..]);
    }
  }
}
