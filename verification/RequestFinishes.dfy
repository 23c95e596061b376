/** When a request finishes, and which state it is in. */
module RequestFinishes {
  import opened SerializerPipeline
  import opened SerializerRounds
  import opened SerializerLosses

  // ---------------------------------------------------------------- finishing

  /** The task completes, or a request that can be cancelled is cancelled with no task under way. */
  predicate Prompts(s: System, e: Event) {
    || e.CompleteTask?
    || (e.Cancel? && !e.taskUnderWay && s.l.m.state in {Initialized, Resumed, Suspended})
  }

  predicate PromptsAt(start: System, events: seq<Event>, k: nat) {
    k < |events| && Runs(start, events[..k]) && Prompts(After(start, events[..k]), events[k])
  }

  ghost predicate Prompted(start: System, events: seq<Event>) {
    exists k: nat :: PromptsAt(start, events, k)
  }

  /** Finished once, finishing, or about to. */
  predicate Bound(s: System) {
    s.l.m.responseSerializerProcessingFinished || s.l.m.isFinishing || s.running.Finishing? || FinishBlock in s.l.queue
  }

  lemma BoundBlock(s: System, startImmediately: bool)
    requires Enabled(s, RunBlock(startImmediately))
    ensures Bound(Next(s, RunBlock(startImmediately))) <==> Bound(s)
  {
    assert s.l.queue == [s.l.queue[0]] + s.l.queue[1..];
  }

  lemma BoundStep(s: System, e: Event)
    requires Inv(s) && Enabled(s, e)
    ensures Bound(Next(s, e)) <==> Bound(s) || Prompts(s, e)
  {
    hide Reported;
    match e
    case RunBlock(startImmediately) => BoundBlock(s, startImmediately);
    case _ =>
  }

  lemma PromptedMore(start: System, events: seq<Event>, before: seq<Event>, e: Event)
    requires events == before + [e] && Runs(start, before)
    ensures Prompted(start, events) <==> Prompted(start, before) || Prompts(After(start, before), e)
  {
    hide Prompts, Runs, After;
    var n := |before|;
    assert events[..n] == before;
    forall k: nat | k < n ensures PromptsAt(start, events, k) <==> PromptsAt(start, before, k) {
      assert events[..k] == before[..k] && events[k] == before[k];
    }
    assert PromptsAt(start, events, n) <==> Prompts(After(start, before), e);
  }

  lemma NotPrompted(start: System)
    ensures !Prompted(start, [])
  {
  }

  lemma LastStep(start: System, before: seq<Event>, e: Event)
    requires Runs(start, before + [e])
    ensures Runs(start, before) && Enabled(After(start, before), e)
    ensures After(start, before + [e]) == Next(After(start, before), e)
  {
    hide Next, Enabled;
    var events, n := before + [e], |before|;
    RunsPrefix(start, events, n);
    assert events[..n] == before && events[n..] == [e] && [e][1..] == [];
  }

  lemma {:induction false} BoundExactly(events: seq<Event>)
    requires Runs(Initial(), events)
    ensures Bound(After(Initial(), events)) <==> Prompted(Initial(), events)
    decreases |events|
  {
    if events == [] {
      NotPrompted(Initial());
    } else {
      var start, before, e := Initial(), events[..|events| - 1], events[|events| - 1];
      InitialInv();
      hide *;
      assert events == before + [e];
      LastStep(start, before, e);
      BoundExactly(before);
      RunKeepsInv(start, before);
      BoundStep(After(start, before), e);
      PromptedMore(start, events, before, e);
    }
  }

  lemma InitialInv()
    ensures Inv(Initial())
  {
  }

  /** Nothing is running, queued or in flight. */
  predicate Still(s: System) {
    s.running.Idle? && s.l.queue == [] && s.inFlight == []
  }

  /**
   In every run, whenever nothing is running, queued or in flight, the request has finished if and only if its task
   has completed or it was cancelled, while it could be, with no task under way; until then no serializer is started.
   */
  lemma FinishedExactly(events: seq<Event>)
    requires Runs(Initial(), events) && Still(After(Initial(), events))
    ensures var s := After(Initial(), events);
            && (s.l.m.responseSerializerProcessingFinished <==> Prompted(Initial(), events))
            && (!Prompted(Initial(), events) ==> s.started == [] && s.invoked == [])
  {
    BoundExactly(events);
    InitialInv();
    RunKeepsInv(Initial(), events);
    hide Prompted, Runs, After;
  }

  /**
   Once the request was prompted to finish and all is still, the completions never called are exactly those of the
   serializers a clearing dropped; without a prompt none is called.
   */
  lemma CalledExactly(events: seq<Event>, x: Serializer)
    requires Runs(Initial(), events) && Still(After(Initial(), events)) && x in After(Initial(), events).appended
    ensures x in After(Initial(), events).invoked
       <==> Prompted(Initial(), events) && !(exists k: nat :: DropsAt(Initial(), events, k, x))
  {
    FinishedExactly(events);
    if Prompted(Initial(), events) {
      NeverCalledExactly(events, x);
    } else {
      hide Runs, After;
      assert After(Initial(), events).invoked == [];
    }
  }

  // ---------------------------------------------------------------- the state

  /** A state is never moved to itself or back to the first one, but from that, and never away from the last two. */
  lemma TransitionsExactly(from: State, to: State)
    ensures from.CanTransitionTo(to)
       <==> from == Initialized || (from in {Resumed, Suspended} && to != from && to != Initialized)
  {
  }

  /** Which state follows on each step. */
  lemma StateAfter(s: System, e: Event)
    requires Enabled(s, e)
    ensures e.Resume? ==>
      Next(s, e).l.m.state == if s.l.m.state in {Initialized, Suspended} then Resumed else s.l.m.state
    ensures e.Suspend? ==>
      Next(s, e).l.m.state == if s.l.m.state in {Initialized, Resumed} then Suspended else s.l.m.state
    ensures e.Cancel? ==>
      Next(s, e).l.m.state == if s.l.m.state in {Initialized, Resumed, Suspended} then Cancelled else s.l.m.state
    ensures e.Append? ==> Next(s, e).l.m.state == if s.l.m.state == Finished then Resumed else s.l.m.state
    ensures e.RunBlock? ==>
      Next(s, e).l.m.state
      == if s.l.queue[0].ResumeBlock? && e.startImmediately && s.l.m.state in {Initialized, Suspended} then Resumed
         else s.l.m.state
    ensures e.Advance? ==>
      Next(s, e).l.m.state == if s.running.Clearing? && s.l.m.state != Cancelled then Finished else s.l.m.state
    ensures e.CompleteTask? || e.Report? ==> Next(s, e).l.m.state == s.l.m.state
  {
  }

  /** An append asks for a resume exactly when the request is suspended or was never resumed. */
  lemma AppendAsksToResume(s: System, x: Serializer)
    requires Enabled(s, Append(x)) && ResumeBlock !in s.l.queue
    ensures ResumeBlock in Next(s, Append(x)).l.queue <==> s.l.m.state in {Initialized, Suspended}
  {
  }
}
