/** Which serializers are never started, and that all others complete as often as they are started. */
module SerializerLosses {
  import opened Options
  import opened SerializerPipeline
  import opened SerializerPipelineLaws
  import opened SerializerRounds

  // ---------------------------------------------------------------- conservation

  function BeingInvoked(s: System): seq<Serializer> {
    if s.running.Invoking? then s.running.completions else []
  }

  function Total(done: seq<Serializer>, pending: seq<Serializer>, calling: seq<Serializer>, called: seq<Serializer>)
    : multiset<Serializer>
  {
    multiset(done) + multiset(pending) + multiset(calling) + multiset(called)
  }

  /** Every start is listed as complete, pending, being called or called. */
  predicate Conserved(s: System) {
    multiset(s.started) == Total(s.l.m.responseSerializerCompletions, Pending(s), BeingInvoked(s), s.invoked)
  }

  lemma Starting(done: seq<Serializer>, pending: seq<Serializer>, calling: seq<Serializer>, called: seq<Serializer>,
                 x: Serializer)
    ensures Total(done, pending + [x], calling, called) == Total(done, pending, calling, called) + multiset{x}
  {
  }

  lemma Completing(done: seq<Serializer>, pending: seq<Serializer>, calling: seq<Serializer>, called: seq<Serializer>,
                   x: Serializer)
    ensures Total(done + [x], pending, calling, called) == Total(done, [x] + pending, calling, called)
  {
  }

  lemma Emptying(done: seq<Serializer>, pending: seq<Serializer>, called: seq<Serializer>)
    ensures Total([], pending, done, called) == Total(done, pending, [], called)
  {
  }

  lemma Calling(done: seq<Serializer>, pending: seq<Serializer>, calling: seq<Serializer>, called: seq<Serializer>)
    requires calling != []
    ensures Total(done, pending, calling[1..], called + [calling[0]]) == Total(done, pending, calling, called)
  {
    assert calling == [calling[0]] + calling[1..];
  }

  lemma ConservedBlock(s: System, startImmediately: bool)
    requires Conserved(s) && Enabled(s, RunBlock(startImmediately))
    ensures Conserved(Next(s, RunBlock(startImmediately)))
  {
    hide Total;
    var b, s' := s.l.queue[0], Next(s, RunBlock(startImmediately));
    assert Pending(s) == (if b.CompleteBlock? then [b.serializer] else []) + Pending(s');
    hide Reported, Pending;
    if b.CompleteBlock? {
      Completing(s.l.m.responseSerializerCompletions, Pending(s'), [], s.invoked, b.serializer);
    } else {
      assert [] + Pending(s') == Pending(s');
    }
  }

  lemma ConservedAdvance(s: System)
    requires Conserved(s) && Enabled(s, Advance)
    ensures Conserved(Next(s, Advance))
  {
    hide Reported, Total;
    var m, s' := s.l.m, Next(s, Advance);
    var done := m.responseSerializerCompletions;
    match s.running
    case Processing =>
      if NextSerializer(m).Some? {
        var x := NextSerializer(m).value;
        assert Pending(s') == Pending(s) + [x];
        assert multiset(s'.started) == multiset(s.started) + multiset{x};
        Starting(done, Pending(s), [], s.invoked, x);
      }
    case Clearing => Emptying(done, Pending(s), s.invoked);
    case Invoking(calling) =>
      if calling != [] { Calling(done, Pending(s), calling, s.invoked); }
    case _ =>
  }

  lemma ConservedReport(s: System, k: nat)
    requires Conserved(s) && Enabled(s, Report(k))
    ensures Conserved(Next(s, Report(k)))
  {
    hide Reported;
    var s', x := Next(s, Report(k)), s.inFlight[k];
    ReportedAppend(s.l.queue, CompleteBlock(x));
    var a, b := s.inFlight[..k], s.inFlight[k + 1..];
    assert s.inFlight == a + [x] + b;
    Reordered(Reported(s.l.queue), a, b, x);
  }

  lemma Reordered(reported: seq<Serializer>, a: seq<Serializer>, b: seq<Serializer>, x: Serializer)
    ensures multiset(reported + [x] + (a + b)) == multiset(reported + (a + [x] + b))
  {
  }

  lemma ConservedStep(s: System, e: Event)
    requires Conserved(s) && Enabled(s, e)
    ensures Conserved(Next(s, e))
  {
    hide Conserved;
    match e
    case RunBlock(startImmediately) => ConservedBlock(s, startImmediately);
    case Advance => ConservedAdvance(s);
    case Report(k) => ConservedReport(s, k);
    case _ => ConservedOutside(s, e);
  }

  /** Appending, finishing and changing the state move no serializer on. */
  lemma ConservedOutside(s: System, e: Event)
    requires Conserved(s) && Enabled(s, e) && !e.RunBlock? && !e.Advance? && !e.Report?
    ensures Conserved(Next(s, e))
  {
    hide Reported, Total;
    if e.Append? { AppendReports(s.l, e.serializer); }
    ReportedAppend(s.l.queue, FinishBlock);
    assert Pending(Next(s, e)) == Pending(s);
  }

  lemma {:induction false} ConservedRun(s: System, events: seq<Event>)
    requires Conserved(s) && Runs(s, events)
    ensures Conserved(After(s, events))
    decreases |events|
  {
    hide Conserved, Next, Enabled;
    if events != [] {
      ConservedStep(s, events[0]);
      ConservedRun(Next(s, events[0]), events[1..]);
    }
  }

  /**
   In every run over any number of rounds, a serializer's completion is called at most as often as it was
   started, and exactly as often once all is quiet: once each, but for those started twice.
   */
  lemma CalledAsStarted(events: seq<Event>)
    requires Runs(Initial(), events)
    ensures var s := After(Initial(), events);
            && multiset(s.invoked) <= multiset(s.started)
            && (Quiet(s) ==> multiset(s.invoked) == multiset(s.started))
  {
    var s := After(Initial(), events);
    ConservedRun(Initial(), events);
    DrainedRun(Initial(), events);
    hide Runs, After;
    if Quiet(s) { assert !Busy(s) && Pending(s) == []; }
  }

  // ---------------------------------------------------------------- lost serializers

  /** Appended, but neither started nor listed to be. */
  predicate Lost(s: System, x: Serializer) {
    x in s.appended && x !in s.l.m.responseSerializers && x !in s.started
  }

  /** The step clears the list while the serializer is in it and was not started. */
  predicate Drops(s: System, e: Event, x: Serializer) {
    e.Advance? && s.running.Clearing? && x in s.l.m.responseSerializers && x !in s.started
  }

  predicate DropsAt(start: System, events: seq<Event>, k: nat, x: Serializer) {
    k < |events| && Runs(start, events[..k]) && Drops(After(start, events[..k]), events[k], x)
  }

  lemma LostInStep(s: System, e: Event, x: Serializer)
    requires Listed(s) && Enabled(s, e)
    ensures Lost(Next(s, e), x) <==> Lost(s, x) || Drops(s, e, x)
  {
    hide Reported;
    if e.Append? {
      assert s.l.m.responseSerializers + [e.serializer] == Next(s, e).l.m.responseSerializers;
    }
  }

  /** In every run over any number of rounds, a serializer is lost exactly when a clearing drops it. */
  lemma {:induction false} LostExactly(events: seq<Event>, x: Serializer)
    requires Runs(Initial(), events)
    ensures Lost(After(Initial(), events), x) <==> exists k: nat :: DropsAt(Initial(), events, k, x)
    decreases |events|
  {
    InitialListed();
    if events != [] {
      hide Next, Enabled, Listed, Drops, Initial, Lost;
      var n := |events| - 1;
      var before, e := events[..n], events[n];
      RunsPrefix(Initial(), events, n);
      var s := After(Initial(), before);
      assert events[n..] == [e] && [e][1..] == [];
      assert After(s, [e]) == Next(s, e);
      LostExactly(before, x);
      ListedRun(Initial(), before);
      LostInStep(s, e, x);
      forall k: nat | k < n ensures DropsAt(Initial(), events, k, x) <==> DropsAt(Initial(), before, k, x) {
        assert events[..k] == before[..k];
      }
      assert DropsAt(Initial(), events, n, x) <==> Drops(s, e, x);
    }
  }

  /** What is lost is nowhere. */
  lemma LostIsGone(s: System, x: Serializer)
    requires Conserved(s) && Lost(s, x)
    ensures Gone(s, x)
  {
    hide Reported;
    assert multiset(s.started)[x] == 0;
  }

  /** It is never started, and its completion never called, in any later run. */
  lemma LostForever(events: seq<Event>, later: seq<Event>, x: Serializer)
    requires Runs(Initial(), events) && Lost(After(Initial(), events), x)
    requires Runs(After(Initial(), events), later)
    ensures var end := After(After(Initial(), events), later);
            Lost(end, x) && x !in end.invoked
  {
    ConservedRun(Initial(), events);
    LostIsGone(After(Initial(), events), x);
    GoneForever(After(Initial(), events), later, x);
  }

  /** Once all is quiet, the completions never called are exactly those of the serializers some clearing dropped. */
  lemma NeverCalledExactly(events: seq<Event>, x: Serializer)
    requires Runs(Initial(), events) && Quiet(After(Initial(), events)) && x in After(Initial(), events).appended
    ensures x !in After(Initial(), events).invoked <==> exists k: nat :: DropsAt(Initial(), events, k, x)
  {
    var s := After(Initial(), events);
    DrainedRun(Initial(), events);
    CalledAsStarted(events);
    LostExactly(events, x);
    hide Runs, After, DropsAt;
    assert !Busy(s);
    assert x in s.invoked <==> x in multiset(s.invoked);
    assert x in s.started <==> x in multiset(s.started);
  }

  // ---------------------------------------------------------------- what a clearing drops

  /** While a block is about to clear, serializers can only be added to the list. */
  predicate OnlyListed(s: System, s': System, serializers: seq<Serializer>) {
    && s'.running.Clearing? && s'.started == s.started && s'.appended == s.appended + serializers
    && s'.l.m.responseSerializers == s.l.m.responseSerializers + serializers
  }

  lemma ListingStep(s: System, e: Event)
    requires s.running.Clearing? && Enabled(s, e) && !e.Advance?
    ensures OnlyListed(s, Next(s, e), if e.Append? then [e.serializer] else [])
  {
  }

  lemma {:induction false} WhileListing(s: System, events: seq<Event>)
    requires s.running.Clearing? && Runs(s, events) && NoAdvance(events)
    ensures OnlyListed(s, After(s, events), Appends(events))
    decreases |events|
  {
    hide Next, Enabled;
    if events != [] {
      ListingStep(s, events[0]);
      WhileListing(Next(s, events[0]), events[1..]);
    }
  }

  /**
   In any round, the clearing behind a check that nothing is left loses what the check has passed over, as more
   completions than started serializers were listed, and what is appended between the two.
   */
  lemma LostByClearing(s: System, between: seq<Event>, x: Serializer)
    requires Listed(s) && s.running.Processing? && NextSerializer(s.l.m).None?
    requires Runs(StepRunning(s), between) && NoAdvance(between)
    ensures Lost(StepRunning(After(StepRunning(s), between)), x)
       <==> Lost(s, x) || (x in s.l.m.responseSerializers && x !in s.started) || x in Appends(between)
  {
    var checked := StepRunning(s);
    ListedStep(s, Advance);
    ListedRun(checked, between);
    hide Next, Enabled, Reported;
    WhileListing(checked, between);
    if x in Appends(between) { NotBefore(s.appended, Appends(between), x); }
  }

  // ---------------------------------------------------------------- witnesses

  /** The run leads from one state to the other. */
  predicate Leads(s: System, events: seq<Event>, t: System) {
    Runs(s, events) && After(s, events) == t
  }

  lemma One(s: System, e: Event)
    requires Enabled(s, e)
    ensures Leads(s, [e], Next(s, e))
  {
    assert [e][1..] == [];
  }

  lemma {:induction false} Joined(s: System, a: seq<Event>, t: System, b: seq<Event>, u: System)
    requires Leads(s, a, t) && Leads(t, b, u)
    ensures Leads(s, a + b, u)
    decreases |a|
  {
    hide Next, Enabled;
    if a == [] {
      assert a + b == b;
    } else {
      assert (a + b)[1..] == a[1..] + b;
      Joined(Next(s, a[0]), a[1..], t, b, u);
    }
  }

  /** One more step at the end of a run. */
  lemma Onward(s: System, a: seq<Event>, t: System, e: Event) returns (b: seq<Event>, u: System)
    requires Leads(s, a, t) && Enabled(t, e)
    ensures b == a + [e] && u == Next(t, e) && Leads(s, b, u)
  {
    b, u := a + [e], Next(t, e);
    One(t, e);
    Joined(s, a, t, [e], u);
  }

  /** Step `k` of the run from the beginning appends the serializer. */
  predicate AppendedAt(events: seq<Event>, k: nat, x: Serializer) {
    k < |events| && events[k] == Append(x) && Runs(Initial(), events[..k])
  }

  /** A request without serializers, finished, checked, and about to be cleared. */
  lemma AboutToClear() returns (events: seq<Event>, s: System)
    ensures Leads(Initial(), events, s) && s.running.Clearing?
    ensures s.l.m.responseSerializers == s.appended == s.started == []
  {
    events, s := [], Initial();
    assert Leads(Initial(), events, s);
    hide Leads, Runs, After;
    events, s := Onward(Initial(), events, s, CompleteTask);
    events, s := Onward(Initial(), events, s, RunBlock(true));
    events, s := Onward(Initial(), events, s, Advance);
    events, s := Onward(Initial(), events, s, Advance);
  }

  /** A run of the first round that loses a serializer appended between the check and the clearing. */
  lemma LostBetween(x: Serializer) returns (events: seq<Event>, k: nat)
    ensures Runs(Initial(), events) && Lost(After(Initial(), events), x)
    ensures AppendedAt(events, k, x) && After(Initial(), events[..k]).running.Clearing?
  {
    hide Leads, Runs, After, Initial;
    var before, t := AboutToClear();
    var s;
    events, s := Onward(Initial(), before, t, Append(x));
    assert s.running.Clearing? && s.l.m.responseSerializers == [x];
    events, s := Onward(Initial(), events, s, Advance);
    assert Lost(s, x);
    hide Lost, Next, Enabled;
    k := |before|;
    assert events[k] == Append(x) && events[..k] == before;
    LeadsTo(before, t);
    LeadsTo(events, s);
  }

  lemma LeadsTo(events: seq<Event>, s: System)
    requires Leads(Initial(), events, s)
    ensures Runs(Initial(), events) && After(Initial(), events) == s
  {
  }

  /** A request behind its first round, with nothing being processed. */
  function Between(state: State, list: seq<Serializer>, done: seq<Serializer>, queue: seq<Block>,
                   inFlight: seq<Serializer>, appended: seq<Serializer>, started: seq<Serializer>,
                   invoked: seq<Serializer>): System
  {
    System(Locked(MutableState(state, list, done, true, false), queue), Idle, inFlight, appended, started, invoked,
           Some([]))
  }

  /** Two appends make `a` start twice. */
  lemma TwoAppends(a: Serializer, c: Serializer) returns (events: seq<Event>)
    requires a != c
    ensures Leads(FinishedRequest(), events, Between(Resumed, [a, c], [], [], [a, a], [a, c], [a, a], []))
  {
    var s0 := FinishedRequest();
    var s;
    events, s := [], s0;
    assert Leads(s0, events, s);
    hide Leads, Runs, After;
    events, s := Onward(s0, events, s, Append(a));
    events, s := Onward(s0, events, s, Append(c));
    assert s == Between(Resumed, [a, c], [], [ProcessBlock, ProcessBlock], [], [a, c], [], []);
    events, s := Onward(s0, events, s, RunBlock(true));
    events, s := Onward(s0, events, s, Advance);
    assert s == Between(Resumed, [a, c], [], [ProcessBlock], [a], [a, c], [a], []);
    events, s := Onward(s0, events, s, RunBlock(true));
    events, s := Onward(s0, events, s, Advance);
  }

  /** The first of its completions starts `c`. */
  lemma SecondStarted(a: Serializer, c: Serializer) returns (events: seq<Event>)
    ensures Leads(Between(Resumed, [a, c], [], [], [a, a], [a, c], [a, a], []), events,
                  Between(Resumed, [a, c], [a], [], [a, c], [a, c], [a, a, c], []))
  {
    var s0 := Between(Resumed, [a, c], [], [], [a, a], [a, c], [a, a], []);
    var s;
    events, s := [], s0;
    assert Leads(s0, events, s);
    hide Leads, Runs, After;
    events, s := Onward(s0, events, s, Report(0));
    events, s := Onward(s0, events, s, RunBlock(true));
    events, s := Onward(s0, events, s, Advance);
  }

  /** The second one ends the round while `c` is in flight. */
  lemma EndedEarly(a: Serializer, c: Serializer) returns (events: seq<Event>)
    ensures Leads(Between(Resumed, [a, c], [a], [], [a, c], [a, c], [a, a, c], []), events,
                  Between(Finished, [], [], [], [c], [a, c], [a, a, c], [a, a]))
  {
    var s0 := Between(Resumed, [a, c], [a], [], [a, c], [a, c], [a, a, c], []);
    var s;
    events, s := [], s0;
    assert Leads(s0, events, s);
    hide Leads, Runs, After;
    events, s := Onward(s0, events, s, Report(0));
    assert s == Between(Resumed, [a, c], [a], [CompleteBlock(a)], [c], [a, c], [a, a, c], []);
    events, s := Onward(s0, events, s, RunBlock(true));
    assert s == Between(Resumed, [a, c], [a, a], [], [c], [a, c], [a, a, c], []).(running := Processing);
    events, s := Onward(s0, events, s, Advance);
    events, s := Onward(s0, events, s, Advance);
    assert s == Between(Finished, [], [], [], [c], [a, c], [a, a, c], []).(running := Invoking([a, a]));
    events, s := Onward(s0, events, s, Advance);
    assert s == Between(Finished, [], [], [], [c], [a, c], [a, a, c], [a]).(running := Invoking([a]));
    events, s := Onward(s0, events, s, Advance);
    events, s := Onward(s0, events, s, Advance);
  }

  /** What is appended then is passed over, as the completion of `c` stands for it. */
  lemma PassedOver(a: Serializer, b: Serializer, c: Serializer)
    returns (before: seq<Event>, t: System, events: seq<Event>, s: System)
    requires b != a && b != c
    ensures var s0 := Between(Finished, [], [], [], [c], [a, c], [a, a, c], [a, a]);
            && Leads(s0, before, t) && t.running.Idle?
            && Leads(s0, events, s) && Lost(s, b) && before + [Append(b)] <= events
  {
    var s0 := Between(Finished, [], [], [], [c], [a, c], [a, a, c], [a, a]);
    events, s := [], s0;
    assert Leads(s0, events, s);
    hide Leads, Runs, After;
    events, s := Onward(s0, events, s, Report(0));
    before, t := events, s;
    events, s := Onward(s0, events, s, Append(b));
    assert s == Between(Resumed, [b], [], [CompleteBlock(c), ProcessBlock], [], [a, c, b], [a, a, c], [a, a]);
    events, s := Onward(s0, events, s, RunBlock(true));
    events, s := Onward(s0, events, s, Advance);
    assert s.running.Clearing? && s.l.m.responseSerializers == [b];
    events, s := Onward(s0, events, s, Advance);
  }

  /** A run that loses a serializer although it is appended well before the check, while nothing is being processed. */
  lemma LostWithoutRace(a: Serializer, b: Serializer, c: Serializer) returns (events: seq<Event>, k: nat)
    requires a != b && b != c && a != c
    ensures Runs(Initial(), events) && Lost(After(Initial(), events), b)
    ensures AppendedAt(events, k, b) && After(Initial(), events[..k]).running.Idle?
  {
    var s0, s1 := FinishedRequest(), Between(Resumed, [a, c], [], [], [a, a], [a, c], [a, a], []);
    var s2 := Between(Resumed, [a, c], [a], [], [a, c], [a, c], [a, a, c], []);
    var s3 := Between(Finished, [], [], [], [c], [a, c], [a, a, c], [a, a]);
    var first := FinishedRequestReached();
    assert Leads(Initial(), first, s0);
    hide Leads, Runs, After, Lost, FinishedRequest, Between, Initial;
    var second := TwoAppends(a, c);
    var third := SecondStarted(a, c);
    var fourth := EndedEarly(a, c);
    var before, t, fifth, s := PassedOver(a, b, c);
    Joined(Initial(), first, s0, second, s1);
    Joined(Initial(), first + second, s1, third, s2);
    Joined(Initial(), first + second + third, s2, fourth, s3);
    var start := first + second + third + fourth;
    Joined(Initial(), start, s3, fifth, s);
    Joined(Initial(), start, s3, before, t);
    events, k := start + fifth, |start + before|;
    LeadsTo(events, s);
    LeadsTo(start + before, t);
    assert events[k] == fifth[|before|] == (before + [Append(b)])[|before|];
    assert events[..k] == start + fifth[..|before|] && fifth[..|before|] == before;
  }
}
