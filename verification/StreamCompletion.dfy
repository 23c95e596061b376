/** DataStreamRequest: parsers that run for every piece of data, and completion events that wait for them. */
module StreamCompletion {
  // Each access to the protected stream state is one atomic step; parsers end in any order.

  type Parser = nat
  type Completion = nat

  datatype StreamState = StreamState(
    streams: seq<Parser>,
    numberOfExecutingStreams: int,
    enqueuedCompletionEvents: seq<Completion>)

  /** Blocks of the underlying queue: data for the parsers there were, or completion events to hand on. */
  datatype Block = DataBlock(parsers: seq<Parser>) | CompletionBlock(events: seq<Completion>)

  /** The state behind the lock, the queue dispatched to from inside it, and the completions let go from inside it. */
  datatype Locked = Locked(m: StreamState, queue: seq<Block>, dispatched: seq<Completion>)

  // ---------------------------------------------------------------- inside the lock

  function AppendStream(l: Locked, parser: Parser): Locked {
    l.(m := l.m.(streams := l.m.streams + [parser]))
  }

  function DidReceive(l: Locked): Locked {
    l.(m := l.m.(numberOfExecutingStreams := l.m.numberOfExecutingStreams + |l.m.streams|),
       queue := l.queue + [DataBlock(l.m.streams)])
  }

  /** What appendStreamCompletion has called when the serializers are through. */
  function CompleteStream(l: Locked, event: Completion): Locked {
    if l.m.numberOfExecutingStreams != 0 then
      l.(m := l.m.(enqueuedCompletionEvents := l.m.enqueuedCompletionEvents + [event]))
    else l.(dispatched := l.dispatched + [event])
  }

  function UpdateAndComplete(l: Locked): Locked {
    var n, events := l.m.numberOfExecutingStreams - 1, l.m.enqueuedCompletionEvents;
    if n != 0 || events == [] then l.(m := l.m.(numberOfExecutingStreams := n))
    else
      Locked(l.m.(numberOfExecutingStreams := n, enqueuedCompletionEvents := []),
             l.queue + [CompletionBlock(events)], l.dispatched + events)
  }

  // ---------------------------------------------------------------- the system

  datatype System = System(
    l: Locked,
    running: seq<Parser>,               // parser runs begun and not counted down
    handedIn: seq<Completion>,
    delivered: seq<Completion>)         // handed on to the queues of their handlers

  datatype Event =
    | RespondStream(parser: Parser)
    | Receive
    | Complete(event: Completion)
    | RunBlock
    | CountDown(k: nat)

  predicate Enabled(s: System, e: Event) {
    match e
    case Complete(event) => event !in s.handedIn
    case RunBlock => s.l.queue != []
    case CountDown(k) => k < |s.running|
    case _ => true
  }

  function Next(s: System, e: Event): System
    requires Enabled(s, e)
  {
    match e
    case RespondStream(parser) => s.(l := AppendStream(s.l, parser))
    case Receive => s.(l := DidReceive(s.l))
    case Complete(event) =>
      var direct := if s.l.m.numberOfExecutingStreams == 0 then [event] else [];
      s.(l := CompleteStream(s.l, event), handedIn := s.handedIn + [event], delivered := s.delivered + direct)
    case RunBlock => (
      var s' := s.(l := s.l.(queue := s.l.queue[1..]));
      match s.l.queue[0]
      case DataBlock(parsers) => s'.(running := s.running + parsers)
      case CompletionBlock(events) => s'.(delivered := s.delivered + events))
    case CountDown(k) => s.(l := UpdateAndComplete(s.l), running := s.running[..k] + s.running[k + 1..])
  }

  function Initial(): System {
    System(Locked(StreamState([], 0, []), [], []), [], [], [])
  }

  predicate Runs(s: System, events: seq<Event>)
    decreases |events|
  {
    events == [] || (Enabled(s, events[0]) && Runs(Next(s, events[0]), events[1..]))
  }

  function After(s: System, events: seq<Event>): System
    requires Runs(s, events)
    decreases |events|
  {
    if events == [] then s else After(Next(s, events[0]), events[1..])
  }

  // ---------------------------------------------------------------- invariant

  /** Parser runs dispatched and not begun. */
  function RunsIn(queue: seq<Block>): nat {
    if queue == [] then 0
    else (if queue[0].DataBlock? then |queue[0].parsers| else 0) + RunsIn(queue[1..])
  }

  function EventsIn(queue: seq<Block>): multiset<Completion> {
    if queue == [] then multiset{}
    else (if queue[0].CompletionBlock? then multiset(queue[0].events) else multiset{}) + EventsIn(queue[1..])
  }

  lemma {:induction false} QueueAppend(queue: seq<Block>, b: Block)
    ensures RunsIn(queue + [b]) == RunsIn(queue) + if b.DataBlock? then |b.parsers| else 0
    ensures EventsIn(queue + [b]) == EventsIn(queue) + if b.CompletionBlock? then multiset(b.events) else multiset{}
  {
    if queue != [] {
      assert (queue + [b])[1..] == queue[1..] + [b];
      QueueAppend(queue[1..], b);
    }
  }

  /** Parser runs scheduled and not counted down. */
  function Outstanding(s: System): nat {
    RunsIn(s.l.queue) + |s.running|
  }

  predicate Inv(s: System) {
    var m := s.l.m;
    && m.numberOfExecutingStreams == Outstanding(s)
    && (m.enqueuedCompletionEvents != [] ==> m.numberOfExecutingStreams > 0)
    && s.handedIn == s.l.dispatched + m.enqueuedCompletionEvents
    && multiset(s.l.dispatched) == multiset(s.delivered) + EventsIn(s.l.queue)
    && (forall i, j :: 0 <= i < j < |s.handedIn| ==> s.handedIn[i] != s.handedIn[j])
  }

  /** What the state behind the lock keeps to by itself; a parser run can only be counted down once it has begun. */
  predicate Consistent(l: Locked) {
    && RunsIn(l.queue) <= l.m.numberOfExecutingStreams
    && (l.m.enqueuedCompletionEvents != [] ==> l.m.numberOfExecutingStreams > 0)
  }

  lemma InvIsConsistent(s: System)
    requires Inv(s)
    ensures Consistent(s.l) && (s.running != [] ==> RunsIn(s.l.queue) < s.l.m.numberOfExecutingStreams)
  {
  }

  lemma ReceiveKeepsInv(s: System)
    requires Inv(s)
    ensures Inv(Next(s, Receive))
  {
    hide RunsIn, EventsIn;
    QueueAppend(s.l.queue, DataBlock(s.l.m.streams));
  }

  lemma CompleteKeepsInv(s: System, event: Completion)
    requires Inv(s) && Enabled(s, Complete(event))
    ensures Inv(Next(s, Complete(event)))
  {
    hide RunsIn, EventsIn;
  }

  lemma BlockKeepsInv(s: System)
    requires Inv(s) && Enabled(s, RunBlock)
    ensures Inv(Next(s, RunBlock))
  {
  }

  lemma CountDownKeepsInv(s: System, k: nat)
    requires Inv(s) && Enabled(s, CountDown(k))
    ensures Inv(Next(s, CountDown(k)))
  {
    hide RunsIn, EventsIn;
    QueueAppend(s.l.queue, CompletionBlock(s.l.m.enqueuedCompletionEvents));
  }

  lemma StepKeepsInv(s: System, e: Event)
    requires Inv(s) && Enabled(s, e)
    ensures Inv(Next(s, e))
  {
    hide RunsIn, EventsIn;
    match e
    case RespondStream(_) =>
    case Receive => ReceiveKeepsInv(s);
    case Complete(event) => CompleteKeepsInv(s, event);
    case RunBlock => BlockKeepsInv(s);
    case CountDown(k) => CountDownKeepsInv(s, k);
  }

  lemma {:induction false} RunKeepsInv(s: System, events: seq<Event>)
    requires Inv(s) && Runs(s, events)
    ensures Inv(After(s, events))
    decreases |events|
  {
    hide Inv;
    if events != [] {
      StepKeepsInv(s, events[0]);
      RunKeepsInv(Next(s, events[0]), events[1..]);
    }
  }

  // ---------------------------------------------------------------- every run

  /**
   In every run the counter is the number of parser runs not yet counted down, completions wait only while there
   are some, and they are let go once each, in the order handed in: all of them whenever no parser run is left.
   */
  lemma CompletionsFollowData(events: seq<Event>)
    requires Runs(Initial(), events)
    ensures var s := After(Initial(), events);
            && s.l.m.numberOfExecutingStreams == Outstanding(s)
            && (s.l.m.enqueuedCompletionEvents != [] ==> Outstanding(s) > 0)
            && s.l.dispatched <= s.handedIn
            && (forall i, j :: 0 <= i < j < |s.l.dispatched| ==> s.l.dispatched[i] != s.l.dispatched[j])
            && (Outstanding(s) == 0 ==> s.l.dispatched == s.handedIn)
            && (s.l.queue == [] ==> multiset(s.delivered) == multiset(s.l.dispatched))
  {
    RunKeepsInv(Initial(), events);
  }

  /** Completions are let go only in a step that leaves no parser run outstanding. */
  lemma DispatchedAtZero(events: seq<Event>, e: Event)
    requires Runs(Initial(), events) && Enabled(After(Initial(), events), e)
    ensures var s := After(Initial(), events);
            Next(s, e).l.dispatched != s.l.dispatched ==>
              Next(s, e).l.m.numberOfExecutingStreams == 0 == Outstanding(Next(s, e))
  {
    RunKeepsInv(Initial(), events);
    var s := After(Initial(), events);
    hide After, Runs;
    StepKeepsInv(s, e);
    hide RunsIn, EventsIn;
  }

  // ---------------------------------------------------------------- which parsers run

  /** The parser runs to be expected: for every piece of data, one of each parser there was by then. */
  function Expected(events: seq<Event>, parsers: seq<Parser>): multiset<Parser>
    decreases |events|
  {
    if events == [] then multiset{}
    else
      match events[0]
      case RespondStream(parser) => Expected(events[1..], parsers + [parser])
      case Receive => multiset(parsers) + Expected(events[1..], parsers)
      case _ => Expected(events[1..], parsers)
  }

  /** The parser runs counted down. */
  function Ended(s: System, events: seq<Event>): multiset<Parser>
    requires Runs(s, events)
    decreases |events|
  {
    if events == [] then multiset{}
    else
      (if events[0].CountDown? then multiset{s.running[events[0].k]} else multiset{})
      + Ended(Next(s, events[0]), events[1..])
  }

  function ParsersIn(queue: seq<Block>): multiset<Parser> {
    if queue == [] then multiset{}
    else (if queue[0].DataBlock? then multiset(queue[0].parsers) else multiset{}) + ParsersIn(queue[1..])
  }

  lemma {:induction false} ParsersAppend(queue: seq<Block>, b: Block)
    ensures ParsersIn(queue + [b]) == ParsersIn(queue) + if b.DataBlock? then multiset(b.parsers) else multiset{}
  {
    if queue != [] {
      assert (queue + [b])[1..] == queue[1..] + [b];
      ParsersAppend(queue[1..], b);
    }
  }

  /** Dispatched or begun. */
  function UnderWay(s: System): multiset<Parser> {
    ParsersIn(s.l.queue) + multiset(s.running)
  }

  /** What the step dispatches, and what it counts down. */
  function Begins(s: System, e: Event): multiset<Parser> {
    if e.Receive? then multiset(s.l.m.streams) else multiset{}
  }

  function Ends(s: System, e: Event): multiset<Parser>
    requires Enabled(s, e)
  {
    if e.CountDown? then multiset{s.running[e.k]} else multiset{}
  }

  lemma CountDownParsers(s: System, k: nat)
    requires Enabled(s, CountDown(k))
    ensures UnderWay(Next(s, CountDown(k))) + multiset{s.running[k]} == UnderWay(s)
  {
    hide ParsersIn;
    ParsersAppend(s.l.queue, CompletionBlock(s.l.m.enqueuedCompletionEvents));
    assert s.running == s.running[..k] + [s.running[k]] + s.running[k + 1..];
  }

  lemma BlockParsers(s: System)
    requires Enabled(s, RunBlock)
    ensures UnderWay(Next(s, RunBlock)) == UnderWay(s)
  {
    var b := s.l.queue[0];
    assert ParsersIn(s.l.queue)
        == (if b.DataBlock? then multiset(b.parsers) else multiset{}) + ParsersIn(s.l.queue[1..]);
    hide ParsersIn;
    if b.DataBlock? { assert multiset(s.running + b.parsers) == multiset(s.running) + multiset(b.parsers); }
  }

  lemma StepParsers(s: System, e: Event)
    requires Enabled(s, e)
    ensures Next(s, e).l.m.streams == s.l.m.streams + (if e.RespondStream? then [e.parser] else [])
    ensures UnderWay(Next(s, e)) + Ends(s, e) == UnderWay(s) + Begins(s, e)
  {
    hide ParsersIn;
    match e
    case Receive => ReceiveParsers(s);
    case CountDown(k) => CountDownParsers(s, k);
    case RunBlock => BlockParsers(s);
    case _ => hide UnderWay;
  }

  lemma ReceiveParsers(s: System)
    ensures UnderWay(Next(s, Receive)) == UnderWay(s) + multiset(s.l.m.streams)
  {
    hide ParsersIn;
    ParsersAppend(s.l.queue, DataBlock(s.l.m.streams));
  }

  lemma Regrouped(a: multiset<Parser>, a': multiset<Parser>, begins: multiset<Parser>, ends: multiset<Parser>,
                  last: multiset<Parser>, ended: multiset<Parser>, expected: multiset<Parser>)
    requires a' + ends == a + begins && last + ended == a' + expected
    ensures last + (ends + ended) == a + (begins + expected)
  {
    forall p: Parser ensures (last + (ends + ended))[p] == (a + (begins + expected))[p] {
      assert (a' + ends)[p] == (a + begins)[p] && (last + ended)[p] == (a' + expected)[p];
    }
  }

  lemma {:induction false} RunParsers(s: System, events: seq<Event>)
    requires Runs(s, events)
    ensures UnderWay(After(s, events)) + Ended(s, events) == UnderWay(s) + Expected(events, s.l.m.streams)
    decreases |events|
  {
    hide UnderWay, Next, Enabled;
    if events != [] {
      var e, rest := events[0], events[1..];
      var s' := Next(s, e);
      StepParsers(s, e);
      RunParsers(s', rest);
      if !e.RespondStream? { assert s.l.m.streams + [] == s.l.m.streams; }
      assert Expected(events, s.l.m.streams) == Begins(s, e) + Expected(rest, s'.l.m.streams);
      assert Ended(s, events) == Ends(s, e) + Ended(s', rest);
      Regrouped(UnderWay(s), UnderWay(s'), Begins(s, e), Ends(s, e), UnderWay(After(s, events)), Ended(s', rest),
                Expected(rest, s'.l.m.streams));
    }
  }

  /** In every run each parser is run once for every piece of data received since it was there, and for no other. */
  lemma ParsedExactly(events: seq<Event>)
    requires Runs(Initial(), events)
    ensures var s := After(Initial(), events);
            && UnderWay(s) + Ended(Initial(), events) == Expected(events, [])
            && (s.l.m.numberOfExecutingStreams == 0 ==> Ended(Initial(), events) == Expected(events, []))
  {
    RunParsers(Initial(), events);
    CompletionsFollowData(events);
    var s := After(Initial(), events);
    hide Runs, After;
    if Outstanding(s) == 0 { NoneUnderWay(s.l.queue); }
  }

  lemma {:induction false} NoneUnderWay(queue: seq<Block>)
    requires RunsIn(queue) == 0
    ensures ParsersIn(queue) == multiset{}
  {
    if queue != [] { NoneUnderWay(queue[1..]); }
  }
}
