/** The critical sections of DataStreamRequest as methods on its stream state. */
module DataStreamRequestClass {
  import opened StreamCompletion

  class DataStreamRequest {
    var streams: seq<Parser>
    var numberOfExecutingStreams: int
    var enqueuedCompletionEvents: seq<Completion>
    /** Blocks dispatched to the underlying queue. */
    var queue: seq<Block>
    /** Completions let go, to a block or straight to the queue of their handler. */
    ghost var dispatched: seq<Completion>
    ghost var handedIn: seq<Completion>

    ghost function View(): Locked
      reads this
    {
      Locked(StreamState(streams, numberOfExecutingStreams, enqueuedCompletionEvents), queue, dispatched)
    }

    /** Completions are let go in the order in which they were handed in. */
    ghost predicate Valid()
      reads this
    {
      Consistent(View()) && handedIn == dispatched + enqueuedCompletionEvents
    }

    constructor ()
      ensures Valid() && View() == Initial().l && handedIn == []
    {
      streams, numberOfExecutingStreams, enqueuedCompletionEvents, queue, dispatched := [], 0, [], [], [];
      handedIn := [];
    }

    method ResponseStream(parser: Parser)
      requires Valid()
      modifies this
      ensures Valid() && View() == AppendStream(old(View()), parser) && handedIn == old(handedIn)
    {
      streams := streams + [parser];
    }

    method DidReceive()
      requires Valid()
      modifies this
      ensures Valid() && View() == StreamCompletion.DidReceive(old(View())) && handedIn == old(handedIn)
    {
      QueueAppend(queue, DataBlock(streams));
      numberOfExecutingStreams := numberOfExecutingStreams + |streams|;
      queue := queue + [DataBlock(streams)];
    }

    /** The closure of appendStreamCompletion; `now` says that the event goes straight to its handler. */
    method StreamCompleted(event: Completion) returns (now: bool)
      requires Valid()
      modifies this
      ensures Valid() && View() == CompleteStream(old(View()), event) && handedIn == old(handedIn) + [event]
      ensures now == (old(numberOfExecutingStreams) == 0)
    {
      handedIn := handedIn + [event];
      if numberOfExecutingStreams != 0 {
        enqueuedCompletionEvents := enqueuedCompletionEvents + [event];
        return false;
      }
      dispatched := dispatched + [event];
      return true;
    }

    /** Called at the end of a parser run that has begun. */
    method UpdateAndCompleteIfPossible()
      requires Valid() && RunsIn(queue) < numberOfExecutingStreams
      modifies this
      ensures Valid() && View() == UpdateAndComplete(old(View())) && handedIn == old(handedIn)
      ensures numberOfExecutingStreams == 0 ==> dispatched == handedIn
    {
      QueueAppend(queue, CompletionBlock(enqueuedCompletionEvents));
      numberOfExecutingStreams := numberOfExecutingStreams - 1;
      if numberOfExecutingStreams != 0 || enqueuedCompletionEvents == [] { return; }
      var completionEvents := enqueuedCompletionEvents;
      queue := queue + [CompletionBlock(completionEvents)];
      dispatched := dispatched + completionEvents;
      enqueuedCompletionEvents := [];
    }
  }
}
