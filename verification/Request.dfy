/** The critical sections of Request as methods on its mutable state. */
module RequestClass {
  import opened Options
  import opened SerializerPipeline

  class Request {
    var state: State
    var responseSerializers: seq<Serializer>
    var responseSerializerCompletions: seq<Serializer>
    var responseSerializerProcessingFinished: bool
    var isFinishing: bool
    /** Blocks dispatched to the underlying queue. */
    var queue: seq<Block>

    ghost function View(): Locked
      reads this
    {
      Locked(MutableState(state, responseSerializers, responseSerializerCompletions,
                          responseSerializerProcessingFinished, isFinishing), queue)
    }

    ghost predicate Valid()
      reads this
    {
      Consistent(View())
    }

    constructor ()
      ensures Valid() && View() == Initial().l
    {
      state, responseSerializers, responseSerializerCompletions := Initialized, [], [];
      responseSerializerProcessingFinished, isFinishing, queue := false, false, [];
    }

    method AppendResponseSerializer(serializer: Serializer)
      requires Valid()
      modifies this
      ensures Valid() && View() == AppendSerializer(old(View()), serializer)
    {
      responseSerializers := responseSerializers + [serializer];
      if state.Finished? {
        state := Resumed;
      }
      ghost var before := queue;
      if responseSerializerProcessingFinished {
        queue := queue + [ProcessBlock];
      }
      assert queue == before + (if responseSerializerProcessingFinished then [ProcessBlock] else []);
      if state.CanTransitionTo(Resumed) {
        queue := queue + [ResumeBlock];
      }
    }

    /** In the first round, before finishing, it is the first one appended. */
    method NextResponseSerializer() returns (next: Option<Serializer>)
      requires Valid()
      ensures !responseSerializerProcessingFinished && !isFinishing && responseSerializers != [] ==>
        next == Some(responseSerializers[0])
      ensures next == NextSerializer(View().m)
    {
      next := None;
      var index := |responseSerializerCompletions|;
      if index < |responseSerializers| {
        next := Some(responseSerializers[index]);
      }
    }

    /** The clearing write of processNextResponseSerializer. */
    method ClearResponseSerializers() returns (completions: seq<Serializer>)
      modifies this
      ensures completions == old(View()).m.responseSerializerCompletions
      ensures Valid() && View() == old(View()).(m := ClearSerializers(old(View()).m))
    {
      completions := responseSerializerCompletions;
      responseSerializers, responseSerializerCompletions := [], [];
      if state.CanTransitionTo(Finished) {
        state := Finished;
      }
      responseSerializerProcessingFinished, isFinishing := true, false;
    }

    /** In the first round only a serializer that was started can complete. */
    method ResponseSerializerDidComplete(serializer: Serializer)
      requires Valid()
      requires !responseSerializerProcessingFinished ==>
        isFinishing && |responseSerializerCompletions| < |responseSerializers|
      modifies this
      ensures Valid() && View() == old(View()).(m := DidComplete(old(View()).m, serializer))
    {
      responseSerializerCompletions := responseSerializerCompletions + [serializer];
    }

    method Cancel(taskUnderWay: bool)
      requires Valid()
      modifies this
      ensures Valid() && View() == CancelLocked(old(View()), taskUnderWay)
    {
      if !state.CanTransitionTo(Cancelled) { return; }
      state := Cancelled;
      if !taskUnderWay {
        queue := queue + [FinishBlock];
      }
    }

    method Resume()
      requires Valid()
      modifies this
      ensures Valid() && View() == old(View()).(m := MoveTo(old(View()).m, Resumed))
    {
      if !state.CanTransitionTo(Resumed) { return; }
      state := Resumed;
    }

    method Suspend()
      requires Valid()
      modifies this
      ensures Valid() && View() == old(View()).(m := MoveTo(old(View()).m, Suspended))
    {
      if !state.CanTransitionTo(Suspended) { return; }
      state := Suspended;
    }

    /**
     The block that runs when a task is complete, up to the dispatch of the first serializer or the completions
     to call, when nothing else takes the lock meanwhile.
     */
    method Finish() returns (started: Option<Serializer>, completions: seq<Serializer>)
      requires Valid()
      modifies this
      ensures Valid()
      ensures !old(responseSerializerProcessingFinished) && !old(isFinishing) ==>
        && completions == []
        && started == if old(responseSerializers) == [] then None else Some(old(responseSerializers)[0])
      ensures old(isFinishing) ==> View() == old(View()) && started == None && completions == []
      ensures !old(isFinishing) ==>
        && started == NextSerializer(old(View()).m)
        && (started.Some? ==> completions == [] && View() == old(View()).(m := old(View()).m.(isFinishing := true)))
        && (started.None? ==>
              && completions == old(View()).m.responseSerializerCompletions
              && View() == old(View()).(m := ClearSerializers(old(View()).m)))
    {
      completions := [];
      if isFinishing { return None, []; }
      isFinishing := true;
      started := NextResponseSerializer();
      if started.None? {
        completions := ClearResponseSerializers();
      }
    }
  }
}
