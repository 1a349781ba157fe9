/**
 * The autonomous action queue (mechanisms/AutoQueue.java): a FIFO of actions and the
 * action currently running, which is begun when it leaves the queue.
 */
module AutoQueues {
  import opened Wrappers

  /**
   * A queue of abstract actions. Beginning an action is an effect on code outside the model,
   * recorded in the ghost log `begun`; `added` records every action ever queued.
   */
  class AutoQueue<A> {
    var actionQueue: seq<A>
    var currentAction: Option<A>
    ghost var added: seq<A>
    ghost var begun: seq<A>

    /**
     * Actions are begun in the order they were added, each once: the begun ones followed by the
     * waiting ones are exactly the added ones; the current action is the last one begun; and
     * nothing waits while no action runs.
     */
    ghost predicate Valid()
      reads this
    {
      added == begun + actionQueue &&
      (currentAction.Some? ==> begun != [] && currentAction.value == begun[|begun| - 1]) &&
      (currentAction.None? ==> actionQueue == [])
    }

    constructor ()
      ensures Valid()
      ensures actionQueue == [] && currentAction == None && added == [] && begun == []
    {
      actionQueue := [];
      currentAction := None;
      added := [];
      begun := [];
    }

    /** Appends an action; when none is running it is taken off the queue and begun at once. */
    method AddAutoAction(autoAction: A)
      requires Valid()
      modifies this
      ensures Valid()
      ensures added == old(added) + [autoAction]
      ensures old(currentAction).None? ==>
        currentAction == Some(autoAction) && actionQueue == [] && begun == old(begun) + [autoAction]
      ensures old(currentAction).Some? ==>
        currentAction == old(currentAction) && actionQueue == old(actionQueue) + [autoAction] && begun == old(begun)
    {
      actionQueue := actionQueue + [autoAction];
      added := added + [autoAction];
      if currentAction.None? {
        ShiftQueue();
      }
    }

    /**
     * One loop of the queue. `finished` is what the current action's update reports; it is only
     * consulted when an action is running. A running, unfinished action keeps everything as it
     * is and reports true; otherwise the queue shifts and reports whether an action now runs.
     */
    method UpdateQueue(finished: bool) returns (running: bool)
      requires Valid()
      modifies this
      ensures Valid() && added == old(added)
      ensures old(currentAction).Some? && !finished ==>
        running && currentAction == old(currentAction) && actionQueue == old(actionQueue) && begun == old(begun)
      ensures old(currentAction).None? || finished ==>
        running == currentAction.Some? &&
        (old(actionQueue) == [] ==> currentAction.None? && actionQueue == [] && begun == old(begun)) &&
        (old(actionQueue) != [] ==> currentAction == Some(old(actionQueue)[0]) && actionQueue == old(actionQueue)[1..] &&
                                    begun == old(begun) + [old(actionQueue)[0]])
      ensures old(currentAction).None? ==> !running && currentAction.None? && actionQueue == [] && begun == old(begun)
    {
      if currentAction.None? || finished {
        ShiftQueue();
        return currentAction.Some?;
      }
      return true;
    }

    /** Takes the head of the queue as the current action, beginning it; an empty queue leaves no current action. */
    method ShiftQueue()
      requires added == begun + actionQueue
      modifies this`actionQueue, this`currentAction, this`begun
      ensures Valid()
      ensures old(actionQueue) == [] ==> currentAction.None? && actionQueue == [] && begun == old(begun)
      ensures old(actionQueue) != [] ==>
        currentAction == Some(old(actionQueue)[0]) && actionQueue == old(actionQueue)[1..] && begun == old(begun) + [old(actionQueue)[0]]
    {
      if actionQueue == [] {
        currentAction := None;
      } else {
        currentAction := Some(actionQueue[0]);
        actionQueue := actionQueue[1..];
        begun := begun + [currentAction.value];
      }
    }
  }
}
