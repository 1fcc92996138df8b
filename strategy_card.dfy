/**
 * The notification channel into which outcome resolution emits event names.
 * The source uses a process-wide static; here it is an object handed to the
 * resolution methods, and what has been emitted so far is its log.
 */
module StrategyCards {
  class StrategyCard {
    /** Every event emitted so far, oldest first. */
    var events: seq<string>

    constructor ()
      ensures events == []
    {
      events := [];
    }

    /** Emits one named event. */
    method Emit(name: string)
      modifies this
      ensures events == old(events) + [name]
    {
      events := events + [name];
    }
  }
}
