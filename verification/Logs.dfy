// Logs of events, replayed by an automaton that knows what may follow what.

module Logs {
  import opened Basics

  // None once an event was out of place.
  function Replay<A, E>(record: (A, E) -> Option<A>, start: A, log: seq<E>): Option<A> {
    if log == [] then Some(start)
    else
      match Replay(record, start, log[..|log| - 1])
      case None => None
      case Some(a) => record(a, log[|log| - 1])
  }

  lemma ReplaySnoc<A, E>(record: (A, E) -> Option<A>, start: A, log: seq<E>, e: E)
    ensures Replay(record, start, log + [e]) ==
            match Replay(record, start, log) case None => None case Some(a) => record(a, e)
  {
    assert (log + [e])[..|log|] == log;
  }

  // In a log without fault every event was in place when it was recorded.
  lemma {:induction false} EveryEventInPlace<A, E>(record: (A, E) -> Option<A>, start: A, log: seq<E>, k: nat)
    requires Replay(record, start, log).Some? && k < |log|
    ensures Replay(record, start, log[..k]).Some? && Replay(record, start, log[..k + 1]).Some?
    ensures Replay(record, start, log[..k + 1]) == record(Replay(record, start, log[..k]).value, log[k])
    decreases |log|
  {
    assert log[..|log|] == log;
    if k < |log| - 1 {
      var init := log[..|log| - 1];
      EveryEventInPlace(record, start, init, k);
      assert init[..k] == log[..k] && init[..k + 1] == log[..k + 1];
    } else {
      assert log[..k + 1][..k] == log[..k];
    }
  }
}
