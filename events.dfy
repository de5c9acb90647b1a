/**
 * The `ChangeSceneEvent` of src/scene/manager.rs and its `Event` capability:
 * a cancelled flag and an optional reason, both overwritten by every
 * `set_cancelled` call a listener makes while the event is dispatched.
 */
module Events {
  import opened Wrappers

  /** The arguments `(cancel, reason)` of one `set_cancelled` call. */
  type Call = (bool, Option<string>)

  /** The part of an event that listeners can change. */
  datatype CancelState = CancelState(cancelled: bool, reason: Option<string>)

  /** The state `render_scene` builds every event with: not cancelled, no reason. */
  const Initial := CancelState(false, None)

  /** The state an event reaches from `st` when the calls are made in order. */
  function AfterCalls(st: CancelState, calls: seq<Call>): CancelState
    decreases |calls|
  {
    if calls == [] then st
    else AfterCalls(CancelState(calls[0].0, calls[0].1), calls[1..])
  }

  /** Last write wins: the final state holds the arguments of the last call,
      or the starting state when no listener called `set_cancelled`. */
  lemma {:induction false} LastWriteWins(st: CancelState, calls: seq<Call>)
    ensures AfterCalls(st, calls) ==
      if calls == [] then st
      else CancelState(calls[|calls| - 1].0, calls[|calls| - 1].1)
    decreases |calls|
  {
    if calls != [] {
      LastWriteWins(CancelState(calls[0].0, calls[0].1), calls[1..]);
    }
  }

  /** Dispatching to two groups of listeners one after the other is the same
      as dispatching to all of them in that order. */
  lemma {:induction false} AfterCallsAppend(st: CancelState, first: seq<Call>, second: seq<Call>)
    ensures AfterCalls(st, first + second) == AfterCalls(AfterCalls(st, first), second)
    decreases |first|
  {
    if first == [] {
      assert first + second == second;
    } else {
      assert (first + second)[1..] == first[1..] + second;
      AfterCallsAppend(CancelState(first[0].0, first[0].1), first[1..], second);
    }
  }

  /** A listener that vetoes last decides the outcome, with its reason. */
  lemma VetoOfLastListener(st: CancelState, calls: seq<Call>, reason: string)
    requires calls != [] && calls[|calls| - 1] == (true, Some(reason))
    ensures AfterCalls(st, calls) == CancelState(true, Some(reason))
  {
    LastWriteWins(st, calls);
  }

  /** A later un-cancel overrides any earlier vetoes: the event ends as it began. */
  lemma UncancelOverridesVetoes(vetoes: seq<Call>)
    ensures AfterCalls(Initial, vetoes + [(false, None)]) == Initial
  {
    LastWriteWins(Initial, vetoes + [(false, None)]);
  }

  /** `set_cancelled` does not couple the two fields: un-cancelling with a
      reason leaves an event that is not cancelled yet has a reason. */
  lemma {:induction false} UncancelKeepsReason(st: CancelState, calls: seq<Call>, reason: string)
    requires calls != [] && calls[|calls| - 1] == (false, Some(reason))
    ensures !AfterCalls(st, calls).cancelled && AfterCalls(st, calls).reason == Some(reason)
  {
    LastWriteWins(st, calls);
  }

  /** A request to change to `scene`, handed to the listeners of the event bus. */
  class ChangeSceneEvent<S> {
    const scene: S
    var cancelled: bool
    var reason: Option<string>

    /** The struct literal of `render_scene`: all three fields given. */
    constructor (scene: S, cancelled: bool, reason: Option<string>)
      ensures this.scene == scene && State() == CancelState(cancelled, reason)
    {
      this.scene := scene;
      this.cancelled := cancelled;
      this.reason := reason;
    }

    /** The listener-visible state of this event. */
    function State(): CancelState
      reads this
    {
      CancelState(cancelled, reason)
    }

    /** Every change-scene event may be cancelled. */
    function Cancellable(): (r: bool)
      ensures r
    {
      true
    }

    function Cancelled(): (c: bool)
      reads this
      ensures c <==> State().cancelled
    {
      cancelled
    }

    function GetCancelledReason(): (r: Option<string>)
      reads this
      ensures r == State().reason
    {
      reason
    }

    /** Overwrites both fields, whatever they held and however the two
        arguments relate; the scene is not touched. */
    method SetCancelled(cancel: bool, reason: Option<string>)
      modifies this
      ensures State() == AfterCalls(old(State()), [(cancel, reason)])
      ensures cancelled == cancel && this.reason == reason
    {
      this.cancelled := cancel;
      this.reason := reason;
    }
  }

  /**
   * The event bus's `dispatch_event!`: the listeners run one after the other
   * and, between them, make the `set_cancelled` calls in `calls`.
   */
  method Dispatch<S>(event: ChangeSceneEvent<S>, calls: seq<Call>)
    modifies event
    ensures event.State() == AfterCalls(old(event.State()), calls)
  {
    for i := 0 to |calls|
      invariant AfterCalls(event.State(), calls[i..]) == AfterCalls(old(event.State()), calls)
    {
      assert calls[i..][1..] == calls[i + 1..];
      event.SetCancelled(calls[i].0, calls[i].1);
    }
  }
}
