/**
 Waiting for a stream to reach a state (suite/src/utils/ceramicHelpers.ts).

 The wait is a small machine driven by actions in the order the event loop delivers them. The actions
 of the code are subscribing, checking the current state, and the timer; the stream acts in between.
 */
module StreamWait {

  datatype Action<+S> = Emit(state: S) | Complete | Error | Subscribe | Check | Deadline

  /** A source emits until it completes or errors. */
  datatype Source = Open | Completed | Errored

  /**
   The waiter is the promise of the first matching emission; completion of the source fulfils it too,
   an error breaks it.
   */
  datatype Waiter = Waiting | Done | Broken

  datatype Outcome = Pending | Resolved | Rejected

  /**
   The stream's current state and its source, the subscription and its waiter, the timer, and the
   outcome of the whole wait.
   */
  datatype Wait<+S> = Wait(current: S, source: Source, subscribed: bool, waiter: Waiter, armed: bool, outcome: Outcome)

  /** The wait resolves when its waiter is done while the timer is armed; a broken waiter has no effect on it. */
  function Settle<S>(w: Wait<S>): Wait<S> {
    if w.armed && w.waiter == Done && w.outcome == Pending then w.(outcome := Resolved) else w
  }

  /** The waiter of a subscription changes once. */
  function Wakes<S>(w: Wait<S>, to: Waiter): Wait<S> {
    if w.subscribed && w.waiter == Waiting then w.(waiter := to) else w
  }

  /**
   `replays`: subscribing to an open source delivers the current state at once, as a source that
   remembers it does.
   */
  function Act<S>(w: Wait<S>, action: Action<S>, condition: S -> bool, replays: bool): Wait<S> {
    Settle(
      match action
      case Emit(state) =>
        if w.source != Open then w
        else Wakes(w.(current := state), if condition(state) then Done else Waiting)
      case Complete =>
        if w.source != Open then w else Wakes(w.(source := Completed), Done)
      case Error =>
        if w.source != Open then w else Wakes(w.(source := Errored), Broken)
      case Subscribe =>
        Wakes(w.(subscribed := true),
              match w.source
              case Completed => Done
              case Errored => Broken
              case Open => if replays && condition(w.current) then Done else Waiting)
      case Check =>
        if !condition(w.current) then w.(armed := true)
        else if w.outcome == Pending then w.(outcome := Resolved)
        else w
      case Deadline =>
        if w.armed && w.outcome == Pending then w.(outcome := Rejected) else w
    )
  }

  function Run<S>(w: Wait<S>, actions: seq<Action<S>>, condition: S -> bool, replays: bool): Wait<S>
    decreases |actions|
  {
    if actions == [] then w else Run(Act(w, actions[0], condition, replays), actions[1..], condition, replays)
  }

  function Start<S>(state: S): Wait<S> {
    Wait(state, Open, false, Waiting, false, Pending)
  }

  // ----- settles once -----

  /** Once settled, by whichever of timer and source came first, the outcome never changes. */
  lemma {:induction false} SettlesOnce<S>(w: Wait<S>, actions: seq<Action<S>>, condition: S -> bool, replays: bool)
    requires w.outcome != Pending
    ensures Run(w, actions, condition, replays).outcome == w.outcome
    decreases |actions|
  {
    if actions != [] {
      SettlesOnce(Act(w, actions[0], condition, replays), actions[1..], condition, replays);
    }
  }

  lemma {:induction false} RunConcat<S>(w: Wait<S>, a: seq<Action<S>>, b: seq<Action<S>>, condition: S -> bool,
                                        replays: bool)
    ensures Run(w, a + b, condition, replays) == Run(Run(w, a, condition, replays), b, condition, replays)
    decreases |a|
  {
    if a == [] {
      assert a + b == b;
    } else {
      assert (a + b)[1..] == a[1..] + b;
      RunConcat(Act(w, a[0], condition, replays), a[1..], b, condition, replays);
    }
  }

  // ----- no lost wake-up -----

  predicate IsEnd<S>(action: Action<S>) { action.Complete? || action.Error? }

  /** The stream's own actions. */
  ghost predicate BySource<S>(actions: seq<Action<S>>) {
    forall i | 0 <= i < |actions| :: actions[i].Emit? || IsEnd(actions[i])
  }

  /** What of the source's actions takes effect: nothing after its end. */
  function Live<S>(ended: bool, actions: seq<Action<S>>): seq<Action<S>>
    decreases |actions|
  {
    if ended || actions == [] then [] else [actions[0]] + Live(IsEnd(actions[0]), actions[1..])
  }

  predicate Completes<S>(actions: seq<Action<S>>) {
    exists i | 0 <= i < |actions| :: actions[i].Complete?
  }

  predicate Errors<S>(actions: seq<Action<S>>) {
    exists i | 0 <= i < |actions| :: actions[i].Error?
  }

  predicate SomeMatch<S>(actions: seq<Action<S>>, condition: S -> bool) {
    exists i | 0 <= i < |actions| :: actions[i].Emit? && condition(actions[i].state)
  }

  /** The last state emitted, or the one before any emission. */
  function Last<S>(state: S, actions: seq<Action<S>>): S {
    if actions == [] then state
    else Last(if actions[0].Emit? then actions[0].state else state, actions[1..])
  }

  lemma ConsFacts<S>(head: Action<S>, rest: seq<Action<S>>, condition: S -> bool)
    ensures ([head] + rest)[1..] == rest
    ensures SomeMatch([head] + rest, condition) <==> (head.Emit? && condition(head.state)) || SomeMatch(rest, condition)
    ensures Completes([head] + rest) <==> head.Complete? || Completes(rest)
    ensures Errors([head] + rest) <==> head.Error? || Errors(rest)
  {
    var all := [head] + rest;
    assert all[0] == head && all[1..] == rest;
    assert forall i | 0 <= i < |rest| :: rest[i] == all[i + 1];
    assert forall i | 0 < i < |all| :: all[i] == rest[i - 1];
  }

  ghost predicate Consistent<S>(w: Wait<S>) {
    && (w.subscribed && w.source != Open ==> w.waiter != Waiting)
    && (w.armed && w.outcome == Pending ==> w.waiter != Done)
  }

  /** A wait after its source has acted: what became of the state, the source, the waiter and the outcome. */
  function Sourced<S>(w: Wait<S>, live: seq<Action<S>>, condition: S -> bool): Wait<S> {
    var source :=
      if w.source != Open then w.source
      else if Completes(live) then Completed
      else if Errors(live) then Errored
      else Open;
    var waiter :=
      if !w.subscribed || w.waiter != Waiting then w.waiter
      else if SomeMatch(live, condition) || Completes(live) then Done
      else if Errors(live) then Broken
      else Waiting;
    Settle(w.(current := Last(w.current, live), source := source, waiter := waiter))
  }

  /** A source that has ended changes nothing. */
  lemma {:induction false} EndedIsSilent<S>(w: Wait<S>, actions: seq<Action<S>>, condition: S -> bool, replays: bool)
    requires BySource(actions) && Consistent(w) && w.source != Open
    ensures Run(w, actions, condition, replays) == w
    decreases |actions|
  {
    if actions != [] {
      assert BySource(actions[1..]) by {
        assert forall i | 0 <= i < |actions[1..]| :: actions[1..][i] == actions[i + 1];
      }
      EndedIsSilent(w, actions[1..], condition, replays);
    }
  }

  lemma SourcedCons<S>(w: Wait<S>, head: Action<S>, rest: seq<Action<S>>, condition: S -> bool, replays: bool)
    requires w.source == Open && Consistent(w) && (head.Emit? || IsEnd(head)) && (IsEnd(head) ==> rest == [])
    ensures Sourced(Act(w, head, condition, replays), rest, condition) == Sourced(w, [head] + rest, condition)
  {
    ConsFacts(head, rest, condition);
  }

  /** What the source alone does to a wait. */
  lemma {:induction false} SourceRun<S>(w: Wait<S>, actions: seq<Action<S>>, condition: S -> bool, replays: bool)
    requires BySource(actions) && Consistent(w)
    ensures Run(w, actions, condition, replays) == Sourced(w, Live(w.source != Open, actions), condition)
    decreases |actions|
  {
    if actions == [] {
    } else if w.source != Open {
      EndedIsSilent(w, actions, condition, replays);
    } else {
      var head, rest := actions[0], actions[1..];
      var next := Act(w, head, condition, replays);
      assert BySource(rest) by {
        assert forall i | 0 <= i < |rest| :: rest[i] == actions[i + 1];
      }
      SourceRun(next, rest, condition, replays);
      SourcedCons(w, head, Live(IsEnd(head), rest), condition, replays);
    }
  }

  /** The source ends, one way or the other. */
  predicate Ends<S>(actions: seq<Action<S>>) { Completes(actions) || Errors(actions) }

  /**
   The condition is seen, or the source completes, before the deadline: the condition holds at the check,
   or at an emission from the subscription on, or, if an open source replays, at the subscription. Nothing
   that a source does after its end counts.
   */
  predicate Awaited<S>(initial: S, before: seq<Action<S>>, between: seq<Action<S>>, after: seq<Action<S>>,
                       condition: S -> bool, replays: bool) {
    var b := Live(false, before);
    var m := Live(Ends(b), between);
    var a := Live(Ends(b) || Ends(m), after);
    || condition(Last(Last(initial, b), m))
    || SomeMatch(m, condition) || SomeMatch(a, condition)
    || (replays && !Errors(b) && condition(Last(initial, b)))
    || Completes(b) || Completes(m) || Completes(a)
  }

  /** The order of the code's own actions: it subscribes, then checks, and the timer fires some time later. */
  function Trace<S>(before: seq<Action<S>>, between: seq<Action<S>>, after: seq<Action<S>>,
                    late: seq<Action<S>>): seq<Action<S>> {
    before + [Subscribe] + between + [Check] + after + [Deadline] + late
  }

  /**
   No lost wake-up. However the source interleaves its emissions with the code's actions, the wait
   resolves if the condition is seen before the deadline, and rejects at the deadline if it is not, with
   one exception: a source that completes before the deadline resolves the wait although the condition
   may never have held. A source that errors only ends its emissions.
   */
  lemma ResolvesIffSeen<S>(initial: S, before: seq<Action<S>>, between: seq<Action<S>>, after: seq<Action<S>>,
                           late: seq<Action<S>>, condition: S -> bool, replays: bool)
    requires BySource(before) && BySource(between) && BySource(after) && BySource(late)
    ensures Run(Start(initial), Trace(before, between, after, late), condition, replays).outcome
         == if Awaited(initial, before, between, after, condition, replays) then Resolved else Rejected
  {
    var w0 := Start(initial);
    SourceRun(w0, before, condition, replays);
    var w1 := Run(w0, before, condition, replays);
    var w2 := Act(w1, Subscribe, condition, replays);
    SourceRun(w2, between, condition, replays);
    var w3 := Run(w2, between, condition, replays);
    var w4 := Act(w3, Check, condition, replays);
    SourceRun(w4, after, condition, replays);
    var w5 := Run(w4, after, condition, replays);
    var w6 := Act(w5, Deadline, condition, replays);
    SettlesOnce(w6, late, condition, replays);
    TraceRun(initial, before, between, after, late, condition, replays);
  }

  /**
   Nor does it wait for the deadline to say so: at any moment between the check and the deadline the wait has
   resolved if the condition has been seen or the source has completed, and is otherwise still pending.
   */
  lemma ResolvesAtOnce<S>(initial: S, before: seq<Action<S>>, between: seq<Action<S>>, after: seq<Action<S>>,
                          condition: S -> bool, replays: bool)
    requires BySource(before) && BySource(between) && BySource(after)
    ensures Run(Start(initial), before + [Subscribe] + between + [Check] + after, condition, replays).outcome
         == if Awaited(initial, before, between, after, condition, replays) then Resolved else Pending
  {
    var w0 := Start(initial);
    SourceRun(w0, before, condition, replays);
    var w1 := Run(w0, before, condition, replays);
    RunOne(w1, Subscribe, condition, replays);
    var w2 := Act(w1, Subscribe, condition, replays);
    SourceRun(w2, between, condition, replays);
    var w3 := Run(w2, between, condition, replays);
    RunOne(w3, Check, condition, replays);
    SourceRun(Act(w3, Check, condition, replays), after, condition, replays);
    RunConcat(w0, before, [Subscribe], condition, replays);
    RunConcat(w0, before + [Subscribe], between, condition, replays);
    RunConcat(w0, before + [Subscribe] + between, [Check], condition, replays);
    RunConcat(w0, before + [Subscribe] + between + [Check], after, condition, replays);
  }

  lemma TraceRun<S>(initial: S, before: seq<Action<S>>, between: seq<Action<S>>, after: seq<Action<S>>,
                    late: seq<Action<S>>, condition: S -> bool, replays: bool)
    ensures var w1 := Run(Start(initial), before, condition, replays);
            var w3 := Run(Act(w1, Subscribe, condition, replays), between, condition, replays);
            var w5 := Run(Act(w3, Check, condition, replays), after, condition, replays);
            var w6 := Act(w5, Deadline, condition, replays);
            Run(Start(initial), Trace(before, between, after, late), condition, replays)
                == Run(w6, late, condition, replays)
  {
    var w0 := Start(initial);
    var w1 := Run(w0, before, condition, replays);
    RunOne(w1, Subscribe, condition, replays);
    var w3 := Run(Act(w1, Subscribe, condition, replays), between, condition, replays);
    RunOne(w3, Check, condition, replays);
    var w5 := Run(Act(w3, Check, condition, replays), after, condition, replays);
    RunOne(w5, Deadline, condition, replays);
    RunConcat(w0, before, [Subscribe], condition, replays);
    RunConcat(w0, before + [Subscribe], between, condition, replays);
    RunConcat(w0, before + [Subscribe] + between, [Check], condition, replays);
    RunConcat(w0, before + [Subscribe] + between + [Check], after, condition, replays);
    RunConcat(w0, before + [Subscribe] + between + [Check] + after, [Deadline], condition, replays);
    RunConcat(w0, before + [Subscribe] + between + [Check] + after + [Deadline], late, condition, replays);
  }

  /**
   A source that completes while it is waited for, and never reaches the condition, resolves the wait; one
   that errors instead does not.
   */
  lemma CompletionWithoutMatchResolves<S>(initial: S, condition: S -> bool, replays: bool)
    requires !condition(initial)
    ensures Run(Start(initial), [Subscribe, Check, Complete, Deadline], condition, replays).outcome == Resolved
    ensures Run(Start(initial), [Subscribe, Check, Error, Deadline], condition, replays).outcome == Rejected
  {
    OneEnd(initial, Complete, condition, replays);
    OneEnd(initial, Error, condition, replays);
  }

  lemma OneEnd<S>(initial: S, end: Action<S>, condition: S -> bool, replays: bool)
    requires !condition(initial) && IsEnd(end)
    ensures Run(Start(initial), [Subscribe, Check, end, Deadline], condition, replays).outcome
         == if end.Complete? then Resolved else Rejected
  {
    var none: seq<Action<S>> := [];
    assert Trace(none, none, [end], none) == [Subscribe, Check, end, Deadline];
    ResolvesIffSeen(initial, none, none, [end], none, condition, replays);
    assert Live(false, [end]) == [end] + Live(true, [end][1..]) == [end];
    assert [end][0] == end;
  }

  lemma RunOne<S>(w: Wait<S>, action: Action<S>, condition: S -> bool, replays: bool)
    ensures Run(w, [action], condition, replays) == Act(w, action, condition, replays)
  {
    assert [action][1..] == [];
  }

  /**
   The order matters: had the check come before the subscription, a state reached in between and kept
   from then on would be missed, and the wait would reject.
   */
  lemma CheckFirstLosesWakeUp<S>(initial: S, reached: S, condition: S -> bool)
    requires !condition(initial) && condition(reached)
    ensures Run(Start(initial), [Check, Emit(reached), Subscribe, Deadline], condition, false).outcome == Rejected
    ensures Run(Start(initial), [Subscribe, Emit(reached), Check, Deadline], condition, false).outcome == Resolved
  {
    RunFour(Start(initial), Check, Emit(reached), Subscribe, Deadline, condition);
    RunFour(Start(initial), Subscribe, Emit(reached), Check, Deadline, condition);
  }

  lemma RunFour<S>(w: Wait<S>, a: Action<S>, b: Action<S>, c: Action<S>, d: Action<S>, condition: S -> bool)
    ensures Run(w, [a, b, c, d], condition, false)
         == Act(Act(Act(Act(w, a, condition, false), b, condition, false), c, condition, false), d, condition, false)
  {
    assert [a, b, c, d] == [a] + [b] + [c] + [d];
    RunOne(w, a, condition, false);
    var w1 := Act(w, a, condition, false);
    RunOne(w1, b, condition, false);
    var w2 := Act(w1, b, condition, false);
    RunOne(w2, c, condition, false);
    RunOne(Act(w2, c, condition, false), d, condition, false);
    RunConcat(w, [a], [b], condition, false);
    RunConcat(w, [a] + [b], [c], condition, false);
    RunConcat(w, [a] + [b] + [c], [d], condition, false);
  }

  // ----- the promises as objects -----

  /** A promise that settles once, as the promise of the timeout does. */
  class Deferred {
    var outcome: Outcome

    constructor ()
      ensures outcome == Pending
    {
      outcome := Pending;
    }

    method SettleAs(to: Outcome)
      modifies this
      ensures outcome == if old(outcome) == Pending then to else old(outcome)
    {
      if outcome == Pending {
        outcome := to;
      }
    }
  }

  /** A stream, the subscription of one wait to it and the promises of that wait, updated by each action. */
  class ConditionWait<S(==)> {
    const condition: S -> bool
    const replays: bool
    var current: S
    var source: Source
    var subscribed: bool
    var waiter: Waiter
    var armed: bool
    const promise: Deferred

    /** The state of the machine that these fields are in. */
    ghost function View(): Wait<S>
      reads this, promise
    {
      Wait(current, source, subscribed, waiter, armed, promise.outcome)
    }

    constructor (initial: S, condition: S -> bool, replays: bool)
      ensures fresh(promise)
      ensures View() == Start(initial) && this.condition == condition && this.replays == replays
    {
      this.condition, this.replays := condition, replays;
      current, source := initial, Open;
      subscribed, waiter, armed := false, Waiting, false;
      promise := new Deferred();
    }

    method Handle(action: Action<S>)
      modifies this, promise
      ensures View() == Act(old(View()), action, condition, replays)
    {
      match action {
        case Emit(state) =>
          if source == Open {
            current := state;
            if condition(state) {
              Wake(Done);
            }
          }
        case Complete =>
          if source == Open {
            source := Completed;
            Wake(Done);
          }
        case Error =>
          if source == Open {
            source := Errored;
            Wake(Broken);
          }
        case Subscribe =>
          subscribed := true;
          if source == Completed || (source == Open && replays && condition(current)) {
            Wake(Done);
          } else if source == Errored {
            Wake(Broken);
          }
        case Check =>
          if condition(current) {
            promise.SettleAs(Resolved);
          } else {
            armed := true;
          }
        case Deadline =>
          if armed {
            promise.SettleAs(Rejected);
          }
      }
      if armed && waiter == Done {
        promise.SettleAs(Resolved);
      }
    }

    method Wake(to: Waiter)
      modifies this`waiter
      ensures waiter == if subscribed && old(waiter) == Waiting then to else old(waiter)
    {
      if subscribed && waiter == Waiting {
        waiter := to;
      }
    }

    /** The event loop delivers actions one after another. */
    method Deliver(actions: seq<Action<S>>)
      modifies this, promise
      ensures View() == Run(old(View()), actions, condition, replays)
    {
      for i := 0 to |actions|
        invariant Run(old(View()), actions, condition, replays) == Run(View(), actions[i..], condition, replays)
      {
        Handle(actions[i]);
      }
    }
  }

  /** A whole wait: the promise ends as the condition and the source decide, whatever the source does. */
  method WaitForCondition<S(==)>(initial: S, before: seq<Action<S>>, between: seq<Action<S>>, after: seq<Action<S>>,
                                 late: seq<Action<S>>, condition: S -> bool, replays: bool)
    returns (outcome: Outcome)
    requires BySource(before) && BySource(between) && BySource(after) && BySource(late)
    ensures outcome == if Awaited(initial, before, between, after, condition, replays) then Resolved else Rejected
  {
    var wait := new ConditionWait(initial, condition, replays);
    wait.Deliver(Trace(before, between, after, late));
    ResolvesIffSeen(initial, before, between, after, late, condition, replays);
    outcome := wait.promise.outcome;
  }
}
