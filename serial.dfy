/** The serial call strategies `serial`, `serialCaller` and `callEachWith`:
    each element is handled once, in order, and nothing is caught, so the
    first error ends the loop and escapes unchanged. */
module Strategies {
  import opened Calls

  /** What `serial(tasks, apply)` does, where `apply(task)` is what the
      supplied function does for one task. */
  function SerialRun<T>(tasks: seq<T>, apply: T -> Outcome): Outcome
    decreases tasks
  {
    if tasks == [] then Returned([])
    else Then(apply(tasks[0]), SerialRun(tasks[1..], apply))
  }

  /** The traces of `apply` on each task, one after another. */
  function Concat(traces: seq<seq<Call>>): seq<Call>
    decreases traces
  {
    if traces == [] then [] else traces[0] + Concat(traces[1..])
  }

  function Traces<T>(tasks: seq<T>, apply: T -> Outcome): seq<seq<Call>>
  {
    seq(|tasks|, i requires 0 <= i < |tasks| => apply(tasks[i]).trace)
  }

  /** When no step throws, `serial` returns after doing every step once, in order. */
  lemma {:induction false} SerialRunAllReturn<T>(tasks: seq<T>, apply: T -> Outcome)
    requires forall i :: 0 <= i < |tasks| ==> apply(tasks[i]).Returned?
    ensures SerialRun(tasks, apply) == Returned(Concat(Traces(tasks, apply)))
    decreases tasks
  {
    if tasks != [] {
      SerialRunAllReturn(tasks[1..], apply);
      assert Traces(tasks, apply) == [apply(tasks[0]).trace] + Traces(tasks[1..], apply);
    }
  }

  /** When step `k` is the first to throw, `serial` does the steps before it
      and step `k`, does none after it, and lets step `k`'s error escape. */
  lemma {:induction false} SerialRunStopsAtFirstThrow<T>(tasks: seq<T>, apply: T -> Outcome, k: nat)
    requires k < |tasks| && apply(tasks[k]).Threw?
    requires forall i :: 0 <= i < k ==> apply(tasks[i]).Returned?
    ensures SerialRun(tasks, apply)
         == Threw(Concat(Traces(tasks[..k], apply)) + apply(tasks[k]).trace, apply(tasks[k]).thrower)
    decreases k
  {
    if k == 0 {
      assert Traces(tasks[..0], apply) == [];
    } else {
      SerialRunStopsAtFirstThrow(tasks[1..], apply, k - 1);
      assert tasks[1..][..k - 1] == tasks[1..k];
      assert Traces(tasks[..k], apply) == [apply(tasks[0]).trace] + Traces(tasks[1..k], apply);
    }
  }

  /** `serial` returns normally exactly when no step throws. */
  lemma {:induction false} SerialRunReturnsIff<T>(tasks: seq<T>, apply: T -> Outcome)
    ensures SerialRun(tasks, apply).Returned? <==> forall i :: 0 <= i < |tasks| ==> apply(tasks[i]).Returned?
    decreases tasks
  {
    if tasks != [] {
      SerialRunReturnsIff(tasks[1..], apply);
      assert forall i :: 1 <= i < |tasks| ==> tasks[i] == tasks[1..][i - 1];
    }
  }

  /** Running callbacks one after another with the same arguments is `serial`
      applied with `f => f(...args)`, as the composite closure at
      src/utils.ts:37 and `serialCaller` do. */
  lemma {:induction false} RunEachIsSerial(cbs: seq<Callback>, args: seq<Value>, throwing: set<CallbackId>, apply: Callback -> Outcome)
    requires forall cb :: apply(cb) == Invoke(cb, args, throwing)
    ensures RunEach(cbs, args, throwing) == SerialRun(cbs, apply)
    decreases cbs
  {
    if cbs != [] {
      RunEachIsSerial(cbs[1..], args, throwing, apply);
    }
  }

  /** `serial(tasks, function_)`: calls `apply` on each task in order. */
  method Serial<T>(tasks: seq<T>, apply: T -> Outcome) returns (o: Outcome)
    ensures o == SerialRun(tasks, apply)
  {
    var trace := [];
    for i := 0 to |tasks|
      invariant SerialRun(tasks, apply) == Prepend(trace, SerialRun(tasks[i..], apply))
    {
      assert tasks[i..][0] == tasks[i] && tasks[i..][1..] == tasks[i + 1..];
      var r := apply(tasks[i]);
      if r.Threw? {
        return Threw(trace + r.trace, r.thrower);
      }
      trace := trace + r.trace;
    }
    return Returned(trace);
  }

  /** `serialCaller(hooks, arguments_ = [])`: calls each hook in order with
      the same argument list. */
  method SerialCaller(hooks: seq<Callback>, throwing: set<CallbackId>, args: seq<Value> := []) returns (o: Outcome)
    ensures o == RunEach(hooks, args, throwing)
  {
    var trace := [];
    for i := 0 to |hooks|
      invariant RunEach(hooks, args, throwing) == Prepend(trace, RunEach(hooks[i..], args, throwing))
    {
      assert hooks[i..][0] == hooks[i] && hooks[i..][1..] == hooks[i + 1..];
      var r := Invoke(hooks[i], args, throwing);
      if r.Threw? {
        return Threw(trace + r.trace, r.thrower);
      }
      trace := trace + r.trace;
    }
    return Returned(trace);
  }

  /** `callEachWith(callbacks, argument0?)`: calls each callback in order with
      the single argument `argument0`, which is `undefined` when omitted. */
  method CallEachWith(callbacks: seq<Callback>, throwing: set<CallbackId>, argument0: Value := Undefined) returns (o: Outcome)
    ensures o == RunEach(callbacks, [argument0], throwing)
  {
    var trace := [];
    for i := 0 to |callbacks|
      invariant RunEach(callbacks, [argument0], throwing) == Prepend(trace, RunEach(callbacks[i..], [argument0], throwing))
    {
      assert callbacks[i..][0] == callbacks[i] && callbacks[i..][1..] == callbacks[i + 1..];
      var r := Invoke(callbacks[i], [argument0], throwing);
      if r.Threw? {
        return Threw(trace + r.trace, r.thrower);
      }
      trace := trace + r.trace;
    }
    return Returned(trace);
  }
}
