/** Hook callbacks and what calling one does. A callback supplied by a caller is
    an opaque identity: its only observable effects are that the call is
    recorded in a trace and that it may throw. Throwing is decided by a set of
    identities given as a parameter; the error that escapes names the callback
    that threw it, so an error that propagates unchanged keeps that name. */
module Calls {

  type CallbackId = nat

  /** An argument value passed through to callbacks; `Undefined` is what an
      omitted optional argument becomes. */
  datatype Value = Undefined | Arg(id: nat)

  /** A hook function: one supplied by a caller, or the composite closure that
      `mergeHooks` builds over several of them. */
  datatype Callback = Original(id: CallbackId) | Composite(parts: seq<Callback>)

  /** One invocation of a supplied callback, with its argument list. */
  datatype Call = Call(callee: CallbackId, args: seq<Value>)

  /** What running code did: the calls it made, and whether it returned
      normally or let the error of callback `thrower` escape. */
  datatype Outcome = Returned(trace: seq<Call>) | Threw(trace: seq<Call>, thrower: CallbackId)

  /** `t` happened before `o`. */
  function Prepend(t: seq<Call>, o: Outcome): Outcome
  {
    match o
    case Returned(t') => Returned(t + t')
    case Threw(t', e) => Threw(t + t', e)
  }

  /** Run `first`, and `rest` only if `first` returned. */
  function Then(first: Outcome, rest: Outcome): Outcome
  {
    match first
    case Threw(_, _) => first
    case Returned(t) => Prepend(t, rest)
  }

  /** Calling `cb(...args)`. A composite runs its parts serially with the
      same arguments (the closure at src/utils.ts:37). */
  function Invoke(cb: Callback, args: seq<Value>, throwing: set<CallbackId>): Outcome
    decreases cb
  {
    match cb
    case Original(id) =>
      if id in throwing then Threw([Call(id, args)], id) else Returned([Call(id, args)])
    case Composite(parts) => RunEach(parts, args, throwing)
  }

  /** Calling each of `cbs` in turn with `args`, stopping at the first throw. */
  function RunEach(cbs: seq<Callback>, args: seq<Value>, throwing: set<CallbackId>): Outcome
    decreases cbs
  {
    if cbs == [] then Returned([])
    else
      var first := cbs[0];
      assert first in cbs;
      Then(Invoke(first, args, throwing), RunEach(cbs[1..], args, throwing))
  }

  /** Every call that invoking `cb` makes receives exactly `args`. */
  lemma {:induction false} InvokeForwardsArgs(cb: Callback, args: seq<Value>, throwing: set<CallbackId>)
    ensures forall i :: 0 <= i < |Invoke(cb, args, throwing).trace| ==> Invoke(cb, args, throwing).trace[i].args == args
    decreases cb
  {
    match cb
    case Original(_) =>
    case Composite(parts) => RunEachForwardsArgs(parts, args, throwing);
  }

  /** Every call that running `cbs` makes receives exactly `args`. */
  lemma {:induction false} RunEachForwardsArgs(cbs: seq<Callback>, args: seq<Value>, throwing: set<CallbackId>)
    ensures forall i :: 0 <= i < |RunEach(cbs, args, throwing).trace| ==> RunEach(cbs, args, throwing).trace[i].args == args
    decreases cbs
  {
    if cbs != [] {
      var first := cbs[0];
      assert first in cbs;
      InvokeForwardsArgs(first, args, throwing);
      RunEachForwardsArgs(cbs[1..], args, throwing);
    }
  }

  /** The calls `cbs` makes when every one of them is a supplied callback. */
  function CallsOf(cbs: seq<Callback>, args: seq<Value>): seq<Call>
    requires forall i :: 0 <= i < |cbs| ==> cbs[i].Original?
  {
    seq(|cbs|, i requires 0 <= i < |cbs| => Call(cbs[i].id, args))
  }

  /** Supplied callbacks none of which throws are each called exactly once,
      in order, with the same arguments, and the run returns. */
  lemma {:induction false} RunEachOriginalsInOrder(cbs: seq<Callback>, args: seq<Value>, throwing: set<CallbackId>)
    requires forall i :: 0 <= i < |cbs| ==> cbs[i].Original? && cbs[i].id !in throwing
    ensures RunEach(cbs, args, throwing) == Returned(CallsOf(cbs, args))
    decreases cbs
  {
    if cbs != [] {
      RunEachOriginalsInOrder(cbs[1..], args, throwing);
      assert CallsOf(cbs, args) == [Call(cbs[0].id, args)] + CallsOf(cbs[1..], args);
    }
  }

  /** When the supplied callback at `k` is the first that throws, the ones
      before it and it itself are called once each, in order, the ones after
      it are not called, and its own error escapes. */
  lemma {:induction false} RunEachOriginalsStopAtThrow(cbs: seq<Callback>, args: seq<Value>, throwing: set<CallbackId>, k: nat)
    requires forall i :: 0 <= i < |cbs| ==> cbs[i].Original?
    requires k < |cbs| && cbs[k].id in throwing
    requires forall i :: 0 <= i < k ==> cbs[i].id !in throwing
    ensures RunEach(cbs, args, throwing) == Threw(CallsOf(cbs[..k + 1], args), cbs[k].id)
    decreases k
  {
    if k == 0 {
      assert CallsOf(cbs[..1], args) == [Call(cbs[0].id, args)];
    } else {
      RunEachOriginalsStopAtThrow(cbs[1..], args, throwing, k - 1);
      assert cbs[1..][..k] == cbs[1..k + 1];
      assert CallsOf(cbs[..k + 1], args) == [Call(cbs[0].id, args)] + CallsOf(cbs[1..k + 1], args);
    }
  }
}
