/** `mergeHooks(...hooks)`: flattens every argument, collects for each name the
    callbacks the arguments give it, in argument order, and makes each name
    either its one callback or a composite that runs all of them serially. */
module Merge {
  import opened Objects
  import opened Calls
  import opened Flatten

  /** `flatHooks(hook)`: a fresh accumulator and no parent name. */
  function FlatOf(hook: NestedHooks): Hooks
  {
    Flat(hook, [], "")
  }

  /** `finalHooks` between its two loops: each name with the callbacks
      collected for it. */
  type Groups = Entries<seq<Callback>>

  predicate NonEmptyGroups(g: Groups)
  {
    forall i :: 0 <= i < |g| ==> |g[i].1| > 0
  }

  /** The callbacks collected for `k`, none when `k` is absent. */
  function Collected(g: Groups, k: string): seq<Callback>
  {
    match Get(g, k)
    case Some(arr) => arr
    case None => []
  }

  /** `finalHooks[key].push(cb)` when `key` is present, else
      `finalHooks[key] = [cb]`. */
  function Push(g: Groups, k: string, cb: Callback): (r: Groups)
    ensures Keys(r) == if k in Keys(g) then Keys(g) else Keys(g) + [k]
  {
    Assign(g, k, Collected(g, k) + [cb])
  }

  /** After the push, `k` has collected `cb` at the end and every other name
      is unchanged. */
  lemma PushCollected(g: Groups, k: string, cb: Callback, k': string)
    ensures Collected(Push(g, k, cb), k') == if k' == k then Collected(g, k) + [cb] else Collected(g, k')
  {
    AssignGet(g, k, Collected(g, k) + [cb], k');
  }

  /** Pushing keeps every name's array non-empty and the names distinct. */
  lemma PushInvariant(g: Groups, k: string, cb: Callback)
    requires NonEmptyGroups(g) && UniqueKeys(g)
    ensures NonEmptyGroups(Push(g, k, cb)) && UniqueKeys(Push(g, k, cb))
  {
    var r := Push(g, k, cb);
    AssignUnique(g, k, Collected(g, k) + [cb]);
    AssignEntries(g, k, Collected(g, k) + [cb]);
    forall i | 0 <= i < |r| ensures |r[i].1| > 0 {
      assert r[i] in r;
    }
  }

  /** The inner loop of lines 25-31 over one flattened argument. */
  function PushAll(g: Groups, flat: Hooks): (r: Groups)
    decreases flat
  {
    if flat == [] then g else PushAll(Push(g, flat[0].0, flat[0].1), flat[1..])
  }

  lemma {:induction false} PushAllInvariant(g: Groups, flat: Hooks)
    requires NonEmptyGroups(g) && UniqueKeys(g)
    ensures NonEmptyGroups(PushAll(g, flat)) && UniqueKeys(PushAll(g, flat))
    decreases flat
  {
    if flat != [] {
      PushInvariant(g, flat[0].0, flat[0].1);
      PushAllInvariant(Push(g, flat[0].0, flat[0].1), flat[1..]);
    }
  }

  /** The outer loop of lines 23-32 over the arguments. */
  function Collect(g: Groups, hooks: seq<NestedHooks>): (r: Groups)
    decreases hooks
  {
    if hooks == [] then g else Collect(PushAll(g, FlatOf(hooks[0])), hooks[1..])
  }

  lemma {:induction false} CollectInvariant(g: Groups, hooks: seq<NestedHooks>)
    requires NonEmptyGroups(g) && UniqueKeys(g)
    ensures NonEmptyGroups(Collect(g, hooks)) && UniqueKeys(Collect(g, hooks))
    decreases hooks
  {
    if hooks != [] {
      PushAllInvariant(g, FlatOf(hooks[0]));
      CollectInvariant(PushAll(g, FlatOf(hooks[0])), hooks[1..]);
    }
  }

  /** Lines 35-40 for one name: a composite over several callbacks, or the
      only one. */
  function Combine(arr: seq<Callback>): Callback
    requires |arr| > 0
  {
    if |arr| > 1 then Composite(arr) else arr[0]
  }

  /** The loop of lines 34-41 over all names. */
  function Finish(g: Groups): (r: Hooks)
    requires NonEmptyGroups(g)
    ensures |r| == |g|
    ensures forall i :: 0 <= i < |g| ==> r[i] == (g[i].0, Combine(g[i].1))
    decreases |g|
  {
    if g == [] then []
    else Finish(g[..|g| - 1]) + [(g[|g| - 1].0, Combine(g[|g| - 1].1))]
  }

  /** What `mergeHooks(...hooks)` returns. */
  function Merged(hooks: seq<NestedHooks>): Hooks
  {
    CollectInvariant([], hooks);
    Finish(Collect([], hooks))
  }

  /** The callback one flattened argument gives `k`, if any. */
  function Contribution(flat: Hooks, k: string): seq<Callback>
  {
    match Get(flat, k)
    case Some(cb) => [cb]
    case None => []
  }

  /** Reference definition: the callback each argument's flattened form gives
      `k`, in argument order; at most one per argument. */
  function Contributors(hooks: seq<NestedHooks>, k: string): seq<Callback>
    decreases hooks
  {
    if hooks == [] then []
    else
      Contribution(FlatOf(hooks[0]), k) + Contributors(hooks[1..], k)
  }

  /** Every flattened name of every argument, argument by argument. */
  function AllNames(hooks: seq<NestedHooks>): seq<string>
    decreases hooks
  {
    if hooks == [] then [] else Keys(FlatOf(hooks[0])) + AllNames(hooks[1..])
  }

  /** One per argument: a flattened argument is an object, so it holds at most
      one callback per name. */
  lemma FlatOfUnique(hook: NestedHooks)
    ensures UniqueKeys(FlatOf(hook))
  {
    FlatUnique(hook, [], "");
  }

  lemma {:induction false} PushAllCollected(g: Groups, flat: Hooks, k: string)
    requires UniqueKeys(flat)
    ensures Collected(PushAll(g, flat), k) == Collected(g, k) + Contribution(flat, k)
    decreases flat
  {
    if flat != [] {
      var k0, cb0 := flat[0].0, flat[0].1;
      var g' := Push(g, k0, cb0);
      var here := if k0 == k then [cb0] else [];
      UniqueTail(flat);
      calc {
        Collected(PushAll(g, flat), k);
        Collected(PushAll(g', flat[1..]), k);
        { PushAllCollected(g', flat[1..], k); }
        Collected(g', k) + Contribution(flat[1..], k);
        { PushCollected(g, k0, cb0, k); }
        Collected(g, k) + here + Contribution(flat[1..], k);
        { assert Keys(flat) == [k0] + Keys(flat[1..]); }
        Collected(g, k) + Contribution(flat, k);
      }
    }
  }

  lemma {:induction false} PushAllKeys(g: Groups, flat: Hooks)
    ensures Keys(PushAll(g, flat)) == AppendNew(Keys(g), Keys(flat))
    decreases flat
  {
    if flat != [] {
      var g' := Push(g, flat[0].0, flat[0].1);
      var xs := Keys(flat);
      assert xs[0] == flat[0].0 && xs[1..] == Keys(flat[1..]);
      assert AppendNew(Keys(g), xs) == AppendNew(Keys(g'), Keys(flat[1..])) by {
        assert Keys(g') == if xs[0] in Keys(g) then Keys(g) else Keys(g) + [xs[0]];
      }
      PushAllKeys(g', flat[1..]);
    }
  }

  /** Collecting over the arguments appends, for each name, exactly the
      callbacks the arguments contribute to it, in argument order. */
  lemma {:induction false} CollectCollected(g: Groups, hooks: seq<NestedHooks>, k: string)
    ensures Collected(Collect(g, hooks), k) == Collected(g, k) + Contributors(hooks, k)
    decreases hooks
  {
    if hooks != [] {
      var flat := FlatOf(hooks[0]);
      var g' := PushAll(g, flat);
      var first := Contribution(flat, k);
      calc {
        Collected(Collect(g, hooks), k);
        Collected(Collect(g', hooks[1..]), k);
        { CollectCollected(g', hooks[1..], k); }
        Collected(g', k) + Contributors(hooks[1..], k);
        { FlatOfUnique(hooks[0]); PushAllCollected(g, flat, k); }
        Collected(g, k) + first + Contributors(hooks[1..], k);
        Collected(g, k) + Contributors(hooks, k);
      }
    }
  }

  lemma {:induction false} CollectKeys(g: Groups, hooks: seq<NestedHooks>)
    ensures Keys(Collect(g, hooks)) == AppendNew(Keys(g), AllNames(hooks))
    decreases hooks
  {
    if hooks != [] {
      PushAllKeys(g, FlatOf(hooks[0]));
      CollectKeys(PushAll(g, FlatOf(hooks[0])), hooks[1..]);
      AppendNewAppend(Keys(g), Keys(FlatOf(hooks[0])), AllNames(hooks[1..]));
    }
  }

  lemma {:induction false} AllNamesContains(hooks: seq<NestedHooks>, k: string)
    ensures k in AllNames(hooks) <==> exists i :: 0 <= i < |hooks| && k in Keys(FlatOf(hooks[i]))
    decreases hooks
  {
    if hooks != [] {
      AllNamesContains(hooks[1..], k);
      assert forall i :: 1 <= i < |hooks| ==> hooks[i] == hooks[1..][i - 1];
    }
  }

  /** Reading a name of the finished object: the combination of the callbacks
      collected for it. */
  lemma {:induction false} FinishGet(g: Groups, k: string)
    requires NonEmptyGroups(g)
    ensures Get(Finish(g), k) == if Collected(g, k) == [] then None else Some(Combine(Collected(g, k)))
    decreases g
  {
    if g != [] {
      var r := Finish(g);
      assert Keys(g) == [g[0].0] + Keys(g[1..]);
      assert r[1..] == Finish(g[1..]);
      FinishGet(g[1..], k);
    }
  }

  /** The keys of the result are the names of all the flattened arguments,
      in first-seen order: argument by argument, each depth first. */
  lemma MergedKeys(hooks: seq<NestedHooks>)
    ensures Keys(Merged(hooks)) == AppendNew([], AllNames(hooks))
  {
    var g := Collect([], hooks);
    CollectInvariant([], hooks);
    CollectKeys([], hooks);
    assert Keys(Finish(g)) == Keys(g);
  }

  /** The keys of the result are exactly the union of the arguments'
      flattened names, each once. */
  lemma MergedNames(hooks: seq<NestedHooks>, k: string)
    ensures k in Keys(Merged(hooks)) <==> exists i :: 0 <= i < |hooks| && k in Keys(FlatOf(hooks[i]))
    ensures UniqueKeys(Merged(hooks))
  {
    MergedKeys(hooks);
    AllNamesContains(hooks, k);
  }

  /** The callbacks `mergeHooks` collects for a name are those the arguments
      contribute, one per argument at most, in argument order. */
  lemma MergedCollectsOnePerArgument(hooks: seq<NestedHooks>, k: string)
    ensures Collected(Collect([], hooks), k) == Contributors(hooks, k)
    ensures |Contributors(hooks, k)| <= |hooks|
  {
    CollectCollected([], hooks, k);
    ContributorsBound(hooks, k);
  }

  lemma {:induction false} ContributorsBound(hooks: seq<NestedHooks>, k: string)
    ensures |Contributors(hooks, k)| <= |hooks|
    decreases hooks
  {
    if hooks != [] {
      ContributorsBound(hooks[1..], k);
    }
  }

  /** Each name of the result holds the combination of its contributors. */
  lemma MergedGet(hooks: seq<NestedHooks>, k: string)
    ensures Get(Merged(hooks), k)
         == if Contributors(hooks, k) == [] then None else Some(Combine(Contributors(hooks, k)))
  {
    var g := Collect([], hooks);
    CollectInvariant([], hooks);
    assert Collected(g, k) == Contributors(hooks, k) by {
      CollectCollected([], hooks, k);
    }
    FinishGet(g, k);
  }

  /** A name contributed by exactly one argument holds that original callback. */
  lemma MergedSingle(hooks: seq<NestedHooks>, k: string)
    requires |Contributors(hooks, k)| == 1
    ensures Get(Merged(hooks), k) == Some(Contributors(hooks, k)[0])
  {
    MergedGet(hooks, k);
  }

  /** A name contributed by several arguments holds a composite over all of
      them, in argument order. */
  lemma MergedComposite(hooks: seq<NestedHooks>, k: string)
    requires |Contributors(hooks, k)| > 1
    ensures Get(Merged(hooks), k) == Some(Composite(Contributors(hooks, k)))
  {
    MergedGet(hooks, k);
  }

  /** Calling the merged callback for a name is calling each contributor once,
      in argument order, with the same arguments, until one throws. */
  lemma MergedInvoke(hooks: seq<NestedHooks>, k: string, args: seq<Value>, throwing: set<CallbackId>)
    requires Contributors(hooks, k) != []
    ensures Get(Merged(hooks), k).Some?
    ensures Invoke(Get(Merged(hooks), k).value, args, throwing) == RunEach(Contributors(hooks, k), args, throwing)
  {
    MergedGet(hooks, k);
    var cs := Contributors(hooks, k);
    if |cs| == 1 {
      assert cs[1..] == [];
    }
  }

  /** Lines 25-31: the loop over the names of one flattened argument. */
  method PushEach(finalHooks: JsObject<seq<Callback>>, flatenHook: Hooks)
    requires finalHooks.Valid() && NonEmptyGroups(finalHooks.entries)
    modifies finalHooks
    ensures finalHooks.Valid() && NonEmptyGroups(finalHooks.entries)
    ensures finalHooks.entries == PushAll(old(finalHooks.entries), flatenHook)
  {
    for j := 0 to |flatenHook|
      invariant finalHooks.Valid() && NonEmptyGroups(finalHooks.entries)
      invariant PushAll(finalHooks.entries, flatenHook[j..]) == PushAll(old(finalHooks.entries), flatenHook)
    {
      var (key, cb) := flatenHook[j];
      ghost var current := finalHooks.entries;
      PushAllStep(current, flatenHook, j);
      PushInvariant(current, key, cb);
      var group := match Get(finalHooks.entries, key) {
        case Some(arr) => arr + [cb]
        case None => [cb]
      };
      assert group == Collected(current, key) + [cb];
      finalHooks.Put(key, group);
      assert finalHooks.entries == Push(current, key, cb);
    }
  }

  /** One turn of the loop of lines 25-31. */
  lemma PushAllStep(g: Groups, flat: Hooks, j: nat)
    requires j < |flat|
    ensures PushAll(g, flat[j..]) == PushAll(Push(g, flat[j].0, flat[j].1), flat[j + 1..])
  {
    assert flat[j..][0] == flat[j] && flat[j..][1..] == flat[j + 1..];
  }

  /** Lines 34-41: the loop that makes each collected array one callback.
      The source rewrites `finalHooks` in place; here the rewritten values go
      into a second object with the same keys in the same order. */
  method Finalize(groups: Groups) returns (result: JsObject<Callback>)
    requires UniqueKeys(groups) && NonEmptyGroups(groups)
    ensures fresh(result) && result.Valid()
    ensures result.entries == Finish(groups)
  {
    result := new JsObject<Callback>();
    for j := 0 to |groups|
      invariant result.Valid()
      invariant result.entries == Finish(groups[..j])
    {
      var (key, arr) := groups[j];
      assert groups[..j + 1][..j] == groups[..j];
      assert key !in Keys(result.entries) by {
        assert Keys(result.entries) == Keys(groups[..j]);
        forall i | 0 <= i < j ensures Keys(groups[..j])[i] != key {
          assert Keys(groups[..j])[i] == Keys(groups)[i] && Keys(groups)[j] == key;
        }
      }
      if |arr| > 1 {
        result.Put(key, Composite(arr));
      } else {
        result.Put(key, arr[0]);
      }
      AssignNew(Finish(groups[..j]), key, Combine(arr));
    }
    assert groups[..|groups|] == groups;
  }

  /** `mergeHooks(...hooks)`. */
  method MergeHooks(hooks: seq<NestedHooks>) returns (result: JsObject<Callback>)
    ensures fresh(result) && result.Valid()
    ensures result.entries == Merged(hooks)
  {
    var finalHooks := new JsObject<seq<Callback>>();
    for i := 0 to |hooks|
      invariant fresh(finalHooks) && finalHooks.Valid()
      invariant NonEmptyGroups(finalHooks.entries)
      invariant Collect(finalHooks.entries, hooks[i..]) == Collect([], hooks)
    {
      assert hooks[i..][0] == hooks[i] && hooks[i..][1..] == hooks[i + 1..];
      var empty := new JsObject<Callback>();
      var flatenHook := FlatHooks(hooks[i], empty);
      PushEach(finalHooks, flatenHook.entries);
    }
    assert hooks[|hooks|..] == [];
    result := Finalize(finalHooks.entries);
  }
}
