# sync-hookable utilities in Dafny

This project models the hook utilities of `sync-hookable` (`src/utils.ts`):

- `flatHooks` turns a nested hooks object into a flat one whose names are
  joined with colons.
- `mergeHooks` merges several hooks objects. Each name gets either its single
  callback or a closure that calls every contributor in turn.
- `serial`, `serialCaller` and `callEachWith` are the serial call strategies.

Modules:

- `Objects`: plain JavaScript objects as the utilities use them. An object is
  a list of `(key, value)` entries in enumeration order, with each key at most
  once.
  - `Get` reads the first entry with a key.
  - `Assign` replaces a value where it stands or appends a new key.
  - `JsObject` is the mutable object held by the utilities' variables. `Put`
    is `o[k] = v`.
- `Calls`: callbacks, and what calling one does.
  - A callback a caller supplies is an opaque identity. Calling it records a
    `Call` (identity and argument list) in a trace, and it throws exactly when
    its identity is in a set given as a parameter.
  - The closure that `mergeHooks` builds is `Composite(parts)`.
  - `Invoke` and `RunEach` say what calling one callback, or several in turn,
    does.
- `Strategies`: `serial`, `serialCaller` and `callEachWith`. Each is an
  imperative loop proved equal to its specification function.
- `Flatten`: the specification `Flat` of `flatHooks` as a recursive walk.
  - `Leaves` is an independent reference list of every function in the input
    with its joined name.
  - `Reaches` is a path-based description.
  - `FlatHooks` is the recursive imperative method. It extends the shared
    `JsObject` accumulator in place and returns that same object.
- `Merge`: the specification `Merged` of `mergeHooks`.
  - It is built from `Push`, `PushAll` and `Collect`, which collect the
    callbacks per name, and `Finish`, which combines each collected array.
  - `Contributors` is a reference definition: the callback each argument
    gives a name.
  - `MergeHooks`, `PushEach` and `Finalize` are the imperative loops of the
    source.
- `Examples`: concrete instances, on the inputs of the repository's tests
  where a lemma cites one and on small inputs of its own otherwise.

## Model

| member | source | states |
|---|---|---|
| Calls.Invoke | src/utils.ts:37 | calling one callback: a supplied one records its call with the given arguments and throws if it is a thrower; the closure built at line 37 calls its parts in turn with the same arguments |
| Calls.RunEach | src/utils.ts:52-56 | calling callbacks in turn with one argument list, stopping at the first that throws and letting its error escape |
| Strategies.SerialRun | src/utils.ts:46-50 | `serial(tasks, f)`: `f` on each task in order, the first error ending the run and escaping |
| Flatten.JoinName | src/utils.ts:8 | `parentName:key`, or `key` alone when the parent name is empty |
| Flatten.Flat | src/utils.ts:3-18 | what `flatHooks(config, acc, parentName)` leaves in the accumulator: properties visited in order, each value handled as met |
| Flatten.FlatValue | src/utils.ts:9-15 | one property value: an object is flattened under the joined name, a function is assigned to it, anything else is skipped |
| Merge.FlatOf | src/utils.ts:24 | `flatHooks(hook)` into a fresh `{}` with no parent name |
| Merge.PushAll | src/utils.ts:25-31 | the loop over one flattened argument: a push of each of its callbacks under its name, in order |
| Merge.Collect | src/utils.ts:23-32 | the loop over the arguments: each flattened and pushed in turn |
| Merge.Combine | src/utils.ts:35-39 | a collected array of several callbacks becomes the composite closure over them, a single one stays itself |
| Merge.Merged | src/utils.ts:20-44 | what `mergeHooks(...hooks)` returns: the collected arrays, each combined |
| Objects.Get | src/utils.ts:26 | a read finds a value exactly when the key is among the object's keys, and the value found is stored under that key |
| Objects.GetLast | src/utils.ts:14 | the last value written for a key is found exactly when the key was written, and it is one of the values written under it |
| Objects.Assign | src/utils.ts:14 | an assignment keeps the keys and their order when the key exists, and appends the key at the end otherwise |
| Objects.AssignGet | src/utils.ts:14 | after `o[k] = v`, reading `k` gives `v` and every other key reads as before |
| Objects.AssignEntries | src/utils.ts:14 | an assignment brings in no entry other than the one assigned |
| Objects.AssignUnique | src/utils.ts:14 | an assignment never duplicates a key |
| Objects.AssignAllKeys | src/utils.ts:4-16 | a sequence of assignments leaves the old keys in place, followed by the new ones in first-assignment order |
| Objects.AssignAllGet | src/utils.ts:4-16 | after a sequence of assignments, each key holds the last value assigned to it, or its old value if it was never assigned |
| Objects.AssignAllUnique | src/utils.ts:4-16 | a sequence of assignments keeps the keys distinct |
| Objects.AssignNew | src/utils.ts:29 | assigning a key the object lacks appends exactly one entry |
| Objects.AppendNew | src/utils.ts:25-31 | first-seen order: the names are the union of both lists, the old ones keep their positions, and none is duplicated |
| Objects.AppendNewAppend | src/utils.ts:23-32 | adding names in two batches adds them in the same order as adding them all at once |
| Objects.AppendNewFresh | src/utils.ts:29 | names none of which was seen before are appended in order |
| Objects.JsObject.Put | src/utils.ts:14 | `o[k] = v` changes the object to the assigned one and keeps its keys distinct |
| Calls.InvokeForwardsArgs | src/utils.ts:37 | every call made by calling a callback, composites included, receives exactly the arguments given |
| Calls.RunEachForwardsArgs | src/utils.ts:46-56 | every call made while calling callbacks in turn receives exactly the arguments given |
| Calls.RunEachOriginalsInOrder | src/utils.ts:52-56 | supplied callbacks that do not throw are each called once, in order, with the same arguments, and the run returns |
| Calls.RunEachOriginalsStopAtThrow | src/utils.ts:52-56 | when callback `k` is the first to throw, those before it and it itself are called once each, in order; none after it is called; its error escapes unchanged |
| Strategies.SerialRunAllReturn | src/utils.ts:46-50 | when no step throws, `serial` returns after doing every step once, in order |
| Strategies.SerialRunStopsAtFirstThrow | src/utils.ts:46-50 | when step `k` is the first to throw, `serial` does the steps before it and step `k`, does none after it, and step `k`'s error escapes unchanged |
| Strategies.SerialRunReturnsIff | src/utils.ts:46-50 | `serial` returns normally if and only if no step throws |
| Strategies.RunEachIsSerial | src/utils.ts:37 | calling callbacks in turn with the same arguments is `serial` applied with `f => f(...args)` |
| Strategies.Serial | src/utils.ts:46-50 | the loop's outcome and trace are those of `serial`'s specification |
| Strategies.SerialCaller | src/utils.ts:52-56 | the loop calls each hook in turn with the same argument list (empty by default), stopping at the first error |
| Strategies.CallEachWith | src/utils.ts:59-63 | the loop calls each callback in turn with the single argument `argument0` (undefined by default), stopping at the first error |
| Flatten.LeavesAppend | src/utils.ts:4 | the leaves of two concatenated objects are the leaves of the first, then those of the second |
| Flatten.FlatIsAssignAll | src/utils.ts:3-18 | flattening performs the assignments of the leaves, in depth-first order, on the accumulator |
| Flatten.FlatValueIsAssignAll | src/utils.ts:9-15 | handling one value performs the assignments of that value's leaves |
| Flatten.LeavesOfEntry | src/utils.ts:4-16 | the leaves of one property's value are among the object's leaves |
| Flatten.ReachedIsLeaf | src/utils.ts:8-10 | prefix joining: a function reached through keys k1..kn is a leaf named `parent:k1:...:kn` |
| Flatten.ValueReachedIsLeaf | src/utils.ts:8-14 | the same prefix joining, for one property value |
| Flatten.LeafIsReached | src/utils.ts:8-14 | every leaf is a function of the input, reached through a path whose joined name is the leaf's name |
| Flatten.ValueLeafIsReached | src/utils.ts:9-14 | the same, for one property value |
| Flatten.FlatKeys | src/utils.ts:3-18 | the accumulator's keys keep their places, and the new names follow in the order flattening first meets them |
| Flatten.FlatGet | src/utils.ts:3-18 | after flattening, a name holds the function of its last leaf, or the accumulator's old value if no leaf has that name |
| Flatten.FlatStoresReached | src/utils.ts:8-14 | the joined name of every function reached through a path is a key of the result |
| Flatten.FlatStoresOnlyReached | src/utils.ts:8-14 | when every function reached under a joined name is the same `cb`, the result holds `cb` under that name |
| Flatten.FlatAddsOnlyReached | src/utils.ts:9-15 | every value flattening adds or changes is a function reached through a path whose joined name is its key |
| Flatten.FlatKeepsUnreached | src/utils.ts:3-18 | accumulator entries with no reached name are left as they were |
| Flatten.FlatDropsOther | src/utils.ts:9-15 | a property whose value is neither an object nor a function contributes nothing, as if absent |
| Flatten.FlatUnique | src/utils.ts:3-18 | the flattened object never holds a key twice |
| Flatten.FlatHooks | src/utils.ts:3-18 | the shared accumulator is extended in place to the specified flattening and the same object is returned |
| Merge.Push | src/utils.ts:26-30 | pushing onto a name keeps the keys when the name exists, and appends it otherwise |
| Merge.PushCollected | src/utils.ts:26-30 | after a push, the name has the callback at the end of its array, and every other name is unchanged |
| Merge.PushInvariant | src/utils.ts:26-30 | pushing keeps every array non-empty and the names distinct |
| Merge.PushAllInvariant | src/utils.ts:25-31 | so does the loop over one flattened argument |
| Merge.CollectInvariant | src/utils.ts:23-32 | so does the loop over all arguments |
| Merge.Finish | src/utils.ts:34-41 | the finished object has the same names in the same order, each holding its combined array |
| Merge.FlatOfUnique | src/utils.ts:24 | a flattened argument holds at most one callback per name |
| Merge.PushAllCollected | src/utils.ts:25-31 | the loop over one argument appends, to each name, that argument's callback for it, if any |
| Merge.PushAllKeys | src/utils.ts:25-31 | the loop over one argument adds that argument's new names, in order |
| Merge.CollectCollected | src/utils.ts:23-32 | collecting appends to each name exactly its contributors, in argument order |
| Merge.CollectKeys | src/utils.ts:23-32 | collecting adds every name in first-seen order |
| Merge.AllNamesContains | src/utils.ts:23-25 | a name occurs among all the names if and only if some argument has it once flattened |
| Merge.FinishGet | src/utils.ts:34-41 | each name of the finished object holds the combination of its collected array |
| Merge.MergedKeys | src/utils.ts:20-44 | the result's keys are every flattened name of the arguments, in first-seen order |
| Merge.MergedNames | src/utils.ts:20-44 | a name is a key of the result if and only if some argument has it once flattened, and no key occurs twice |
| Merge.MergedCollectsOnePerArgument | src/utils.ts:23-32 | the callbacks collected for a name are its contributors, at most one per argument |
| Merge.ContributorsBound | src/utils.ts:24-30 | no name has more contributors than there are arguments |
| Merge.MergedGet | src/utils.ts:34-41 | a name without contributors is absent; otherwise it holds the combination of its contributors |
| Merge.MergedSingle | src/utils.ts:38-39 | a name with a single contributor holds that original callback itself |
| Merge.MergedComposite | src/utils.ts:35-37 | a name with several contributors holds a closure over all of them, in argument order |
| Merge.MergedInvoke | src/utils.ts:35-37 | calling a merged name's callback calls each contributor once, in argument order, with the same arguments, until one throws |
| Merge.PushEach | src/utils.ts:25-31 | the loop over the names of one flattened argument changes the collecting object as specified, keeping it valid |
| Merge.PushAllStep | src/utils.ts:25-31 | one turn of that loop is one push |
| Merge.Finalize | src/utils.ts:34-41 | the loop that combines each collected array produces the finished object |
| Merge.MergeHooks | src/utils.ts:20-44 | `mergeHooks` returns a fresh object equal to the specified merge |
| Examples.FlatHooksJoinsNames | test/hookable.test.ts:209-221 | `{ test: { hook, before } }` flattens to `test:hook` and `test:before` |
| Examples.FlatHooksDropsNull | test/hookable.test.ts:223-239 | a `null` property next to two functions leaves only the two functions' entries |
| Examples.FlatHooksLaterDuplicateWins | src/utils.ts:14 | `"a:b"` followed by `a: { b }` gives one key, holding the later function |
| Examples.LeavesOfHooks1 | test/hookable.test.ts:343-348 | the leaves of the test's first argument |
| Examples.LeavesOfHooks2 | test/hookable.test.ts:349-356 | the leaves of the test's second argument |
| Examples.FlatNamesOfHooks1 | test/hookable.test.ts:343-348 | the flattened names of the first argument |
| Examples.FlatNamesOfHooks2 | test/hookable.test.ts:349-356 | the flattened names of the second argument |
| Examples.AllNamesOfTest | test/hookable.test.ts:341-360 | the names of both arguments, argument by argument |
| Examples.AppendNamesOfTest | test/hookable.test.ts:341-360 | the first-seen order of those names |
| Examples.MergeHooksKeyOrder | test/hookable.test.ts:341-360 | the merged keys are `foo, bar, a:b, a:c, baz, a:d` |
| Examples.SerialCallerStopsAtError | src/utils.ts:52-56 | of two hooks where the first throws, only the first is called and its error escapes |

## Left out

- The `Hookable` registry and every file other than `src/utils.ts` are not
  part of this model. This includes hook registration, removal, deprecation,
  `callHook` and `callHookWith`, the `before`/`after` spies and the debugger.
  The registry's tests are used only where they exercise the utilities.
- Types and the compile-time type tests are left out, since they have no
  run-time behaviour.
- What callbacks return, and any promise they return, is left out:
  `serial`, `serialCaller` and `callEachWith` return nothing.
- What a callback does is reduced to being recorded and possibly throwing.
  Throwing is decided by a fixed set of identities, so one callback behaves
  the same on every call. Side effects between calls are not modelled.
- JavaScript object quirks are outside the model:
  - own keys that look like array indices enumerate first;
  - inherited enumerable keys would be visited by `for...in`;
  - `__proto__` has special assignment behaviour.
- The truthiness test `finalHooks[key]` at src/utils.ts:26 is modelled as
  "the key is an own key of `finalHooks`". An array stored there is always
  truthy, so the two agree on names that are not properties of
  `Object.prototype`.
- Names that are properties of `Object.prototype` (`constructor`,
  `toString`, `valueOf`, `hasOwnProperty`, ...) are not captured: on the fresh
  `{}` of src/utils.ts:21, `finalHooks[key]` reads the inherited member, which
  is truthy, and line 27 then throws a `TypeError` because it has no `push`.
  The model's `Merge.Push` creates a new key for such a name instead.
- Arrays, class instances and other objects inside a hooks object are
  modelled as nested hooks objects of their own enumerable properties.
  Cyclic objects cannot be written down as values, so the `RangeError` that
  `flatHooks` throws on one, once its recursion exhausts the stack, is not
  modelled.
- `flatHooks`'s default accumulator `{}` (src/utils.ts:3) is not modelled as
  a default argument: the caller passes a fresh `JsObject`, as `MergeHooks`
  does at src/utils.ts:24.
- Merge.Finalize: the source rewrites `finalHooks` in place
  (src/utils.ts:37-39). The model writes the combined values into a second
  object with the same keys in the same order. After each step, the source's
  object and the model's agree on every key already visited.
- `push` at src/utils.ts:27 mutates the array stored in the object. The model
  stores an updated array value instead; the difference could only be seen
  through aliasing, and `mergeHooks` creates each array itself and shares it
  with no one.
- The argument lists forwarded by the composite closure and by `serialCaller`
  are modelled as sequences of opaque values. Spreading (`...arguments_`)
  passes them unchanged.
