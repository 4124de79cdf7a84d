/** `flatHooks`: turns a nested hooks object (names mapped to callbacks or to
    further hooks objects) into a flat one keyed by colon-joined names,
    writing into an accumulator object that is shared by the recursion. */
module Flatten {
  import opened Objects
  import opened Calls

  /** A property value of a nested hooks object: a function, a non-null
      object (recursed into), or anything else (`null`, strings, numbers,
      `undefined`, ...), which is skipped. */
  datatype HookValue = Fn(cb: Callback) | Nested(hooks: Entries<HookValue>) | Other

  type NestedHooks = Entries<HookValue>

  /** A flat hooks object: names mapped to callbacks. */
  type Hooks = Entries<Callback>

  /** `parentName ? `${parentName}:${key}` : key`; the empty parent name is
      falsy, exactly as an absent one. */
  function JoinName(parentName: string, key: string): string
  {
    if parentName == "" then key else parentName + ":" + key
  }

  /** The name reached from `parentName` through the keys of `path`. */
  function JoinPath(parentName: string, path: seq<string>): string
    decreases path
  {
    if path == [] then parentName else JoinPath(JoinName(parentName, path[0]), path[1..])
  }

  /** What `flatHooks(config, acc, parentName)` leaves in `acc`: the keys
      are visited in order and each value is handled as it is met. */
  function Flat(config: NestedHooks, acc: Hooks, parentName: string): Hooks
    decreases config
  {
    if config == [] then acc
    else
      var entry := config[0];
      assert entry in config && entry.1 < entry;
      Flat(config[1..], FlatValue(entry.1, acc, JoinName(parentName, entry.0)), parentName)
  }

  function FlatValue(v: HookValue, acc: Hooks, name: string): Hooks
    decreases v
  {
    match v
    case Nested(hooks) => Flat(hooks, acc, name)
    case Fn(cb) => Assign(acc, name, cb)
    case Other => acc
  }

  /** Reference definition: every function of `config` with its joined name,
      depth first, duplicates of a name included. */
  function Leaves(config: NestedHooks, parentName: string): Hooks
    decreases config
  {
    if config == [] then []
    else
      var entry := config[0];
      assert entry in config && entry.1 < entry;
      ValueLeaves(entry.1, JoinName(parentName, entry.0)) + Leaves(config[1..], parentName)
  }

  function ValueLeaves(v: HookValue, name: string): Hooks
    decreases v
  {
    match v
    case Nested(hooks) => Leaves(hooks, name)
    case Fn(cb) => [(name, cb)]
    case Other => []
  }

  /** `cb` is the function found in `config` by following the keys of `path`. */
  predicate Reaches(config: NestedHooks, path: seq<string>, cb: Callback)
    decreases |path|, 0
  {
    |path| > 0 &&
    exists i :: 0 <= i < |config| && config[i].0 == path[0] && ValueReaches(config[i].1, path[1..], cb)
  }

  predicate ValueReaches(v: HookValue, rest: seq<string>, cb: Callback)
    decreases |rest|, 1
  {
    match v
    case Nested(hooks) => Reaches(hooks, rest, cb)
    case Fn(f) => rest == [] && f == cb
    case Other => false
  }

  lemma {:induction false} LeavesAppend(a: NestedHooks, b: NestedHooks, parentName: string)
    ensures Leaves(a + b, parentName) == Leaves(a, parentName) + Leaves(b, parentName)
    decreases a
  {
    if a == [] {
      assert a + b == b;
    } else {
      assert (a + b)[0] == a[0] && (a + b)[1..] == a[1..] + b;
      LeavesAppend(a[1..], b, parentName);
    }
  }

  /** Flattening assigns the leaves one after another, in depth-first order. */
  lemma {:induction false} FlatIsAssignAll(config: NestedHooks, acc: Hooks, parentName: string)
    ensures Flat(config, acc, parentName) == AssignAll(acc, Leaves(config, parentName))
    decreases config
  {
    if config != [] {
      var entry := config[0];
      assert entry in config && entry.1 < entry;
      var name := JoinName(parentName, entry.0);
      FlatValueIsAssignAll(entry.1, acc, name);
      FlatIsAssignAll(config[1..], FlatValue(entry.1, acc, name), parentName);
      AssignAllAppend(acc, ValueLeaves(entry.1, name), Leaves(config[1..], parentName));
    }
  }

  lemma {:induction false} FlatValueIsAssignAll(v: HookValue, acc: Hooks, name: string)
    ensures FlatValue(v, acc, name) == AssignAll(acc, ValueLeaves(v, name))
    decreases v
  {
    match v
    case Nested(hooks) => FlatIsAssignAll(hooks, acc, name);
    case Fn(cb) =>
    case Other =>
  }

  /** The leaves of one property are among the leaves of the object. */
  lemma {:induction false} LeavesOfEntry(config: NestedHooks, parentName: string, i: nat, leaf: (string, Callback))
    requires i < |config|
    requires leaf in ValueLeaves(config[i].1, JoinName(parentName, config[i].0))
    ensures leaf in Leaves(config, parentName)
    decreases i
  {
    var entry := config[0];
    assert entry in config && entry.1 < entry;
    if i > 0 {
      LeavesOfEntry(config[1..], parentName, i - 1, leaf);
    }
  }

  /** Prefix joining: a function reached through the keys k1, ..., kn is a
      leaf named `parentName:k1:...:kn` (`k1:...:kn` at the top level). */
  lemma {:induction false} ReachedIsLeaf(config: NestedHooks, parentName: string, path: seq<string>, cb: Callback)
    requires Reaches(config, path, cb)
    ensures (JoinPath(parentName, path), cb) in Leaves(config, parentName)
    decreases |path|, 0
  {
    var i :| 0 <= i < |config| && config[i].0 == path[0] && ValueReaches(config[i].1, path[1..], cb);
    var name := JoinName(parentName, path[0]);
    ValueReachedIsLeaf(config[i].1, name, path[1..], cb);
    LeavesOfEntry(config, parentName, i, (JoinPath(name, path[1..]), cb));
  }

  lemma {:induction false} ValueReachedIsLeaf(v: HookValue, name: string, rest: seq<string>, cb: Callback)
    requires ValueReaches(v, rest, cb)
    ensures (JoinPath(name, rest), cb) in ValueLeaves(v, name)
    decreases |rest|, 1
  {
    match v
    case Nested(hooks) => ReachedIsLeaf(hooks, name, rest, cb);
    case Fn(f) =>
  }

  /** Conversely, every leaf is a function of the input reached through a
      path whose joined name is the leaf's name. */
  lemma {:induction false} LeafIsReached(config: NestedHooks, parentName: string, leaf: (string, Callback))
    requires leaf in Leaves(config, parentName)
    ensures exists path :: Reaches(config, path, leaf.1) && JoinPath(parentName, path) == leaf.0
    decreases config
  {
    var entry := config[0];
    assert entry in config && entry.1 < entry;
    var name := JoinName(parentName, entry.0);
    if leaf in ValueLeaves(entry.1, name) {
      ValueLeafIsReached(entry.1, name, leaf);
      var rest :| ValueReaches(entry.1, rest, leaf.1) && JoinPath(name, rest) == leaf.0;
      var path := [entry.0] + rest;
      assert path[1..] == rest;
      assert Reaches(config, path, leaf.1);
    } else {
      LeafIsReached(config[1..], parentName, leaf);
      var path :| Reaches(config[1..], path, leaf.1) && JoinPath(parentName, path) == leaf.0;
      var j :| 0 <= j < |config[1..]| && config[1..][j].0 == path[0] && ValueReaches(config[1..][j].1, path[1..], leaf.1);
      assert config[j + 1] == config[1..][j];
      assert Reaches(config, path, leaf.1);
    }
  }

  lemma {:induction false} ValueLeafIsReached(v: HookValue, name: string, leaf: (string, Callback))
    requires leaf in ValueLeaves(v, name)
    ensures exists rest :: ValueReaches(v, rest, leaf.1) && JoinPath(name, rest) == leaf.0
    decreases v
  {
    match v
    case Nested(hooks) =>
      LeafIsReached(hooks, name, leaf);
      var rest :| Reaches(hooks, rest, leaf.1) && JoinPath(name, rest) == leaf.0;
      assert ValueReaches(v, rest, leaf.1);
    case Fn(f) =>
      assert ValueReaches(v, [], leaf.1);
  }

  /** Key order: the accumulator's keys stay where they are, and the new names
      follow in the order flattening first meets them, depth first. */
  lemma FlatKeys(config: NestedHooks, acc: Hooks, parentName: string)
    ensures Keys(Flat(config, acc, parentName)) == AppendNew(Keys(acc), Keys(Leaves(config, parentName)))
  {
    FlatIsAssignAll(config, acc, parentName);
    AssignAllKeys(acc, Leaves(config, parentName));
  }

  /** Reading a name after flattening: the function of the last leaf with that
      name (a later duplicate such as "a:b" after `a: { b }` overwrites the
      earlier one), or the accumulator's old value if no leaf has that name. */
  lemma FlatGet(config: NestedHooks, acc: Hooks, parentName: string, k: string)
    ensures Get(Flat(config, acc, parentName), k)
         == if k in Keys(Leaves(config, parentName)) then GetLast(Leaves(config, parentName), k) else Get(acc, k)
  {
    FlatIsAssignAll(config, acc, parentName);
    AssignAllGet(acc, Leaves(config, parentName), k);
  }

  /** The joined name of every function reached through a path is a key of
      the result; which function it holds is what `FlatGet` says. */
  lemma FlatStoresReached(config: NestedHooks, acc: Hooks, parentName: string, path: seq<string>, cb: Callback)
    requires Reaches(config, path, cb)
    ensures JoinPath(parentName, path) in Keys(Flat(config, acc, parentName))
  {
    ReachedIsLeaf(config, parentName, path, cb);
    FlatKeys(config, acc, parentName);
    assert JoinPath(parentName, path) in Keys(Leaves(config, parentName)) by {
      var leaves := Leaves(config, parentName);
      var i :| 0 <= i < |leaves| && leaves[i] == (JoinPath(parentName, path), cb);
      assert Keys(leaves)[i] == JoinPath(parentName, path);
    }
  }

  /** When every function reached under a joined name is `cb`, the result
      holds `cb` under that name. (Different functions reached under one name,
      such as "a:b" and `a: { b }`, leave the last one, as `FlatGet` says.) */
  lemma FlatStoresOnlyReached(config: NestedHooks, acc: Hooks, parentName: string, path: seq<string>, cb: Callback)
    requires Reaches(config, path, cb)
    requires forall path', cb' :: Reaches(config, path', cb') && JoinPath(parentName, path') == JoinPath(parentName, path) ==> cb' == cb
    ensures Get(Flat(config, acc, parentName), JoinPath(parentName, path)) == Some(cb)
  {
    var k := JoinPath(parentName, path);
    var leaves := Leaves(config, parentName);
    FlatStoresReached(config, acc, parentName, path, cb);
    ReachedIsLeaf(config, parentName, path, cb);
    assert k in Keys(leaves) by {
      var i :| 0 <= i < |leaves| && leaves[i] == (k, cb);
      assert Keys(leaves)[i] == k;
    }
    FlatGet(config, acc, parentName, k);
    var v := GetLast(leaves, k).value;
    LeafIsReached(config, parentName, (k, v));
  }

  /** Every value flattening adds or changes is a function of the input,
      reached through a path whose joined name is the key it is stored under. */
  lemma FlatAddsOnlyReached(config: NestedHooks, acc: Hooks, parentName: string, k: string)
    requires Get(Flat(config, acc, parentName), k) != Get(acc, k)
    ensures Get(Flat(config, acc, parentName), k).Some?
    ensures exists path :: Reaches(config, path, Get(Flat(config, acc, parentName), k).value) && JoinPath(parentName, path) == k
  {
    FlatGet(config, acc, parentName, k);
    var leaves := Leaves(config, parentName);
    var v := GetLast(leaves, k).value;
    LeafIsReached(config, parentName, (k, v));
  }

  /** Entries of the accumulator whose names no path of the input reaches are
      left as they were. */
  lemma FlatKeepsUnreached(config: NestedHooks, acc: Hooks, parentName: string, k: string)
    requires forall path, cb :: Reaches(config, path, cb) ==> JoinPath(parentName, path) != k
    ensures Get(Flat(config, acc, parentName), k) == Get(acc, k)
  {
    FlatGet(config, acc, parentName, k);
    var leaves := Leaves(config, parentName);
    if k in Keys(leaves) {
      var v := GetLast(leaves, k).value;
      LeafIsReached(config, parentName, (k, v));
    }
  }

  /** A value that is neither a function nor an object produces no entry:
      the result is as if the property were not there. */
  lemma FlatDropsOther(before: NestedHooks, key: string, after: NestedHooks, acc: Hooks, parentName: string)
    ensures Flat(before + [(key, Other)] + after, acc, parentName) == Flat(before + after, acc, parentName)
  {
    var dropped := [(key, Other)];
    assert Leaves(dropped, parentName) == [] by {
      assert dropped[1..] == [];
    }
    calc {
      Leaves(before + dropped + after, parentName);
      { LeavesAppend(before + dropped, after, parentName); }
      Leaves(before + dropped, parentName) + Leaves(after, parentName);
      { LeavesAppend(before, dropped, parentName); }
      Leaves(before, parentName) + Leaves(after, parentName);
      { LeavesAppend(before, after, parentName); }
      Leaves(before + after, parentName);
    }
    FlatIsAssignAll(before + dropped + after, acc, parentName);
    FlatIsAssignAll(before + after, acc, parentName);
  }

  /** The result is still an object: flattening never duplicates a key. */
  lemma FlatUnique(config: NestedHooks, acc: Hooks, parentName: string)
    requires UniqueKeys(acc)
    ensures UniqueKeys(Flat(config, acc, parentName))
  {
    FlatIsAssignAll(config, acc, parentName);
    AssignAllUnique(acc, Leaves(config, parentName));
  }

  /** `flatHooks(configHooks, hooks, parentName)`: extends `hooks` in place
      and returns that same object. */
  method FlatHooks(configHooks: NestedHooks, hooks: JsObject<Callback>, parentName: string := "") returns (r: JsObject<Callback>)
    requires hooks.Valid()
    modifies hooks
    ensures r == hooks && hooks.Valid()
    ensures hooks.entries == Flat(configHooks, old(hooks.entries), parentName)
    decreases configHooks
  {
    var i := 0;
    while i < |configHooks|
      invariant 0 <= i <= |configHooks|
      invariant hooks.Valid()
      invariant Flat(configHooks[i..], hooks.entries, parentName) == Flat(configHooks, old(hooks.entries), parentName)
    {
      var entry := configHooks[i];
      assert entry in configHooks && entry.1 < entry;
      var name := JoinName(parentName, entry.0);
      ghost var before := hooks.entries;
      assert Flat(configHooks[i..], before, parentName)
          == Flat(configHooks[i + 1..], FlatValue(entry.1, before, name), parentName) by {
        assert configHooks[i..][0] == entry && configHooks[i..][1..] == configHooks[i + 1..];
      }
      match entry.1 {
        case Nested(subHook) =>
          var same := FlatHooks(subHook, hooks, name);
        case Fn(subHook) =>
          hooks.Put(name, subHook);
        case Other =>
      }
      assert hooks.entries == FlatValue(entry.1, before, name);
      i := i + 1;
    }
    return hooks;
  }
}
