/** Concrete instances of the utilities' behaviour: the inputs of the
    repository's tests where a lemma cites one, and small inputs of our own
    otherwise. Every function of a test is a distinct supplied callback unless
    the test shares one reference. */
module Examples {
  import opened Objects
  import opened Calls
  import opened Flatten
  import opened Merge

  /** test/hookable.test.ts:209-221: nested names are joined with a colon. */
  lemma FlatHooksJoinsNames()
    ensures FlatOf([("test", Nested([("hook", Fn(Original(1))), ("before", Fn(Original(2)))]))])
         == [("test:hook", Original(1)), ("test:before", Original(2))]
  {
    var inner: NestedHooks := [("hook", Fn(Original(1))), ("before", Fn(Original(2)))];
    assert JoinName("test", "hook") == "test:hook";
    assert JoinName("test", "before") == "test:before";
    assert Flat(inner, [], "test") == [("test:hook", Original(1)), ("test:before", Original(2))] by {
      assert inner[1..] == [("before", Fn(Original(2)))];
      assert inner[1..][1..] == [];
    }
  }

  /** test/hookable.test.ts:223-239: a `null` placeholder gives no entry. */
  lemma FlatHooksDropsNull()
    ensures FlatOf([("test", Nested([("hook", Fn(Original(1))), ("before", Fn(Original(2))), ("after", Other)]))])
         == [("test:hook", Original(1)), ("test:before", Original(2))]
  {
    var kept: NestedHooks := [("hook", Fn(Original(1))), ("before", Fn(Original(2)))];
    assert kept + [("after", Other)] + [] == [("hook", Fn(Original(1))), ("before", Fn(Original(2))), ("after", Other)];
    FlatDropsOther(kept, "after", [], [], "test");
    assert kept + [] == kept;
    FlatHooksJoinsNames();
  }

  /** A key written with a colon and the same name reached by nesting are one
      name; the later one overwrites the earlier where it stands. */
  lemma FlatHooksLaterDuplicateWins()
    ensures FlatOf([("a:b", Fn(Original(1))), ("a", Nested([("b", Fn(Original(2)))]))]) == [("a:b", Original(2))]
  {
    var inner: NestedHooks := [("b", Fn(Original(2)))];
    assert JoinName("a", "b") == "a:b";
    assert Flat(inner, [("a:b", Original(1))], "a") == [("a:b", Original(2))] by {
      assert inner[1..] == [];
    }
  }

  /** test/hookable.test.ts:341-360: the arguments of the test, sharing one
      function `fn`. */
  function Hooks1(): NestedHooks
  {
    [("foo", Fn(Original(0))), ("bar", Fn(Original(0))), ("a:b", Fn(Original(0))), ("a:c", Fn(Original(0)))]
  }

  function Hooks2(): NestedHooks
  {
    [("foo", Fn(Original(0))), ("baz", Fn(Original(0))), ("a", Nested([("b", Fn(Original(0))), ("d", Fn(Original(0)))]))]
  }

  lemma LeavesOfHooks1()
    ensures Keys(Leaves(Hooks1(), "")) == ["foo", "bar", "a:b", "a:c"]
  {
    var h := Hooks1();
    var f := Original(0);
    assert h[1..][1..][1..][1..] == [];
    assert Leaves(h[1..][1..][1..], "") == [("a:c", f)];
    assert Leaves(h[1..][1..], "") == [("a:b", f), ("a:c", f)];
    assert Leaves(h[1..], "") == [("bar", f), ("a:b", f), ("a:c", f)];
    assert Leaves(h, "") == [("foo", f), ("bar", f), ("a:b", f), ("a:c", f)];
  }

  lemma LeavesOfHooks2()
    ensures Keys(Leaves(Hooks2(), "")) == ["foo", "baz", "a:b", "a:d"]
  {
    var h := Hooks2();
    var f := Original(0);
    var inner: NestedHooks := [("b", Fn(f)), ("d", Fn(f))];
    assert JoinName("a", "b") == "a:b" && JoinName("a", "d") == "a:d";
    assert inner[1..][1..] == [];
    assert Leaves(inner, "a") == [("a:b", f), ("a:d", f)];
    assert h[1..][1..][1..] == [];
    assert Leaves(h[1..][1..], "") == [("a:b", f), ("a:d", f)];
    assert Leaves(h[1..], "") == [("baz", f), ("a:b", f), ("a:d", f)];
    assert Leaves(h, "") == [("foo", f), ("baz", f), ("a:b", f), ("a:d", f)];
  }

  lemma FlatNamesOfHooks1()
    ensures Keys(FlatOf(Hooks1())) == ["foo", "bar", "a:b", "a:c"]
  {
    var names := ["foo", "bar", "a:b", "a:c"];
    assert Distinct([] + names);
    AppendNewFresh([], names);
    FlatKeys(Hooks1(), [], "");
    LeavesOfHooks1();
  }

  lemma FlatNamesOfHooks2()
    ensures Keys(FlatOf(Hooks2())) == ["foo", "baz", "a:b", "a:d"]
  {
    var names := ["foo", "baz", "a:b", "a:d"];
    assert Distinct([] + names);
    AppendNewFresh([], names);
    FlatKeys(Hooks2(), [], "");
    LeavesOfHooks2();
  }

  lemma AllNamesOfTest()
    ensures AllNames([Hooks1(), Hooks2()]) == ["foo", "bar", "a:b", "a:c"] + ["foo", "baz", "a:b", "a:d"]
  {
    var hooks := [Hooks1(), Hooks2()];
    assert hooks[1..] == [Hooks2()] && hooks[1..][1..] == [];
    FlatNamesOfHooks1();
    FlatNamesOfHooks2();
  }

  /** The names of the second argument, after those of the first: "foo" and
      "a:b" are already known, "baz" and "a:d" are new. */
  lemma AppendNamesOfTest()
    ensures AppendNew([], ["foo", "bar", "a:b", "a:c"] + ["foo", "baz", "a:b", "a:d"])
         == ["foo", "bar", "a:b", "a:c", "baz", "a:d"]
  {
    var first := ["foo", "bar", "a:b", "a:c"];
    var second := ["foo", "baz", "a:b", "a:d"];
    var firstBaz := first + ["baz"];
    assert Distinct([] + first);
    assert Distinct(first + ["baz"]);
    assert Distinct(firstBaz + ["a:d"]);
    assert "foo" in first && "a:b" in firstBaz;
    assert second == ["foo"] + (["baz"] + (["a:b"] + ["a:d"]));
    calc {
      AppendNew([], first + second);
      { AppendNewAppend([], first, second); }
      AppendNew(AppendNew([], first), second);
      { AppendNewFresh([], first); assert [] + first == first; }
      AppendNew(first, ["foo"] + (["baz"] + (["a:b"] + ["a:d"])));
      { AppendNewSkip(first, "foo", ["baz"] + (["a:b"] + ["a:d"])); }
      AppendNew(first, ["baz"] + (["a:b"] + ["a:d"]));
      { AppendNewAppend(first, ["baz"], ["a:b"] + ["a:d"]); AppendNewFresh(first, ["baz"]); }
      AppendNew(firstBaz, ["a:b"] + ["a:d"]);
      { AppendNewSkip(firstBaz, "a:b", ["a:d"]); }
      AppendNew(firstBaz, ["a:d"]);
      { AppendNewFresh(firstBaz, ["a:d"]); }
      firstBaz + ["a:d"];
    }
  }

  /** test/hookable.test.ts:341-360: the keys of the merged object are every
      flattened name of either argument, each once, in first-seen order. */
  lemma MergeHooksKeyOrder()
    ensures Keys(Merged([Hooks1(), Hooks2()])) == ["foo", "bar", "a:b", "a:c", "baz", "a:d"]
  {
    MergedKeys([Hooks1(), Hooks2()]);
    AllNamesOfTest();
    AppendNamesOfTest();
  }

  /** Calling two supplied callbacks in turn with one argument, where the
      first throws: its error escapes and the second is never called. */
  lemma SerialCallerStopsAtError()
    ensures RunEach([Original(1), Original(2)], [Arg(0)], {1}) == Threw([Call(1, [Arg(0)])], 1)
  {
    var cbs := [Original(1), Original(2)];
    RunEachOriginalsStopAtThrow(cbs, [Arg(0)], {1}, 0);
    assert CallsOf(cbs[..1], [Arg(0)]) == [Call(1, [Arg(0)])];
  }
}
