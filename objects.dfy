/** Plain JavaScript objects as the hook utilities use them: own string keys
    that enumerate (`for...in`) in insertion order, each key at most once.
    Reading `o[k]` finds the entry named `k`; assigning `o[k] = v` replaces the
    value of an existing key where it stands and appends a new key at the end. */
module Objects {

  datatype Option<T> = None | Some(value: T)

  /** The own properties of an object, in enumeration order. */
  type Entries<V> = seq<(string, V)>

  function Keys<V>(m: Entries<V>): seq<string>
  {
    seq(|m|, i requires 0 <= i < |m| => m[i].0)
  }

  predicate Distinct(s: seq<string>)
  {
    forall i, j :: 0 <= i < j < |s| ==> s[i] != s[j]
  }

  /** What every object satisfies: no key occurs twice. */
  predicate UniqueKeys<V>(m: Entries<V>)
  {
    Distinct(Keys(m))
  }

  /** Property read `m[k]`: the value of the first entry named `k`, if any. */
  function Get<V>(m: Entries<V>, k: string): (r: Option<V>)
    ensures r.Some? <==> k in Keys(m)
    ensures r.Some? ==> (k, r.value) in m
  {
    if m == [] then None
    else
      assert Keys(m) == [m[0].0] + Keys(m[1..]);
      if m[0].0 == k then Some(m[0].1)
      else Get(m[1..], k)
  }

  /** Property read from the end: the value of the LAST entry named `k`. */
  function GetLast<V>(m: Entries<V>, k: string): (r: Option<V>)
    ensures r.Some? <==> k in Keys(m)
    ensures r.Some? ==> (k, r.value) in m
  {
    if m == [] then None
    else
      assert Keys(m) == Keys(m[..|m| - 1]) + [m[|m| - 1].0];
      if m[|m| - 1].0 == k then Some(m[|m| - 1].1)
      else GetLast(m[..|m| - 1], k)
  }

  /** Property assignment `m[k] = v`: an existing key keeps its position and
      takes the new value, a new key is appended, nothing else changes. */
  function Assign<V>(m: Entries<V>, k: string, v: V): (r: Entries<V>)
    ensures Keys(r) == if k in Keys(m) then Keys(m) else Keys(m) + [k]
  {
    if m == [] then [(k, v)]
    else if m[0].0 == k then
      assert Keys(m)[0] == k;
      assert Keys([(k, v)] + m[1..]) == Keys(m);
      [(k, v)] + m[1..]
    else
      var rest := Assign(m[1..], k, v);
      assert Keys(m) == [m[0].0] + Keys(m[1..]);
      assert Keys([m[0]] + rest) == [m[0].0] + Keys(rest);
      [m[0]] + rest
  }

  /** Assignment keeps an object's keys distinct. */
  lemma AssignUnique<V>(m: Entries<V>, k: string, v: V)
    requires UniqueKeys(m)
    ensures UniqueKeys(Assign(m, k, v))
  {
    var ks := Keys(m);
    var ks' := Keys(Assign(m, k, v));
    if k !in ks {
      forall i, j | 0 <= i < j < |ks'| ensures ks'[i] != ks'[j] {
        assert j < |ks| ==> ks'[i] == ks[i] && ks'[j] == ks[j];
        assert j == |ks| ==> ks'[j] == k && ks'[i] in ks;
      }
    }
  }

  /** Assignment brings in no entry other than `(k, v)`. */
  lemma {:induction false} AssignEntries<V>(m: Entries<V>, k: string, v: V)
    ensures forall e :: e in Assign(m, k, v) ==> e in m || e == (k, v)
    decreases m
  {
    if m != [] && m[0].0 != k {
      AssignEntries(m[1..], k, v);
      assert Assign(m, k, v) == [m[0]] + Assign(m[1..], k, v);
    }
  }

  /** Reading after `m[k] = v` gives `v` for `k` and the old value for every
      other key. */
  lemma {:induction false} AssignGet<V>(m: Entries<V>, k: string, v: V, k': string)
    ensures Get(Assign(m, k, v), k') == if k' == k then Some(v) else Get(m, k')
    decreases m
  {
    if m != [] {
      var r := Assign(m, k, v);
      if m[0].0 == k {
        assert r[1..] == m[1..];
      } else {
        AssignGet(m[1..], k, v, k');
        assert r[1..] == Assign(m[1..], k, v);
      }
    }
  }

  /** The object after the assignments `kvs`, performed left to right. */
  function AssignAll<V>(m: Entries<V>, kvs: Entries<V>): Entries<V>
    decreases kvs
  {
    if kvs == [] then m else AssignAll(Assign(m, kvs[0].0, kvs[0].1), kvs[1..])
  }

  /** `ks` followed by every element of `xs` that was not seen before, in the
      order in which each was first seen. */
  function AppendNew(ks: seq<string>, xs: seq<string>): (r: seq<string>)
    ensures forall x :: x in r <==> x in ks || x in xs
    ensures |ks| <= |r| && r[..|ks|] == ks
    ensures Distinct(ks) ==> Distinct(r)
    decreases xs
  {
    if xs == [] then ks
    else
      var ks' := if xs[0] in ks then ks else ks + [xs[0]];
      var r := AppendNew(ks', xs[1..]);
      assert r[..|ks|] == r[..|ks'|][..|ks|];
      r
  }

  lemma {:induction false} AppendNewAppend(ks: seq<string>, xs: seq<string>, ys: seq<string>)
    ensures AppendNew(ks, xs + ys) == AppendNew(AppendNew(ks, xs), ys)
    decreases xs
  {
    if xs != [] {
      assert (xs + ys)[0] == xs[0] && (xs + ys)[1..] == xs[1..] + ys;
      AppendNewAppend(if xs[0] in ks then ks else ks + [xs[0]], xs[1..], ys);
    } else {
      assert xs + ys == ys;
    }
  }

  /** Names none of which was seen before are all appended, in order. */
  lemma {:induction false} AppendNewFresh(ks: seq<string>, xs: seq<string>)
    requires Distinct(ks + xs)
    ensures AppendNew(ks, xs) == ks + xs
    decreases xs
  {
    if xs != [] {
      assert (ks + xs)[|ks|] == xs[0];
      forall i | 0 <= i < |ks| ensures ks[i] != xs[0] {
        assert (ks + xs)[i] == ks[i];
      }
      assert ks + xs == (ks + [xs[0]]) + xs[1..];
      AppendNewFresh(ks + [xs[0]], xs[1..]);
    }
  }

  /** A name seen before adds nothing. */
  lemma AppendNewSkip(ks: seq<string>, x: string, xs: seq<string>)
    requires x in ks
    ensures AppendNew(ks, [x] + xs) == AppendNew(ks, xs)
  {
    assert ([x] + xs)[0] == x && ([x] + xs)[1..] == xs;
  }

  lemma {:induction false} AssignAllAppend<V>(m: Entries<V>, a: Entries<V>, b: Entries<V>)
    ensures AssignAll(m, a + b) == AssignAll(AssignAll(m, a), b)
    decreases a
  {
    if a == [] {
      assert a + b == b;
    } else {
      assert (a + b)[0] == a[0] && (a + b)[1..] == a[1..] + b;
      AssignAllAppend(Assign(m, a[0].0, a[0].1), a[1..], b);
    }
  }

  /** Assigning in order leaves the keys in first-assignment order, after the
      keys the object already had, which keep their positions. */
  lemma {:induction false} AssignAllKeys<V>(m: Entries<V>, kvs: Entries<V>)
    ensures Keys(AssignAll(m, kvs)) == AppendNew(Keys(m), Keys(kvs))
    decreases kvs
  {
    if kvs != [] {
      var m' := Assign(m, kvs[0].0, kvs[0].1);
      var xs := Keys(kvs);
      assert xs[0] == kvs[0].0 && xs[1..] == Keys(kvs[1..]);
      assert AppendNew(Keys(m), xs) == AppendNew(Keys(m'), Keys(kvs[1..])) by {
        assert Keys(m') == if xs[0] in Keys(m) then Keys(m) else Keys(m) + [xs[0]];
      }
      AssignAllKeys(m', kvs[1..]);
    }
  }

  /** After assigning `kvs`, reading `k` gives the last value assigned to `k`,
      or the old value when `kvs` never assigns `k`. */
  lemma {:induction false} AssignAllGet<V>(m: Entries<V>, kvs: Entries<V>, k: string)
    ensures Get(AssignAll(m, kvs), k) == if k in Keys(kvs) then GetLast(kvs, k) else Get(m, k)
    decreases |kvs|
  {
    if kvs != [] {
      var init, last := kvs[..|kvs| - 1], kvs[|kvs| - 1];
      var before := AssignAll(m, init);
      assert kvs == init + [last];
      assert AssignAll(m, kvs) == Assign(before, last.0, last.1) by {
        AssignAllAppend(m, init, [last]);
      }
      assert Keys(kvs) == Keys(init) + [last.0];
      AssignGet(before, last.0, last.1, k);
      if k == last.0 {
        assert GetLast(kvs, k) == Some(last.1);
      } else {
        assert GetLast(kvs, k) == GetLast(init, k);
        AssignAllGet(m, init, k);
      }
    }
  }

  lemma {:induction false} AssignAllUnique<V>(m: Entries<V>, kvs: Entries<V>)
    requires UniqueKeys(m)
    ensures UniqueKeys(AssignAll(m, kvs))
    decreases kvs
  {
    if kvs != [] {
      AssignUnique(m, kvs[0].0, kvs[0].1);
      AssignAllUnique(Assign(m, kvs[0].0, kvs[0].1), kvs[1..]);
    }
  }

  /** The rest of an object after its first entry is an object without that
      entry's key. */
  lemma UniqueTail<V>(m: Entries<V>)
    requires m != [] && UniqueKeys(m)
    ensures UniqueKeys(m[1..]) && m[0].0 !in Keys(m[1..])
  {
    var ks := Keys(m[1..]);
    forall i | 0 <= i < |ks| ensures ks[i] == Keys(m)[i + 1] && ks[i] != m[0].0 {
      assert Keys(m)[0] == m[0].0;
    }
  }

  /** Assigning a key the object does not have appends one entry. */
  lemma {:induction false} AssignNew<V>(m: Entries<V>, k: string, v: V)
    requires k !in Keys(m)
    ensures Assign(m, k, v) == m + [(k, v)]
    decreases m
  {
    if m != [] {
      assert Keys(m) == [m[0].0] + Keys(m[1..]);
      assert m[0].0 != k;
      AssignNew(m[1..], k, v);
      assert m + [(k, v)] == [m[0]] + (m[1..] + [(k, v)]);
    }
  }

  /** A mutable object, as held by the variables of the hook utilities. */
  class JsObject<V> {
    var entries: Entries<V>

    ghost predicate Valid()
      reads this
    {
      UniqueKeys(entries)
    }

    /** The literal `{}`. */
    constructor ()
      ensures Valid() && entries == []
    {
      entries := [];
    }

    /** `this[k] = v`. */
    method Put(k: string, v: V)
      requires Valid()
      modifies this
      ensures Valid()
      ensures entries == Assign(old(entries), k, v)
    {
      AssignUnique(entries, k, v);
      entries := Assign(entries, k, v);
    }
  }
}
