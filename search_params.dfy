/**
 * `updateSearchParamsAction` (app/actions/updateSearchParams.ts): the
 * current query string is read into a `URLSearchParams` object, each update
 * either sets its key to its value or, for an empty value, deletes the key,
 * and the browser is redirected to `basePath?` followed by the serialized
 * parameters.  `set` and `delete` follow section 6.2 of the WHATWG URL
 * Standard (the URLSearchParams class).
 */
module SearchParams {
  import opened FormUrlencoded

  /** `getAll(name)`: the values of the tuples named `name`, in list order. */
  function Values(list: Pairs, name: string): (vs: seq<string>)
    ensures |vs| <= |list|
  {
    if list == [] then []
    else (if list[0].0 == name then [list[0].1] else []) + Values(list[1..], name)
  }

  /** The tuples whose name is not in `names`, in list order. */
  function Without(list: Pairs, names: set<string>): (r: Pairs)
    ensures |r| <= |list|
  {
    if list == [] then []
    else (if list[0].0 in names then [] else [list[0]]) + Without(list[1..], names)
  }

  /** `delete(name)`: removes every tuple named `name`. */
  function DeleteList(list: Pairs, name: string): (r: Pairs)
    ensures r == Without(list, {name})
  {
    if list == [] then []
    else (if list[0].0 == name then [] else [list[0]]) + DeleteList(list[1..], name)
  }

  /**
   * `set(name, value)`: the first tuple named `name` takes `value` and the
   * later ones are removed; with no such tuple, `(name, value)` is appended.
   */
  function SetList(list: Pairs, name: string, value: string): Pairs {
    if list == [] then [(name, value)]
    else if list[0].0 == name then [(name, value)] + DeleteList(list[1..], name)
    else [list[0]] + SetList(list[1..], name, value)
  }

  /** Some tuple is named `name`. */
  predicate HasName(list: Pairs, name: string) {
    exists i | 0 <= i < |list| :: list[i].0 == name
  }

  /** The position of the first tuple named `name`. */
  function FirstNamed(list: Pairs, name: string): (i: nat)
    requires HasName(list, name)
    ensures i < |list| && list[i].0 == name && !HasName(list[..i], name)
  {
    if list[0].0 == name then 0
    else
      assert HasName(list[1..], name) by {
        var k :| 0 <= k < |list| && list[k].0 == name;
        assert list[1..][k - 1].0 == name;
      }
      var i := FirstNamed(list[1..], name) + 1;
      assert list[..i] == [list[0]] + list[1..][..i - 1];
      i
  }

  /** A list whose first tuple is not named `name` has its first such tuple one place later than its tail does. */
  lemma FirstNamedTail(list: Pairs, name: string)
    requires HasName(list, name) && list[0].0 != name
    ensures HasName(list[1..], name) && FirstNamed(list, name) == FirstNamed(list[1..], name) + 1
  {
    var k :| 0 <= k < |list| && list[k].0 == name;
    assert list[1..][k - 1].0 == name;
  }

  /**
   * `SetList` is the algorithm as the URL Standard words it when some tuple
   * is named `name`: the list up to the first such tuple, that tuple with
   * the new value, the rest without `name`.
   */
  lemma {:induction false} SetReplacesFirst(list: Pairs, name: string, value: string)
    requires HasName(list, name)
    ensures var i := FirstNamed(list, name);
            SetList(list, name, value) == list[..i] + [(name, value)] + DeleteList(list[i + 1..], name)
  {
    var i := FirstNamed(list, name);
    if list[0].0 != name {
      FirstNamedTail(list, name);
      SetReplacesFirst(list[1..], name, value);
      var tail := list[1..];
      assert tail[i..] == list[i + 1..];
      PrependSplit(list, i - 1, (name, value), DeleteList(list[i + 1..], name));
    } else {
      assert i == 0 && list[..i] == [];
    }
  }

  lemma PrependSplit(list: Pairs, j: nat, x: (string, string), rest: Pairs)
    requires j < |list| - 1
    ensures [list[0]] + (list[1..][..j] + [x] + rest) == list[..j + 1] + [x] + rest
  {
    assert list[..j + 1] == [list[0]] + list[1..][..j];
  }

  /** With no tuple named `name`, `SetList` appends `(name, value)`, as the URL Standard words it. */
  lemma {:induction false} SetAppends(list: Pairs, name: string, value: string)
    requires !HasName(list, name)
    ensures SetList(list, name, value) == list + [(name, value)]
  {
    if list != [] {
      assert list[0].0 != name;
      assert !HasName(list[1..], name) by {
        forall k | 0 <= k < |list[1..]|
          ensures list[1..][k].0 != name
        {
          assert list[1..][k] == list[k + 1];
        }
      }
      SetAppends(list[1..], name, value);
      assert list + [(name, value)] == [list[0]] + (list[1..] + [(name, value)]);
    }
  }

  lemma {:induction false} ValuesAppend(a: Pairs, b: Pairs, name: string)
    ensures Values(a + b, name) == Values(a, name) + Values(b, name)
  {
    if a != [] {
      ValuesAppend(a[1..], b, name);
      assert (a + b)[1..] == a[1..] + b;
    } else {
      assert a + b == b;
    }
  }

  lemma {:induction false} DeleteRemovesName(list: Pairs, name: string)
    ensures Values(DeleteList(list, name), name) == []
  {
    if list != [] {
      DeleteRemovesName(list[1..], name);
      ValuesAppend(if list[0].0 == name then [] else [list[0]], DeleteList(list[1..], name), name);
    }
  }

  lemma {:induction false} DeleteKeepsOthers(list: Pairs, name: string, other: string)
    requires other != name
    ensures Values(DeleteList(list, name), other) == Values(list, other)
  {
    if list != [] {
      DeleteKeepsOthers(list[1..], name, other);
      ValuesAppend(if list[0].0 == name then [] else [list[0]], DeleteList(list[1..], name), other);
    }
  }

  /** After `set(name, value)`, `name` has exactly the one value `value`. */
  lemma {:induction false} SetLeavesOneValue(list: Pairs, name: string, value: string)
    ensures Values(SetList(list, name, value), name) == [value]
  {
    if list == [] {
    } else if list[0].0 == name {
      DeleteRemovesName(list[1..], name);
      assert ([(name, value)] + DeleteList(list[1..], name))[1..] == DeleteList(list[1..], name);
    } else {
      SetLeavesOneValue(list[1..], name, value);
      assert ([list[0]] + SetList(list[1..], name, value))[1..] == SetList(list[1..], name, value);
    }
  }

  /** `set(name, value)` leaves the values of every other name as they were. */
  lemma {:induction false} SetKeepsOthers(list: Pairs, name: string, value: string, other: string)
    requires other != name
    ensures Values(SetList(list, name, value), other) == Values(list, other)
  {
    if list == [] {
    } else if list[0].0 == name {
      DeleteKeepsOthers(list[1..], name, other);
      assert ([(name, value)] + DeleteList(list[1..], name))[1..] == DeleteList(list[1..], name);
    } else {
      SetKeepsOthers(list[1..], name, value, other);
      assert ([list[0]] + SetList(list[1..], name, value))[1..] == SetList(list[1..], name, value);
    }
  }

  lemma {:induction false} WithoutAfterDelete(list: Pairs, name: string, names: set<string>)
    requires name in names
    ensures Without(DeleteList(list, name), names) == Without(list, names)
  {
    if list != [] {
      WithoutAfterDelete(list[1..], name, names);
      var head: Pairs := if list[0].0 == name then [] else [list[0]];
      WithoutAppend(head, DeleteList(list[1..], name), names);
      assert [list[0]][1..] == [];
      assert Without(head, names) == (if list[0].0 in names then [] else [list[0]]);
    }
  }

  lemma {:induction false} WithoutAppend(a: Pairs, b: Pairs, names: set<string>)
    ensures Without(a + b, names) == Without(a, names) + Without(b, names)
  {
    if a != [] {
      WithoutAppend(a[1..], b, names);
      assert (a + b)[1..] == a[1..] + b;
    } else {
      assert a + b == b;
    }
  }

  /** `set(name, …)` changes nothing among the tuples whose names are not in `names`, order included. */
  lemma {:induction false} WithoutAfterSet(list: Pairs, name: string, value: string, names: set<string>)
    requires name in names
    ensures Without(SetList(list, name, value), names) == Without(list, names)
  {
    if list == [] {
      assert Without([(name, value)], names) == [] + Without([], names);
    } else if list[0].0 == name {
      WithoutAfterDelete(list[1..], name, names);
      WithoutAppend([(name, value)], DeleteList(list[1..], name), names);
      assert Without([(name, value)], names) == [] + Without([], names);
    } else {
      WithoutAfterSet(list[1..], name, value, names);
      WithoutAppend([list[0]], SetList(list[1..], name, value), names);
      assert Without([list[0]], names) == (if list[0].0 in names then [] else [list[0]]) + Without([], names);
    }
  }

  /** `set(name, value)` changes nothing when `value` is already the only value of `name`. */
  lemma {:induction false} SetFixed(list: Pairs, name: string, value: string)
    requires Values(list, name) == [value]
    ensures SetList(list, name, value) == list
  {
    assert list != [];
    if list[0].0 == name {
      assert Values(list, name) == [list[0].1] + Values(list[1..], name);
      assert Values(list, name)[0] == list[0].1;
      assert Values(list[1..], name) == [];
      DeleteFixed(list[1..], name);
      assert list[0] == (name, value);
    } else {
      SetFixed(list[1..], name, value);
    }
    assert list == [list[0]] + list[1..];
  }

  /** `delete(name)` changes nothing when there is no tuple named `name`. */
  lemma {:induction false} DeleteFixed(list: Pairs, name: string)
    requires Values(list, name) == []
    ensures DeleteList(list, name) == list
  {
    if list != [] {
      DeleteFixed(list[1..], name);
    }
  }

  /** One entry of `updates`: a non-empty value is `set`, an empty one `delete`s the key. */
  function ApplyUpdate(list: Pairs, update: (string, string)): Pairs {
    if update.1 != "" then SetList(list, update.0, update.1) else DeleteList(list, update.0)
  }

  /** The entries of `updates` applied one after the other, in order. */
  function ApplyUpdates(list: Pairs, updates: Pairs): Pairs
    decreases |updates|
  {
    if updates == [] then list else ApplyUpdates(ApplyUpdate(list, updates[0]), updates[1..])
  }

  /** What an update leaves under its key: its value alone, or nothing. */
  function Expected(update: (string, string)): seq<string> {
    if update.1 != "" then [update.1] else []
  }

  function Keys(updates: Pairs): set<string> {
    set i | 0 <= i < |updates| :: updates[i].0
  }

  /** `Object.entries(updates)` lists each key once. */
  predicate DistinctKeys(updates: Pairs) {
    forall i, j | 0 <= i < j < |updates| :: updates[i].0 != updates[j].0
  }

  /** An update leaves its own key with the expected values. */
  lemma ApplyUpdateOwnKey(list: Pairs, update: (string, string))
    ensures Values(ApplyUpdate(list, update), update.0) == Expected(update)
  {
    if update.1 != "" {
      SetLeavesOneValue(list, update.0, update.1);
    } else {
      DeleteRemovesName(list, update.0);
    }
  }

  /** An update leaves every other key as it was. */
  lemma ApplyUpdateOtherKey(list: Pairs, update: (string, string), key: string)
    requires key != update.0
    ensures Values(ApplyUpdate(list, update), key) == Values(list, key)
  {
    if update.1 != "" {
      SetKeepsOthers(list, update.0, update.1, key);
    } else {
      DeleteKeepsOthers(list, update.0, key);
    }
  }

  lemma KeysTail(updates: Pairs, key: string)
    requires updates != [] && key !in Keys(updates)
    ensures key != updates[0].0 && key !in Keys(updates[1..])
  {
    assert key != updates[0].0;
  }

  /** Keys not mentioned in `updates` keep their values. */
  lemma {:induction false} UntouchedKeysKeepValues(list: Pairs, updates: Pairs, key: string)
    requires key !in Keys(updates)
    ensures Values(ApplyUpdates(list, updates), key) == Values(list, key)
    decreases |updates|
  {
    if updates != [] {
      KeysTail(updates, key);
      ApplyUpdateOtherKey(list, updates[0], key);
      UntouchedKeysKeepValues(ApplyUpdate(list, updates[0]), updates[1..], key);
    }
  }

  lemma KeysSubset(updates: Pairs)
    requires updates != []
    ensures updates[0].0 in Keys(updates) && Keys(updates[1..]) <= Keys(updates)
  {
    assert updates[0].0 in Keys(updates);
    forall k | k in Keys(updates[1..])
      ensures k in Keys(updates)
    {
      var i :| 0 <= i < |updates[1..]| && updates[1..][i].0 == k;
      assert updates[i + 1].0 == k;
    }
  }

  /** The tuples whose keys `updates` does not mention stay as they were, in the same order. */
  lemma {:induction false} UntouchedTuplesKeepOrder(list: Pairs, updates: Pairs, names: set<string>)
    requires Keys(updates) <= names
    ensures Without(ApplyUpdates(list, updates), names) == Without(list, names)
    decreases |updates|
  {
    if updates != [] {
      KeysSubset(updates);
      var u := updates[0];
      if u.1 != "" {
        WithoutAfterSet(list, u.0, u.1, names);
      } else {
        WithoutAfterDelete(list, u.0, names);
      }
      UntouchedTuplesKeepOrder(ApplyUpdate(list, u), updates[1..], names);
    }
  }

  lemma DistinctTail(updates: Pairs)
    requires updates != [] && DistinctKeys(updates)
    ensures DistinctKeys(updates[1..]) && updates[0].0 !in Keys(updates[1..])
  {
  }

  /**
   * Every key of `updates` ends up with exactly its value when that value
   * is non-empty, and absent when it is empty.
   */
  lemma {:induction false} UpdatedKeys(list: Pairs, updates: Pairs, j: nat)
    requires DistinctKeys(updates) && j < |updates|
    ensures Values(ApplyUpdates(list, updates), updates[j].0) == Expected(updates[j])
    decreases |updates|
  {
    DistinctTail(updates);
    var next := ApplyUpdate(list, updates[0]);
    if j == 0 {
      ApplyUpdateOwnKey(list, updates[0]);
      UntouchedKeysKeepValues(next, updates[1..], updates[0].0);
    } else {
      assert updates[j] == updates[1..][j - 1];
      UpdatedKeys(next, updates[1..], j - 1);
    }
  }

  /** Updates already in force change nothing. */
  lemma {:induction false} UpdatesInForce(list: Pairs, updates: Pairs)
    requires DistinctKeys(updates)
    requires forall j | 0 <= j < |updates| :: Values(list, updates[j].0) == Expected(updates[j])
    ensures ApplyUpdates(list, updates) == list
  {
    if updates != [] {
      DistinctTail(updates);
      var u := updates[0];
      assert Values(list, u.0) == Expected(u);
      if u.1 != "" {
        SetFixed(list, u.0, u.1);
      } else {
        DeleteFixed(list, u.0);
      }
      forall j | 0 <= j < |updates[1..]|
        ensures Values(list, updates[1..][j].0) == Expected(updates[1..][j])
      {
        assert updates[1..][j] == updates[j + 1];
      }
      UpdatesInForce(list, updates[1..]);
    }
  }

  /** Applying the same updates twice gives the same parameters as applying them once. */
  lemma UpdatesIdempotent(list: Pairs, updates: Pairs)
    requires DistinctKeys(updates)
    ensures ApplyUpdates(ApplyUpdates(list, updates), updates) == ApplyUpdates(list, updates)
  {
    var once := ApplyUpdates(list, updates);
    forall j | 0 <= j < |updates|
      ensures Values(once, updates[j].0) == Expected(updates[j])
    {
      UpdatedKeys(list, updates, j);
    }
    UpdatesInForce(once, updates);
  }

  /** The list `new URLSearchParams(init)` starts from: a leading `?` is dropped before parsing. */
  function InitialList(init: string): Pairs {
    Parse(if |init| > 0 && init[0] == '?' then init[1..] else init)
  }

  /** A `URLSearchParams` object: its list of name-value tuples. */
  class UrlSearchParams {
    var list: Pairs

    constructor (init: string)
      ensures list == InitialList(init)
    {
      list := InitialList(init);
    }

    /** `set(name, value)`. */
    method Set(name: string, value: string)
      modifies this
      ensures list == SetList(old(list), name, value)
    {
      list := SetList(list, name, value);
    }

    /** `delete(name)`. */
    method Delete(name: string)
      modifies this
      ensures list == DeleteList(old(list), name)
    {
      list := DeleteList(list, name);
    }

    /** `toString()`. */
    function ToString(): string
      reads this
    {
      Serialize(list)
    }
  }

  /**
   * `updateSearchParamsAction(currentParams, updates, basePath)`: `updates`
   * is `Object.entries(updates)`, in that order; the result is the URL the
   * action redirects to, whose query part parses back to the updated list.
   */
  method UpdateSearchParamsAction(currentParams: string, updates: Pairs, basePath: string) returns (target: string)
    ensures target == basePath + "?" + Serialize(ApplyUpdates(InitialList(currentParams), updates))
    ensures |target| > |basePath| && Parse(target[|basePath| + 1..]) == ApplyUpdates(InitialList(currentParams), updates)
  {
    var params := new UrlSearchParams(currentParams);
    var i := 0;
    while i < |updates|
      invariant 0 <= i <= |updates|
      invariant ApplyUpdates(params.list, updates[i..]) == ApplyUpdates(InitialList(currentParams), updates)
    {
      var (key, value) := updates[i];
      assert updates[i..][1..] == updates[i + 1..];
      if value != "" {
        params.Set(key, value);
      } else {
        params.Delete(key);
      }
      i := i + 1;
    }
    assert updates[i..] == [];
    target := basePath + "?" + params.ToString();
    ParseSerialize(params.list);
    assert target[|basePath| + 1..] == params.ToString();
  }
}
