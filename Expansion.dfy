/**
  The expansion of the install table in `run`: an entry whose value is an
  array adds each of its elements as a `true` entry, and the modules to shim
  are the keys whose values are then truthy, in key order.

  The table is a JavaScript object that the loop extends in place, so it is
  a class holding the keys in their insertion order and the values by key.
 */
module Expansion {

  /** A value of the install table: `true`/`false`, or an array of further module names. */
  datatype Entry = Flag(on: bool) | Names(items: seq<string>)

  /** JavaScript truthiness of an entry: an array is truthy even when empty. */
  predicate Enabled(e: Entry) {
    e.Names? || e.on
  }

  /** The table as a value: its keys in insertion order and the value of each key. */
  datatype Table = Table(keys: seq<string>, values: map<string, Entry>)

  predicate Distinct(s: seq<string>) {
    forall i, j :: 0 <= i < j < |s| ==> s[i] != s[j]
  }

  /** Each key is listed once, and the listed keys are exactly the keys with a value. */
  ghost predicate WellFormed(t: Table) {
    Distinct(t.keys) && forall k :: k in t.keys <==> k in t.values
  }

  /** `toShim[k] = v`: a new key goes to the end of the key order, an existing key keeps its place. */
  function Put(t: Table, k: string, v: Entry): (r: Table)
    requires WellFormed(t)
    ensures WellFormed(r)
    ensures r.values == t.values[k := v]
    ensures |t.keys| <= |r.keys| && t.keys == r.keys[..|t.keys|]
  {
    if k in t.values then Table(t.keys, t.values[k := v])
    else
      var r := Table(t.keys + [k], t.values[k := v]);
      assert forall i :: 0 <= i < |t.keys| ==> r.keys[i] == t.keys[i];
      r
  }

  /** `toShim[name].forEach(m => toShim[m] = true)`. */
  function EnableAll(t: Table, items: seq<string>): (r: Table)
    requires WellFormed(t)
    ensures WellFormed(r)
    decreases |items|
  {
    if items == [] then t else Put(EnableAll(t, items[..|items| - 1]), items[|items| - 1], Flag(true))
  }

  /** The `for...in` loop over `names`: each name whose value is an array at its turn enables that array's elements. */
  function VisitAll(t: Table, names: seq<string>): (r: Table)
    requires WellFormed(t)
    ensures WellFormed(r)
    decreases |names|
  {
    if names == [] then t
    else
      var prev := VisitAll(t, names[..|names| - 1]);
      var n := names[|names| - 1];
      if n in prev.values && prev.values[n].Names? then EnableAll(prev, prev.values[n].items) else prev
  }

  /**
    The whole loop: the `for...in` visits the keys present when it starts;
    keys it adds are not visited.
   */
  function Expand(t: Table): Table
    requires WellFormed(t)
  {
    VisitAll(t, t.keys)
  }

  /** `k` is an element of some array in the table. */
  ghost predicate ListedIn(t: Table, k: string) {
    exists n :: n in t.values && t.values[n].Names? && k in t.values[n].items
  }

  /**
    `r` is `t` after some expansion steps: the old keys keep their order at
    the front, no key is lost, and every value is the old one or a `true`
    set for an element of one of `t`'s arrays.
   */
  ghost predicate Grown(t: Table, r: Table) {
    && |t.keys| <= |r.keys| && t.keys == r.keys[..|t.keys|]
    && t.values.Keys <= r.values.Keys
    && forall k :: k in r.values ==>
         (k in t.values && r.values[k] == t.values[k]) || (r.values[k] == Flag(true) && ListedIn(t, k))
  }

  /** Enabling the elements of a list sets exactly those to `true` and keeps the rest. */
  lemma {:induction false} EnableAllFacts(t: Table, items: seq<string>)
    requires WellFormed(t)
    ensures var r := EnableAll(t, items);
      && |t.keys| <= |r.keys| && t.keys == r.keys[..|t.keys|]
      && (forall k :: k in r.values <==> k in t.values || k in items)
      && (forall k :: k in r.values ==> r.values[k] == if k in items then Flag(true) else t.values[k])
    decreases |items|
  {
    if items != [] {
      var init := items[..|items| - 1];
      EnableAllFacts(t, init);
      assert items == init + [items[|items| - 1]];
    }
  }

  /** Enabling the elements of one of the original arrays keeps the table a growth of the original. */
  lemma GrownStep(t: Table, prev: Table, n: string)
    requires WellFormed(prev) && Grown(t, prev)
    requires n in t.values && t.values[n].Names?
    ensures Grown(t, EnableAll(prev, t.values[n].items))
  {
    var items := t.values[n].items;
    EnableAllFacts(prev, items);
    var r := EnableAll(prev, items);
    PrefixOfPrefix(t.keys, prev.keys, r.keys);
    assert t.values.Keys <= r.values.Keys;
    forall k | k in r.values
      ensures (k in t.values && r.values[k] == t.values[k]) || (r.values[k] == Flag(true) && ListedIn(t, k))
    {
      if k in items {
        assert n in t.values && t.values[n].Names? && k in t.values[n].items;
      } else {
        assert r.values[k] == prev.values[k];
      }
    }
  }

  /** A sequence is the part before position `i`, the element there and the part after it. */
  lemma SplitAt<T>(s: seq<T>, i: nat)
    requires i < |s|
    ensures s == s[..i] + [s[i]] + s[i + 1..]
  {
  }

  /** A prefix of a prefix is a prefix. */
  lemma PrefixOfPrefix(a: seq<string>, b: seq<string>, c: seq<string>)
    requires |a| <= |b| && a == b[..|a|] && |b| <= |c| && b == c[..|b|]
    ensures |a| <= |c| && a == c[..|a|]
  {
  }

  /** Every stage of the loop is a growth of the original table. */
  lemma {:induction false} VisitGrown(t: Table, names: seq<string>)
    requires WellFormed(t)
    ensures Grown(t, VisitAll(t, names))
    decreases |names|
  {
    if names == [] {
      assert t.keys[..|t.keys|] == t.keys;
    } else {
      var init := names[..|names| - 1];
      var prev := VisitAll(t, init);
      var n := names[|names| - 1];
      VisitGrown(t, init);
      if n in prev.values && prev.values[n].Names? {
        assert n in t.values && t.values[n] == prev.values[n];
        GrownStep(t, prev, n);
      }
    }
  }

  /** Visiting `a` then `b` is visiting `a + b`. */
  lemma {:induction false} VisitAppend(t: Table, a: seq<string>, b: seq<string>)
    requires WellFormed(t)
    ensures VisitAll(VisitAll(t, a), b) == VisitAll(t, a + b)
    decreases |b|
  {
    if b == [] {
      assert a + b == a;
    } else {
      var init := b[..|b| - 1];
      VisitAppend(t, a, init);
      assert (a + b)[..|a + b| - 1] == a + init;
    }
  }

  /** A truthy entry stays truthy. */
  lemma ExpandKeepsEnabled(t: Table, k: string)
    requires WellFormed(t) && k in t.values && Enabled(t.values[k])
    ensures k in Expand(t).values && Enabled(Expand(t).values[k])
  {
    VisitGrown(t, t.keys);
  }

  /** A key that ends up truthy was truthy already or is an element of one of the original arrays. */
  lemma ExpandAddsOnlyListed(t: Table, k: string)
    requires WellFormed(t) && k in Expand(t).values && Enabled(Expand(t).values[k])
    ensures (k in t.values && Enabled(t.values[k])) || ListedIn(t, k)
  {
    VisitGrown(t, t.keys);
  }

  /** The keys present before the loop keep their order at the front of the key list. */
  lemma ExpandKeepsKeyOrder(t: Table)
    requires WellFormed(t)
    ensures |t.keys| <= |Expand(t).keys| && t.keys == Expand(t).keys[..|t.keys|]
  {
    VisitGrown(t, t.keys);
  }

  /** No array element names a key whose own value is an array (true of the built-in core list). */
  ghost predicate Flat(t: Table) {
    forall n, k :: n in t.values && t.values[n].Names? && k in t.values[n].items ==>
      !(k in t.values && t.values[k].Names?)
  }

  /** In a flat table, an array entry is still that array when the loop reaches it. */
  lemma FlatKeepsArrays(t: Table, names: seq<string>, n: string)
    requires WellFormed(t) && Flat(t) && n in t.values && t.values[n].Names?
    ensures n in VisitAll(t, names).values && VisitAll(t, names).values[n] == t.values[n]
  {
    VisitGrown(t, names);
  }

  /**
    In a flat table the loop enables exactly the truthy keys and the
    elements of every array.
   */
  lemma ExpandFlat(t: Table, k: string)
    requires WellFormed(t) && Flat(t)
    ensures (k in Expand(t).values && Enabled(Expand(t).values[k])) <==>
      (k in t.values && Enabled(t.values[k])) || ListedIn(t, k)
  {
    VisitGrown(t, t.keys);
    if ListedIn(t, k) {
      var n :| n in t.values && t.values[n].Names? && k in t.values[n].items;
      var i :| 0 <= i < |t.keys| && t.keys[i] == n;
      SplitAt(t.keys, i);
      FlatKeepsArrays(t, t.keys[..i], n);
      ListedBecomesEnabled(t, t.keys[..i], n, t.keys[i + 1..], k);
    }
  }

  /** An element of the array that a key holds when the loop reaches it is `true` after the loop. */
  lemma ListedBecomesEnabled(t: Table, before: seq<string>, n: string, after: seq<string>, k: string)
    requires WellFormed(t) && t.keys == before + [n] + after
    requires var prev := VisitAll(t, before); n in prev.values && prev.values[n].Names? && k in prev.values[n].items
    ensures k in Expand(t).values && Expand(t).values[k] == Flag(true)
  {
    VisitEnables(t, before, n, k);
    StaysTrueAfter(t, before + [n], after, k);
  }

  /** A key that is `true` after visiting `a` is still `true` after visiting `a + b`. */
  lemma StaysTrueAfter(t: Table, a: seq<string>, b: seq<string>, k: string)
    requires WellFormed(t) && k in VisitAll(t, a).values && VisitAll(t, a).values[k] == Flag(true)
    ensures k in VisitAll(t, a + b).values && VisitAll(t, a + b).values[k] == Flag(true)
  {
    StaysTrue(VisitAll(t, a), b, k);
    VisitAppend(t, a, b);
  }

  /** Visiting a name whose value is an array sets each of its elements to `true`. */
  lemma VisitEnables(t: Table, before: seq<string>, n: string, k: string)
    requires WellFormed(t)
    requires var prev := VisitAll(t, before); n in prev.values && prev.values[n].Names? && k in prev.values[n].items
    ensures k in VisitAll(t, before + [n]).values && VisitAll(t, before + [n]).values[k] == Flag(true)
  {
    var prev := VisitAll(t, before);
    VisitLast(t, before, n);
    EnableEnables(prev, prev.values[n].items, k);
  }

  /** Each element of the list is `true` after enabling the list. */
  lemma EnableEnables(t: Table, items: seq<string>, k: string)
    requires WellFormed(t) && k in items
    ensures k in EnableAll(t, items).values && EnableAll(t, items).values[k] == Flag(true)
  {
    EnableAllFacts(t, items);
  }

  /** One more visit, unfolded. */
  lemma VisitLast(t: Table, before: seq<string>, n: string)
    requires WellFormed(t)
    ensures var prev := VisitAll(t, before);
      VisitAll(t, before + [n])
        == if n in prev.values && prev.values[n].Names? then EnableAll(prev, prev.values[n].items) else prev
  {
    assert (before + [n])[..|before|] == before;
  }

  /** Enabling one more element of the list is one more `Put`. */
  lemma EnableLast(t: Table, items: seq<string>, j: nat)
    requires WellFormed(t) && j < |items|
    ensures EnableAll(t, items[..j + 1]) == Put(EnableAll(t, items[..j]), items[j], Flag(true))
  {
    assert items[..j + 1][..j] == items[..j];
  }

  /** A `true` entry stays `true` through any further visits. */
  lemma StaysTrue(t: Table, names: seq<string>, k: string)
    requires WellFormed(t) && k in t.values && t.values[k] == Flag(true)
    ensures k in VisitAll(t, names).values && VisitAll(t, names).values[k] == Flag(true)
  {
    VisitGrown(t, names);
  }

  /** The install table that `run` mutates. */
  class InstallTable {
    var keys: seq<string>
    var values: map<string, Entry>

    ghost predicate Valid()
      reads this
    {
      WellFormed(Table(keys, values))
    }

    function Contents(): Table
      reads this
    {
      Table(keys, values)
    }

    constructor(t: Table)
      requires WellFormed(t)
      ensures Valid() && Contents() == t
    {
      keys := t.keys;
      values := t.values;
    }

    /** `toShim[k] = true`. */
    method Enable(k: string)
      requires Valid()
      modifies this
      ensures Valid() && Contents() == Put(old(Contents()), k, Flag(true))
    {
      if k !in values {
        keys := keys + [k];
      }
      values := values[k := Flag(true)];
    }

    /** The inner `forEach`: `toShim[m] = true` for each element of the array. */
    method EnableEach(items: seq<string>)
      requires Valid()
      modifies this
      ensures Valid() && Contents() == EnableAll(old(Contents()), items)
    {
      ghost var before := Contents();
      for j := 0 to |items|
        invariant Valid() && Contents() == EnableAll(before, items[..j])
      {
        EnableLast(before, items, j);
        Enable(items[j]);
      }
      assert items[..|items|] == items;
    }

    /** The `for...in` loop of `run`: visits the keys present when it starts, in order. */
    method ExpandArrays()
      requires Valid()
      modifies this
      ensures Valid() && Contents() == Expand(old(Contents()))
    {
      ghost var start := Contents();
      var names := keys;
      for i := 0 to |names|
        invariant Valid() && Contents() == VisitAll(start, names[..i])
      {
        var name := names[i];
        assert names[..i + 1] == names[..i] + [name];
        VisitLast(start, names[..i], name);
        if name in values && values[name].Names? {
          EnableEach(values[name].items);
        }
      }
      assert names[..|names|] == names;
    }

    /** `Object.keys(toShim).filter(m => toShim[m])`: the truthy keys, in key order. */
    function ModuleNames(): (r: seq<string>)
      requires Valid()
      reads this
      ensures forall x :: x in r <==> x in values && Enabled(values[x])
      ensures Distinct(r)
    {
      EnabledKeys(keys, values)
    }
  }

  /** The keys of `ks` whose value is truthy, in order. */
  function EnabledKeys(ks: seq<string>, values: map<string, Entry>): (r: seq<string>)
    requires forall k :: k in ks ==> k in values
    requires Distinct(ks)
    ensures forall x :: x in r <==> x in ks && Enabled(values[x])
    ensures Distinct(r)
  {
    if ks == [] then []
    else
      var init := ks[..|ks| - 1];
      var last := ks[|ks| - 1];
      assert ks == init + [last];
      var rest := EnabledKeys(init, values);
      assert last !in init;
      if Enabled(values[last]) then rest + [last] else rest
  }

  /**
    Expanding and then reading the module names: the keys that are truthy
    after the loop, once each. In a flat table (like the built-in core list)
    these are exactly the truthy keys and the elements of every array.
   */
  method ModulesToShim(t: Table) returns (modules: seq<string>)
    requires WellFormed(t)
    ensures Distinct(modules)
    ensures forall k :: k in modules <==> k in Expand(t).values && Enabled(Expand(t).values[k])
    ensures Flat(t) ==> forall k :: k in modules <==> (k in t.values && Enabled(t.values[k])) || ListedIn(t, k)
  {
    var table := new InstallTable(t);
    table.ExpandArrays();
    modules := table.ModuleNames();
    if Flat(t) {
      forall k ensures k in modules <==> (k in t.values && Enabled(t.values[k])) || ListedIn(t, k) {
        ExpandFlat(t, k);
      }
    }
  }
}
