/**
 Which providers an untrusted source may address: those that are there. For a whole
 table of providers the code looks at its first key, and then at every key as it
 descends.
 */
module ProviderRule {
  import opened Prelude
  import opened TextOrder
  import opened ConfigTree

  function ProviderIds(root: Tab): set<string> {
    Inner(root, "providers").Keys
  }

  /** The first key of an ordered table. */
  ghost predicate IsFirstKey(t: Tab, key: string) {
    key in t && forall k :: k in t ==> TextNoLater(key, k)
  }

  lemma FirstKeyIsUnique(t: Tab, a: string, b: string)
    requires IsFirstKey(t, a) && IsFirstKey(t, b)
    ensures a == b
  {
    TextOrderIsTotal(a, b);
  }

  lemma {:induction false} FirstKeyExists(t: Tab) returns (first: string)
    requires t != map[]
    ensures IsFirstKey(t, first)
    decreases |t|
  {
    assert t.Keys != {};
    var some :| some in t;
    TextOrderIsTotal(some, some);
    var rest := t - {some};
    first := some;
    if rest != map[] {
      var other := FirstKeyExists(rest);
      TextOrderIsTotal(some, other);
      forall k | k in rest && TextNoLater(some, other)
        ensures TextNoLater(some, k)
      {
        TextOrderIsTransitive(some, other, k);
      }
      first := if TextNoLater(some, other) then some else other;
    }
    assert forall k :: k in t ==> k == some || k in rest;
  }

  method FirstKey(t: Tab) returns (first: string)
    requires t != map[]
    ensures IsFirstKey(t, first)
  {
    assert t.Keys != {};
    first :| first in t;
    var todo := t.Keys - {first};
    TextOrderIsTotal(first, first);
    while todo != {}
      invariant todo <= t.Keys && first in t
      invariant forall k :: k in t && k !in todo ==> TextNoLater(first, k)
      decreases |todo|
    {
      var key :| key in todo;
      TextOrderIsTotal(first, key);
      TextOrderIsTotal(key, key);
      if !TextNoLater(first, key) {
        forall k | k in t && k !in todo
          ensures TextNoLater(key, k)
        {
          TextOrderIsTransitive(key, first, k);
        }
        first := key;
      }
      todo := todo - {key};
    }
  }

  /** The path leads to a provider that is not there, or a table of them begins with one. */
  ghost predicate AddressesUnknown(ids: set<string>, path: Path, v: Value)
    requires path != []
  {
    && path[0] == "providers"
    && (if |path| > 1 then path[1] !in ids
        else v.Table? && v.entries != map[] && exists k :: IsFirstKey(v.entries, k) && k !in ids)
  }

  /** What the rule lets a source declare at a path, all that lies below included. */
  ghost predicate IsDeclarable(trusted: bool, overridden: set<Path>, ids: set<string>, path: Path, v: Value)
    requires path != []
  {
    || trusted || path in overridden
    || (!AddressesUnknown(ids, path, v) && (v.Table? ==> AreDeclarable(trusted, overridden, ids, path, v)))
  }

  ghost predicate AreDeclarable(trusted: bool, overridden: set<Path>, ids: set<string>, path: Path, v: Value)
    requires path != [] && v.Table?
  {
    forall k :: k in v.entries ==> IsKeyDeclarable(trusted, overridden, ids, path, k)
  }

  /** Below the first level a path is judged by its second key alone. */
  ghost predicate IsKeyDeclarable(trusted: bool, overridden: set<Path>, ids: set<string>, path: Path, key: string)
    requires path != []
  {
    trusted || path + [key] in overridden || path[0] != "providers" || (path + [key])[1] in ids
  }

  /** The rule for an entry is the rule for its path. */
  lemma EntryIsPath(trusted: bool, overridden: set<Path>, ids: set<string>, path: Path, key: string, v: Value)
    requires path != []
    ensures IsKeyDeclarable(trusted, overridden, ids, path, key) <==> IsDeclarable(trusted, overridden, ids, path + [key], v)
  {
    var longer := path + [key];
    assert longer[0] == path[0];
    if v.Table? {
      forall k | k in v.entries
        ensures (longer + [k])[1] == longer[1]
      {
      }
    }
  }

  /** A declaration that adds a value adds no provider, once it passed the provider rule. */
  lemma FreshKeepsProviders(root: Tab, path: Path, v: Value)
    requires path != [] && Open(root, path) && Get(root, path).None?
    requires !AddressesUnknown(ProviderIds(root), path, v)
    ensures ProviderIds(Put(root, path, v)) == ProviderIds(root)
  {
    if path[0] == "providers" && |path| == 1 && v.Table? && v.entries != map[] {
      var first := FirstKeyExists(v.entries);
    } else if path[0] == "providers" && |path| > 1 {
      var inner := Inner(root, "providers");
      assert path[1..][0] == path[1];
      assert Put(inner, path[1..], v).Keys == inner.Keys + {path[1]};
    }
  }

  /** Where no table is entered, passing the rule at the path is all there is to it. */
  lemma DeclarableUnlessTables(trusted: bool, overridden: set<Path>, root: Tab, path: Path, v: Value)
    requires path != [] && (trusted || !AddressesUnknown(ProviderIds(root), path, v))
    requires !v.Table? || !(Get(root, path).Some? && Get(root, path).value.Table?)
    ensures IsDeclarable(trusted, overridden, ProviderIds(root), path, v)
  {
    if v.Table? && v.entries != map[] {
      if |path| == 1 {
        var first := FirstKeyExists(v.entries);
      } else {
        assert forall k :: (path + [k])[1] == path[1];
      }
    }
  }
}
