/**
 The in-memory cache of the materialisation service: sliding expiry, a bound on the
 number of entries and a bound on their sensitive bytes, with eviction of the entry
 used longest ago.
 */
module MaterializationCache {
  import opened Prelude

  type Key = string

  const USIZE_MAX: nat := 0xFFFF_FFFF_FFFF_FFFF

  datatype Variable = Variable(name: string, text: string, isPublic: bool)

  type Materialization = seq<Variable>

  datatype Entry = Entry(value: Materialization, lastUsed: nat, bytes: nat)

  type Cache = map<Key, Entry>

  /** The length of a character in UTF-8. */
  function Utf8Length(c: char): nat {
    if c < '\U{80}' then 1 else if c < '\U{800}' then 2 else if c < '\U{10000}' then 3 else 4
  }

  /** `str::len`. */
  function ByteLength(s: string): nat {
    if s == "" then 0 else Utf8Length(s[0]) + ByteLength(s[1..])
  }

  /** What counts against the byte limit: names and values of everything not public. */
  function SensitiveBytes(m: Materialization): nat {
    if m == [] then 0
    else (if m[0].isPublic then 0 else ByteLength(m[0].name) + ByteLength(m[0].text)) + SensitiveBytes(m[1..])
  }

  function SaturatingAdd(a: nat, b: nat): nat {
    if a + b > USIZE_MAX then USIZE_MAX else a + b
  }

  function SaturatingSub(a: nat, b: nat): nat {
    if b > a then 0 else a - b
  }

  // ------------------------------------------------------------------------- totals

  ghost function Total(cache: Cache): nat {
    if cache == map[] then 0
    else
      var k :| k in cache;
      cache[k].bytes + Total(cache - {k})
  }

  lemma {:induction false} TotalWithout(cache: Cache, key: Key)
    requires key in cache
    ensures Total(cache) == cache[key].bytes + Total(cache - {key})
    decreases |cache|
  {
    var k :| k in cache && Total(cache) == cache[k].bytes + Total(cache - {k});
    if k != key {
      TotalWithout(cache - {k}, key);
      TotalWithout(cache - {key}, k);
      assert cache - {k} - {key} == cache - {key} - {k};
    }
  }

  lemma TotalInserted(cache: Cache, key: Key, entry: Entry)
    ensures Total(cache[key := entry]) == entry.bytes + Total(cache - {key})
  {
    TotalWithout(cache[key := entry], key);
    assert cache[key := entry] - {key} == cache - {key};
  }

  ghost predicate IsPart(part: Cache, whole: Cache) {
    forall k :: k in part ==> k in whole && part[k] == whole[k]
  }

  lemma {:induction false} PartIsSmaller(part: Cache, whole: Cache)
    requires IsPart(part, whole)
    ensures Total(part) <= Total(whole) && |part| <= |whole|
    decreases |whole|
  {
    if part != map[] {
      var k :| k in part;
      PartIsSmaller(part - {k}, whole - {k});
      TotalWithout(part, k);
      TotalWithout(whole, k);
      assert (part - {k}).Keys == part.Keys - {k} && (whole - {k}).Keys == whole.Keys - {k};
    }
  }

  // ----------------------------------------------------------------------- eviction

  datatype Limits = Limits(entries: nat, bytes: nat)

  ghost predicate Fits(cache: Cache, limits: Limits) {
    |cache| <= limits.entries && Total(cache) <= limits.bytes
  }

  /**
   Eviction by last use: survivors are as they were, none was used before a removed
   entry, and taking back the most recently used of the removed entries would exceed
   a limit.
   */
  ghost predicate IsEviction(before: Cache, after: Cache, limits: Limits) {
    && IsPart(after, before)
    && Fits(after, limits)
    && SurvivorsAreNewer(before, after)
    && (after != before ==> exists last :: IsLastRemoved(before, after, last) && !Fits(after[last := before[last]], limits))
  }

  ghost predicate SurvivorsAreNewer(before: Cache, after: Cache) {
    forall r, s :: r in before && r !in after && s in after ==> before[r].lastUsed <= after[s].lastUsed
  }

  ghost predicate IsLastRemoved(before: Cache, after: Cache, last: Key) {
    && last in before && last !in after
    && forall r :: r in before && r !in after ==> before[r].lastUsed <= before[last].lastUsed
  }

  predicate IsOldest(cache: Cache, key: Key) {
    key in cache && forall k :: k in cache ==> cache[key].lastUsed <= cache[k].lastUsed
  }

  /** What the eviction loop keeps: all but the fit. */
  ghost predicate IsPartialEviction(before: Cache, now: Cache, limits: Limits) {
    && IsPart(now, before)
    && SurvivorsAreNewer(before, now)
    && (now != before ==> exists last :: IsLastRemoved(before, now, last) && !Fits(now[last := before[last]], limits))
  }

  lemma EvictionStep(before: Cache, now: Cache, limits: Limits, oldest: Key)
    requires IsPartialEviction(before, now, limits) && !Fits(now, limits) && IsOldest(now, oldest)
    ensures IsPartialEviction(before, now - {oldest}, limits)
  {
    var next := now - {oldest};
    assert next[oldest := before[oldest]] == now;
    assert IsLastRemoved(before, next, oldest);
  }

  ghost predicate DistinctTimes(cache: Cache) {
    forall k, l :: k in cache && l in cache && cache[k].lastUsed == cache[l].lastUsed ==> k == l
  }

  /**
   Where no two entries were used at the same time, the eviction is determined: it
   keeps the longest run of most recently used entries that fits.
   */
  lemma EvictionIsUnique(before: Cache, one: Cache, other: Cache, limits: Limits)
    requires IsEviction(before, one, limits) && IsEviction(before, other, limits) && DistinctTimes(before)
    ensures one == other
  {
    EvictionKeepsAsMuch(before, one, other, limits);
    EvictionKeepsAsMuch(before, other, one, limits);
  }

  lemma EvictionKeepsAsMuch(before: Cache, one: Cache, other: Cache, limits: Limits)
    requires IsEviction(before, one, limits) && IsEviction(before, other, limits) && DistinctTimes(before)
    ensures IsPart(one, other)
  {
    if other != before {
      var last :| IsLastRemoved(before, other, last) && !Fits(other[last := before[last]], limits);
      assert last !in one by {
        if last in one {
          LastRemovedFits(before, one, other, limits, last);
        }
      }
      forall k | k in one
        ensures k in other
      {
        NewerThanLast(before, one, other, last, k);
      }
    }
  }

  lemma LastRemovedFits(before: Cache, one: Cache, other: Cache, limits: Limits, last: Key)
    requires IsEviction(before, one, limits) && DistinctTimes(before)
    requires IsPart(other, before) && SurvivorsAreNewer(before, other)
    requires IsLastRemoved(before, other, last) && last in one
    ensures Fits(other[last := before[last]], limits)
  {
    forall s | s in other
      ensures s in one
    {
      SurvivesToo(before, one, other, last, s);
    }
    PartIsSmaller(other[last := before[last]], one);
  }

  lemma SurvivesToo(before: Cache, one: Cache, other: Cache, last: Key, s: Key)
    requires IsPart(one, before) && IsPart(other, before) && DistinctTimes(before)
    requires SurvivorsAreNewer(before, one) && SurvivorsAreNewer(before, other)
    requires last in one && last !in other && s in other
    ensures s in one
  {
  }

  lemma NewerThanLast(before: Cache, one: Cache, other: Cache, last: Key, k: Key)
    requires IsPart(one, before) && SurvivorsAreNewer(before, one) && DistinctTimes(before)
    requires IsLastRemoved(before, other, last) && last !in one && k in one
    ensures k in other
  {
  }

  /** An entry used after every other one, and small enough by itself, is never evicted. */
  lemma NewestSurvives(before: Cache, after: Cache, limits: Limits, key: Key)
    requires IsEviction(before, after, limits) && limits.entries >= 1
    requires key in before && before[key].bytes <= limits.bytes
    requires forall k :: k in before && k != key ==> before[k].lastUsed < before[key].lastUsed
    ensures key in after
  {
    if key !in after {
      NoneOutlivesNewest(before, after, limits, key);
      SingleFits(after, key, before[key], limits);
      assert false;
    }
  }

  lemma SingleFits(empty: Cache, key: Key, entry: Entry, limits: Limits)
    requires empty == map[] && limits.entries >= 1 && entry.bytes <= limits.bytes
    ensures Fits(empty[key := entry], limits)
  {
    TotalInserted(empty, key, entry);
    assert empty - {key} == empty;
    assert empty[key := entry].Keys == {key};
  }

  lemma NoneOutlivesNewest(before: Cache, after: Cache, limits: Limits, key: Key)
    requires IsEviction(before, after, limits) && key in before && key !in after
    requires forall k :: k in before && k != key ==> before[k].lastUsed < before[key].lastUsed
    ensures after == map[]
  {
    assert forall s :: s in after ==> s in before && s != key;
  }

  /** Replacing an entry: with limits this small, neither saturating operation saturates. */
  lemma InsertionIsExact(cache: Cache, key: Key, entry: Entry, limit: nat)
    requires Total(cache) <= limit && entry.bytes <= limit && 2 * limit <= USIZE_MAX
    ensures var without := if key in cache then SaturatingSub(Total(cache), cache[key].bytes) else Total(cache);
            SaturatingAdd(without, entry.bytes) == Total(cache[key := entry])
  {
    TotalInserted(cache, key, entry);
    if key in cache {
      TotalWithout(cache, key);
    } else {
      assert cache - {key} == cache;
    }
  }

  // ------------------------------------------------------------------------- expiry

  predicate IsFresh(entry: Entry, now: nat, ttl: Option<nat>) {
    ttl.None? || SaturatingSub(now, entry.lastUsed) <= ttl.value
  }

  predicate AllBefore(cache: Cache, now: nat) {
    forall k :: k in cache ==> cache[k].lastUsed < now
  }

  function Unexpired(cache: Cache, now: nat, ttl: Option<nat>): Cache {
    map k | k in cache && IsFresh(cache[k], now, ttl) :: cache[k]
  }

  /** An entry stays as long as its last use lies no further back than the time to live. */
  lemma StaysExactlyWhen(cache: Cache, now: nat, ttl: Option<nat>, key: Key)
    ensures key in Unexpired(cache, now, ttl) <==> key in cache && (ttl.Some? ==> now <= cache[key].lastUsed + ttl.value)
    ensures key in Unexpired(cache, now, ttl) ==> Unexpired(cache, now, ttl)[key] == cache[key]
  {
  }

  // ------------------------------------------------------------------------ service

  class Service {
    const materialize: Key -> Result<Materialization, string>
    const isKey: Key -> bool
    var cache: Cache
    var bytes: nat
    var maxEntries: nat
    var maxBytes: nat
    var ttl: Option<nat>

    function Bounds(): Limits
      reads this
    {
      Limits(maxEntries, maxBytes)
    }

    /** Exact accounting within both limits; the limit is small enough never to saturate. */
    ghost predicate Valid()
      reads this
    {
      && maxEntries >= 1 && 2 * maxBytes <= USIZE_MAX
      && bytes == Total(cache)
      && Fits(cache, Bounds())
      && forall k :: k in cache ==> cache[k].bytes == SensitiveBytes(cache[k].value)
    }

    /** Every cached value is what materialising its key gives. */
    ghost predicate Faithful()
      reads this
    {
      forall k :: k in cache ==> materialize(k) == Ok(cache[k].value)
    }

    /** A service with its limits configured before use; an entry limit of zero means one. */
    constructor (f: Key -> Result<Materialization, string>, isKey: Key -> bool,
                 maxEntries: nat, maxBytes: nat, ttl: Option<nat>)
      requires 2 * maxBytes <= USIZE_MAX
      ensures Valid() && Faithful() && cache == map[]
      ensures this.materialize == f && this.isKey == isKey
    {
      this.materialize := f;
      this.isKey := isKey;
      this.cache := map[];
      this.bytes := 0;
      this.maxEntries := if maxEntries == 0 then 1 else maxEntries;
      this.maxBytes := maxBytes;
      this.ttl := ttl;
    }

    method Clear()
      requires Valid()
      modifies this`cache, this`bytes
      ensures Valid() && Faithful() && cache == map[]
    {
      cache := map[];
      bytes := 0;
    }

    method SumBytes() returns (sum: nat)
      ensures sum == Total(cache)
    {
      var rest := cache;
      sum := 0;
      while rest != map[]
        invariant sum + Total(rest) == Total(cache)
        decreases |rest|
      {
        var k :| k in rest;
        TotalWithout(rest, k);
        sum := sum + rest[k].bytes;
        rest := rest - {k};
      }
    }

    method RemoveExpired(now: nat)
      requires Valid()
      modifies this`cache, this`bytes
      ensures Valid() && cache == Unexpired(old(cache), now, ttl)
    {
      if ttl.None? {
        assert cache == Unexpired(cache, now, ttl);
        return;
      }
      PartIsSmaller(Unexpired(cache, now, ttl), cache);
      cache := Unexpired(cache, now, ttl);
      bytes := SumBytes();
    }

    /** A hit is exactly an unexpired entry; it is stamped with the time of its use. */
    method Cached(key: Key, now: nat) returns (r: Option<Materialization>)
      requires Valid()
      modifies this`cache, this`bytes
      ensures Valid()
      ensures r == if key in old(cache) && IsFresh(old(cache)[key], now, ttl) then Some(old(cache)[key].value) else None
      ensures var kept := Unexpired(old(cache), now, ttl);
              cache == if r.Some? then kept[key := kept[key].(lastUsed := now)] else kept
      ensures old(Faithful()) ==> Faithful()
    {
      RemoveExpired(now);
      if key !in cache {
        return None;
      }
      var entry := cache[key];
      TotalInserted(cache, key, entry.(lastUsed := now));
      TotalWithout(cache, key);
      assert cache[key := entry.(lastUsed := now)].Keys == cache.Keys;
      cache := cache[key := entry.(lastUsed := now)];
      return Some(entry.value);
    }

    method Oldest() returns (oldest: Key)
      requires cache != map[]
      ensures IsOldest(cache, oldest)
    {
      oldest :| oldest in cache;
      var rest := cache.Keys - {oldest};
      while rest != {}
        invariant rest <= cache.Keys && oldest in cache
        invariant forall k :: k in cache && k !in rest ==> cache[oldest].lastUsed <= cache[k].lastUsed
        decreases rest
      {
        var k :| k in rest;
        if cache[k].lastUsed < cache[oldest].lastUsed {
          oldest := k;
        }
        rest := rest - {k};
      }
    }

    method EvictToLimits()
      requires bytes == Total(cache)
      modifies this`cache, this`bytes
      ensures bytes == Total(cache)
      ensures IsEviction(old(cache), cache, Bounds())
    {
      ghost var before, limits := cache, Bounds();
      while |cache| > maxEntries || bytes > maxBytes
        invariant bytes == Total(cache)
        invariant IsPartialEviction(before, cache, limits)
        decreases |cache|
      {
        EvictOldest(before);
      }
    }

    /** One round of eviction: the entry used longest ago goes, and its bytes with it. */
    method EvictOldest(ghost before: Cache)
      requires bytes == Total(cache) && !Fits(cache, Bounds()) && IsPartialEviction(before, cache, Bounds())
      modifies this`cache, this`bytes
      ensures bytes == Total(cache) && IsPartialEviction(before, cache, Bounds())
      ensures |cache| < |old(cache)|
    {
      var oldest := Oldest();
      EvictionStep(before, cache, Bounds(), oldest);
      TotalWithout(cache, oldest);
      assert (cache - {oldest}).Keys == cache.Keys - {oldest};
      bytes := SaturatingSub(bytes, cache[oldest].bytes);
      cache := cache - {oldest};
    }

    /**
     Inserts a value unless it alone exceeds the byte limit, then evicts. No saturating
     operation saturates, and under a strictly increasing clock the new entry stays.
     */
    method CacheSuccess(key: Key, m: Materialization, now: nat)
      requires Valid()
      modifies this`cache, this`bytes
      ensures Valid()
      ensures SensitiveBytes(m) > maxBytes ==> cache == old(cache)
      ensures SensitiveBytes(m) <= maxBytes ==>
                IsEviction(old(cache)[key := Entry(m, now, SensitiveBytes(m))], cache, Bounds())
      ensures SensitiveBytes(m) <= maxBytes && AllBefore(old(cache), now) ==>
                key in cache && cache[key] == Entry(m, now, SensitiveBytes(m))
      ensures old(Faithful()) && materialize(key) == Ok(m) ==> Faithful()
    {
      var size := SensitiveBytes(m);
      if size > maxBytes {
        return;
      }
      var entry := Entry(m, now, size);
      ghost var before := cache;
      Store(key, entry);
      if AllBefore(before, now) {
        NewestSurvives(before[key := entry], cache, Bounds(), key);
      }
    }

    /** The insertion itself, with its byte accounting, and the eviction after it. */
    method Store(key: Key, entry: Entry)
      requires Valid() && entry.bytes <= maxBytes
      modifies this`cache, this`bytes
      ensures bytes == Total(cache)
      ensures IsEviction(old(cache)[key := entry], cache, Bounds())
    {
      InsertionIsExact(cache, key, entry, maxBytes);
      var without := if key in cache then SaturatingSub(bytes, cache[key].bytes) else bytes;
      cache := cache[key := entry];
      bytes := SaturatingAdd(without, entry.bytes);
      EvictToLimits();
    }

    /** What one request makes of the cache: expired entries go, a hit is stamped, a new value is stored. */
    ghost predicate IsPrepared(before: Cache, after: Cache, key: Key, r: Result<Materialization, string>, hit: bool,
                               now: nat, later: nat)
      reads this
    {
      var kept := Unexpired(before, now, ttl);
      if hit then key in kept && after == kept[key := kept[key].(lastUsed := now)]
      else if r.Err? || SensitiveBytes(r.value) > maxBytes then after == kept
      else IsEviction(kept[key := Entry(r.value, later, SensitiveBytes(r.value))], after, Bounds())
    }

    /**
     The cache is invisible in the answers: whatever the history, a valid key gets what
     materialising it would give. What it does to the cache is a hit, a failure that is
     not cached, or an insertion.
     */
    method Prepare(key: Key, now: nat, later: nat) returns (r: Result<Materialization, string>, hit: bool)
      requires Valid() && Faithful()
      modifies this`cache, this`bytes
      ensures Valid() && Faithful()
      ensures isKey(key) ==> r == materialize(key)
      ensures !isKey(key) ==> r.Err? && cache == old(cache)
      ensures hit <==> isKey(key) && key in old(cache) && IsFresh(old(cache)[key], now, ttl)
      ensures isKey(key) ==> IsPrepared(old(cache), cache, key, r, hit, now, later)
      ensures isKey(key) && r.Ok? && SensitiveBytes(r.value) <= maxBytes && AllBefore(old(cache), later) ==> key in cache
    {
      hit := false;
      if !isKey(key) {
        return Err("invalid key"), false;
      }
      var found := Cached(key, now);
      if found.Some? {
        return Ok(found.value), true;
      }
      r := materialize(key);
      if r.Err? {
        return;
      }
      CacheSuccess(key, r.value, later);
    }
  }
}
