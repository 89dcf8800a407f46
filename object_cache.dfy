/**
 * The in-memory TTL cache of `src/utils/caching.ts` (`CacheManager`).
 *
 * The JavaScript `Map` is modelled by a `Store`: the keys in the Map's
 * iteration (insertion) order plus a table from key to entry. `Date.now()`
 * is the explicit parameter `now`. The pure functions below say what each
 * operation does to a `Store`; the class `CacheManager` performs the same
 * operations in place and is proved to agree with them.
 */
module ObjectCache {
  import opened Wrappers

  /** At most this many entries survive a `set`. */
  const MemoryLimit: nat := 50
  /** The default time-to-live of `set`, in milliseconds (five minutes). */
  const DefaultTtl: int := 300000

  datatype Entry<V> = Entry(data: V, timestamp: int, ttl: int)

  /** The expiry test shared by `get` and the cleanup loop. */
  predicate Expired<V>(e: Entry<V>, now: int) {
    now - e.timestamp > e.ttl
  }

  datatype Store<V> = Store(keys: seq<string>, table: map<string, Entry<V>>)

  /** Every reachable store: keys distinct, the order and the table agree, bounded size. */
  ghost predicate WellFormed<V>(s: Store<V>) {
    Distinct(s.keys)
    && (forall k :: k in s.table <==> k in s.keys)
    && |s.keys| <= MemoryLimit
  }

  /** The keys of `ks` whose entries are still live, in their order. */
  function LiveKeys<V>(ks: seq<string>, table: map<string, Entry<V>>, now: int): seq<string> {
    if ks == [] then []
    else (if ks[0] in table && !Expired(table[ks[0]], now) then [ks[0]] else [])
         + LiveKeys(ks[1..], table, now)
  }

  function LiveTable<V>(table: map<string, Entry<V>>, now: int): map<string, Entry<V>> {
    map k | k in table && !Expired(table[k], now) :: table[k]
  }

  /** What the private cleanup loop leaves behind. */
  function Purge<V>(s: Store<V>, now: int): Store<V> {
    Store(LiveKeys(s.keys, s.table, now), LiveTable(s.table, now))
  }

  /** `Map.prototype.delete`. */
  function Delete<V>(s: Store<V>, k: string): Store<V> {
    Store(Remove(s.keys, k), s.table - {k})
  }

  /** `Map.prototype.set`: a new key goes last, an existing key keeps its place. */
  function Put<V>(s: Store<V>, k: string, e: Entry<V>): Store<V> {
    if k in s.table then Store(s.keys, s.table[k := e])
    else Store(s.keys + [k], s.table[k := e])
  }

  /** The store after `set(key, data, ttl)` at time `now`. */
  function AfterSet<V>(s: Store<V>, key: string, data: V, ttl: int, now: int): Store<V> {
    var c := Purge(s, now);
    var d := if |c.keys| >= MemoryLimit then Delete(c, c.keys[0]) else c;
    Put(d, key, Entry(data, now, ttl))
  }

  /** The value `get(key)` returns at time `now` (None is `null`). */
  function Lookup<V>(s: Store<V>, key: string, now: int): Option<V> {
    if key in s.table && !Expired(s.table[key], now) then Some(s.table[key].data) else None
  }

  /** The store after `get(key)` at time `now`: an expired entry is deleted, a hit is moved last. */
  function AfterGet<V>(s: Store<V>, key: string, now: int): Store<V> {
    if key !in s.table then s
    else if Expired(s.table[key], now) then Delete(s, key)
    else Put(Delete(s, key), key, s.table[key])
  }

  // ---------------------------------------------------------------------------
  // Facts about the cleanup filter

  lemma {:induction false} LiveKeysFacts<V>(ks: seq<string>, table: map<string, Entry<V>>, now: int)
    ensures forall k :: k in LiveKeys(ks, table, now) <==> k in ks && k in table && !Expired(table[k], now)
    ensures |LiveKeys(ks, table, now)| <= |ks|
    ensures Distinct(ks) ==> Distinct(LiveKeys(ks, table, now))
  {
    if ks != [] {
      LiveKeysFacts(ks[1..], table, now);
      var head := if ks[0] in table && !Expired(table[ks[0]], now) then [ks[0]] else [];
      var tail := LiveKeys(ks[1..], table, now);
      assert LiveKeys(ks, table, now) == head + tail;
      if Distinct(ks) {
        assert Distinct(ks[1..]) by {
          forall i, j | 0 <= i < j < |ks[1..]| ensures ks[1..][i] != ks[1..][j] {
            assert ks[1..][i] == ks[i + 1] && ks[1..][j] == ks[j + 1];
          }
        }
        assert ks[0] !in ks[1..] by {
          forall j | 0 <= j < |ks[1..]| ensures ks[1..][j] != ks[0] {
            assert ks[1..][j] == ks[j + 1];
          }
        }
        var r := head + tail;
        forall i, j | 0 <= i < j < |r| ensures r[i] != r[j] {
          if head != [] && i == 0 {
            assert r[j] == tail[j - 1];
            assert r[j] in ks[1..];
          } else {
            var o := |head|;
            assert r[i] == tail[i - o] && r[j] == tail[j - o];
          }
        }
      }
    }
  }

  lemma {:induction false} LiveKeysSnoc<V>(ks: seq<string>, k: string, table: map<string, Entry<V>>, now: int)
    ensures LiveKeys(ks + [k], table, now)
            == LiveKeys(ks, table, now) + (if k in table && !Expired(table[k], now) then [k] else [])
  {
    if ks == [] {
      assert [k][1..] == [];
    } else {
      assert (ks + [k])[1..] == ks[1..] + [k];
      LiveKeysSnoc(ks[1..], k, table, now);
    }
  }

  /** One iteration of the cleanup loop: an expired key is deleted from where the loop stands. */
  lemma CleanupStep<V>(ks: seq<string>, i: nat, table: map<string, Entry<V>>, now: int)
    requires Distinct(ks) && i < |ks|
    ensures var k := ks[i]; var cur := LiveKeys(ks[..i], table, now) + ks[i..];
            LiveKeys(ks[..i + 1], table, now) + ks[i + 1..]
            == if k in table && !Expired(table[k], now) then cur else Remove(cur, k)
  {
    var k := ks[i];
    var done := LiveKeys(ks[..i], table, now);
    var rest := ks[i + 1..];
    assert ks[..i + 1] == ks[..i] + [k];
    assert ks[i..] == [k] + rest;
    LiveKeysSnoc(ks[..i], k, table, now);
    if !(k in table && !Expired(table[k], now)) {
      assert LiveKeys(ks[..i + 1], table, now) == done;
      DistinctWithout(ks, i);
      assert k !in done by {
        LiveKeysFacts(ks[..i], table, now);
      }
      calc {
        Remove(done + ([k] + rest), k);
        { RemoveConcat(done, [k] + rest, k); }
        Remove(done, k) + Remove([k] + rest, k);
        { RemoveConcat([k], rest, k); RemoveSingleton(k); }
        Remove(done, k) + Remove(rest, k);
        { RemoveAbsent(done, k); RemoveAbsent(rest, k); }
        done + rest;
      }
    } else {
      assert done + ([k] + rest) == (done + [k]) + rest;
    }
  }

  /** The table once the cleanup loop has visited the keys `done`. */
  function CleanedTable<V>(table: map<string, Entry<V>>, done: seq<string>, now: int): map<string, Entry<V>> {
    map k | k in table && (k in done ==> !Expired(table[k], now)) :: table[k]
  }

  lemma CleanedTableStep<V>(table: map<string, Entry<V>>, done: seq<string>, k: string, now: int)
    requires k in table && k !in done
    ensures k in CleanedTable(table, done, now) && CleanedTable(table, done, now)[k] == table[k]
    ensures CleanedTable(table, done + [k], now)
            == if Expired(table[k], now) then CleanedTable(table, done, now) - {k} else CleanedTable(table, done, now)
  {
  }

  lemma CleanedTableAll<V>(table: map<string, Entry<V>>, ks: seq<string>, now: int)
    requires forall k :: k in table ==> k in ks
    ensures CleanedTable(table, ks, now) == LiveTable(table, now)
  {
  }

  /** The loop state of cleanup after visiting `ks[..i]`, and what visiting `ks[i]` does to it. */
  lemma CleanupIteration<V>(ks: seq<string>, i: nat, t0: map<string, Entry<V>>,
                            keys: seq<string>, table: map<string, Entry<V>>, now: int)
    requires Distinct(ks) && i < |ks| && forall k :: k in ks ==> k in t0
    requires keys == LiveKeys(ks[..i], t0, now) + ks[i..]
    requires table == CleanedTable(t0, ks[..i], now)
    ensures ks[i] in table && table[ks[i]] == t0[ks[i]]
    ensures Expired(t0[ks[i]], now) ==>
              Remove(keys, ks[i]) == LiveKeys(ks[..i + 1], t0, now) + ks[i + 1..]
              && table - {ks[i]} == CleanedTable(t0, ks[..i + 1], now)
    ensures !Expired(t0[ks[i]], now) ==>
              keys == LiveKeys(ks[..i + 1], t0, now) + ks[i + 1..]
              && table == CleanedTable(t0, ks[..i + 1], now)
  {
    var k := ks[i];
    assert k in t0;
    DistinctWithout(ks, i);
    CleanupStep(ks, i, t0, now);
    assert ks[..i + 1] == ks[..i] + [k];
    CleanedTableStep(t0, ks[..i], k, now);
  }

  /** Cleanup keeps exactly the live entries, unchanged, and the store stays well formed. */
  lemma PurgeKeepsExactlyLive<V>(s: Store<V>, now: int)
    requires WellFormed(s)
    ensures WellFormed(Purge(s, now))
    ensures forall k :: k in Purge(s, now).table <==> k in s.table && !Expired(s.table[k], now)
    ensures forall k :: k in Purge(s, now).table ==> Purge(s, now).table[k] == s.table[k]
  {
    LiveKeysFacts(s.keys, s.table, now);
  }

  // ---------------------------------------------------------------------------
  // set

  lemma DeleteKeepsWellFormed<V>(s: Store<V>, k: string)
    requires WellFormed(s) && k in s.table
    ensures WellFormed(Delete(s, k)) && |Delete(s, k).keys| == |s.keys| - 1
  {
    var i :| 0 <= i < |s.keys| && s.keys[i] == k;
    RemoveAt(s.keys, i);
    RemoveMembers(s.keys, k);
  }

  lemma PutKeepsWellFormed<V>(s: Store<V>, k: string, e: Entry<V>)
    requires WellFormed(s) && (k in s.table || |s.keys| < MemoryLimit)
    ensures WellFormed(Put(s, k, e))
    ensures |Put(s, k, e).keys| == |s.keys| + (if k in s.table then 0 else 1)
  {
    if k !in s.table {
      DistinctSnoc(s.keys, k);
    }
  }

  /** After any `set` the store is well formed; in particular `size() <= 50`. */
  lemma SetKeepsBound<V>(s: Store<V>, key: string, data: V, ttl: int, now: int)
    requires WellFormed(s)
    ensures WellFormed(AfterSet(s, key, data, ttl, now))
    ensures |AfterSet(s, key, data, ttl, now).keys| <= MemoryLimit
  {
    var c := Purge(s, now);
    PurgeKeepsExactlyLive(s, now);
    if |c.keys| >= MemoryLimit {
      DeleteKeepsWellFormed(c, c.keys[0]);
      PutKeepsWellFormed(Delete(c, c.keys[0]), key, Entry(data, now, ttl));
    } else {
      PutKeepsWellFormed(c, key, Entry(data, now, ttl));
    }
  }

  lemma DistinctSnoc(ks: seq<string>, k: string)
    requires Distinct(ks) && k !in ks
    ensures Distinct(ks + [k])
  {
    var r := ks + [k];
    forall i, j | 0 <= i < j < |r| ensures r[i] != r[j] {
      if j == |ks| {
        assert r[i] == ks[i];
      } else {
        assert r[i] == ks[i] && r[j] == ks[j];
      }
    }
  }

  /** `set` removes the entries expired at `now` and, apart from the evicted key, only those. */
  lemma SetRemovesOnlyExpired<V>(s: Store<V>, key: string, data: V, ttl: int, now: int, k: string)
    requires WellFormed(s) && k in s.table && k != key
    requires var c := Purge(s, now); !(|c.keys| >= MemoryLimit && c.keys[0] == k)
    ensures k in AfterSet(s, key, data, ttl, now).table <==> !Expired(s.table[k], now)
    ensures k in AfterSet(s, key, data, ttl, now).table ==> AfterSet(s, key, data, ttl, now).table[k] == s.table[k]
  {
    PurgeKeepsExactlyLive(s, now);
  }

  /**
   * At capacity the first key in Map order is evicted even when the key
   * being written is already present. If that key is the first one, it is
   * deleted and re-inserted, so it moves to the end; any other present key
   * keeps its place.
   */
  lemma SetEvictsOldestEvenIfPresent<V>(s: Store<V>, key: string, data: V, ttl: int, now: int)
    requires WellFormed(s)
    requires |Purge(s, now).keys| >= MemoryLimit
    ensures var c := Purge(s, now); var r := AfterSet(s, key, data, ttl, now);
            && (key != c.keys[0] ==> c.keys[0] !in r.table)
            && (key != c.keys[0] && key in c.table ==> r.keys == c.keys[1..])
            && (key !in c.table ==> r.keys == c.keys[1..] + [key])
            && (key == c.keys[0] ==> r.keys == c.keys[1..] + [key])
            && |r.keys| == MemoryLimit - (if key != c.keys[0] && key in c.table then 1 else 0)
  {
    var c := Purge(s, now);
    PurgeKeepsExactlyLive(s, now);
    RemoveAt(c.keys, 0);
    assert c.keys[..0] + c.keys[1..] == c.keys[1..];
  }

  /** A written entry stays readable for `ttl` milliseconds after the write and no longer. */
  lemma SetThenGetLater<V>(s: Store<V>, key: string, data: V, ttl: int, now: int, later: int)
    ensures Lookup(AfterSet(s, key, data, ttl, now), key, later) ==
            (if later - now <= ttl then Some(data) else None)
  {
  }

  /** Every entry after `set` is the written one or an unchanged entry of before. */
  lemma SetEntries<V>(s: Store<V>, key: string, data: V, ttl: int, now: int)
    ensures var t := AfterSet(s, key, data, ttl, now).table;
            && key in t && t[key] == Entry(data, now, ttl)
            && forall k :: k in t && k != key ==> k in s.table && t[k] == s.table[k]
  {
  }

  /** Every entry after `get` is an unchanged entry of before. */
  lemma GetEntries<V>(s: Store<V>, key: string, now: int)
    ensures var t := AfterGet(s, key, now).table;
            forall k :: k in t ==> k in s.table && t[k] == s.table[k]
  {
  }

  /** `set(k, v, ttl)` then `get(k)` at the same instant returns `v` exactly when `ttl >= 0`. */
  lemma SetThenGet<V>(s: Store<V>, key: string, data: V, ttl: int, now: int)
    ensures Lookup(AfterSet(s, key, data, ttl, now), key, now) == (if ttl >= 0 then Some(data) else None)
  {
  }

  /** Written with the default time-to-live, an entry is readable for five minutes and no longer. */
  lemma DefaultTtlReadable<V>(s: Store<V>, key: string, data: V, now: int, later: int)
    ensures Lookup(AfterSet(s, key, data, DefaultTtl, now), key, later).Some? <==> later - now <= 300000
  {
    SetThenGetLater(s, key, data, DefaultTtl, now, later);
  }

  // ---------------------------------------------------------------------------
  // get

  /** A missing key: `get` returns null and changes nothing. */
  lemma GetMiss<V>(s: Store<V>, key: string, now: int)
    requires key !in s.table
    ensures Lookup(s, key, now) == None && AfterGet(s, key, now) == s
  {
  }

  /** An expired key: `get` returns null, removes that key, and keeps the others in order. */
  lemma GetExpiredRemoves<V>(s: Store<V>, i: nat, now: int)
    requires WellFormed(s) && i < |s.keys| && Expired(s.table[s.keys[i]], now)
    ensures var key := s.keys[i]; var r := AfterGet(s, key, now);
            && Lookup(s, key, now) == None
            && r.keys == s.keys[..i] + s.keys[i + 1..]
            && |r.keys| == |s.keys| - 1
            && key !in r.table
            && (forall k :: k in r.table ==> k in s.table && r.table[k] == s.table[k])
            && WellFormed(r)
  {
    RemoveAt(s.keys, i);
  }

  /** A hit: `get` returns the data and moves the same entry to the last position. */
  lemma GetHitMovesLast<V>(s: Store<V>, i: nat, now: int)
    requires WellFormed(s) && i < |s.keys| && !Expired(s.table[s.keys[i]], now)
    ensures var key := s.keys[i]; var r := AfterGet(s, key, now);
            && Lookup(s, key, now) == Some(s.table[key].data)
            && r.keys == s.keys[..i] + s.keys[i + 1..] + [key]
            && r.table == s.table
            && WellFormed(r)
  {
    var key := s.keys[i];
    RemoveAt(s.keys, i);
    DistinctSnoc(Remove(s.keys, key), key);
  }

  /**
   * Reads refresh recency: once `get(k)` hits, a `set` of another key at the
   * same instant does not evict `k`.
   */
  lemma ReadProtectsFromEviction<V>(s: Store<V>, i: nat, key: string, data: V, ttl: int, now: int)
    requires WellFormed(s) && i < |s.keys| && !Expired(s.table[s.keys[i]], now)
    requires key != s.keys[i]
    ensures s.keys[i] in AfterSet(AfterGet(s, s.keys[i], now), key, data, ttl, now).table
  {
    var k := s.keys[i];
    GetHitMovesLast(s, i, now);
    var g := AfterGet(s, k, now);
    var prefix := s.keys[..i] + s.keys[i + 1..];
    LiveKeysSnoc(prefix, k, g.table, now);
    var c := Purge(g, now);
    assert c.keys == LiveKeys(prefix, g.table, now) + [k];
    if |c.keys| >= MemoryLimit {
      assert c.keys[0] in LiveKeys(prefix, g.table, now);
      LiveKeysFacts(prefix, g.table, now);
      assert c.keys[0] != k by {
        assert g.keys == prefix + [k];
        DistinctInit(g.keys);
        assert g.keys[..|g.keys| - 1] == prefix;
      }
    }
  }

  // ---------------------------------------------------------------------------
  // The cache object

  class CacheManager<V> {
    /** The Map's keys in iteration order. */
    var keys: seq<string>
    /** The Map's entries. */
    var table: map<string, Entry<V>>

    function State(): Store<V>
      reads this
    {
      Store(keys, table)
    }

    ghost predicate Valid()
      reads this
    {
      WellFormed(State())
    }

    constructor ()
      ensures Valid() && State() == Store([], map[])
    {
      keys := [];
      table := map[];
    }

    /** The private `cleanup`: deletes expired entries while iterating over the Map. */
    method Cleanup(now: int)
      requires Valid()
      modifies this
      ensures Valid() && State() == Purge(old(State()), now)
    {
      ghost var s0 := State();
      var ks := keys;
      var i := 0;
      while i < |ks|
        invariant 0 <= i <= |ks| && ks == s0.keys
        invariant keys == LiveKeys(ks[..i], s0.table, now) + ks[i..]
        invariant table == CleanedTable(s0.table, ks[..i], now)
      {
        var k := ks[i];
        CleanupIteration(ks, i, s0.table, keys, table, now);
        if Expired(table[k], now) {
          keys := Remove(keys, k);
          table := table - {k};
        }
        i := i + 1;
      }
      assert keys == LiveKeys(ks, s0.table, now) && table == LiveTable(s0.table, now) by {
        assert ks[..i] == ks && ks[i..] == [];
        CleanedTableAll(s0.table, ks, now);
      }
      PurgeKeepsExactlyLive(s0, now);
    }

    /** `set(key, data, ttl)` at time `now`. */
    method Set(key: string, data: V, ttl: int, now: int)
      requires Valid()
      modifies this
      ensures Valid() && State() == AfterSet(old(State()), key, data, ttl, now)
    {
      ghost var s0 := State();
      Cleanup(now);
      if |keys| >= MemoryLimit {
        var first := keys[0];
        keys := Remove(keys, first);
        table := table - {first};
      }
      if key in table {
        table := table[key := Entry(data, now, ttl)];
      } else {
        keys := keys + [key];
        table := table[key := Entry(data, now, ttl)];
      }
      SetKeepsBound(s0, key, data, ttl, now);
    }

    /** `get(key)` at time `now`. */
    method Get(key: string, now: int) returns (r: Option<V>)
      requires Valid()
      modifies this
      ensures Valid()
      ensures r == Lookup(old(State()), key, now)
      ensures State() == AfterGet(old(State()), key, now)
    {
      if key !in table {
        return None;
      }
      var entry := table[key];
      ghost var i :| 0 <= i < |keys| && keys[i] == key;
      if now - entry.timestamp > entry.ttl {
        GetExpiredRemoves(State(), i, now);
        keys := Remove(keys, key);
        table := table - {key};
        return None;
      }
      GetHitMovesLast(State(), i, now);
      keys := Remove(keys, key);
      table := table - {key};
      keys := keys + [key];
      table := table[key := entry];
      r := Some(entry.data);
    }

    /** `has(key)` is `get(key) !== null`, with the same promotion or deletion. */
    method Has(key: string, now: int) returns (b: bool)
      requires Valid()
      modifies this
      ensures Valid()
      ensures b == Lookup(old(State()), key, now).Some?
      ensures State() == AfterGet(old(State()), key, now)
    {
      var r := Get(key, now);
      b := r.Some?;
    }

    /** `clear()` drops every entry. */
    method Clear()
      modifies this
      ensures Valid() && State() == Store([], map[]) && |keys| == 0
    {
      keys := [];
      table := map[];
    }

    /** `size()`: the number of entries. */
    method Size() returns (n: nat)
      requires Valid()
      ensures n == |keys| && n == |table.Keys| && n <= MemoryLimit
    {
      n := |keys|;
      DistinctCard(keys, table);
    }
  }

  /** Dropping the last key of a distinct sequence keeps it distinct, and that key is not left in it. */
  lemma DistinctInit(ks: seq<string>)
    requires Distinct(ks) && ks != []
    ensures Distinct(ks[..|ks| - 1]) && ks[|ks| - 1] !in ks[..|ks| - 1]
  {
    var init := ks[..|ks| - 1];
    forall j | 0 <= j < |init| ensures init[j] != ks[|ks| - 1] { assert init[j] == ks[j]; }
    forall i, j | 0 <= i < j < |init| ensures init[i] != init[j] { assert init[i] == ks[i] && init[j] == ks[j]; }
  }

  /** The Map's size counts its distinct keys. */
  lemma {:induction false} DistinctCard<V>(ks: seq<string>, table: map<string, Entry<V>>)
    requires Distinct(ks) && forall k :: k in table <==> k in ks
    ensures |table.Keys| == |ks|
  {
    if ks == [] {
      assert table.Keys == {};
    } else {
      var last, init := ks[|ks| - 1], ks[..|ks| - 1];
      DistinctInit(ks);
      var rest := table - {last};
      assert forall k :: k in ks <==> k in init || k == last by { assert ks == init + [last]; }
      DistinctCard(init, rest);
      assert table.Keys == rest.Keys + {last};
    }
  }
}
