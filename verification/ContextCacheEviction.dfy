/** Byte accounting and eviction of the context cache: totals are exact, and what survives an insert is the longest
    most-recently-used suffix within both limits. */
module ContextCacheEviction {
  import opened Wire
  import opened ContextCacheState

  /** The accounted bytes are the entries' bytes: no alias contributes and nothing was saturated. */
  ghost predicate Exact(st: Locked) {
    st.aliases == map[] && st.bytes == EntryBytes(st.entries)
  }

  ghost predicate DistinctTicks(entries: map<Key, Entry>) {
    forall j, k :: j in entries && k in entries && j != k ==> entries[j].lastUsed != entries[k].lastUsed
  }

  ghost predicate Fits(entries: map<Key, Entry>) {
    |entries| <= 128 && EntryBytes(entries) <= 4 * 1024 * 1024
  }

  ghost function Restrict(entries: map<Key, Entry>, keep: set<Key>): map<Key, Entry> {
    map k | k in entries && k in keep :: entries[k]
  }

  /** Keys closed under "used more recently than". */
  ghost predicate RecentSuffix(entries: map<Key, Entry>, keep: set<Key>) {
    && keep <= entries.Keys
    && forall j, k :: k in keep && j in entries && entries[j].lastUsed >= entries[k].lastUsed ==> j in keep
  }

  lemma EvictOneExact(st: Locked, k: Key)
    requires Exact(st) && k in st.entries
    ensures Exact(EvictOne(st, k))
    ensures var r := EvictOne(st, k); r == st.(entries := st.entries - {k}, bytes := r.bytes)
  {
    EntryBytesRemove(st.entries, k);
    assert AliasSizes(st.aliases, k) == map[];
  }

  lemma NoEntriesNoBytes()
    ensures EntryBytes(map[]) == 0
  {
  }

  // A smaller cache of the same entries, within the limits and accounted for.
  ghost predicate Trimmed(st: Locked, r: Locked) {
    && Exact(r) && !OverLimits(r) && Fits(r.entries)
    && r.entries == Restrict(st.entries, r.entries.Keys) && r.entries.Keys <= st.entries.Keys
    && r == st.(entries := r.entries, bytes := r.bytes)
  }

  lemma TrimmedFurther(st: Locked, k: Key, r: Locked)
    requires Exact(st) && k in st.entries && Trimmed(EvictOne(st, k), r)
    ensures Trimmed(st, r)
  {
  }

  /** Eviction keeps the accounting exact and ends within both limits: the loop never stops for lack of entries. */
  lemma {:induction false} EvictedExact(st: Locked, victims: seq<Key>)
    requires Exact(st) && Evicts(st, victims)
    ensures Trimmed(st, Evicted(st, victims))
    decreases |victims|
  {
    hide EvictOne, EntryBytes;
    if victims == [] {
      NoEntriesNoBytes();
    } else {
      EvictOneExact(st, victims[0]);
      EvictedExact(EvictOne(st, victims[0]), victims[1..]);
      TrimmedFurther(st, victims[0], Evicted(st, victims));
    }
  }

  // A recent suffix that holds an oldest entry holds every entry.
  lemma OldestMeansAll(entries: map<Key, Entry>, keep: set<Key>, k: Key)
    requires RecentSuffix(entries, keep) && IsOldest(entries, k) && k in keep
    ensures Restrict(entries, keep) == entries
  {
  }

  /** No recent suffix that fits is larger than what survives, ties or not. */
  lemma {:induction false} EvictedMaximal(st: Locked, victims: seq<Key>, keep: set<Key>)
    requires Exact(st) && Evicts(st, victims)
    requires RecentSuffix(st.entries, keep) && Fits(Restrict(st.entries, keep))
    ensures keep <= Evicted(st, victims).entries.Keys
    decreases |victims|
  {
    if victims != [] {
      var k := victims[0];
      var next := EvictOne(st, k);
      if k in keep { OldestMeansAll(st.entries, keep, k); }
      EvictOneExact(st, k);
      assert Restrict(next.entries, keep) == Restrict(st.entries, keep);
      EvictedMaximal(next, victims[1..], keep);
    }
  }

  /** While ticks are distinct, what survives is itself a recent suffix. */
  lemma {:induction false} EvictedRecent(st: Locked, victims: seq<Key>)
    requires Exact(st) && Evicts(st, victims) && DistinctTicks(st.entries)
    ensures RecentSuffix(st.entries, Evicted(st, victims).entries.Keys)
    decreases |victims|
  {
    hide EvictOne, EntryBytes;
    if victims != [] {
      var k := victims[0];
      var next := EvictOne(st, k);
      EvictOneExact(st, k);
      EvictedRecent(next, victims[1..]);
      EvictedExact(next, victims[1..]);
      var kept := Evicted(next, victims[1..]).entries.Keys;
      forall i, j | j in kept && i in st.entries && st.entries[i].lastUsed >= st.entries[j].lastUsed ensures i in kept {
        assert j in next.entries && next.entries[j] == st.entries[j];
        assert st.entries[k].lastUsed != st.entries[j].lastUsed;
      }
    }
  }

  /** After eviction: exact bytes, both limits, and the longest recent suffix that meets them. */
  lemma SurvivorsAreLongestRecentSuffix(st: Locked, victims: seq<Key>)
    requires Exact(st) && Evicts(st, victims) && DistinctTicks(st.entries)
    ensures var kept := Evicted(st, victims).entries;
            && RecentSuffix(st.entries, kept.Keys) && kept == Restrict(st.entries, kept.Keys) && Fits(kept)
            && forall keep :: RecentSuffix(st.entries, keep) && Fits(Restrict(st.entries, keep)) ==> keep <= kept.Keys
  {
    EvictedExact(st, victims);
    EvictedRecent(st, victims);
    forall keep | RecentSuffix(st.entries, keep) && Fits(Restrict(st.entries, keep))
      ensures keep <= Evicted(st, victims).entries.Keys
    {
      EvictedMaximal(st, victims, keep);
    }
  }

  /** Storing an outcome within the snapshot limit never saturates: the total stays the exact sum. */
  lemma StoredExact(st: Locked, key: Key, snapshot: Option<Snapshot>, at: nat, size: nat)
    requires Exact(st) && !OverLimits(st) && size <= SNAPSHOT_MAX_BYTES
    ensures Exact(Stored(st, key, snapshot, at, size))
    ensures var r := Stored(st, key, snapshot, at, size);
            && r.bytes == EntryBytes(st.entries - {key}) + |key| + size
            && r == st.(bytes := r.bytes, useCounter := NextTick(st),
                        entries := st.entries[key := Entry(snapshot, at, |key| + size, NextTick(st))])
  {
    var tick := NextTick(st);
    var e := Entry(snapshot, at, |key| + size, tick);
    if key in st.entries {
      EntryBytesRemove(st.entries, key);
    } else {
      assert st.entries - {key} == st.entries;
    }
    EntryBytesAdd(st.entries - {key}, key, e);
    assert (st.entries - {key})[key := e] == st.entries[key := e];
    assert st.aliases - {key} == map[];
  }

  lemma SingleBytes(k: Key, e: Entry)
    ensures EntryBytes(map[k := e]) == e.bytes
  {
    EntryBytesRemove(map[k := e], k);
    assert map[k := e] - {k} == map[];
    assert Sizes(map[]) == map[];
  }

  /** A newly stored entry, being the most recent, survives eviction exactly when it fits alone. */
  lemma NewEntrySurvivesIff(st: Locked, victims: seq<Key>, key: Key)
    requires Exact(st) && Evicts(st, victims) && key in st.entries
    requires forall j :: j in st.entries && j != key ==> st.entries[j].lastUsed < st.entries[key].lastUsed
    ensures key in Evicted(st, victims).entries <==> st.entries[key].bytes <= MAX_BYTES
  {
    hide Evicted, Evicts, EntryBytes;
    var e, r := st.entries[key], Evicted(st, victims);
    EvictedExact(st, victims);
    if key in r.entries {
      EntryBytesRemove(r.entries, key);
    }
    if e.bytes <= MAX_BYTES {
      SingleBytes(key, e);
      assert Restrict(st.entries, {key}) == map[key := e];
      EvictedMaximal(st, victims, {key});
    }
  }
}
