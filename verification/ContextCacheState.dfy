/** The locked state of the workspace context cache and the critical sections that change it. */
module ContextCacheState {
  import opened Wire

  const MAX_ENTRIES: nat := 128
  const MAX_BYTES: nat := 4 * 1024 * 1024
  const SNAPSHOT_MAX_BYTES: nat := 64 * 1024
  const WORKERS: nat := 2
  const FRESH_TTL: nat := 1_000_000_000
  const STALE_TTL: nat := 5_000_000_000
  const NEGATIVE_TTL: nat := 1_000_000_000
  const STUCK_AFTER: nat := 250_000_000

  /** A normalized workspace path in UTF-8; no Rust string is longer than the largest signed word. */
  type Key = k: seq<byte> | |k| < 0x8000_0000_0000_0000 witness []

  /** A harvested context, of which only the accounted size matters here. */
  datatype Snapshot = Snapshot(content: nat, size: nat)

  datatype Entry = Entry(snapshot: Option<Snapshot>, capturedAt: nat, bytes: nat, lastUsed: nat)

  datatype Locked = Locked(entries: map<Key, Entry>, aliases: map<Key, Key>, pending: set<Key>,
                           started: seq<Option<nat>>, bytes: nat, useCounter: nat)

  const EMPTY := Locked(map[], map[], {}, [None, None], 0, 0)

  function SaturatingAdd(a: nat, b: nat): nat { if a + b >= U64_LIMIT then U64_LIMIT - 1 else a + b }
  function SaturatingSub(a: nat, b: nat): nat { if a >= b then a - b else 0 }
  function NextTick(st: Locked): nat { (st.useCounter + 1) % U64_LIMIT }
  function Elapsed(now: nat, since: nat): nat { if now > since then now - since else 0 }

  // ---------------------------------------------------------------- byte totals

  ghost function Total(sizes: map<Key, nat>): nat
    decreases sizes.Keys
  {
    if sizes == map[] then 0
    else
      var k :| k in sizes;
      sizes[k] + Total(sizes - {k})
  }

  lemma {:induction false} TotalRemove(sizes: map<Key, nat>, k: Key)
    requires k in sizes
    ensures Total(sizes) == sizes[k] + Total(sizes - {k})
    decreases sizes.Keys
  {
    var x :| x in sizes && Total(sizes) == sizes[x] + Total(sizes - {x});
    if x != k {
      TotalRemove(sizes - {x}, k);
      TotalRemove(sizes - {k}, x);
      assert sizes - {x} - {k} == sizes - {k} - {x};
    }
  }

  ghost function Sizes(entries: map<Key, Entry>): map<Key, nat> { map k | k in entries :: entries[k].bytes }

  ghost function EntryBytes(entries: map<Key, Entry>): nat { Total(Sizes(entries)) }

  lemma EntryBytesRemove(entries: map<Key, Entry>, k: Key)
    requires k in entries
    ensures EntryBytes(entries) == entries[k].bytes + EntryBytes(entries - {k})
  {
    TotalRemove(Sizes(entries), k);
    assert Sizes(entries) - {k} == Sizes(entries - {k});
  }

  lemma EntryBytesAdd(entries: map<Key, Entry>, k: Key, e: Entry)
    requires k !in entries
    ensures EntryBytes(entries[k := e]) == EntryBytes(entries) + e.bytes
  {
    EntryBytesRemove(entries[k := e], k);
    assert entries[k := e] - {k} == entries;
  }

  /** Sizes of the aliases that point at an identity. */
  function AliasSizes(aliases: map<Key, Key>, identity: Key): map<Key, nat> {
    map a | a in aliases && aliases[a] == identity :: |a| + |aliases[a]|
  }

  method SumSizes(sizes: map<Key, nat>) returns (sum: nat)
    ensures sum == Total(sizes)
  {
    sum := 0;
    var left := sizes;
    while left != map[]
      invariant sum + Total(left) == Total(sizes)
      decreases left.Keys
    {
      var k :| k in left;
      TotalRemove(left, k);
      sum := sum + left[k];
      left := left - {k};
    }
  }

  // ---------------------------------------------------------------- lookup

  datatype ContextState = Fresh | Stale | Missing

  /** What a caller gets, and whether it goes on to schedule a refresh. */
  datatype Answer = Answer(context: Option<Snapshot>, state: ContextState, age: Option<nat>, refresh: bool)

  function Identity(st: Locked, key: Key): Key { if key in st.aliases then st.aliases[key] else key }

  /** The lookup section stamps the entry it finds with a new tick. */
  function Touch(st: Locked, key: Key): Locked {
    var id, tick := Identity(st, key), NextTick(st);
    if id in st.entries
    then st.(useCounter := tick, entries := st.entries[id := st.entries[id].(lastUsed := tick)])
    else st.(useCounter := tick)
  }

  /** The answer for an outcome stored at an instant, or for none. */
  function AnswerFor(stored: Option<(Option<Snapshot>, nat)>, now: nat): Answer {
    match stored
    case None => Answer(None, Missing, None, true)
    case Some((snapshot, capturedAt)) =>
      var age := Elapsed(now, capturedAt);
      if snapshot.Some? && age <= FRESH_TTL then Answer(snapshot, Fresh, Some(age), false)
      else if snapshot.Some? && age <= STALE_TTL then Answer(snapshot, Stale, Some(age), true)
      else if snapshot.None? && age <= NEGATIVE_TTL then Answer(None, Missing, None, false)
      else Answer(None, Missing, None, true)
  }

  /** What a caller may rely on, for an outcome captured at an instant: a context up to five seconds old is returned,
      Fresh up to one second; anything older than a second, a failed harvest too, asks for a refresh. */
  ghost predicate Judged(snapshot: Option<Snapshot>, capturedAt: nat, now: nat, answer: Answer) {
    var age := if now > capturedAt then now - capturedAt else 0;
    && answer.context == (if snapshot.Some? && age <= 5_000_000_000 then snapshot else None)
    && answer.age == (if answer.context.Some? then Some(age) else None)
    && (answer.state == Fresh <==> answer.context.Some? && age <= 1_000_000_000)
    && (answer.state == Stale <==> answer.context.Some? && age > 1_000_000_000)
    && (answer.refresh <==> age > 1_000_000_000)
  }

  lemma AnswerJudged(snapshot: Option<Snapshot>, capturedAt: nat, now: nat)
    ensures Judged(snapshot, capturedAt, now, AnswerFor(Some((snapshot, capturedAt)), now))
  {
  }

  function Cached(st: Locked, key: Key): Option<(Option<Snapshot>, nat)> {
    var id := Identity(st, key);
    if id in st.entries then Some((st.entries[id].snapshot, st.entries[id].capturedAt)) else None
  }

  // ---------------------------------------------------------------- schedule

  function StuckCount(started: seq<Option<nat>>, now: nat): nat {
    if started == [] then 0
    else (if started[0].Some? && Elapsed(now, started[0].value) > STUCK_AFTER then 1 else 0) + StuckCount(started[1..], now)
  }

  predicate CircuitOpen(st: Locked, now: nat) { StuckCount(st.started, now) == WORKERS }

  // ---------------------------------------------------------------- insert and evict

  predicate OverLimits(st: Locked) { |st.entries| > MAX_ENTRIES || st.bytes > MAX_BYTES }

  predicate IsOldest(entries: map<Key, Entry>, k: Key) {
    k in entries && forall j :: j in entries ==> entries[k].lastUsed <= entries[j].lastUsed
  }

  ghost function EvictOne(st: Locked, k: Key): Locked
    requires k in st.entries
  {
    st.(entries := st.entries - {k},
        aliases := map a | a in st.aliases && st.aliases[a] != k :: st.aliases[a],
        bytes := SaturatingSub(SaturatingSub(st.bytes, st.entries[k].bytes), Total(AliasSizes(st.aliases, k))))
  }

  /** The keys the eviction loop may remove, in turn: each is then an oldest one, and the loop stops within the
      limits or with nothing left. Ties are broken by the hash map's iteration order. */
  ghost predicate Evicts(st: Locked, victims: seq<Key>)
    decreases |victims|
  {
    if OverLimits(st) && st.entries != map[]
    then victims != [] && IsOldest(st.entries, victims[0]) && Evicts(EvictOne(st, victims[0]), victims[1..])
    else victims == []
  }

  ghost function Evicted(st: Locked, victims: seq<Key>): Locked
    requires Evicts(st, victims)
    decreases |victims|
  {
    if victims == [] then st else Evicted(EvictOne(st, victims[0]), victims[1..])
  }

  /** Removing the victims in turn, each an oldest entry of an oversized cache, leads to `last`. */
  ghost predicate Reaches(st: Locked, victims: seq<Key>, last: Locked)
    decreases |victims|
  {
    if victims == [] then st == last
    else OverLimits(st) && IsOldest(st.entries, victims[0]) && Reaches(EvictOne(st, victims[0]), victims[1..], last)
  }

  lemma ReachesItself(st: Locked)
    ensures Reaches(st, [], st)
  {
  }

  lemma {:induction false} ReachesAppend(st: Locked, victims: seq<Key>, last: Locked, k: Key)
    requires Reaches(st, victims, last) && OverLimits(last) && IsOldest(last.entries, k)
    ensures Reaches(st, victims + [k], EvictOne(last, k))
    decreases |victims|
  {
    if victims == [] {
      assert ([] + [k])[1..] == [];
    } else {
      ReachesAppend(EvictOne(st, victims[0]), victims[1..], last, k);
      assert (victims + [k])[1..] == victims[1..] + [k];
    }
  }

  lemma {:induction false} ReachesEvicts(st: Locked, victims: seq<Key>, last: Locked)
    requires Reaches(st, victims, last) && (!OverLimits(last) || last.entries == map[])
    ensures Evicts(st, victims) && Evicted(st, victims) == last
    decreases |victims|
  {
    if victims != [] { ReachesEvicts(EvictOne(st, victims[0]), victims[1..], last); }
  }

  /** A key other than the identity is recorded as its alias; an older alias of the key is dropped. */
  ghost function Aliased(st: Locked, key: Key, identity: Key): Locked {
    var bytes0 := if key in st.aliases then SaturatingSub(st.bytes, SaturatingAdd(|key|, |st.aliases[key]|)) else st.bytes;
    if key != identity
    then st.(aliases := (st.aliases - {key})[key := identity], bytes := SaturatingAdd(bytes0, |key| + |identity|))
    else st.(aliases := st.aliases - {key}, bytes := bytes0)
  }

  /** The state with the new entry in place under an identity, before eviction. */
  ghost function Placed(st: Locked, key: Key, identity: Key, snapshot: Option<Snapshot>, at: nat, size: nat): Locked {
    var tick, entryBytes, aliased := NextTick(st), |identity| + size, Aliased(st, key, identity);
    var bytes := if identity in st.entries then SaturatingSub(aliased.bytes, st.entries[identity].bytes) else aliased.bytes;
    aliased.(useCounter := tick,
             bytes := SaturatingAdd(bytes, entryBytes),
             entries := st.entries[identity := Entry(snapshot, at, entryBytes, tick)])
  }

  /** An entry's identity is the requested key itself. */
  ghost function Stored(st: Locked, key: Key, snapshot: Option<Snapshot>, at: nat, size: nat): Locked {
    Placed(st, key, key, snapshot, at, size)
  }

  datatype Finish = Completed | Failed | RejectedSize

  function FinishOf(result: Option<Snapshot>): Finish {
    match result
    case None => Failed
    case Some(snapshot) => if snapshot.size > SNAPSHOT_MAX_BYTES then RejectedSize else Completed
  }

  /** What a worker leaves behind before eviction: no start mark, no reservation, and its outcome stored unless the
      snapshot is too large. */
  ghost function Finished(st: Locked, worker: nat, key: Key, result: Option<Snapshot>, at: nat): Locked
    requires worker < |st.started|
  {
    var released := st.(started := st.started[worker := None], pending := st.pending - {key});
    if FinishOf(result) == RejectedSize then released
    else Stored(released, key, result, at, if result.Some? then result.value.size else 0)
  }

  /** The object behind the mutex. */
  class CacheState {
    var entries: map<Key, Entry>
    var aliases: map<Key, Key>
    var pending: set<Key>
    var started: seq<Option<nat>>
    var bytes: nat
    var useCounter: nat

    constructor ()
      ensures Value() == EMPTY
    {
      entries, aliases, pending, started, bytes, useCounter := map[], map[], {}, [None, None], 0, 0;
    }

    ghost function Value(): Locked
      reads this
    {
      Locked(entries, aliases, pending, started, bytes, useCounter)
    }

    method Lookup(key: Key, now: nat) returns (answer: Answer)
      modifies this
      ensures Value() == Touch(old(Value()), key)
      ensures answer == AnswerFor(Cached(old(Value()), key), now)
      ensures var id := Identity(old(Value()), key);
              if id in old(entries) then Judged(old(entries)[id].snapshot, old(entries)[id].capturedAt, now, answer)
              else answer == Answer(None, Missing, None, true)
    {
      useCounter := (useCounter + 1) % U64_LIMIT;
      var identity: Key := if key in aliases then aliases[key] else key;
      if identity !in entries {
        return Answer(None, Missing, None, true);
      }
      var entry := entries[identity];
      entries := entries[identity := entry.(lastUsed := useCounter)];
      var age := if now > entry.capturedAt then now - entry.capturedAt else 0;
      if entry.snapshot.Some? && age <= FRESH_TTL {
        return Answer(entry.snapshot, Fresh, Some(age), false);
      } else if entry.snapshot.Some? && age <= STALE_TTL {
        return Answer(entry.snapshot, Stale, Some(age), true);
      } else if entry.snapshot.None? && age <= NEGATIVE_TTL {
        return Answer(None, Missing, None, false);
      } else {
        return Answer(None, Missing, None, true);
      }
    }

    /** The first half of scheduling: refuse while both workers are stuck, else reserve the key. */
    method Reserve(key: Key, now: nat) returns (open: bool, reserved: bool)
      modifies this
      ensures open == CircuitOpen(old(Value()), now)
      ensures reserved == (!open && key !in old(pending))
      ensures Value() == old(Value()).(pending := if reserved then old(pending) + {key} else old(pending))
    {
      var stuck := 0;
      for k := 0 to |started|
        invariant stuck + StuckCount(started[k..], now) == StuckCount(started, now)
        invariant unchanged(this)
      {
        assert started[k..][1..] == started[k + 1..];
        if started[k].Some? && Elapsed(now, started[k].value) > STUCK_AFTER { stuck := stuck + 1; }
      }
      open := stuck == WORKERS;
      reserved := !open && key !in pending;
      if reserved { pending := pending + {key}; }
    }

    /** Gives a reservation back after a failed send. */
    method Unreserve(key: Key)
      modifies this
      ensures Value() == old(Value()).(pending := old(pending) - {key})
    {
      pending := pending - {key};
    }

    method Start(worker: nat, now: nat)
      requires worker < |started|
      modifies this
      ensures Value() == old(Value()).(started := old(started)[worker := Some(now)])
    {
      started := started[worker := Some(now)];
    }

    /** Removes an entry with the least tick, and the aliases that point at it. */
    method RemoveOldest() returns (oldest: Key)
      requires entries != map[]
      modifies this
      ensures IsOldest(old(entries), oldest) && Value() == EvictOne(old(Value()), oldest)
    {
      oldest := PickOldest(entries);
      var removed := SumSizes(AliasSizes(aliases, oldest));
      bytes := SaturatingSub(bytes, entries[oldest].bytes);
      entries := entries - {oldest};
      aliases := map a | a in aliases && aliases[a] != oldest :: aliases[a];
      bytes := SaturatingSub(bytes, removed);
    }

    method EvictToLimits() returns (ghost victims: seq<Key>)
      modifies this
      ensures Evicts(old(Value()), victims) && Value() == Evicted(old(Value()), victims)
    {
      hide Reaches, Evicts, Evicted;
      victims := [];
      ReachesItself(Value());
      while |entries| > MAX_ENTRIES || bytes > MAX_BYTES
        invariant Reaches(old(Value()), victims, Value())
        decreases entries.Keys
      {
        if entries == map[] {
          break;
        }
        ghost var before := Value();
        var oldest := RemoveOldest();
        ReachesAppend(old(Value()), victims, before, oldest);
        victims := victims + [oldest];
      }
      ReachesEvicts(old(Value()), victims, Value());
    }

    method RecordAlias(key: Key, identity: Key)
      modifies this
      ensures Value() == Aliased(old(Value()), key, identity)
    {
      if key in aliases {
        bytes := SaturatingSub(bytes, SaturatingAdd(|key|, |aliases[key]|));
      }
      aliases := aliases - {key};
      if key != identity {
        aliases := aliases[key := identity];
        bytes := SaturatingAdd(bytes, |key| + |identity|);
      }
    }

    method Place(key: Key, identity: Key, snapshot: Option<Snapshot>, at: nat, size: nat)
      modifies this
      ensures Value() == Placed(old(Value()), key, identity, snapshot, at, size)
    {
      useCounter := (useCounter + 1) % U64_LIMIT;
      var entryBytes := |identity| + size;
      RecordAlias(key, identity);
      if identity in entries {
        bytes := SaturatingSub(bytes, entries[identity].bytes);
        entries := entries - {identity};
      }
      bytes := SaturatingAdd(bytes, entryBytes);
      entries := entries[identity := Entry(snapshot, at, entryBytes, useCounter)];
    }

    method InsertSnapshot(key: Key, snapshot: Option<Snapshot>, at: nat, size: nat) returns (ghost victims: seq<Key>)
      modifies this
      ensures var next := Stored(old(Value()), key, snapshot, at, size);
              Evicts(next, victims) && Value() == Evicted(next, victims)
    {
      var identity := key;
      Place(key, identity, snapshot, at, size);
      victims := EvictToLimits();
    }

    /** A worker's last critical section. */
    method FinishJob(worker: nat, key: Key, result: Option<Snapshot>, at: nat)
        returns (finish: Finish, ghost victims: seq<Key>)
      requires worker < |started|
      modifies this
      ensures finish == FinishOf(result)
      ensures var next := Finished(old(Value()), worker, key, result, at);
              if finish == RejectedSize then victims == [] && Value() == next
              else Evicts(next, victims) && Value() == Evicted(next, victims)
    {
      started := started[worker := None];
      pending := pending - {key};
      match result {
        case Some(snapshot) =>
          if snapshot.size > SNAPSHOT_MAX_BYTES {
            return RejectedSize, [];
          }
          victims := InsertSnapshot(key, result, at, snapshot.size);
          finish := Completed;
        case None =>
          victims := InsertSnapshot(key, None, at, 0);
          finish := Failed;
      }
    }
  }

  /** Some entry with the least tick. */
  method PickOldest(entries: map<Key, Entry>) returns (oldest: Key)
    requires entries != map[]
    ensures IsOldest(entries, oldest)
  {
    oldest :| oldest in entries;
    var left := entries.Keys - {oldest};
    while left != {}
      invariant left <= entries.Keys && oldest in entries
      invariant forall j :: j in entries && j !in left ==> entries[oldest].lastUsed <= entries[j].lastUsed
      decreases left
    {
      var k :| k in left;
      if entries[k].lastUsed < entries[oldest].lastUsed { oldest := k; }
      left := left - {k};
    }
  }
}
