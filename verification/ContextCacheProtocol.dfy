/** The context cache as a concurrent protocol: any number of callers, a bounded queue and two workers take atomic
    steps in any order. Every step is a critical section, a channel operation or one counter update. */
module ContextCacheProtocol {
  import opened Wire
  import opened ContextCacheState
  import opened ContextCacheEviction

  const QUEUE_CAPACITY: nat := 32

  /** Where a caller stands between the atomic steps of `lookup` and `schedule`. */
  datatype Caller =
    | Idle
    | Deciding(key: Key, now: nat) // looked up, wants a refresh
    | Holding(key: Key)            // reserved the key, has not sent
    | Sent                         // sent, has not counted `queued`
    | Counted                      // counted `queued`, not `queued_keys`
    | Refused(key: Key)            // the queue was full, still holds the reservation
    | Released                     // gave the reservation back, has not counted `queue_full`

  /** Where a worker stands in its loop. */
  datatype Worker =
    | Waiting
    | Received(key: Key)   // has not marked its start
    | Started(key: Key)    // has not decremented `queued_keys`
    | Harvesting(key: Key)

  /** 64-bit counters; each update wraps. */
  datatype Counters = Counters(queued: nat, queueFull: nat, circuitOpen: nat, completed: nat, failed: nat,
                               rejected: nat, queuedKeys: nat)

  /** `stored` and `ticks` are history: the last stored outcome of every key, and how often the recency counter was
      advanced. No step reads them. */
  datatype State = State(locked: Locked, callers: seq<Caller>, queue: seq<Key>, workers: seq<Worker>,
                         counters: Counters, stored: map<Key, (Option<Snapshot>, nat)>, ticks: nat)

  function Initial(callers: nat): State {
    State(EMPTY, seq(callers, _ => Idle), [], [Waiting, Waiting], Counters(0, 0, 0, 0, 0, 0, 0), map[], 0)
  }

  datatype Action =
    | Lookup(caller: nat, key: Key, now: nat)
    | Schedule(caller: nat)
    | Send(caller: nat)
    | CountQueued(caller: nat)
    | CountQueuedKey(caller: nat)
    | Unreserve(caller: nat)
    | CountQueueFull(caller: nat)
    | Receive(worker: nat)
    | Begin(worker: nat, now: nat)
    | CountDequeued(worker: nat)
    | Finish(worker: nat, result: Option<Snapshot>, at: nat, victims: seq<Key>)

  function Bump(x: nat): nat { (x + 1) % U64_LIMIT }
  function Drop(x: nat): nat { (x - 1) % U64_LIMIT }

  ghost predicate Enabled(s: State, a: Action) {
    match a
    case Lookup(c, _, _) => c < |s.callers| && s.callers[c].Idle?
    case Schedule(c) => c < |s.callers| && s.callers[c].Deciding?
    case Send(c) => c < |s.callers| && s.callers[c].Holding?
    case CountQueued(c) => c < |s.callers| && s.callers[c].Sent?
    case CountQueuedKey(c) => c < |s.callers| && s.callers[c].Counted?
    case Unreserve(c) => c < |s.callers| && s.callers[c].Refused?
    case CountQueueFull(c) => c < |s.callers| && s.callers[c].Released?
    case Receive(w) => w < |s.workers| && s.workers[w].Waiting? && s.queue != []
    case Begin(w, _) => w < |s.workers| && s.workers[w].Received? && w < |s.locked.started|
    case CountDequeued(w) => w < |s.workers| && s.workers[w].Started?
    case Finish(w, result, at, victims) =>
      && w < |s.workers| && s.workers[w].Harvesting? && w < |s.locked.started|
      && var next := Finished(s.locked, w, s.workers[w].key, result, at);
         if FinishOf(result) == RejectedSize then victims == [] else Evicts(next, victims)
  }

  ghost function Next(s: State, a: Action): State
    requires Enabled(s, a)
  {
    match a
    case Lookup(c, key, now) =>
      var answer := AnswerFor(Cached(s.locked, key), now);
      s.(locked := Touch(s.locked, key), ticks := s.ticks + 1,
         callers := s.callers[c := if answer.refresh then Deciding(key, now) else Idle])
    case Schedule(c) =>
      var Deciding(key, now) := s.callers[c];
      if CircuitOpen(s.locked, now) then
        s.(counters := s.counters.(circuitOpen := Bump(s.counters.circuitOpen)), callers := s.callers[c := Idle])
      else if key in s.locked.pending then s.(callers := s.callers[c := Idle])
      else s.(locked := s.locked.(pending := s.locked.pending + {key}), callers := s.callers[c := Holding(key)])
    case Send(c) =>
      var key := s.callers[c].key;
      if |s.queue| < QUEUE_CAPACITY then s.(queue := s.queue + [key], callers := s.callers[c := Sent])
      else s.(callers := s.callers[c := Refused(key)])
    case CountQueued(c) =>
      s.(counters := s.counters.(queued := Bump(s.counters.queued)), callers := s.callers[c := Counted])
    case CountQueuedKey(c) =>
      s.(counters := s.counters.(queuedKeys := Bump(s.counters.queuedKeys)), callers := s.callers[c := Idle])
    case Unreserve(c) =>
      s.(locked := s.locked.(pending := s.locked.pending - {s.callers[c].key}), callers := s.callers[c := Released])
    case CountQueueFull(c) =>
      s.(counters := s.counters.(queueFull := Bump(s.counters.queueFull)), callers := s.callers[c := Idle])
    case Receive(w) =>
      s.(queue := s.queue[1..], workers := s.workers[w := Received(s.queue[0])])
    case Begin(w, now) =>
      s.(locked := s.locked.(started := s.locked.started[w := Some(now)]),
         workers := s.workers[w := Started(s.workers[w].key)])
    case CountDequeued(w) =>
      s.(counters := s.counters.(queuedKeys := Drop(s.counters.queuedKeys)),
         workers := s.workers[w := Harvesting(s.workers[w].key)])
    case Finish(w, result, at, victims) =>
      var key := s.workers[w].key;
      var next := Finished(s.locked, w, key, result, at);
      var idle := s.(workers := s.workers[w := Waiting]);
      match FinishOf(result)
      case RejectedSize =>
        idle.(locked := next, counters := s.counters.(rejected := Bump(s.counters.rejected)))
      case Completed =>
        idle.(locked := Evicted(next, victims), counters := s.counters.(completed := Bump(s.counters.completed)),
              stored := s.stored[key := (result, at)], ticks := s.ticks + 1)
      case Failed =>
        idle.(locked := Evicted(next, victims), counters := s.counters.(failed := Bump(s.counters.failed)),
              stored := s.stored[key := (result, at)], ticks := s.ticks + 1)
  }

  /** A run from the start, in any interleaving. */
  ghost predicate Execution(states: seq<State>, actions: seq<Action>) {
    && |states| == |actions| + 1
    && states[0] == Initial(|states[0].callers|)
    && forall i :: 0 <= i < |actions| ==> Enabled(states[i], actions[i]) && states[i + 1] == Next(states[i], actions[i])
  }

  // ---------------------------------------------------------------- who holds which key

  predicate CallerHolds(c: Caller, k: Key) { (c.Holding? || c.Refused?) && c.key == k }

  predicate WorkerHolds(w: Worker, k: Key) { !w.Waiting? && w.key == k }

  /** How many elements of a sequence satisfy a predicate. */
  function Count<T>(s: seq<T>, p: T -> bool): nat {
    if s == [] then 0 else (if p(s[0]) then 1 else 0) + Count(s[1..], p)
  }

  lemma {:induction false} CountUpdate<T>(s: seq<T>, i: nat, x: T, p: T -> bool)
    requires i < |s|
    ensures Count(s[i := x], p) + (if p(s[i]) then 1 else 0) == Count(s, p) + (if p(x) then 1 else 0)
  {
    if i == 0 {
      assert s[i := x][1..] == s[1..];
    } else {
      assert s[i := x][1..] == s[1..][i - 1 := x];
      CountUpdate(s[1..], i - 1, x, p);
    }
  }

  function CallerHolding(k: Key): Caller -> bool { (c: Caller) => CallerHolds(c, k) }
  function WorkerHolding(k: Key): Worker -> bool { (w: Worker) => WorkerHolds(w, k) }

  function CallersHolding(s: State, k: Key): nat { Count(s.callers, CallerHolding(k)) }
  function JobsQueued(s: State, k: Key): nat { multiset(s.queue)[k] }
  function WorkersHolding(s: State, k: Key): nat { Count(s.workers, WorkerHolding(k)) }

  ghost predicate PendingExactAt(s: State, k: Key) {
    CallersHolding(s, k) + JobsQueued(s, k) + WorkersHolding(s, k) == if k in s.locked.pending then 1 else 0
  }

  /** The pending set is exactly the outstanding refreshes, and each key is outstanding once. */
  ghost predicate PendingExact(s: State) { forall k :: PendingExactAt(s, k) }

  lemma EvictedKeepsRest(st: Locked, victims: seq<Key>)
    requires Evicts(st, victims)
    ensures Evicted(st, victims).pending == st.pending && Evicted(st, victims).started == st.started
    ensures Evicted(st, victims).useCounter == st.useCounter
    decreases |victims|
  {
    if victims != [] { EvictedKeepsRest(EvictOne(st, victims[0]), victims[1..]); }
  }

  predicate IsWorkerStep(a: Action) { a.Receive? || a.Begin? || a.CountDequeued? || a.Finish? }

  lemma PendingCallerStep(s: State, a: Action, k: Key)
    requires Enabled(s, a) && !IsWorkerStep(a) && PendingExactAt(s, k)
    ensures PendingExactAt(Next(s, a), k)
  {
    hide Touch, AnswerFor, Cached, CircuitOpen, Count, Evicts, Evicted, Finished;
    var t := Next(s, a);
    CountUpdate(s.callers, a.caller, t.callers[a.caller], CallerHolding(k));
    if a.Lookup? { TouchKeepsPending(s.locked, a.key); }
    if a.Send? { assert multiset(s.queue + [s.callers[a.caller].key]) == multiset(s.queue) + multiset{s.callers[a.caller].key}; }
    if a.Schedule? || a.Unreserve? { HolderCounts(s, a.caller, k); }
  }

  // A caller that holds a key is counted.
  lemma HolderCounts(s: State, c: nat, k: Key)
    requires c < |s.callers|
    ensures CallerHolds(s.callers[c], k) ==> CallersHolding(s, k) >= 1
  {
    CountUpdate(s.callers, c, Idle, CallerHolding(k));
  }

  lemma PendingWorkerStep(s: State, a: Action, k: Key)
    requires Enabled(s, a) && IsWorkerStep(a) && PendingExactAt(s, k)
    ensures PendingExactAt(Next(s, a), k)
  {
    hide Count, Evicts, Evicted, Finished;
    var t := Next(s, a);
    CountUpdate(s.workers, a.worker, t.workers[a.worker], WorkerHolding(k));
    if a.Receive? { assert s.queue == [s.queue[0]] + s.queue[1..]; }
    if a.Finish? { FinishPending(s, a); }
  }

  lemma {:induction false} PendingStep(s: State, a: Action)
    requires Enabled(s, a) && PendingExact(s)
    ensures PendingExact(Next(s, a))
  {
    hide Enabled, Next, PendingExactAt;
    forall k ensures PendingExactAt(Next(s, a), k) {
      if IsWorkerStep(a) { PendingWorkerStep(s, a, k); } else { PendingCallerStep(s, a, k); }
    }
  }

  lemma TouchKeepsPending(st: Locked, key: Key)
    ensures Touch(st, key).pending == st.pending && Touch(st, key).started == st.started
  {
  }

  lemma FinishPending(s: State, a: Action)
    requires a.Finish? && Enabled(s, a)
    ensures Next(s, a).locked.pending == s.locked.pending - {s.workers[a.worker].key}
    ensures Next(s, a).locked.started == s.locked.started[a.worker := None]
  {
    hide Evicts, Evicted;
    var next := Finished(s.locked, a.worker, s.workers[a.worker].key, a.result, a.at);
    if FinishOf(a.result) != RejectedSize { EvictedKeepsRest(next, a.victims); }
  }

  // ---------------------------------------------------------------- counters

  predicate Congruent(a: int, b: int) { (a - b) % U64_LIMIT == 0 }

  function IsSent(): Caller -> bool { (c: Caller) => c.Sent? }
  function IsMidSend(): Caller -> bool { (c: Caller) => c.Sent? || c.Counted? }
  function IsBusy(): Worker -> bool { (w: Worker) => !w.Waiting? }
  function IsUndecremented(): Worker -> bool { (w: Worker) => w.Received? || w.Started? }

  /** Refresh accounting, modulo the counters' width. Every sent job is completed, failed, rejected, queued or held;
      and `queued_keys` lags the queue only by callers and workers between two steps. */
  ghost predicate Accounted(s: State) {
    var n := s.counters;
    && Congruent(n.queued + Count(s.callers, IsSent()),
                 n.completed + n.failed + n.rejected + |s.queue| + Count(s.workers, IsBusy()))
    && Congruent(n.queuedKeys + Count(s.callers, IsMidSend()), |s.queue| + Count(s.workers, IsUndecremented()))
    && n.queued < U64_LIMIT && n.completed < U64_LIMIT && n.failed < U64_LIMIT && n.rejected < U64_LIMIT
    && n.queuedKeys < U64_LIMIT
  }

  lemma BumpCongruent(x: nat)
    requires x < U64_LIMIT
    ensures Bump(x) == x + 1 || Bump(x) == x + 1 - U64_LIMIT
    ensures Drop(x) == x - 1 || Drop(x) == x - 1 + U64_LIMIT
    ensures Bump(x) < U64_LIMIT && Drop(x) < U64_LIMIT
  {
  }

  lemma CongruentShift(a: int, b: int, k: int)
    requires Congruent(a, b) && -1 <= k <= 1
    ensures Congruent(a + k * U64_LIMIT, b) && Congruent(a, b + k * U64_LIMIT)
  {
  }

  lemma AccountedCallerStep(s: State, a: Action)
    requires Enabled(s, a) && !IsWorkerStep(a) && Accounted(s)
    ensures Accounted(Next(s, a))
  {
    hide Touch, AnswerFor, Cached, CircuitOpen, Count, Evicts, Evicted, Finished, Bump, Drop, Congruent;
    var t, n := Next(s, a), s.counters;
    CountUpdate(s.callers, a.caller, t.callers[a.caller], IsSent());
    CountUpdate(s.callers, a.caller, t.callers[a.caller], IsMidSend());
    var left, right := n.queued + Count(s.callers, IsSent()),
        n.completed + n.failed + n.rejected + |s.queue| + Count(s.workers, IsBusy());
    var keys, jobs := n.queuedKeys + Count(s.callers, IsMidSend()), |s.queue| + Count(s.workers, IsUndecremented());
    if a.CountQueued? {
      BumpCongruent(n.queued);
      CongruentShift(left, right, -1);
    } else if a.CountQueuedKey? {
      BumpCongruent(n.queuedKeys);
      CongruentShift(keys, jobs, -1);
    } else if a.Send? {
      CongruentBoth(left, right);
      CongruentBoth(keys, jobs);
    }
  }

  lemma CongruentBoth(a: int, b: int)
    requires Congruent(a, b)
    ensures Congruent(a + 1, b + 1) && Congruent(a - 1, b - 1)
  {
  }

  lemma AccountedWorkerStep(s: State, a: Action)
    requires Enabled(s, a) && IsWorkerStep(a) && Accounted(s)
    ensures Accounted(Next(s, a))
  {
    hide Count, Evicts, Evicted, Finished, Bump, Drop, Congruent;
    var t, n := Next(s, a), s.counters;
    CountUpdate(s.workers, a.worker, t.workers[a.worker], IsBusy());
    CountUpdate(s.workers, a.worker, t.workers[a.worker], IsUndecremented());
    var left, right := n.queued + Count(s.callers, IsSent()),
        n.completed + n.failed + n.rejected + |s.queue| + Count(s.workers, IsBusy());
    var keys, jobs := n.queuedKeys + Count(s.callers, IsMidSend()), |s.queue| + Count(s.workers, IsUndecremented());
    if a.CountDequeued? {
      BumpCongruent(n.queuedKeys);
      CongruentBoth(keys, jobs);
      CongruentShift(keys - 1, jobs - 1, 1);
    } else if a.Finish? {
      BumpCongruent(n.completed);
      BumpCongruent(n.failed);
      BumpCongruent(n.rejected);
      CongruentShift(left, right, -1);
    }
  }

  lemma AccountedStep(s: State, a: Action)
    requires Enabled(s, a) && Accounted(s)
    ensures Accounted(Next(s, a))
  {
    if IsWorkerStep(a) { AccountedWorkerStep(s, a); } else { AccountedCallerStep(s, a); }
  }

  // ---------------------------------------------------------------- the cache itself

  /** Ticks order the entries as long as the counter has not wrapped. */
  ghost predicate Ordered(s: State) {
    && s.locked.useCounter == s.ticks % U64_LIMIT
    && (s.ticks < U64_LIMIT ==>
          && DistinctTicks(s.locked.entries)
          && forall k :: k in s.locked.entries ==> s.locked.entries[k].lastUsed <= s.locked.useCounter)
  }

  /** Every entry is the last stored outcome of its own key. */
  ghost predicate Faithful(s: State) {
    forall k :: k in s.locked.entries ==>
      k in s.stored && s.stored[k] == (s.locked.entries[k].snapshot, s.locked.entries[k].capturedAt)
  }

  predicate MarkedStarted(w: Worker) { w.Started? || w.Harvesting? }

  ghost predicate Shaped(s: State) {
    && |s.workers| == |s.locked.started| == WORKERS
    && |s.queue| <= QUEUE_CAPACITY
    && forall i :: 0 <= i < WORKERS ==> (s.locked.started[i].Some? <==> MarkedStarted(s.workers[i]))
  }

  ghost predicate CacheExact(s: State) {
    Exact(s.locked) && !OverLimits(s.locked)
  }

  lemma ShapedStep(s: State, a: Action)
    requires Enabled(s, a) && Shaped(s)
    ensures Shaped(Next(s, a))
  {
    hide AnswerFor, Cached, CircuitOpen, Evicts, Evicted, Finished;
    if a.Finish? { FinishPending(s, a); }
  }

  lemma TouchExact(st: Locked, key: Key)
    requires Exact(st)
    ensures Exact(Touch(st, key)) && Touch(st, key).entries.Keys == st.entries.Keys
  {
    assert Sizes(Touch(st, key).entries) == Sizes(st.entries);
  }

  lemma CacheStep(s: State, a: Action)
    requires Enabled(s, a) && CacheExact(s)
    ensures CacheExact(Next(s, a))
  {
    hide AnswerFor, Cached, CircuitOpen, Evicts, Evicted, Touch, EntryBytes;
    match a {
      case Lookup(_, key, _) =>
        TouchExact(s.locked, key);
        TouchKeepsBytes(s.locked, key);
        assert |Touch(s.locked, key).entries.Keys| == |s.locked.entries.Keys|;
      case Finish(w, result, at, victims) =>
        var key := s.workers[w].key;
        var released := s.locked.(started := s.locked.started[w := None], pending := s.locked.pending - {key});
        if FinishOf(result) != RejectedSize {
          StoredExact(released, key, result, at, if result.Some? then result.value.size else 0);
          EvictedExact(Finished(s.locked, w, key, result, at), victims);
        }
      case _ =>
    }
  }

  lemma TouchKeepsBytes(st: Locked, key: Key)
    ensures Touch(st, key).bytes == st.bytes
  {
  }

  lemma TrimmedEntries(st: Locked, r: Locked)
    requires Trimmed(st, r)
    ensures forall k :: k in r.entries ==> k in st.entries && r.entries[k] == st.entries[k]
  {
  }

  lemma FaithfulFinish(s: State, a: Action)
    requires a.Finish? && Enabled(s, a) && CacheExact(s) && Faithful(s)
    ensures Faithful(Next(s, a))
  {
    hide Evicts, Evicted, EntryBytes, Trimmed, Stored;
    if FinishOf(a.result) != RejectedSize {
      var key := s.workers[a.worker].key;
      var released := s.locked.(started := s.locked.started[a.worker := None], pending := s.locked.pending - {key});
      StoredExact(released, key, a.result, a.at, if a.result.Some? then a.result.value.size else 0);
      var full := Finished(s.locked, a.worker, key, a.result, a.at);
      EvictedExact(full, a.victims);
      TrimmedEntries(full, Evicted(full, a.victims));
    }
  }

  lemma FaithfulStep(s: State, a: Action)
    requires Enabled(s, a) && CacheExact(s) && Faithful(s)
    ensures Faithful(Next(s, a))
  {
    hide AnswerFor, Cached, CircuitOpen, Evicts, Evicted, Exact, OverLimits, Finished;
    if a.Finish? { FaithfulFinish(s, a); }
  }

  ghost predicate TicksOrdered(entries: map<Key, Entry>, top: nat) {
    DistinctTicks(entries) && forall k :: k in entries ==> entries[k].lastUsed <= top
  }

  lemma TickAdvances(st: Locked, ticks: nat)
    requires st.useCounter == ticks % U64_LIMIT
    ensures NextTick(st) == (ticks + 1) % U64_LIMIT
    ensures ticks + 1 < U64_LIMIT ==> NextTick(st) == ticks + 1 == st.useCounter + 1
  {
  }

  lemma StampOrdered(entries: map<Key, Entry>, top: nat, key: Key, e: Entry)
    requires TicksOrdered(entries, top) && e.lastUsed == top + 1
    ensures TicksOrdered(entries[key := e], top + 1)
  {
  }

  lemma FewerOrdered(entries: map<Key, Entry>, top: nat, kept: map<Key, Entry>)
    requires TicksOrdered(entries, top) && kept == Restrict(entries, kept.Keys)
    ensures TicksOrdered(kept, top)
  {
  }

  lemma OrderedLookup(s: State, a: Action)
    requires a.Lookup? && Enabled(s, a) && Ordered(s)
    ensures Ordered(Next(s, a))
  {
    hide AnswerFor, Cached, NextTick;
    TickAdvances(s.locked, s.ticks);
    var id := Identity(s.locked, a.key);
    if s.ticks + 1 < U64_LIMIT && id in s.locked.entries {
      StampOrdered(s.locked.entries, s.locked.useCounter, id, s.locked.entries[id].(lastUsed := NextTick(s.locked)));
    }
  }

  lemma OrderedFinish(s: State, a: Action)
    requires a.Finish? && Enabled(s, a) && CacheExact(s) && Ordered(s)
    ensures Ordered(Next(s, a))
  {
    hide Evicts, Evicted, EntryBytes, NextTick;
    if FinishOf(a.result) != RejectedSize {
      var key, st := s.workers[a.worker].key, s.locked;
      var released := st.(started := st.started[a.worker := None], pending := st.pending - {key});
      var size := if a.result.Some? then a.result.value.size else 0;
      var next := Stored(released, key, a.result, a.at, size);
      StoredExact(released, key, a.result, a.at, size);
      EvictedExact(next, a.victims);
      TickAdvances(released, s.ticks);
      if s.ticks + 1 < U64_LIMIT {
        StampOrdered(st.entries, st.useCounter, key, next.entries[key]);
        FewerOrdered(next.entries, next.useCounter, Evicted(next, a.victims).entries);
      }
    }
  }

  lemma OrderedStep(s: State, a: Action)
    requires Enabled(s, a) && CacheExact(s) && Ordered(s)
    ensures Ordered(Next(s, a))
  {
    if a.Lookup? {
      OrderedLookup(s, a);
    } else if a.Finish? {
      OrderedFinish(s, a);
    }
  }

  // ---------------------------------------------------------------- every reachable state

  ghost predicate Invariant(s: State) {
    PendingExact(s) && Accounted(s) && Shaped(s) && CacheExact(s) && Faithful(s) && Ordered(s)
  }

  lemma {:induction false} NobodyHolds(n: nat, p: Caller -> bool)
    requires !p(Idle)
    ensures Count(seq(n, _ => Idle), p) == 0
  {
    var s := seq(n, _ => Idle);
    if n > 0 {
      assert s[1..] == seq(n - 1, _ => Idle);
      NobodyHolds(n - 1, p);
    }
  }

  lemma InitialInvariant(n: nat)
    ensures Invariant(Initial(n))
  {
    var s := Initial(n);
    forall k ensures PendingExactAt(s, k) {
      NobodyHolds(n, CallerHolding(k));
      assert s.workers[1..] == [Waiting] && [Waiting][1..] == [];
    }
    NobodyHolds(n, IsSent());
    NobodyHolds(n, IsMidSend());
    assert s.workers[1..] == [Waiting] && [Waiting][1..] == [];
    assert Sizes(s.locked.entries) == map[];
  }

  lemma InvariantStep(s: State, a: Action)
    requires Enabled(s, a) && Invariant(s)
    ensures Invariant(Next(s, a))
  {
    hide Enabled, Next, PendingExact, Accounted, Shaped, CacheExact, Faithful, Ordered;
    PendingStep(s, a);
    AccountedStep(s, a);
    ShapedStep(s, a);
    CacheStep(s, a);
    FaithfulStep(s, a);
    OrderedStep(s, a);
  }

  /** Every state of every run satisfies the invariant. */
  lemma {:induction false} AlwaysInvariant(states: seq<State>, actions: seq<Action>, n: nat)
    requires Execution(states, actions) && n < |states|
    ensures Invariant(states[n])
  {
    hide Invariant, Enabled, Next, Initial;
    if n == 0 {
      InitialInvariant(|states[0].callers|);
    } else {
      AlwaysInvariant(states, actions, n - 1);
      assert Enabled(states[n - 1], actions[n - 1]) && states[n - 1 + 1] == Next(states[n - 1], actions[n - 1]);
      InvariantStep(states[n - 1], actions[n - 1]);
    }
  }

  // ---------------------------------------------------------------- what callers and operators can rely on

  lemma {:induction false} CountAtLeast<T>(s: seq<T>, p: T -> bool, i: nat)
    requires i < |s| && p(s[i])
    ensures Count(s, p) >= 1
  {
    if i > 0 { CountAtLeast(s[1..], p, i - 1); }
  }

  lemma {:induction false} CountTwo<T>(s: seq<T>, p: T -> bool, i: nat, j: nat)
    requires i < j < |s| && p(s[i]) && p(s[j])
    ensures Count(s, p) >= 2
  {
    if i > 0 {
      CountTwo(s[1..], p, i - 1, j - 1);
    } else {
      CountAtLeast(s[1..], p, j - 1);
    }
  }

  lemma {:induction false} CountWitness<T>(s: seq<T>, p: T -> bool) returns (i: nat)
    requires Count(s, p) >= 1
    ensures i < |s| && p(s[i])
  {
    if p(s[0]) {
      i := 0;
    } else {
      var j := CountWitness(s[1..], p);
      i := j + 1;
    }
  }

  /** Some interleaving from the start leads to the state. */
  ghost predicate Reachable(s: State) { exists states, actions :: Execution(states, actions) && states[|actions|] == s }

  lemma ReachableInvariant(s: State)
    requires Reachable(s)
    ensures Invariant(s)
  {
    hide Invariant, Enabled, Next;
    var states, actions :| Execution(states, actions) && states[|actions|] == s;
    AlwaysInvariant(states, actions, |actions|);
  }

  /** A pending key has a caller, a queued job or a worker; a key that has one of these is pending. */
  lemma PendingHasJob(s: State, k: Key)
    requires Reachable(s)
    ensures k in s.locked.pending
       <==> || (exists c :: 0 <= c < |s.callers| && CallerHolds(s.callers[c], k))
            || k in s.queue
            || (exists w :: 0 <= w < |s.workers| && WorkerHolds(s.workers[w], k))
  {
    hide Reachable;
    ReachableInvariant(s);
    hide Accounted, CacheExact, Faithful, Ordered;
    assert PendingExactAt(s, k);
    if k in s.locked.pending {
      if CallersHolding(s, k) >= 1 {
        var c := CountWitness(s.callers, CallerHolding(k));
      } else if WorkersHolding(s, k) >= 1 {
        var w := CountWitness(s.workers, WorkerHolding(k));
      }
    }
    if c :| 0 <= c < |s.callers| && CallerHolds(s.callers[c], k) { CountAtLeast(s.callers, CallerHolding(k), c); }
    if w :| 0 <= w < |s.workers| && WorkerHolds(s.workers[w], k) { CountAtLeast(s.workers, WorkerHolding(k), w); }
  }

  /** No key has two outstanding refreshes: one holder excludes every other. */
  lemma OneRefreshPerKey(s: State, k: Key)
    requires Reachable(s)
    ensures forall i, j :: 0 <= i < j < |s.callers| ==> !(CallerHolds(s.callers[i], k) && CallerHolds(s.callers[j], k))
    ensures forall i, j :: 0 <= i < j < |s.workers| ==> !(WorkerHolds(s.workers[i], k) && WorkerHolds(s.workers[j], k))
    ensures forall i, j :: 0 <= i < j < |s.queue| ==> !(s.queue[i] == k && s.queue[j] == k)
    ensures forall c, w :: 0 <= c < |s.callers| && 0 <= w < |s.workers| ==>
              !(CallerHolds(s.callers[c], k) && WorkerHolds(s.workers[w], k))
    ensures forall c :: 0 <= c < |s.callers| ==> !(CallerHolds(s.callers[c], k) && k in s.queue)
    ensures forall w :: 0 <= w < |s.workers| ==> !(WorkerHolds(s.workers[w], k) && k in s.queue)
  {
    hide Reachable;
    ReachableInvariant(s);
    hide Accounted, CacheExact, Faithful, Ordered, Count;
    assert PendingExactAt(s, k);
    forall i, j | 0 <= i < j < |s.callers| ensures !(CallerHolds(s.callers[i], k) && CallerHolds(s.callers[j], k)) {
      if CallerHolds(s.callers[i], k) && CallerHolds(s.callers[j], k) { CountTwo(s.callers, CallerHolding(k), i, j); }
    }
    forall i, j | 0 <= i < j < |s.workers| ensures !(WorkerHolds(s.workers[i], k) && WorkerHolds(s.workers[j], k)) {
      if WorkerHolds(s.workers[i], k) && WorkerHolds(s.workers[j], k) { CountTwo(s.workers, WorkerHolding(k), i, j); }
    }
    forall i, j | 0 <= i < j < |s.queue| ensures !(s.queue[i] == k && s.queue[j] == k) {
      var a, b := s.queue[..j], s.queue[j..];
      assert s.queue == a + b;
      assert a[i] in multiset(a) && b[0] in multiset(b);
    }
    forall c | 0 <= c < |s.callers| ensures CallerHolds(s.callers[c], k) ==> CallersHolding(s, k) >= 1 {
      HolderCounts(s, c, k);
    }
    forall w | 0 <= w < |s.workers| ensures WorkerHolds(s.workers[w], k) ==> WorkersHolding(s, k) >= 1 {
      if WorkerHolds(s.workers[w], k) { CountAtLeast(s.workers, WorkerHolding(k), w); }
    }
    if k in s.queue { assert k in multiset(s.queue); }
  }

  lemma CongruentSmall(a: nat, b: nat)
    requires Congruent(a, b) && a < U64_LIMIT && b < U64_LIMIT
    ensures a == b
  {
  }

  lemma {:induction false} CountBound<T>(s: seq<T>, p: T -> bool)
    ensures Count(s, p) <= |s|
  {
    if s != [] { CountBound(s[1..], p); }
  }

  /** `queued_keys` is exact whenever no caller is between sending and counting; and while the totals stay below the
      counters' width, `queued` is exact too. */
  lemma CountersExact(s: State)
    requires Reachable(s)
    ensures Count(s.callers, IsMidSend()) == 0 ==>
              s.counters.queuedKeys == |s.queue| + Count(s.workers, IsUndecremented())
    ensures var n := s.counters;
            var sent := n.queued + Count(s.callers, IsSent());
            var outcome := n.completed + n.failed + n.rejected + |s.queue| + Count(s.workers, IsBusy());
            sent < U64_LIMIT && outcome < U64_LIMIT ==> sent == outcome
  {
    hide Reachable;
    ReachableInvariant(s);
    hide PendingExact, CacheExact, Faithful, Ordered, Count, Congruent;
    var n := s.counters;
    CountBound(s.workers, IsUndecremented());
    if Count(s.callers, IsMidSend()) == 0 {
      CongruentSmall(n.queuedKeys, |s.queue| + Count(s.workers, IsUndecremented()));
    }
    var sent := n.queued + Count(s.callers, IsSent());
    var outcome := n.completed + n.failed + n.rejected + |s.queue| + Count(s.workers, IsBusy());
    if sent < U64_LIMIT && outcome < U64_LIMIT { CongruentSmall(sent, outcome); }
  }

  /** The step stored an outcome for the key: a failed harvest or a snapshot within the size limit. */
  ghost predicate StoresFor(s: State, a: Action, k: Key) {
    && a.Finish? && Enabled(s, a) && s.workers[a.worker].key == k
    && (a.result.Some? ==> a.result.value.size <= 64 * 1024)
  }

  lemma StoredFrame(s: State, a: Action, k: Key)
    requires Enabled(s, a) && !StoresFor(s, a, k)
    ensures (k in Next(s, a).stored <==> k in s.stored) && (k in s.stored ==> Next(s, a).stored[k] == s.stored[k])
  {
  }

  /** The history map is the run's last stored outcome of each key. */
  lemma {:induction false} LastStore(states: seq<State>, actions: seq<Action>, n: nat, k: Key) returns (m: nat)
    requires Execution(states, actions) && n < |states| && k in states[n].stored
    ensures m < n && StoresFor(states[m], actions[m], k)
    ensures states[n].stored[k] == (actions[m].result, actions[m].at)
    ensures forall j :: m < j < n ==> !StoresFor(states[j], actions[j], k)
  {
    hide Evicts, Evicted, Finished, AnswerFor, Cached, CircuitOpen;
    var s, a := states[n - 1], actions[n - 1];
    assert Enabled(s, a) && states[n - 1 + 1] == Next(s, a);
    if StoresFor(s, a, k) {
      m := n - 1;
    } else {
      StoredFrame(s, a, k);
      m := LastStore(states, actions, n - 1, k);
    }
  }

  /** In every run, a lookup that finds an entry answers by the last stored harvest of that very key: with its context
      if it has one and is up to five seconds old, Fresh up to one second and Stale beyond, else Missing. One that finds
      none answers Missing. The caller goes on to schedule exactly when nothing younger than a second was found. */
  lemma LookupAnswers(states: seq<State>, actions: seq<Action>, n: nat) returns (m: nat)
    requires Execution(states, actions) && n < |actions| && actions[n].Lookup?
    ensures var s, Lookup(c, key, now) := states[n], actions[n];
            var answer := AnswerFor(Cached(s.locked, key), now);
            && (key in s.locked.entries ==>
                  && m < n && StoresFor(states[m], actions[m], key)
                  && (forall j :: m < j < n ==> !StoresFor(states[j], actions[j], key))
                  && Judged(actions[m].result, actions[m].at, now, answer))
            && (key !in s.locked.entries ==> answer == Answer(None, Missing, None, true))
            && c < |states[n + 1].callers| && states[n + 1].callers[c] == if answer.refresh then Deciding(key, now) else Idle
  {
    hide PendingExact, Accounted, Shaped, Ordered, EntryBytes, AnswerFor, Judged, Evicts, Evicted;
    var s, key := states[n], actions[n].key;
    AlwaysInvariant(states, actions, n);
    assert Identity(s.locked, key) == key;
    assert Enabled(s, actions[n]) && states[n + 1] == Next(s, actions[n]);
    m := 0;
    if key in s.locked.entries {
      m := LastStore(states, actions, n, key);
      AnswerJudged(actions[m].result, actions[m].at, actions[n].now);
    } else {
      NothingAnswers(actions[n].now);
    }
  }

  lemma NothingAnswers(now: nat)
    ensures AnswerFor(None, now) == Answer(None, Missing, None, true)
  {
  }

  /** What the cache holds after storing an outcome, against what it held and the new entry. */
  ghost predicate KeepsRecent(before: map<Key, Entry>, kept: map<Key, Entry>) {
    && RecentSuffix(before, kept.Keys) && kept == Restrict(before, kept.Keys)
    && forall keep :: RecentSuffix(before, keep) && Fits(Restrict(before, keep)) ==> keep <= kept.Keys
  }

  lemma StoreKeepsRecent(s: State, a: Action, key: Key)
    requires CacheExact(s) && Ordered(s) && StoresFor(s, a, key) && s.ticks + 1 < U64_LIMIT
    ensures var size := |key| + if a.result.Some? then a.result.value.size else 0;
            var kept := Next(s, a).locked.entries;
            && KeepsRecent(s.locked.entries[key := Entry(a.result, a.at, size, s.ticks + 1)], kept)
            && (key in kept <==> size <= 4 * 1024 * 1024)
  {
    hide EntryBytes, Evicts, Evicted, NextTick, Stored, RecentSuffix, Restrict, Fits;
    var st := s.locked;
    var released := st.(started := st.started[a.worker := None], pending := st.pending - {key});
    var size := if a.result.Some? then a.result.value.size else 0;
    var next := Stored(released, key, a.result, a.at, size);
    StoredExact(released, key, a.result, a.at, size);
    TickAdvances(released, s.ticks);
    StampOrdered(st.entries, st.useCounter, key, next.entries[key]);
    SurvivorsAreLongestRecentSuffix(next, a.victims);
    NewEntrySurvivesIff(next, a.victims, key);
  }

  /** In every run, a finished harvest of a failure or a snapshot within its limit is stored under its key with a new
      tick; it leaves exact bytes within both limits, and (before the recency counter wraps) keeps the longest recent
      suffix that meets them, the new entry among it exactly when it fits alone. */
  lemma FinishKeepsRecent(states: seq<State>, actions: seq<Action>, n: nat, key: Key)
    requires Execution(states, actions) && n < |actions| && StoresFor(states[n], actions[n], key)
    ensures states[n + 1].locked.aliases == map[]
    ensures states[n + 1].locked.bytes == EntryBytes(states[n + 1].locked.entries) && Fits(states[n + 1].locked.entries)
    ensures states[n].ticks + 1 < U64_LIMIT ==>
              var Finish(_, result, at, _) := actions[n];
              var size := |key| + if result.Some? then result.value.size else 0;
              var kept := states[n + 1].locked.entries;
              && KeepsRecent(states[n].locked.entries[key := Entry(result, at, size, states[n].ticks + 1)], kept)
              && (key in kept <==> size <= 4 * 1024 * 1024)
  {
    hide EntryBytes, Evicts, Evicted, PendingExact, Accounted, Faithful, Ordered, KeepsRecent, Next;
    AlwaysInvariant(states, actions, n);
    AlwaysInvariant(states, actions, n + 1);
    assert Enabled(states[n], actions[n]) && states[n + 1] == Next(states[n], actions[n]);
    if states[n].ticks + 1 < U64_LIMIT { StoreKeepsRecent(states[n], actions[n], key); }
  }

  /** Scheduling is refused exactly while both workers have been harvesting for longer than the stuck limit. */
  lemma CircuitOpenIff(s: State, now: nat)
    requires Reachable(s)
    ensures CircuitOpen(s.locked, now)
       <==> forall w :: 0 <= w < WORKERS ==>
              && w < |s.workers| && w < |s.locked.started| && MarkedStarted(s.workers[w])
              && s.locked.started[w].Some? && now > s.locked.started[w].value + 250_000_000
  {
    hide Reachable;
    ReachableInvariant(s);
    hide PendingExact, Accounted, CacheExact, Faithful, Ordered;
    var started: seq<Option<nat>> := s.locked.started;
    var tail := started[1..];
    assert tail == [started[1]] && tail[1..] == [];
    assert StuckCount(tail, now) <= 1;
  }
}
