/** The context cache read back from its history: what a state's ticks, counters and queue say about the run that led
    to it. */
module ContextCacheHistory {
  import opened Wire
  import opened ContextCacheState
  import opened ContextCacheEviction
  import opened ContextCacheProtocol

  // ---------------------------------------------------------------- recency

  /** The step uses the key: looks it up or stores an outcome for it. */
  ghost predicate Uses(s: State, a: Action, k: Key) { (a.Lookup? && a.key == k) || StoresFor(s, a, k) }

  // What a store leaves of the other entries, and of the new one.
  lemma StoredEntries(s: State, a: Action, key: Key)
    requires Invariant(s) && StoresFor(s, a, key)
    ensures forall k :: k in Next(s, a).locked.entries ==>
              if k == key then Next(s, a).locked.entries[k].lastUsed == NextTick(s.locked)
              else k in s.locked.entries && Next(s, a).locked.entries[k] == s.locked.entries[k]
    ensures Next(s, a).ticks == s.ticks + 1
  {
    hide Evicts, Evicted, EntryBytes, Trimmed, Stored, PendingExact, Accounted, Faithful, Ordered;
    var released := s.locked.(started := s.locked.started[a.worker := None], pending := s.locked.pending - {key});
    StoredExact(released, key, a.result, a.at, if a.result.Some? then a.result.value.size else 0);
    var full := Finished(s.locked, a.worker, key, a.result, a.at);
    EvictedExact(full, a.victims);
    TrimmedEntries(full, Evicted(full, a.victims));
  }

  // A step that does not use a key leaves its entry alone, if it leaves it in the cache.
  lemma UnusedKept(s: State, a: Action, k: Key)
    requires Invariant(s) && Enabled(s, a) && !Uses(s, a, k) && k in Next(s, a).locked.entries
    ensures k in s.locked.entries && Next(s, a).locked.entries[k] == s.locked.entries[k]
    ensures s.ticks <= Next(s, a).ticks
  {
    hide Evicts, Evicted, EntryBytes, PendingExact, Accounted, Faithful, Ordered, Stored, CircuitOpen, AnswerFor, Cached;
    if a.Finish? && FinishOf(a.result) != RejectedSize { StoredEntries(s, a, s.workers[a.worker].key); }
  }

  lemma UseStamps(s: State, a: Action, k: Key)
    requires Invariant(s) && Enabled(s, a) && Uses(s, a, k)
    ensures Next(s, a).ticks == s.ticks + 1
    ensures k in Next(s, a).locked.entries ==> Next(s, a).locked.entries[k].lastUsed == (s.ticks + 1) % U64_LIMIT
  {
    hide Evicts, Evicted, EntryBytes, PendingExact, Accounted, Faithful, Stored, AnswerFor, Cached, NextTick;
    TickAdvances(s.locked, s.ticks);
    if !a.Lookup? { StoredEntries(s, a, k); }
  }

  /** In every run an entry's tick is that of the last step that looked its key up or stored an outcome for it. */
  lemma {:induction false} LastUse(states: seq<State>, actions: seq<Action>, n: nat, k: Key) returns (m: nat)
    requires Execution(states, actions) && n < |states| && k in states[n].locked.entries
    ensures m < n && Uses(states[m], actions[m], k) && (forall j :: m < j < n ==> !Uses(states[j], actions[j], k))
    ensures states[n].locked.entries[k].lastUsed == states[m + 1].ticks % U64_LIMIT
    ensures states[m + 1].ticks == states[m].ticks + 1
  {
    hide Enabled, Next, Invariant, Uses;
    var s, a := states[n - 1], actions[n - 1];
    assert Enabled(s, a) && states[n - 1 + 1] == Next(s, a);
    AlwaysInvariant(states, actions, n - 1);
    if Uses(s, a, k) {
      UseStamps(s, a, k);
      m := n - 1;
    } else {
      UnusedKept(s, a, k);
      m := LastUse(states, actions, n - 1, k);
    }
  }

  lemma TicksStep(s: State, a: Action)
    requires Enabled(s, a)
    ensures s.ticks <= Next(s, a).ticks
  {
    hide Evicts, Evicted, Finished, AnswerFor, Cached, CircuitOpen;
  }

  lemma {:induction false} TicksGrow(states: seq<State>, actions: seq<Action>, m: nat, n: nat)
    requires Execution(states, actions) && m <= n < |states|
    ensures states[m].ticks <= states[n].ticks
    decreases n - m
  {
    hide Enabled, Next;
    if m < n {
      TicksGrow(states, actions, m, n - 1);
      assert Enabled(states[n - 1], actions[n - 1]) && states[n - 1 + 1] == Next(states[n - 1], actions[n - 1]);
      TicksStep(states[n - 1], actions[n - 1]);
    }
  }

  lemma OneKeyPerUse(s: State, a: Action, j: Key, k: Key)
    requires Uses(s, a, j) && Uses(s, a, k)
    ensures j == k
  {
  }

  /** So, until the counter wraps, ticks order the entries by their last use: what eviction takes to be older was last
      used earlier. */
  lemma TicksOrderUses(states: seq<State>, actions: seq<Action>, n: nat, j: Key, k: Key) returns (mj: nat, mk: nat)
    requires Execution(states, actions) && n < |states| && states[n].ticks < U64_LIMIT && j != k
    requires j in states[n].locked.entries && k in states[n].locked.entries
    ensures mj < n && Uses(states[mj], actions[mj], j) && (forall i :: mj < i < n ==> !Uses(states[i], actions[i], j))
    ensures mk < n && Uses(states[mk], actions[mk], k) && (forall i :: mk < i < n ==> !Uses(states[i], actions[i], k))
    ensures states[n].locked.entries[j].lastUsed < states[n].locked.entries[k].lastUsed <==> mj < mk
  {
    hide Uses, Enabled, Next;
    mj := LastUse(states, actions, n, j);
    mk := LastUse(states, actions, n, k);
    TicksGrow(states, actions, mj + 1, n);
    TicksGrow(states, actions, mk + 1, n);
    if mj == mk { OneKeyPerUse(states[mj], actions[mj], j, k); }
    if mj < mk { TicksGrow(states, actions, mj + 1, mk); }
    if mk < mj { TicksGrow(states, actions, mk + 1, mj); }
  }

  // ---------------------------------------------------------------- counters

  datatype Counted = Queued | QueueFull | CircuitOpened | HarvestCompleted | HarvestFailed | HarvestRejected

  function Reading(c: Counters, which: Counted): nat {
    match which
    case Queued => c.queued
    case QueueFull => c.queueFull
    case CircuitOpened => c.circuitOpen
    case HarvestCompleted => c.completed
    case HarvestFailed => c.failed
    case HarvestRejected => c.rejected
  }

  /** What each counter is for. */
  ghost predicate Counts(which: Counted, s: State, a: Action) {
    match which
    case Queued => a.CountQueued?
    case QueueFull => a.CountQueueFull?
    case CircuitOpened => a.Schedule? && Enabled(s, a) && CircuitOpen(s.locked, s.callers[a.caller].now)
    case HarvestCompleted => a.Finish? && a.result.Some? && a.result.value.size <= 64 * 1024
    case HarvestFailed => a.Finish? && a.result.None?
    case HarvestRejected => a.Finish? && a.result.Some? && a.result.value.size > 64 * 1024
  }

  ghost function Tally(which: Counted, states: seq<State>, actions: seq<Action>, n: nat): nat
    requires n <= |actions| && n <= |states|
  {
    if n == 0 then 0
    else Tally(which, states, actions, n - 1) + if Counts(which, states[n - 1], actions[n - 1]) then 1 else 0
  }

  lemma CountStep(which: Counted, s: State, a: Action)
    requires Enabled(s, a)
    ensures Reading(Next(s, a).counters, which)
         == if Counts(which, s, a) then (Reading(s.counters, which) + 1) % U64_LIMIT else Reading(s.counters, which)
  {
    hide Evicts, Evicted, Finished, AnswerFor, Cached, CircuitOpen, Touch;
  }

  lemma ModStep(t: nat)
    ensures (t % U64_LIMIT + 1) % U64_LIMIT == (t + 1) % U64_LIMIT
  {
  }

  /** In every run each counter is the number of events it is for, modulo its width. */
  lemma {:induction false} CountersTell(which: Counted, states: seq<State>, actions: seq<Action>, n: nat)
    requires Execution(states, actions) && n < |states|
    ensures Reading(states[n].counters, which) == Tally(which, states, actions, n) % U64_LIMIT
  {
    hide Enabled, Next, Counts;
    if n > 0 {
      CountersTell(which, states, actions, n - 1);
      assert Enabled(states[n - 1], actions[n - 1]) && states[n - 1 + 1] == Next(states[n - 1], actions[n - 1]);
      CountStep(which, states[n - 1], actions[n - 1]);
      ModStep(Tally(which, states, actions, n - 1));
    }
  }

  // ---------------------------------------------------------------- start marks

  /** The step begins or ends a job of the worker. */
  predicate Marks(a: Action, w: nat) { (a.Begin? || a.Finish?) && a.worker == w }

  lemma MarkStep(s: State, a: Action, w: nat)
    requires Enabled(s, a) && w < |s.locked.started|
    ensures var t := Next(s, a);
            && |t.locked.started| == |s.locked.started|
            && t.locked.started[w] == if a.Begin? && a.worker == w then Some(a.now)
                                      else if a.Finish? && a.worker == w then None else s.locked.started[w]
  {
    hide Evicts, Evicted, Finished, AnswerFor, Cached, CircuitOpen;
    if a.Finish? { FinishPending(s, a); }
  }

  /** In every run a worker's start mark is the instant of its last begin, if it has not finished since: together with
      the condition for refusing to schedule, both workers began more than a quarter of a second ago. */
  lemma {:induction false} LastBegin(states: seq<State>, actions: seq<Action>, n: nat, w: nat) returns (m: nat)
    requires Execution(states, actions) && n < |states| && w < |states[n].locked.started| && states[n].locked.started[w].Some?
    ensures m < n && actions[m].Begin? && actions[m].worker == w && (forall j :: m < j < n ==> !Marks(actions[j], w))
    ensures states[n].locked.started[w] == Some(actions[m].now)
  {
    hide Enabled, Next, Invariant;
    var s, a := states[n - 1], actions[n - 1];
    assert Enabled(s, a) && states[n - 1 + 1] == Next(s, a);
    AlwaysInvariant(states, actions, n - 1);
    AlwaysInvariant(states, actions, n);
    TwoMarks(s);
    TwoMarks(states[n]);
    MarkStep(s, a, w);
    if Marks(a, w) {
      m := n - 1;
    } else {
      m := LastBegin(states, actions, n - 1, w);
    }
  }

  lemma TwoMarks(s: State)
    requires Invariant(s)
    ensures |s.locked.started| == 2
  {
  }

  // ---------------------------------------------------------------- scheduling and the queue

  /** In every run scheduling reserves the key exactly when it is not pending and not both workers are stuck; sending
      puts the reserved key at the end of the queue exactly when fewer than 32 jobs wait. */
  lemma ScheduleAndSend(states: seq<State>, actions: seq<Action>, n: nat)
    requires Execution(states, actions) && n < |actions|
    ensures actions[n].Schedule? ==>
              var s, t, c := states[n], states[n + 1], actions[n].caller;
              && c < |s.callers| && c < |t.callers| && s.callers[c].Deciding?
              && var Deciding(key, now) := s.callers[c];
                 t.callers[c] == if key !in s.locked.pending && !CircuitOpen(s.locked, now) then Holding(key) else Idle
    ensures actions[n].Send? ==>
              var s, t, c := states[n], states[n + 1], actions[n].caller;
              && c < |s.callers| && c < |t.callers| && s.callers[c].Holding?
              && (if |s.queue| < 32 then t.callers[c] == Sent && t.queue == s.queue + [s.callers[c].key]
                  else t.callers[c] == Refused(s.callers[c].key) && t.queue == s.queue)
  {
    hide Evicts, Evicted, Finished, AnswerFor, Cached, CircuitOpen, Touch;
    assert Enabled(states[n], actions[n]) && states[n + 1] == Next(states[n], actions[n]);
  }

  ghost function SentKeys(states: seq<State>, actions: seq<Action>, n: nat): seq<Key>
    requires n <= |actions| && n <= |states|
  {
    if n == 0 then []
    else
      var s, a := states[n - 1], actions[n - 1];
      SentKeys(states, actions, n - 1)
      + if a.Send? && a.caller < |s.callers| && s.callers[a.caller].Holding? && |s.queue| < 32 then [s.callers[a.caller].key] else []
  }

  /** The keys that workers have taken up. */
  ghost function ReceivedKeys(states: seq<State>, actions: seq<Action>, n: nat): seq<Key>
    requires n <= |actions| && n < |states|
  {
    if n == 0 then []
    else
      var t, a := states[n], actions[n - 1];
      ReceivedKeys(states, actions, n - 1)
      + if a.Receive? && a.worker < |t.workers| && t.workers[a.worker].Received? then [t.workers[a.worker].key] else []
  }

  lemma QueueStep(s: State, a: Action)
    requires Enabled(s, a)
    ensures var t := Next(s, a);
            && (a.Receive? ==> s.queue != [] && t.queue == s.queue[1..]
                               && a.worker < |t.workers| && t.workers[a.worker] == Received(s.queue[0]))
            && (!a.Receive? && !a.Send? ==> t.queue == s.queue)
            && (a.Send? ==> a.caller < |s.callers| && s.callers[a.caller].Holding?
                            && t.queue == s.queue + if |s.queue| < 32 then [s.callers[a.caller].key] else [])
  {
    hide Evicts, Evicted, Finished, AnswerFor, Cached, CircuitOpen, Touch;
  }

  /** In every run jobs are taken up in the order in which they were sent: what was sent is what was taken up followed
      by what waits. */
  lemma {:induction false} QueueIsFifo(states: seq<State>, actions: seq<Action>, n: nat)
    requires Execution(states, actions) && n < |states|
    ensures SentKeys(states, actions, n) == ReceivedKeys(states, actions, n) + states[n].queue
  {
    hide Next, Enabled;
    if n > 0 {
      var s, a := states[n - 1], actions[n - 1];
      QueueIsFifo(states, actions, n - 1);
      assert Enabled(s, a) && states[n - 1 + 1] == Next(s, a);
      QueueStep(s, a);
      if a.Receive? { assert s.queue == [s.queue[0]] + s.queue[1..]; }
    } else {
      NothingQueued(|states[0].callers|);
    }
  }

  lemma NothingQueued(callers: nat)
    ensures Initial(callers).queue == []
  {
  }
}
