/** Progress of the context cache: once lookups stop, outstanding refreshes drain in a bounded number of steps, in
    whatever order the callers and workers take them. */
module ContextCacheProgress {
  import opened Wire
  import opened ContextCacheState
  import opened ContextCacheProtocol

  /** An upper bound on the steps a caller, and what it sends, still causes. */
  function CallerWork(c: Caller): nat {
    match c
    case Idle => 0
    case Deciding(_, _) => 8
    case Holding(_) => 7
    case Sent => 2
    case Counted => 1
    case Refused(_) => 2
    case Released => 1
  }

  function WorkerWork(w: Worker): nat {
    match w
    case Waiting => 0
    case Received(_) => 3
    case Started(_) => 2
    case Harvesting(_) => 1
  }

  function Sum<T>(s: seq<T>, f: T -> nat): nat { if s == [] then 0 else f(s[0]) + Sum(s[1..], f) }

  lemma {:induction false} SumUpdate<T>(s: seq<T>, i: nat, x: T, f: T -> nat)
    requires i < |s|
    ensures Sum(s[i := x], f) + f(s[i]) == Sum(s, f) + f(x)
  {
    if i == 0 {
      assert s[i := x][1..] == s[1..];
    } else {
      assert s[i := x][1..] == s[1..][i - 1 := x];
      SumUpdate(s[1..], i - 1, x, f);
    }
  }

  lemma {:induction false} SumWitness<T>(s: seq<T>, f: T -> nat) returns (i: nat)
    requires Sum(s, f) > 0
    ensures i < |s| && f(s[i]) > 0
  {
    if f(s[0]) > 0 {
      i := 0;
    } else {
      var j := SumWitness(s[1..], f);
      i := j + 1;
    }
  }

  lemma {:induction false} SumBound<T>(s: seq<T>, f: T -> nat, most: nat)
    requires forall x :: f(x) <= most
    ensures Sum(s, f) <= most * |s|
  {
    if s != [] { SumBound(s[1..], f, most); }
  }

  /** The work outstanding in a state. */
  function Work(s: State): nat { Sum(s.callers, CallerWork) + 4 * |s.queue| + Sum(s.workers, WorkerWork) }

  /** Every step but a lookup does some of the outstanding work. */
  lemma StepDoesWork(s: State, a: Action)
    requires Enabled(s, a) && !a.Lookup?
    ensures Work(Next(s, a)) < Work(s)
  {
    hide Sum, CircuitOpen, Evicts, Evicted, Finished;
    var t := Next(s, a);
    if IsWorkerStep(a) {
      SumUpdate(s.workers, a.worker, t.workers[a.worker], WorkerWork);
    } else {
      SumUpdate(s.callers, a.caller, t.callers[a.caller], CallerWork);
    }
  }

  /** Without lookups a run does some work with every step, so it takes at most as many steps as there is work. */
  lemma {:induction false} WorkRunsOut(states: seq<State>, actions: seq<Action>, m: nat, n: nat)
    requires Execution(states, actions) && m <= n < |states|
    requires forall i :: m <= i < n ==> !actions[i].Lookup?
    ensures Work(states[n]) + (n - m) <= Work(states[m])
    decreases n - m
  {
    hide Work, Enabled, Next;
    if m < n {
      WorkRunsOut(states, actions, m, n - 1);
      assert Enabled(states[n - 1], actions[n - 1]) && states[n - 1 + 1] == Next(states[n - 1], actions[n - 1]);
      StepDoesWork(states[n - 1], actions[n - 1]);
    }
  }

  lemma WorkBound(s: State)
    requires Shaped(s)
    ensures Work(s) <= 8 * |s.callers| + 4 * QUEUE_CAPACITY + 3 * WORKERS
  {
    SumBound(s.callers, CallerWork, 8);
    SumBound(s.workers, WorkerWork, 3);
  }

  // ---------------------------------------------------------------- nobody is ever stuck

  lemma {:induction false} OldestExists(entries: map<Key, Entry>) returns (k: Key)
    requires entries != map[]
    ensures IsOldest(entries, k)
    decreases entries.Keys
  {
    k :| k in entries;
    var rest := entries - {k};
    assert forall x :: x in entries && x != k ==> x in rest && entries[x] == rest[x];
    if rest != map[] {
      var j := OldestExists(rest);
      if entries[j].lastUsed < entries[k].lastUsed { k := j; }
    }
  }

  /** Eviction can always be carried through. */
  lemma {:induction false} EvictionExists(st: Locked) returns (victims: seq<Key>)
    ensures Evicts(st, victims)
    decreases st.entries.Keys
  {
    victims := [];
    if OverLimits(st) && st.entries != map[] {
      var k := OldestExists(st.entries);
      var rest := EvictionExists(EvictOne(st, k));
      victims := [k] + rest;
      assert victims[1..] == rest;
    }
  }

  /** A busy worker can take its next step. */
  lemma WorkerCanStep(s: State, w: nat) returns (a: Action)
    requires Shaped(s) && w < |s.workers| && !s.workers[w].Waiting?
    ensures Enabled(s, a) && !a.Lookup?
  {
    hide Evicts, Evicted;
    match s.workers[w] {
      case Received(_) => a := Begin(w, 0);
      case Started(_) => a := CountDequeued(w);
      case Harvesting(key) =>
        var victims := EvictionExists(Finished(s.locked, w, key, None, 0));
        a := Finish(w, None, 0, victims);
    }
  }

  lemma CallerCanStep(s: State, c: nat) returns (a: Action)
    requires c < |s.callers| && !s.callers[c].Idle?
    ensures Enabled(s, a) && !a.Lookup?
  {
    hide Evicts, Finished;
    match s.callers[c] {
      case Deciding(_, _) => a := Schedule(c);
      case Holding(_) => a := Send(c);
      case Sent => a := CountQueued(c);
      case Counted => a := CountQueuedKey(c);
      case Refused(_) => a := Unreserve(c);
      case Released => a := CountQueueFull(c);
    }
  }

  /** While there is work, somebody can do some of it: no reachable state is stuck with a refresh outstanding. */
  lemma SomebodyCanStep(s: State) returns (a: Action)
    requires Shaped(s) && Work(s) > 0
    ensures Enabled(s, a) && !a.Lookup?
  {
    hide Enabled, Sum;
    if Sum(s.callers, CallerWork) > 0 {
      var c := SumWitness(s.callers, CallerWork);
      a := CallerCanStep(s, c);
    } else if Sum(s.workers, WorkerWork) > 0 {
      var w := SumWitness(s.workers, WorkerWork);
      a := WorkerCanStep(s, w);
    } else {
      if !s.workers[0].Waiting? { BusyIsWork(s, 0); }
      a := Receive(0);
      ReceiveEnabled(s);
    }
  }

  lemma ReceiveEnabled(s: State)
    requires |s.workers| > 0 && s.workers[0].Waiting? && s.queue != []
    ensures Enabled(s, Receive(0))
  {
  }

  // A busy worker counts as work.
  lemma BusyIsWork(s: State, w: nat)
    requires w < |s.workers| && !s.workers[w].Waiting?
    ensures Sum(s.workers, WorkerWork) > 0
  {
    SumUpdate(s.workers, w, Waiting, WorkerWork);
  }

  lemma BusyCallerIsWork(s: State, c: nat)
    requires c < |s.callers| && !s.callers[c].Idle?
    ensures Sum(s.callers, CallerWork) > 0
  {
    SumUpdate(s.callers, c, Idle, CallerWork);
  }

  lemma InvariantIsShaped(s: State)
    requires Invariant(s)
    ensures Shaped(s)
  {
  }

  /** A reachable state without work has no refresh outstanding. */
  lemma NoWorkNothingPending(s: State)
    requires Reachable(s) && Work(s) == 0
    ensures s.queue == [] && s.locked.pending == {}
    ensures forall c :: 0 <= c < |s.callers| ==> s.callers[c].Idle?
    ensures forall w :: 0 <= w < |s.workers| ==> s.workers[w].Waiting?
  {
    hide Reachable, Sum;
    forall c | 0 <= c < |s.callers| ensures s.callers[c].Idle? {
      if !s.callers[c].Idle? { BusyCallerIsWork(s, c); }
    }
    forall w | 0 <= w < |s.workers| ensures s.workers[w].Waiting? {
      if !s.workers[w].Waiting? { BusyIsWork(s, w); }
    }
    forall k ensures k !in s.locked.pending { PendingHasJob(s, k); }
  }

  /** Once lookups stop, outstanding refreshes drain: every lookup-free continuation of a run ends within a bounded
      number of steps, and where it cannot be continued nothing is pending, queued or under way. */
  lemma RefreshesDrain(states: seq<State>, actions: seq<Action>, m: nat, n: nat)
    requires Execution(states, actions) && m <= n == |actions|
    requires forall i :: m <= i < n ==> !actions[i].Lookup?
    ensures n - m <= 8 * |states[m].callers| + 4 * QUEUE_CAPACITY + 3 * WORKERS
    ensures (forall a :: Enabled(states[n], a) ==> a.Lookup?) ==>
              && states[n].queue == [] && states[n].locked.pending == {}
              && (forall w :: 0 <= w < |states[n].workers| ==> states[n].workers[w].Waiting?)
  {
    hide Enabled, Next, Work, Invariant, Shaped;
    WorkRunsOut(states, actions, m, n);
    AlwaysInvariant(states, actions, m);
    InvariantIsShaped(states[m]);
    WorkBound(states[m]);
    AlwaysInvariant(states, actions, n);
    InvariantIsShaped(states[n]);
    if Work(states[n]) > 0 {
      var a := SomebodyCanStep(states[n]);
    } else {
      assert Reachable(states[n]);
      NoWorkNothingPending(states[n]);
    }
  }
}
