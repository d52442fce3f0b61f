/** What an exception at an unlucky point does to a campaign: the three guarantees it can break, each with the exact
    window, over whole runs. */
module CampaignInterrupts {
  import opened Wire
  import opened CampaignLedger

  // ---------------------------------------------------------------- resumability

  /** Steps that replace the ledger on file, recovery aside. */
  predicate Writes(w: World, a: Action) {
    a.Conclude? || a.Quit? || (a.Begin? && w.session.Between? && Reserved(w.session.ledger, a.input).Some?)
  }

  /** The step closes an attempt whose evidence an exception kept from being complete. */
  predicate CutsEvidence(w: World, a: Action)
    requires Enabled(w, a)
  {
    a.Conclude? && Unevidenced(w.session.ledger, LastAttempt(w.session.ledger), a.outcome)
  }

  /** The last of the first `n` steps that wrote the file was such a step. */
  ghost predicate CutLast(worlds: seq<World>, actions: seq<Action>, n: nat)
    requires Run(worlds, actions) && n <= |actions|
  {
    n > 0 &&
    if Writes(worlds[n - 1], actions[n - 1]) then CutsEvidence(worlds[n - 1], actions[n - 1])
    else CutLast(worlds, actions, n - 1)
  }

  lemma ResumableStep(w: World, a: Action)
    requires Enabled(w, a) && WorldSound(w) && Step(w, a).disk.Some?
    ensures Writes(w, a) ==> (ValidLedger(Step(w, a).disk.value) <==> !CutsEvidence(w, a))
    ensures !Writes(w, a) ==> w.disk.Some? && (ValidLedger(Step(w, a).disk.value) <==> ValidLedger(w.disk.value))
  {
    hide ValidLedger, Sound, Evidenced, Reserved, Concluded, Recovered, Unevidenced;
    match a {
      case Resume =>
        ValidIffEvidenced(w.disk.value);
        if ValidLedger(w.disk.value) {
          RecoveredSound(w.disk.value);
          ValidIffEvidenced(Recovered(w.disk.value).value);
        }
      case Begin(input) =>
        DecisionMeansMissing(w.session.ledger);
        if Reserved(w.session.ledger, input).Some? {
          ReservedSound(w.session.ledger, input);
          ValidIffEvidenced(Reserved(w.session.ledger, input).value);
        }
      case Conclude(o) => ConcludedValidIff(w.session.ledger, o);
      case Quit => ValidIffEvidenced(w.session.ledger);
      case Open(_, _) =>
      case Crash =>
    }
  }

  /** In every run the ledger on file, mid-attempt and after crash and recovery too, passes its own resume checks
      exactly unless the last write closed an attempt whose evidence an exception kept from being complete. */
  lemma {:induction false} ResumableIff(worlds: seq<World>, actions: seq<Action>, n: nat)
    requires Run(worlds, actions) && n < |worlds| && worlds[n].disk.Some?
    ensures ValidLedger(worlds[n].disk.value) <==> !CutLast(worlds, actions, n)
  {
    hide ValidLedger, Enabled, Step, Writes, WorldSound, CutsEvidence;
    var w, a := worlds[n - 1], actions[n - 1];
    AlwaysSound(worlds, actions, n - 1);
    assert Enabled(w, a) && worlds[n - 1 + 1] == Step(w, a);
    ResumableStep(w, a);
    if !Writes(w, a) { ResumableIff(worlds, actions, n - 1); }
  }

  /** Such a step strands the campaign: the ledger it leaves is refused by every resume. */
  lemma InterruptionStrands(w: World, a: Action)
    requires WorldSound(w) && Enabled(w, a) && CutsEvidence(w, a)
    ensures var after := Step(w, a);
            && after.session == Off && after.disk.Some? && !ValidLedger(after.disk.value)
            && Step(after, Resume) == after
  {
    hide ValidLedger, Concluded, Sound, Evidenced, Recovered, Unevidenced, Returns;
    ConcludedValidIff(w.session.ledger, a.outcome);
    if Returns(a.outcome) { ReturnsEvidenced(w.session.ledger, LastAttempt(w.session.ledger), a.outcome); }
  }

  // ---------------------------------------------------------------- source comparison

  /** Every passed attempt ended with the controller finding the source unchanged. */
  ghost predicate SourceVerified(l: Ledger) {
    forall i :: 0 <= i < |l.attempts| && l.attempts[i].verdict == Some(Passed) ==> l.attempts[i].sourceChecked == Some(true)
  }

  /** The exception fell after a passed verdict was taken over and before the comparison of the sources had its effect:
      before it was recorded, or, where the sources differ, before the verdict was overwritten. */
  predicate Unverified(l: Ledger, a: Attempt, o: Outcome) {
    var k, p := Tried(l, a, o), o.process;
    && Handled(l, a, o) == 0 && p.report.Some? && p.report.value.verdict == Passed
    && (k == 3 || (k == 4 && !SourceUnchanged(a, p.report.value, p.after)))
  }

  // Having made its first four stores and no more, the try block found the source unchanged or was cut off.
  lemma AssessedPasses(l: Ledger, a: Attempt, o: Outcome)
    requires Untouched(a)
    ensures var b := Assessed(l, a, o);
            b.verdict == Some(Passed) && b.sourceChecked != Some(true) <==> Unverified(l, a, o)
  {
    hide Assessed, Tried, Handled, SourceUnchanged;
    AssessedFields(l, a, o);
  }

  // Passed attempts are the same, but for a last one that is new to pass.
  lemma SameVerified(l: Ledger, r: Ledger, n: nat)
    requires n <= |l.attempts| <= n + 1 && n <= |r.attempts| <= n + 1
    requires forall i :: 0 <= i < n ==> r.attempts[i] == l.attempts[i]
    requires |l.attempts| > n ==> l.attempts[n].verdict != Some(Passed)
    ensures SourceVerified(r) <==>
              (SourceVerified(l)
               && (|r.attempts| > n && r.attempts[n].verdict == Some(Passed) ==> r.attempts[n].sourceChecked == Some(true)))
  {
    if SourceVerified(r) {
      forall i | 0 <= i < |l.attempts| && l.attempts[i].verdict == Some(Passed)
        ensures l.attempts[i].sourceChecked == Some(true)
      {
        assert r.attempts[i] == l.attempts[i];
      }
    }
  }

  /** The end of an attempt keeps every passed attempt verified, except exactly in that window: the attempt then counts
      as passed, unchecked or against its own comparison. */
  lemma ConcludedVerifiedIff(l: Ledger, o: Outcome)
    requires Sound(l) && l.phase == Running
    ensures SourceVerified(Concluded(l, o)) <==> SourceVerified(l) && !Unverified(l, LastAttempt(l), o)
  {
    hide Sound, Concluded, Assessed, Unverified, SourceVerified;
    RunningIsUnderWay(l);
    ConcludedSound(l, o);
    AssessedPasses(l, LastAttempt(l), o);
    SameVerified(l, Concluded(l, o), |l.attempts| - 1);
  }

  lemma ReservedVerified(l: Ledger, input: Input)
    requires Reserved(l, input).Some?
    ensures SourceVerified(Reserved(l, input).value) <==> SourceVerified(l)
  {
    hide ValidLedger, SourceVerified;
    var r := Reserved(l, input).value;
    assert r.attempts[..|l.attempts|] == l.attempts;
    SameVerified(l, r, |l.attempts|);
  }

  lemma RecoveredVerified(l: Ledger)
    requires Sound(l) && Recovered(l).Some?
    ensures SourceVerified(Recovered(l).value) <==> SourceVerified(l)
  {
    hide SourceVerified, Coverage, DistinctRuns;
    if l.phase == Running { SameVerified(l, Recovered(l).value, |l.attempts| - 1); }
  }

  // ---------------------------------------------------------------- history

  /** Each transition starts where the one before it ended; the first starts at Prepare. */
  ghost predicate Linked(history: seq<Transition>) {
    && (history != [] ==> history[0].from == Prepare)
    && forall i, j :: 0 <= i < j < |history| && j == i + 1 ==> history[j].from == history[i].to
  }

  // A further transition links exactly when it starts where the history ended.
  lemma LinkedAppend(history: seq<Transition>, t: Transition)
    ensures Linked(history + [t])
       <==> Linked(history) && t.from == if history == [] then Prepare else history[|history| - 1].to
  {
    var h := history + [t];
    assert h[|h| - 1] == t && forall i :: 0 <= i < |history| ==> h[i] == history[i];
    if Linked(h) {
      forall i, j | 0 <= i < j < |history| && j == i + 1 ensures history[j].from == history[i].to {
        assert h[j].from == h[i].to;
      }
      if history != [] { assert h[|history|].from == h[|history| - 1].to; }
    }
  }

  lemma MoveLinked(l: Ledger, to: Phase)
    requires Logged(l)
    ensures Linked(Move(l, to).history) <==> Linked(l.history)
    ensures Logged(Move(l, to))
  {
    LinkedAppend(l.history, Transition(l.phase, to));
  }

  lemma DecidedLinked(l: Ledger)
    requires l.attempts != [] && Logged(l)
    ensures Linked(Decided(l).history) <==> Linked(l.history)
  {
    hide Missing, Linked;
    MoveLinked(l, Decided(l).phase);
  }

  /** The end of an attempt keeps the history a connected chain, except exactly when an exception falls between the
      phase and its record. */
  lemma ConcludedLinkedIff(l: Ledger, o: Outcome)
    requires Sound(l) && l.phase == Running
    ensures Linked(Concluded(l, o).history) <==> Linked(l.history) && !Torn(o)
  {
    hide Assessed, Decided, Linked, Coverage, Consistent, Attempts;
    RunningIsUnderWay(l);
    var a := Assessed(l, LastAttempt(l), o);
    var b0 := Observed(l, o).(attempts := l.attempts[|l.attempts| - 1 := a]);
    var b1 := Move(b0, Assess);
    if Torn(o) { LinkedAppend(l.history, Transition(Observe, Assess)); } else { MoveLinked(l, Observe); MoveLinked(b0, Assess); }
    MoveLinked(b1, Cleanup);
    MoveLinked(Move(b1, Cleanup), Decide);
    DecidedLinked(Move(Move(b1, Cleanup), Decide));
  }

  lemma InspectedLinked(l: Ledger, observed: Fingerprint)
    requires Logged(l)
    ensures Logged(Inspected(l, observed)) && (Linked(Inspected(l, observed).history) <==> Linked(l.history))
  {
    hide Linked;
    var v := if l.phase in {Prepare, Repair, Blocked} then Move(l, Verify) else l;
    MoveLinked(l, Verify);
    MoveLinked(v, Verify);
  }

  lemma ReservedLinked(l: Ledger, input: Input)
    requires Logged(l) && Reserved(l, input).Some?
    ensures Linked(Reserved(l, input).value.history) <==> Linked(l.history)
  {
    hide Linked, Inspected, ValidLedger, ExpectedSuite;
    InspectedLinked(l, input.observed);
    var c := Inspected(l, input.observed);
    MoveLinked(c, Reserve);
    MoveLinked(Move(c, Reserve), Running);
  }

  lemma RecoveredLinked(l: Ledger)
    requires Logged(l) && Recovered(l).Some?
    ensures Linked(Recovered(l).value.history) <==> Linked(l.history)
  {
    hide Linked;
    MoveLinked(l, Repair);
  }

  // ---------------------------------------------------------------- the two marks over whole runs

  /** The guarantees that, once broken, stay broken for the campaign. */
  datatype Guarantee = Chain | Comparison

  ghost predicate Holds(g: Guarantee, l: Ledger) {
    match g
    case Chain => Linked(l.history)
    case Comparison => SourceVerified(l)
  }

  /** The step closes an attempt in the guarantee's window. */
  predicate Breaks(g: Guarantee, w: World, a: Action)
    requires Enabled(w, a)
  {
    a.Conclude? &&
    match g
    case Chain => Torn(a.outcome)
    case Comparison => Unverified(w.session.ledger, LastAttempt(w.session.ledger), a.outcome)
  }

  /** Whether the campaign on file, and the one in memory, has had a step that breaks the guarantee. */
  datatype Marks = Marks(disk: bool, session: bool)

  ghost function MarksAfter(g: Guarantee, worlds: seq<World>, actions: seq<Action>, n: nat): Marks
    requires Run(worlds, actions) && n <= |actions|
  {
    if n == 0 then Marks(false, false)
    else
      var w, a, m := worlds[n - 1], actions[n - 1], MarksAfter(g, worlds, actions, n - 1);
      if a.Open? then m.(session := false)
      else if a.Resume? then m.(session := m.disk)
      else if Breaks(g, w, a) then Marks(true, true)
      else if Writes(w, a) then m.(disk := m.session)
      else m
  }

  ghost predicate MarksTold(g: Guarantee, w: World, m: Marks) {
    && (w.disk.Some? ==> (Holds(g, w.disk.value) <==> !m.disk))
    && (!w.session.Off? ==> (Holds(g, w.session.ledger) <==> !m.session))
  }

  lemma SoundIsLogged(l: Ledger)
    requires Sound(l)
    ensures Logged(l)
  {
  }

  lemma HoldsStep(g: Guarantee, w: World, a: Action)
    requires Enabled(w, a) && WorldSound(w)
    ensures a.Resume? && Recovered(w.disk.value).Some? ==> (Holds(g, Recovered(w.disk.value).value) <==> Holds(g, w.disk.value))
    ensures a.Begin? && Reserved(w.session.ledger, a.input).Some? ==>
              (Holds(g, Reserved(w.session.ledger, a.input).value) <==> Holds(g, w.session.ledger))
    ensures a.Conclude? ==>
              (Holds(g, Concluded(w.session.ledger, a.outcome)) <==> Holds(g, w.session.ledger) && !Breaks(g, w, a))
    ensures a.Open? ==> Holds(g, NewLedger(a.campaignId, a.performanceKind))
  {
    hide Linked, Logged, Sound, Evidenced, ValidLedger, Reserved, Concluded, Recovered, Torn, SourceVerified, Unverified;
    match a {
      case Resume =>
        SoundIsLogged(w.disk.value);
        if Recovered(w.disk.value).Some? { RecoveredLinked(w.disk.value); RecoveredVerified(w.disk.value); }
      case Begin(input) =>
        SoundIsLogged(w.session.ledger);
        if Reserved(w.session.ledger, input).Some? {
          ReservedLinked(w.session.ledger, input);
          ReservedVerified(w.session.ledger, input);
        }
      case Conclude(o) => ConcludedLinkedIff(w.session.ledger, o); ConcludedVerifiedIff(w.session.ledger, o);
      case Open(id, kind) => NewLedgerHolds(id, kind);
      case _ =>
    }
  }

  lemma NewLedgerHolds(id: string, kind: bool)
    ensures Linked(NewLedger(id, kind).history) && SourceVerified(NewLedger(id, kind))
  {
  }

  /** In every run a ledger's history, on file or in memory, is a connected chain exactly unless its campaign has had an
      exception between a phase and its record; and every passed attempt was found on an unchanged source exactly unless
      its campaign has had an exception between a passed verdict and the effect of the comparison. */
  lemma {:induction false} HoldsIff(g: Guarantee, worlds: seq<World>, actions: seq<Action>, n: nat)
    requires Run(worlds, actions) && n < |worlds|
    ensures MarksTold(g, worlds[n], MarksAfter(g, worlds, actions, n))
  {
    hide Holds, Torn, Unverified, Sound, Evidenced, ValidLedger, Reserved, Concluded, Recovered, NewLedger;
    if n > 0 {
      HoldsIff(g, worlds, actions, n - 1);
      AlwaysSound(worlds, actions, n - 1);
      assert Enabled(worlds[n - 1], actions[n - 1]) && worlds[n - 1 + 1] == Step(worlds[n - 1], actions[n - 1]);
      HoldsStep(g, worlds[n - 1], actions[n - 1]);
    }
  }

  /** A complete campaign without such an exception has, for every required suite, a passed attempt on the current
      candidate whose source the controller found unchanged at its end. */
  lemma CompleteMeansVerified(worlds: seq<World>, actions: seq<Action>, n: nat, suite: Suite)
    requires Run(worlds, actions) && n < |worlds| && !MarksAfter(Comparison, worlds, actions, n).disk
    requires worlds[n].disk.Some? && worlds[n].disk.value.decision == Completed
    ensures exists i :: CoveredBy(worlds[n].disk.value, suite, i) && worlds[n].disk.value.attempts[i].sourceChecked == Some(true)
  {
    hide Run, MarksAfter;
    var l := worlds[n].disk.value;
    AlwaysSound(worlds, actions, n);
    HoldsIff(Comparison, worlds, actions, n);
    CompleteMeansCovered(l, suite);
    var i :| CoveredBy(l, suite, i);
    assert SourceVerified(l);
  }

  // ---------------------------------------------------------------- runs that end in each window

  const FIRST_INPUT := Input(7, None, None, "run-1", true)
  const FIRST_ATTEMPT := Attempt(1, "run-1", Regression, 7, None, false, None, None, None)
  const PASSING := Process(false, 0, Some(Report("c", "run-1", 1, Regression, Passed, 7, Some(7), 0, 0)), 7)

  lemma FirstReservation()
    ensures var r := Reserved(NewLedger("c", true), FIRST_INPUT);
            && r.Some? && r.value.attempts == [FIRST_ATTEMPT] && r.value.obtained == []
            && r.value.campaignId == "c" && r.value.phase == Running
  {
    var l := NewLedger("c", true);
    NewLedgerSound("c", true);
    ValidIffEvidenced(l);
    hide ValidLedger;
    InspectedFacts(l, FIRST_INPUT.observed);
  }

  /** Open a campaign, reserve its first attempt, and let it end as given. */
  lemma FirstRun(o: Outcome) returns (worlds: seq<World>, actions: seq<Action>)
    ensures Run(worlds, actions) && actions == [Open("c", true), Begin(FIRST_INPUT), Conclude(o)]
    ensures |worlds| == 4 && worlds[2].session.Inside? && WorldSound(worlds[2])
    ensures var l := worlds[2].session.ledger;
            && l.attempts == [FIRST_ATTEMPT] && l.obtained == [] && l.campaignId == "c" && l.phase == Running
            && worlds[3].disk == Some(Concluded(l, o))
  {
    hide Reserved, Concluded, ValidLedger, Sound, Evidenced;
    var open, begin, end := Open("c", true), Begin(FIRST_INPUT), Conclude(o);
    FirstReservation();
    var w0 := World(None, Off);
    var w1 := Step(w0, open);
    var w2 := Step(w1, begin);
    worlds, actions := [w0, w1, w2, Step(w2, end)], [open, begin, end];
    AlwaysSound(worlds, actions, 2);
  }

  const CUT_EARLY := Outcome(PASSING, Interrupted(0))
  const CUT_DIGEST := Outcome(PASSING, Interrupted(3))
  const CUT_HANDLER := Outcome(PASSING.(exitCode := 9), InHandler(4, 3, Other))

  /** Runs that strand a campaign: interrupted before the report, between the report and its digest, and in the handler
      between its own record and that record's digest. */
  lemma StrandedRun(o: Outcome) returns (worlds: seq<World>, actions: seq<Action>)
    requires o in {CUT_EARLY, CUT_DIGEST, CUT_HANDLER}
    ensures Run(worlds, actions) && |actions| == 3
    ensures worlds[3].disk.Some? && !ValidLedger(worlds[3].disk.value)
  {
    hide Concluded, ValidLedger, Sound, Evidenced, Run;
    worlds, actions := FirstRun(o);
    var l := worlds[2].session.ledger;
    assert Unevidenced(l, FIRST_ATTEMPT, o);
    ConcludedValidIff(l, o);
  }

  const CUT_UNCHECKED := Outcome(PASSING, Interrupted(5))
  const CUT_CHANGED := Outcome(PASSING.(after := 8), Interrupted(6))

  /** Runs after which the file holds a passed attempt whose source was not compared, or was found changed. */
  lemma UnverifiedRun(changed: bool) returns (worlds: seq<World>, actions: seq<Action>)
    ensures Run(worlds, actions) && |actions| == 3 && worlds[3].disk.Some?
    ensures var l := worlds[3].disk.value;
            && |l.attempts| == 1 && l.attempts[0].verdict == Some(Passed) && l.obtained == [Regression]
            && l.attempts[0].sourceChecked == if changed then Some(false) else None
  {
    hide ValidLedger, Sound, Evidenced, Run, Missing, Assessed;
    var o := if changed then CUT_CHANGED else CUT_UNCHECKED;
    worlds, actions := FirstRun(o);
    var l := worlds[2].session.ledger;
    AssessedFields(l, FIRST_ATTEMPT, o);
  }

  /** A run after which the history on file is not a chain. */
  lemma TornRun() returns (worlds: seq<World>, actions: seq<Action>)
    ensures Run(worlds, actions) && |actions| == 3
    ensures worlds[3].disk.Some? && !Linked(worlds[3].disk.value.history)
  {
    hide Concluded, Sound, Run, Linked;
    var o := Outcome(PASSING, Interrupted(1));
    worlds, actions := FirstRun(o);
    ConcludedLinkedIff(worlds[2].session.ledger, o);
  }
}
