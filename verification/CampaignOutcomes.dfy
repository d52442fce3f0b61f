/** What the controller makes of an attempt and of a campaign: verdicts, decisions and statuses from what happened. */
module CampaignOutcomes {
  import opened Wire
  import opened CampaignLedger
  import opened CampaignController
  import opened CampaignEvidence

  // ---------------------------------------------------------------- one attempt

  /** The verdict of an attempt without exceptions. A report counts when it is the attempt's own, the installation is
      unchanged, and the exit code is 0, 1 or 3 for passed, failed or not measured; a changed source turns it into a
      failure. Everything else is not measured, with the controller's own record as evidence. */
  lemma AttemptJudged(l: Ledger, a: Attempt, p: Process)
    requires Untouched(a)
    ensures var b := Assessed(l, a, Outcome(p, NoFault));
            && b.ended && HashedReport(b) && b.index == a.index && b.suite == a.suite && b.fingerprint == a.fingerprint
            && match p.report
               case None => b.verdict == Some(NotMeasured)
               case Some(r) =>
                 var agrees :=
                   && !p.error && r.campaignId == l.campaignId && r.runId == a.runId && r.attemptIndex == a.index
                   && r.suite == a.suite && r.activeBefore == r.activeAfter
                   && (r.verdict, p.exitCode) in {(Passed, 0), (Failed, 1), (NotMeasured, 3)};
                 var same := r.provenance == a.fingerprint && r.sourceAfter == Some(a.fingerprint) && p.after == a.fingerprint;
                 if agrees
                 then b.report == Some(r) && b.verdict == Some(if same then r.verdict else Failed) && b.sourceChecked == Some(same)
                 else b.report == Some(Report(l.campaignId, a.runId, a.index, a.suite, NotMeasured, 0, None, 0, 0))
                      && b.verdict == Some(NotMeasured)
  {
    hide Assessed;
    AssessedFields(l, a, Outcome(p, NoFault));
  }

  /** A reservation is refused exactly for the wrong kind of campaign, five attempts used, no budget left, a claimed
      candidate that is not the one observed, complete coverage of that candidate, or a suite out of turn. Otherwise it
      appends the next attempt, on the observed candidate, for the first suite missing there. */
  lemma ReservedIff(l: Ledger, input: Input)
    requires Sound(l) && Evidenced(l) && l.phase != Running
    ensures var changed := l.fingerprint.Some? && l.fingerprint != Some(input.observed);
            var expected := if changed then Some(Regression) else if l.missing == [] then None else Some(l.missing[0]);
            var r := Reserved(l, input);
            && (r.Some? <==>
                  && l.performanceKind && l.consumed < 5 && input.withinBudget
                  && (input.claimed == None || input.claimed == Some(input.observed))
                  && expected.Some? && (input.suite == None || input.suite == expected))
            && (r.Some? ==>
                  && r.value.attempts == l.attempts + [Attempt(l.consumed + 1, input.runId, expected.value, input.observed,
                                                              None, false, None, None, None)]
                  && r.value.campaignId == l.campaignId && r.value.performanceKind == l.performanceKind
                  && r.value.consumed == l.consumed + 1 && r.value.phase == Running && r.value.verdict == l.verdict
                  && r.value.fingerprint == Some(input.observed)
                  && r.value.obtained == (if changed then [] else l.obtained)
                  && r.value.decision == (if changed then CandidateChanged else l.decision)
                  && r.value.invalidated == l.invalidated
                       + if changed then [Invalidation(l.fingerprint.value, l.obtained, l.consumed + 1)] else [])
  {
    hide ValidLedger, Evidenced, Coverage, Attempts;
    ValidIffEvidenced(l);
    assert l.missing != [] ==> l.decision != Completed;
    assert l.invalidated + [] == l.invalidated;
  }

  // ---------------------------------------------------------------- decisions

  /** The decision that belongs to the last attempt's verdict. */
  ghost predicate DecisionTells(l: Ledger)
    requires l.attempts != []
  {
    (l.decision, l.phase, l.verdict) ==
      match LastAttempt(l).verdict
      case Some(Passed) =>
        if l.missing == [] then (Completed, Complete, Passed)
        else if l.consumed == 5 then (DecidedExhausted, Exhausted, NotMeasured)
        else (NextSuite, Prepare, NotMeasured)
      case Some(Failed) => (NeedsRepair, Repair, Failed)
      case _ => (DecidedBlocked, Blocked, NotMeasured)
  }

  lemma ConcludedTells(l: Ledger, o: Outcome)
    requires Sound(l) && l.phase == Running
    ensures Concluded(l, o).attempts != [] && DecisionTells(Concluded(l, o))
  {
    hide Assessed, Coverage;
    ConcludedSound(l, o);
  }

  /** A ledger between attempts: untouched, decided by its last attempt, or recovered from a crash. */
  ghost predicate Told(l: Ledger) {
    l.phase != Running ==>
      if l.attempts == [] then (l.decision, l.phase, l.verdict) == (Start, Prepare, NotMeasured)
      else DecisionTells(l)
           || ((l.decision, l.phase, l.verdict) == (NeedsRepair, Repair, NotMeasured)
               && LastAttempt(l).verdict == Some(NotMeasured))
  }

  ghost predicate WorldTold(w: World) {
    (w.disk.Some? ==> Told(w.disk.value)) && (!w.session.Off? ==> Told(w.session.ledger))
  }

  lemma RecoveredTold(l: Ledger)
    requires Sound(l) && Told(l) && Recovered(l).Some?
    ensures Told(Recovered(l).value)
  {
  }

  lemma RunningTold(l: Ledger)
    requires l.phase == Running
    ensures Told(l)
  {
  }

  lemma NewLedgerTold(id: string, kind: bool)
    ensures Told(NewLedger(id, kind))
  {
  }

  lemma DecidedTold(l: Ledger)
    requires l.attempts != [] && DecisionTells(l)
    ensures Told(l)
  {
  }

  lemma StepTold(w: World, a: Action)
    requires Enabled(w, a) && WorldSound(w) && WorldTold(w)
    ensures WorldTold(Step(w, a))
  {
    hide Told, Sound, Evidenced, ValidLedger, Reserved, Concluded, Recovered, NewLedger, DecisionTells;
    match a {
      case Open(id, kind) => NewLedgerTold(id, kind);
      case Resume => if Recovered(w.disk.value).Some? { RecoveredTold(w.disk.value); }
      case Begin(input) =>
        if Reserved(w.session.ledger, input).Some? {
          ReservedConsumes(w.session.ledger, input);
          RunningTold(Reserved(w.session.ledger, input).value);
        }
      case Conclude(o) =>
        ConcludedTells(w.session.ledger, o);
        DecidedTold(Concluded(w.session.ledger, o));
      case Quit =>
      case Crash =>
    }
  }

  /** In every run, every ledger on file or in memory between attempts carries the decision that belongs to its last
      attempt, or that of a recovery. */
  lemma {:induction false} AlwaysTold(worlds: seq<World>, actions: seq<Action>, n: nat)
    requires Run(worlds, actions) && n < |worlds|
    ensures WorldTold(worlds[n])
  {
    hide Told, WorldSound, Enabled, Step;
    if n > 0 {
      AlwaysTold(worlds, actions, n - 1);
      AlwaysSound(worlds, actions, n - 1);
      assert Enabled(worlds[n - 1], actions[n - 1]) && worlds[n - 1 + 1] == Step(worlds[n - 1], actions[n - 1]);
      StepTold(worlds[n - 1], actions[n - 1]);
    }
  }

  /** In every run the end of an attempt leaves on file the decision that belongs to its verdict: complete, exhausted or
      the next suite after a pass, repair after a failure, blocked otherwise. */
  lemma DecisionAfterAttempt(worlds: seq<World>, actions: seq<Action>, n: nat)
    requires Run(worlds, actions) && n < |actions| && actions[n].Conclude?
    ensures worlds[n + 1].disk.Some? && worlds[n + 1].disk.value.attempts != [] && DecisionTells(worlds[n + 1].disk.value)
  {
    hide DecisionTells, Sound, Evidenced, Concluded;
    AlwaysSound(worlds, actions, n);
    assert Enabled(worlds[n], actions[n]) && worlds[n + 1] == Step(worlds[n], actions[n]);
    ConcludedTells(worlds[n].session.ledger, actions[n].outcome);
  }

  /** A resume goes on to another attempt exactly when the file is valid and its campaign neither complete nor out of
      attempts. */
  lemma ResumeRetries(worlds: seq<World>, actions: seq<Action>, n: nat)
    requires Run(worlds, actions) && n < |actions| && actions[n] == Resume && worlds[n].disk.Some?
    ensures var l, w := worlds[n].disk.value, worlds[n + 1];
            && (w.session.Between? <==> ValidLedger(l))
            && (w.session.Between? ==>
                  && w.disk == Some(w.session.ledger)
                  && (MayAttempt(w.session.ledger, w.session.authorized)
                      <==> w.session.ledger.missing != [] && w.session.ledger.decision != DecidedExhausted))
  {
    hide Sound, Evidenced, ValidLedger, Recovered;
    AlwaysSound(worlds, actions, n);
    AlwaysSound(worlds, actions, n + 1);
    AlwaysTold(worlds, actions, n + 1);
    assert Enabled(worlds[n], actions[n]) && worlds[n + 1] == Step(worlds[n], actions[n]);
    ValidIffEvidenced(worlds[n].disk.value);
    if ValidLedger(worlds[n].disk.value) {
      RecoveredSound(worlds[n].disk.value);
      CompletedIffCovered(worlds[n + 1].session.ledger);
    }
  }

  lemma CompletedIffCovered(l: Ledger)
    requires Sound(l)
    ensures l.decision == Completed <==> l.missing == []
  {
  }

  // ---------------------------------------------------------------- statuses

  /** No attempt of the loop is refused, and no exception leaves one. */
  ghost predicate RunsThrough(l: Ledger, authorized: bool, events: Events)
    decreases 5 - l.consumed
  {
    MayAttempt(l, authorized) ==>
      var e := events(l.consumed);
      && Reserved(l, e.input).Some? && Returns(e.outcome)
      && (Concluded(Reserved(l, e.input).value, e.outcome).decision == NextSuite ==>
            RunsThrough(Concluded(Reserved(l, e.input).value, e.outcome), false, events))
  }

  /** A loop that runs through ends with status 0 exactly when the ledger on file is complete, 4 exactly when it needs
      repair, and 3 otherwise. One that does not ends with status 4 or an exception. */
  lemma {:induction false} ExitTells(l: Ledger, disk: Option<Ledger>, authorized: bool, events: Events)
    ensures var end := Drive(l, disk, authorized, events);
            if RunsThrough(l, authorized, events)
            then end.disk.Some? && end.exit == Status(if end.disk.value.decision == Completed then 0
                                                      else if end.disk.value.decision == NeedsRepair then 4 else 3)
            else end.exit == Status(4) || end.exit == Escaped
    decreases 5 - l.consumed
  {
    hide Reserved, Concluded;
    var e := events(l.consumed);
    if MayAttempt(l, authorized) && Reserved(l, e.input).Some? {
      ReservedConsumes(l, e.input);
      var r := Reserved(l, e.input).value;
      ConcludedConsumed(r, e.outcome);
      ExitTells(Concluded(r, e.outcome), Some(Concluded(r, e.outcome)), false, events);
    }
  }

  /** How the first attempt of a loop can end the program early. A refusal leaves the file alone, with status 4. An
      exception leaves the attempt's ledger on file: an OSError, or a ValueError inside a handler, gives status 4, every
      other one that leaves the attempt escapes. */
  lemma EarlyExits(l: Ledger, disk: Option<Ledger>, authorized: bool, events: Events)
    requires MayAttempt(l, authorized)
    ensures var e, end := events(l.consumed), Drive(l, disk, authorized, events);
            match Reserved(l, e.input)
            case None => end == Ending(disk, Status(4))
            case Some(r) =>
              var f, left := e.outcome.fault, Some(Concluded(r, e.outcome));
              && (f.Interrupted? ==> end == Ending(left, Escaped))
              && (f.Raised? && f.kind == OsError ==> end == Ending(left, Status(4)))
              && (f.Raised? && f.kind == Other ==> end == Ending(left, Escaped))
              && (f.InHandler? && f.kind != Other ==> end == Ending(left, Status(4)))
              && (f.InHandler? && f.kind == Other ==> end == Ending(left, Escaped))
              && (Returns(e.outcome) && left.value.decision == NextSuite ==> end == Drive(left.value, left, false, events))
              && (Returns(e.outcome) && left.value.decision != NextSuite ==> end.disk == left)
  {
    hide Reserved, Concluded;
  }

  // ---------------------------------------------------------------- the record of an attempt

  /** A reservation records the move to Verify, a second one for a changed candidate, and the moves to Reserve and
      Running. */
  lemma ReservationRecorded(l: Ledger, input: Input)
    requires Reserved(l, input).Some?
    ensures var first := if l.phase in {Prepare, Repair, Blocked} then [Transition(l.phase, Verify)] else [];
            var from := if l.phase in {Prepare, Repair, Blocked} then Verify else l.phase;
            var changed := l.fingerprint.Some? && l.fingerprint != Some(input.observed);
            var second := if changed then [Transition(from, Verify)] else [];
            Reserved(l, input).value.history
              == l.history + first + second
                 + [Transition(if changed then Verify else from, Reserve)] + [Transition(Reserve, Running)]
  {
    hide ValidLedger, ExpectedSuite;
    assert l.history + [] == l.history;
    var first := if l.phase in {Prepare, Repair, Blocked} then [Transition(l.phase, Verify)] else [];
    assert l.history + first + [] == l.history + first;
  }

  /** The end of an attempt records the five moves from Running to the decided phase, but for the first one where an
      exception tore it. */
  lemma AttemptRecorded(l: Ledger, o: Outcome)
    requires l.attempts != [] && l.phase == Running
    ensures Concluded(l, o).history
         == l.history + (if Torn(o) then [] else [Transition(Running, Observe)])
            + [Transition(Observe, Assess)] + [Transition(Assess, Cleanup)] + [Transition(Cleanup, Decide)]
            + [Transition(Decide, Concluded(l, o).phase)]
  {
    hide Assessed, Missing;
    assert l.history + [] == l.history;
  }

  // ---------------------------------------------------------------- refused sessions

  /** Status 2 is kept for a ledger that cannot be resumed: none, an invalid one, or another campaign's. */
  lemma StatusTwoIff(file: Option<Ledger>, args: Arguments, events: Events)
    ensures SessionEnd(file, args, events).exit == Status(2) <==>
              args.resume && (file.None? || !ValidLedger(file.value) || Recovered(file.value).None?
                              || (args.campaignId != "" && args.campaignId != Recovered(file.value).value.campaignId))
  {
    hide ValidLedger, Recovered, Drive;
    var l := Starting(file, args);
    if l.Some? {
      ExitTells(l.value, if args.resume then l else file, Authorized(l.value.decision, args.resume), events);
    }
  }

  /** A new session starts an untouched campaign, under the id given or else a fresh one; a resumed one goes on with the
      campaign on file. */
  lemma SessionStarts(file: Option<Ledger>, args: Arguments)
    ensures !args.resume ==>
              && Starting(file, args).Some?
              && var l := Starting(file, args).value;
                 && l.campaignId == (if args.campaignId != "" then args.campaignId else args.freshId)
                 && l.performanceKind == args.performanceKind && l.attempts == [] && l.obtained == [] && l.consumed == 0
                 && MayAttempt(l, false) && ExpectedSuite(l) == Some(Regression)
    ensures args.resume && Starting(file, args).Some? ==>
              && file.Some? && Starting(file, args).value.campaignId == file.value.campaignId
              && |Starting(file, args).value.attempts| == |file.value.attempts|
  {
    hide ValidLedger;
  }

  // ---------------------------------------------------------------- a campaign that succeeds

  /** What happens around an attempt that passes: the candidate observed throughout, a fresh run, and the suite's own
      passing report. */
  ghost predicate Passes(e: Event, campaignId: string, index: nat, suite: Suite, candidate: Fingerprint) {
    && e.input == Input(candidate, None, None, e.input.runId, true) && e.outcome.fault == NoFault
    && var p := e.outcome.process;
       && !p.error && p.exitCode == 0 && p.after == candidate && p.report.Some?
       && p.report.value.activeBefore == p.report.value.activeAfter
       && p.report.value == Report(campaignId, e.input.runId, index, suite, Passed, candidate, Some(candidate),
                                   p.report.value.activeBefore, p.report.value.activeAfter)
  }

  /** Every attempt still to come passes, on one candidate. */
  ghost predicate AllPass(l: Ledger, events: Events, candidate: Fingerprint) {
    && (forall n: nat :: l.consumed <= n < l.consumed + |l.missing| ==>
          && Passes(events(n), l.campaignId, n + 1, l.missing[n - l.consumed], candidate)
          && FreshRun(l, events(n).input.runId))
    && (forall m: nat, n: nat :: l.consumed <= m < n < l.consumed + |l.missing| ==>
          events(m).input.runId != events(n).input.runId)
  }

  /** One passing attempt takes the campaign one suite further. */
  lemma PassAdvances(l: Ledger, e: Event, candidate: Fingerprint)
    requires Sound(l) && Evidenced(l) && l.phase != Running && l.performanceKind && l.missing != []
    requires l.consumed < 5 && (l.fingerprint == None || l.fingerprint == Some(candidate))
    requires Passes(e, l.campaignId, l.consumed + 1, l.missing[0], candidate) && FreshRun(l, e.input.runId)
    ensures Reserved(l, e.input).Some?
    ensures var c := Concluded(Reserved(l, e.input).value, e.outcome);
            && Sound(c) && Evidenced(c) && c.phase != Running && c.performanceKind && c.campaignId == l.campaignId
            && c.consumed == l.consumed + 1 && c.missing == l.missing[1..] && c.fingerprint == Some(candidate)
            && |c.attempts| == |l.attempts| + 1 && c.attempts[..|l.attempts|] == l.attempts
            && c.attempts[|l.attempts|].runId == e.input.runId
            && c.decision == if c.missing == [] then Completed else if c.consumed == 5 then DecidedExhausted else NextSuite
  {
    hide Reserved, Concluded, Assessed, ValidLedger;
    ReservedIff(l, e.input);
    ReservedSound(l, e.input);
    var r := Reserved(l, e.input).value;
    var a := LastAttempt(r);
    AttemptJudged(r, a, e.outcome.process);
    ConcludedSound(r, e.outcome);
    ConcludedTells(r, e.outcome);
    ConcludedConsumed(r, e.outcome);
    ConcludedCoverage(r, e.outcome);
    ReturnsEvidenced(r, a, e.outcome);
    ConcludedValidIff(r, e.outcome);
    ValidIffEvidenced(Concluded(r, e.outcome));
    FirstMissingIsNew(l);
  }

  /** If every attempt passes on one source, a campaign with attempts enough for its missing suites ends complete, with
      status 0; a new campaign needs four of its five. */
  lemma {:induction false} PassingCampaignCompletes(l: Ledger, disk: Option<Ledger>, events: Events, candidate: Fingerprint)
    requires Sound(l) && Evidenced(l) && l.phase != Running && l.performanceKind && l.decision in {Start, NextSuite}
    requires l.missing != [] && l.consumed + |l.missing| <= 5
    requires l.fingerprint == None || l.fingerprint == Some(candidate)
    requires AllPass(l, events, candidate)
    ensures var end := Drive(l, disk, false, events);
            && end.exit == Status(0) && end.disk.Some? && end.disk.value.decision == Completed
            && end.disk.value.fingerprint == Some(candidate) && end.disk.value.consumed == l.consumed + |l.missing|
    decreases |l.missing|
  {
    hide Reserved, Concluded, Sound, Evidenced, Passes;
    var e := events(l.consumed);
    PassAdvances(l, e, candidate);
    ReservedConsumes(l, e.input);
    var c := Concluded(Reserved(l, e.input).value, e.outcome);
    PassReturns(e, l.campaignId, l.consumed + 1, l.missing[0], candidate);
    if c.missing != [] {
      AllPassNext(l, c, events, candidate);
      PassingCampaignCompletes(c, Some(c), events, candidate);
    }
  }

  lemma PassReturns(e: Event, campaignId: string, index: nat, suite: Suite, candidate: Fingerprint)
    requires Passes(e, campaignId, index, suite, candidate)
    ensures ExitOn(e.outcome.fault) == None
  {
  }

  lemma AllPassNext(l: Ledger, c: Ledger, events: Events, candidate: Fingerprint)
    requires AllPass(l, events, candidate) && l.missing != [] && c.missing == l.missing[1..]
    requires c.consumed == l.consumed + 1 && c.campaignId == l.campaignId
    requires |c.attempts| == |l.attempts| + 1 && c.attempts[..|l.attempts|] == l.attempts
    requires c.attempts[|l.attempts|].runId == events(l.consumed).input.runId
    ensures AllPass(c, events, candidate)
  {
    hide Passes;
    var run := events(l.consumed).input.runId;
    forall n: nat | c.consumed <= n < c.consumed + |c.missing|
      ensures Passes(events(n), c.campaignId, n + 1, c.missing[n - c.consumed], candidate)
      ensures FreshRun(c, events(n).input.runId)
    {
      assert FreshRun(l, events(n).input.runId) && run != events(n).input.runId;
      forall i | 0 <= i < |c.attempts| ensures c.attempts[i].runId != events(n).input.runId {
        if i < |l.attempts| { assert c.attempts[..|l.attempts|][i] == l.attempts[i]; }
      }
    }
  }
}
