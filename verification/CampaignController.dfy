/** The campaign controller as it runs: one ledger changed in place, its file, and the loop over attempts. */
module CampaignController {
  import opened Wire
  import opened CampaignLedger

  /** What happens around the attempt that follows `n` consumed ones. */
  datatype Event = Event(input: Input, outcome: Outcome)

  type Events = nat -> Event

  /** How the process leaves: with a status, or through an exception it does not catch. */
  datatype Exit = Status(code: nat) | Escaped

  /** The file and the exit once the loop is over. */
  datatype Ending = Ending(disk: Option<Ledger>, exit: Exit)

  function ExitOf(d: Decision): Exit {
    Status(match d
           case Completed => 0
           case NeedsRepair => 4
           case _ => 3)
  }

  /** How an attempt's exception ends the program, if it leaves the attempt: the main program turns a ValueError or an
      OSError into a status. */
  function ExitOn(f: Fault): Option<Exit> {
    match f
    case NoFault => None
    case Raised(_, kind) => (match kind case Invalid => None case OsError => Some(Status(4)) case Other => Some(Escaped))
    case Interrupted(_) => Some(Escaped)
    case InHandler(_, _, kind) => if kind == Other then Some(Escaped) else Some(Status(4))
  }

  /** A resumed campaign may retry a failed or blocked suite once. */
  predicate Authorized(d: Decision, resumed: bool) { resumed && d in {NeedsRepair, DecidedBlocked} }

  /** The loop over attempts as a function of the ledger, of the file and of what happens. */
  function Drive(l: Ledger, disk: Option<Ledger>, authorized: bool, events: Events): Ending
    decreases MAX_ATTEMPTS - l.consumed
  {
    if !MayAttempt(l, authorized) then Ending(Some(l), ExitOf(l.decision))
    else
      var e := events(l.consumed);
      match Reserved(l, e.input)
      case None => Ending(disk, Status(4))
      case Some(r) =>
        var c := Concluded(r, e.outcome);
        if ExitOn(e.outcome.fault).Some? then Ending(Some(c), ExitOn(e.outcome.fault).value)
        else if c.decision == NextSuite then Drive(c, Some(c), false, events)
        else Ending(Some(c), ExitOf(c.decision))
  }

  /** What the program is called with; an empty id is none given, and `freshId` is the one it then makes up. */
  datatype Arguments = Arguments(resume: bool, campaignId: string, performanceKind: bool, freshId: string)

  /** The ledger a session works on, if it gets that far: recovered from the file or new. */
  function Starting(file: Option<Ledger>, args: Arguments): Option<Ledger> {
    if !args.resume then Some(NewLedger(if args.campaignId == "" then args.freshId else args.campaignId, args.performanceKind))
    else if file.None? || !ValidLedger(file.value) then None
    else Recovered(file.value)
  }

  /** The whole program: what it leaves on file and how it exits. */
  function SessionEnd(file: Option<Ledger>, args: Arguments, events: Events): Ending {
    match Starting(file, args)
    case None => Ending(file, Status(2))
    case Some(l) =>
      var disk := if args.resume then Some(l) else file;
      if args.resume && args.campaignId != "" && args.campaignId != l.campaignId then Ending(disk, Status(2))
      else if !ValidLedger(l) then Ending(disk, Status(4))
      else Drive(l, disk, Authorized(l.decision, args.resume), events)
  }

  method RunSession(file: Option<Ledger>, args: Arguments, events: Events) returns (end: Ending)
    ensures end == SessionEnd(file, args, events)
  {
    hide ValidLedger, Drive;
    var c: Controller;
    if args.resume {
      if file.None? || !ValidLedger(file.value) { return Ending(file, Status(2)); }
      c := new Controller(file.value, file);
      var ok := c.RecoverInterrupted();
      if !ok { return Ending(file, Status(2)); }
      c.Write();
      if args.campaignId != "" && args.campaignId != c.campaignId { return Ending(c.disk, Status(2)); }
    } else {
      c := new Controller(NewLedger(if args.campaignId == "" then args.freshId else args.campaignId, args.performanceKind), file);
    }
    if !ValidLedger(c.Value()) { return Ending(c.disk, Status(4)); }
    var exit := c.RunLoop(args.resume, events);
    end := Ending(c.disk, exit);
  }

  /** An exception comes once `k` stores of the try block are made. One placed beyond the block comes at its end. */
  predicate Stops(f: Fault, k: nat) { !f.NoFault? && f.at <= k }

  /** An exception comes inside a handler, once it has made `h` stores. */
  predicate StopsHandler(f: Fault, h: nat) { f.InHandler? && f.done <= h }

  /** The stores of an attempt one by one, with an exception possible before and after each. */
  method AssessAttempt(l: Ledger, reserved: Attempt, o: Outcome) returns (a: Attempt)
    ensures a == Assessed(l, reserved, o)
  {
    hide ApplyAll, Identified, SourceUnchanged, ExpectedExit;
    a := reserved;
    var p, f, passed := o.process, o.fault, false;
    label body: {
      if Stops(f, 2) || !ReportAccepted(l, reserved, p) { break body; }
      var r := p.report.value;
      a := a.(report := Some(r));
      if Stops(f, 3) { break body; }
      a := a.(digest := Some(Sha256(r)));
      if Stops(f, 4) || !VerdictAccepted(p) { break body; }
      a := a.(verdict := Some(r.verdict));
      if Stops(f, 5) { break body; }
      var same := SourceUnchanged(reserved, r, p.after);
      a := a.(sourceChecked := Some(same));
      if Stops(f, 6) { break body; }
      if !same { a := a.(verdict := Some(Failed)); }
      passed := true;
    }
    ghost var k := Tried(l, reserved, o);
    TriedFields(l, reserved, p, k);
    assert a == ApplyAll(reserved, TryStores(l, reserved, p)[..k]);
    HandledFields(l, reserved, a, Handled(l, reserved, o));
    if f.Raised? || f.InHandler? || (f.NoFault? && !passed) {
      var own := InterruptedReport(l, reserved);
      label handler: {
        if StopsHandler(f, 0) { break handler; }
        a := a.(verdict := Some(NotMeasured));
        if StopsHandler(f, 1) { break handler; }
        a := a.(ended := true);
        if StopsHandler(f, 2) { break handler; }
        a := a.(report := Some(own));
        if StopsHandler(f, 3) { break handler; }
        a := a.(digest := Some(Sha256(own)));
      }
    }
    a := a.(ended := true);
  }

  class Controller {
    const campaignId: string
    const performanceKind: bool
    const required: seq<Suite>
    var consumed: nat
    var phase: Phase
    var history: seq<Transition>
    var attempts: seq<Attempt>
    var obtained: seq<Suite>
    var missing: seq<Suite>
    var invalidated: seq<Invalidation>
    var decision: Decision
    var verdict: Verdict
    var fingerprint: Option<Fingerprint>
    var disk: Option<Ledger>

    /** The ledger in memory. */
    function Value(): Ledger
      reads this
    {
      Ledger(campaignId, performanceKind, consumed, phase, history, attempts, required, obtained, missing, invalidated,
             decision, verdict, fingerprint)
    }

    /** A ledger taken from its file, or a new one. */
    constructor (l: Ledger, file: Option<Ledger>)
      ensures Value() == l && disk == file
    {
      campaignId, performanceKind, required := l.campaignId, l.performanceKind, l.required;
      consumed, phase, history, attempts := l.consumed, l.phase, l.history, l.attempts;
      obtained, missing, invalidated := l.obtained, l.missing, l.invalidated;
      decision, verdict, fingerprint := l.decision, l.verdict, l.fingerprint;
      disk := file;
    }

    method TransitionTo(to: Phase)
      modifies this`phase, this`history
      ensures Value() == Move(old(Value()), to)
    {
      history := history + [Transition(phase, to)];
      phase := to;
    }

    method Write()
      modifies this`disk
      ensures disk == Some(Value())
    {
      disk := Some(Value());
    }

    method RecordCandidate(observed: Fingerprint, index: nat)
      modifies this
      ensures Value() == CampaignLedger.RecordCandidate(old(Value()), observed, index) && disk == old(disk)
    {
      if fingerprint.Some? && fingerprint.value != observed {
        invalidated := invalidated + [Invalidation(fingerprint.value, obtained, index)];
        obtained := [];
        missing := REQUIRED;
        decision := CandidateChanged;
        TransitionTo(Verify);
      }
      fingerprint := Some(observed);
    }

    /** Recovery of a crashed controller's ledger; refused exactly when nothing was reserved. */
    method RecoverInterrupted() returns (ok: bool)
      modifies this
      ensures ok == Recovered(old(Value())).Some? && disk == old(disk)
      ensures Value() == if ok then Recovered(old(Value())).value else old(Value())
    {
      if phase !in {Reserve, Running, Observe, Assess, Cleanup} { return true; }
      if attempts == [] { return false; }
      var a := attempts[|attempts| - 1];
      if !a.ended {
        var r := InterruptedReport(Value(), a);
        attempts := attempts[|attempts| - 1 :=
          a.(verdict := Some(NotMeasured), ended := true, report := Some(r), digest := Some(Sha256(r)))];
        TransitionTo(Repair);
        decision, verdict := NeedsRepair, NotMeasured;
      }
      return true;
    }

    /** The part of an attempt up to its reservation being on file. A refusal leaves the file alone. */
    method ReserveAttempt(input: Input) returns (ok: bool)
      modifies this
      ensures ok == Reserved(old(Value()), input).Some?
      ensures ok ==> Value() == Reserved(old(Value()), input).value && disk == Some(Value())
      ensures !ok ==> disk == old(disk)
    {
      hide ValidLedger, ExpectedSuite, CampaignLedger.RecordCandidate;
      ghost var before := Value();
      if !ValidLedger(Value()) || !performanceKind || consumed >= MAX_ATTEMPTS || !input.withinBudget { return false; }
      if phase in {Prepare, Repair, Blocked} { TransitionTo(Verify); }
      if input.claimed.Some? && input.claimed.value != input.observed { return false; }
      var index := consumed + 1;
      RecordCandidate(input.observed, index);
      assert Value() == Inspected(before, input.observed);
      var expected := ExpectedSuite(Value());
      var selected := if input.suite.Some? then input.suite else expected;
      if selected.None? || selected != expected { return false; }
      TransitionTo(Reserve);
      attempts := attempts + [Attempt(index, input.runId, selected.value, input.observed, None, false, None, None, None)];
      consumed := index;
      TransitionTo(Running);
      Write();
      return true;
    }

    method DecideLast()
      requires attempts != []
      modifies this
      ensures Value() == Decided(old(Value())) && disk == old(disk)
    {
      hide Missing;
      var a := attempts[|attempts| - 1];
      if a.verdict == Some(Passed) {
        if a.suite !in obtained { obtained := obtained + [a.suite]; }
        missing := Missing(obtained);
        if missing == [] {
          TransitionTo(Complete);
          decision, verdict := Completed, Passed;
        } else if consumed >= MAX_ATTEMPTS {
          TransitionTo(Exhausted);
          decision, verdict := DecidedExhausted, NotMeasured;
        } else {
          TransitionTo(Prepare);
          decision, verdict := NextSuite, NotMeasured;
        }
      } else if a.verdict == Some(Failed) {
        TransitionTo(Repair);
        decision, verdict := NeedsRepair, Failed;
      } else {
        TransitionTo(Blocked);
        decision, verdict := DecidedBlocked, NotMeasured;
      }
    }

    /** The move to Observe inside the try block: an exception may fall before, inside or after it. */
    method EnterObserve(f: Fault)
      modifies this`phase, this`history
      ensures Value() == if Stops(f, 0) then old(Value())
                         else if Stops(f, 1) then old(Value()).(phase := Observe) else Move(old(Value()), Observe)
    {
      if Stops(f, 0) { return; }
      var from := phase;
      phase := Observe;
      if Stops(f, 1) { return; }
      history := history + [Transition(from, Observe)];
    }

    /** The closing block, which runs in every case. */
    method Close()
      requires attempts != []
      modifies this
      ensures var found := if old(phase) == Running then Move(old(Value()), Observe) else old(Value());
              Value() == Decided(Move(Move(Move(found, Assess), Cleanup), Decide)) && disk == Some(Value())
    {
      hide Decided;
      if phase == Running { TransitionTo(Observe); }
      TransitionTo(Assess);
      TransitionTo(Cleanup);
      TransitionTo(Decide);
      DecideLast();
      Write();
    }

    /** The rest of the attempt: the try block, a handler if one is entered, and the closing block. */
    method ConcludeAttempt(o: Outcome)
      requires attempts != [] && phase == Running
      modifies this
      ensures Value() == Concluded(old(Value()), o) && disk == Some(Value())
    {
      hide Decided, Assessed;
      var reserved := Value();
      EnterObserve(o.fault);
      var a := AssessAttempt(reserved, attempts[|attempts| - 1], o);
      attempts := attempts[|attempts| - 1 := a];
      Close();
    }

    /** The loop over attempts. It ends because every turn consumes one of the five. */
    method RunLoop(resumed: bool, events: Events) returns (exit: Exit)
      modifies this
      ensures Ending(disk, exit) == Drive(old(Value()), old(disk), Authorized(old(decision), resumed), events)
    {
      hide Reserved, Concluded;
      ghost var end := Drive(Value(), disk, Authorized(decision, resumed), events);
      var authorized := Authorized(decision, resumed);
      while decision in {Start, NextSuite} || authorized
        invariant Drive(Value(), disk, authorized, events) == end
        decreases MAX_ATTEMPTS - consumed
      {
        authorized := false;
        ghost var before := Value();
        var e := events(consumed);
        var ok := ReserveAttempt(e.input);
        if !ok { return Status(4); }
        ReservedConsumes(before, e.input);
        ghost var reserved := Value();
        ConcludeAttempt(e.outcome);
        ConcludedConsumed(reserved, e.outcome);
        if ExitOn(e.outcome.fault).Some? { return ExitOn(e.outcome.fault).value; }
        if decision != NextSuite { break; }
      }
      Write();
      exit := ExitOf(decision);
    }
  }

  // ---------------------------------------------------------------- a session is a run of the state machine

  /** The run ids of the attempts to come are fresh. */
  ghost predicate FreshRuns(l: Ledger, authorized: bool, events: Events)
    decreases MAX_ATTEMPTS - l.consumed
  {
    MayAttempt(l, authorized) ==>
      var e := events(l.consumed);
      && FreshRun(l, e.input.runId)
      && match Reserved(l, e.input)
         case None => true
         case Some(r) =>
           Returns(e.outcome) && Concluded(r, e.outcome).decision == NextSuite ==>
             FreshRuns(Concluded(r, e.outcome), false, events)
  }

  /** A run extended by one step. */
  lemma RunExtended(worlds: seq<World>, actions: seq<Action>, a: Action)
    requires Run(worlds, actions) && Enabled(worlds[|actions|], a)
    ensures Run(worlds + [Step(worlds[|actions|], a)], actions + [a])
  {
    hide Enabled, Step;
    var ws, acts := worlds + [Step(worlds[|actions|], a)], actions + [a];
    forall i | 0 <= i < |acts| ensures Enabled(ws[i], acts[i]) && ws[i + 1] == Step(ws[i], acts[i]) {
      if i < |actions| { assert ws[i] == worlds[i] && ws[i + 1] == worlds[i + 1] && acts[i] == actions[i]; }
    }
  }

  /** Whatever happens, the loop is a continuation of a run of the state machine that ends with the loop's file and the
      process gone, so all that holds in every run holds of it. */
  lemma {:induction false} DriveIsRun(worlds: seq<World>, actions: seq<Action>, events: Events)
    returns (ws: seq<World>, acts: seq<Action>)
    requires Run(worlds, actions) && worlds[|actions|].session.Between?
    requires FreshRuns(worlds[|actions|].session.ledger, worlds[|actions|].session.authorized, events)
    ensures Run(ws, acts) && worlds <= ws && actions <= acts
    ensures var w := worlds[|actions|];
            ws[|acts|] == World(Drive(w.session.ledger, w.disk, w.session.authorized, events).disk, Off)
    decreases MAX_ATTEMPTS - worlds[|actions|].session.ledger.consumed
  {
    hide Reserved, Concluded, FreshRun;
    var w := worlds[|actions|];
    var l := w.session.ledger;
    if !MayAttempt(l, w.session.authorized) {
      RunExtended(worlds, actions, Quit);
      ws, acts := worlds + [Step(w, Quit)], actions + [Quit];
    } else {
      var e := events(l.consumed);
      var begin, conclude := Begin(e.input), Conclude(e.outcome);
      RunExtended(worlds, actions, begin);
      ws, acts := worlds + [Step(w, begin)], actions + [begin];
      if Reserved(l, e.input).Some? {
        ReservedConsumes(l, e.input);
        var w1 := ws[|acts|];
        ConcludedConsumed(w1.session.ledger, e.outcome);
        RunExtended(ws, acts, conclude);
        ws, acts := ws + [Step(w1, conclude)], acts + [conclude];
        if ws[|acts|].session.Between? {
          ws, acts := DriveIsRun(ws, acts, events);
        }
      }
    }
  }

  /** A whole session of the program, from any file a run has left, is a continuation of that run. */
  lemma SessionIsRun(worlds: seq<World>, actions: seq<Action>, args: Arguments, events: Events)
    returns (ws: seq<World>, acts: seq<Action>)
    requires Run(worlds, actions) && worlds[|actions|].session.Off?
    requires var l := Starting(worlds[|actions|].disk, args);
             l.Some? ==> FreshRuns(l.value, Authorized(l.value.decision, args.resume), events)
    ensures Run(ws, acts) && worlds <= ws && actions <= acts
    ensures ws[|acts|] == World(SessionEnd(worlds[|actions|].disk, args, events).disk, Off)
  {
    hide ValidLedger, Recovered, Drive, FreshRuns, NewLedger, Sound, Evidenced;
    var w := worlds[|actions|];
    ws, acts := worlds, actions;
    if !args.resume {
      var open := Open(if args.campaignId == "" then args.freshId else args.campaignId, args.performanceKind);
      RunExtended(ws, acts, open);
      ws, acts := ws + [Step(w, open)], acts + [open];
      NewLedgerValid(open.campaignId, open.performanceKind);
      NewLedgerStarts(open.campaignId, open.performanceKind);
      ws, acts := DriveIsRun(ws, acts, events);
    } else if w.disk.Some? {
      RunExtended(ws, acts, Resume);
      ws, acts := ws + [Step(w, Resume)], acts + [Resume];
      AlwaysSound(worlds, actions, |actions|);
      if ws[|acts|].session.Between? {
        RecoveredValid(w.disk.value);
        if args.campaignId != "" && args.campaignId != ws[|acts|].session.ledger.campaignId {
          RunExtended(ws, acts, Crash);
          ws, acts := ws + [Step(ws[|acts|], Crash)], acts + [Crash];
        } else {
          ws, acts := DriveIsRun(ws, acts, events);
        }
      }
    }
  }

  lemma NewLedgerValid(id: string, kind: bool)
    ensures ValidLedger(NewLedger(id, kind))
  {
    NewLedgerSound(id, kind);
    ValidIffEvidenced(NewLedger(id, kind));
  }

  lemma NewLedgerStarts(id: string, kind: bool)
    ensures !Authorized(NewLedger(id, kind).decision, false)
  {
  }

  lemma RecoveredValid(l: Ledger)
    requires Sound(l) && ValidLedger(l)
    ensures Recovered(l).Some? && ValidLedger(Recovered(l).value)
  {
    ValidIffEvidenced(l);
    RecoveredSound(l);
    ValidIffEvidenced(Recovered(l).value);
  }

  /** Status 0 means that every required suite has a passed attempt, with its own hashed passing report, on the candidate
      of the ledger on file. */
  lemma ZeroMeansCovered(worlds: seq<World>, actions: seq<Action>, args: Arguments, events: Events, suite: Suite)
    requires Run(worlds, actions) && worlds[|actions|].session.Off?
    requires var l := Starting(worlds[|actions|].disk, args);
             l.Some? ==> FreshRuns(l.value, Authorized(l.value.decision, args.resume), events)
    requires SessionEnd(worlds[|actions|].disk, args, events).exit == Status(0)
    ensures var disk := SessionEnd(worlds[|actions|].disk, args, events).disk;
            && disk.Some? && disk.value.decision == Completed
            && exists i :: CoveredBy(disk.value, suite, i) && Owned(disk.value, disk.value.attempts[i])
                           && HashedReport(disk.value.attempts[i]) && disk.value.attempts[i].report.value.verdict == Passed
  {
    hide Run, FreshRuns, Drive, WorldSound, CoveredBy, Starting, Owned, HashedReport, ValidLedger;
    RunLength(worlds, actions);
    var w := worlds[|actions|];
    var l := Starting(w.disk, args);
    var ws, acts := SessionIsRun(worlds, actions, args, events);
    if l.Some? {
      StatusZero(l.value, if args.resume then l else w.disk, Authorized(l.value.decision, args.resume), events);
    }
    RunLength(ws, acts);
    AlwaysSound(ws, acts, |acts|);
    DiskSound(ws[|acts|]);
    CompleteMeansCovered(ws[|acts|].disk.value, suite);
  }

  lemma RunLength(worlds: seq<World>, actions: seq<Action>)
    requires Run(worlds, actions)
    ensures |worlds| == |actions| + 1
  {
  }

  lemma DiskSound(w: World)
    requires WorldSound(w) && w.disk.Some?
    ensures Sound(w.disk.value)
  {
  }

  lemma {:induction false} StatusZero(l: Ledger, disk: Option<Ledger>, authorized: bool, events: Events)
    ensures var end := Drive(l, disk, authorized, events);
            end.exit == Status(0) ==> end.disk.Some? && end.disk.value.decision == Completed
    decreases MAX_ATTEMPTS - l.consumed
  {
    hide Reserved, Concluded;
    var e := events(l.consumed);
    if MayAttempt(l, authorized) && Reserved(l, e.input).Some? {
      ReservedConsumes(l, e.input);
      var r := Reserved(l, e.input).value;
      ConcludedConsumed(r, e.outcome);
      StatusZero(Concluded(r, e.outcome), Some(Concluded(r, e.outcome)), false, events);
    }
  }

  lemma ReservedConsumes(l: Ledger, input: Input)
    requires Reserved(l, input).Some?
    ensures Reserved(l, input).value.consumed == l.consumed + 1 <= MAX_ATTEMPTS
    ensures Reserved(l, input).value.attempts != [] && Reserved(l, input).value.phase == Running
  {
  }

  lemma ConcludedConsumed(l: Ledger, o: Outcome)
    requires l.attempts != []
    ensures Concluded(l, o).consumed == l.consumed && Concluded(l, o).performanceKind == l.performanceKind
  {
  }
}
