/** The resumable performance-campaign controller: the ledger, its resume checks, one attempt, and the decision. */
module CampaignLedger {
  import opened Wire

  const MAX_ATTEMPTS: nat := 5

  datatype Phase =
    | Prepare | Verify | Reserve | Running | Observe | Assess | Cleanup | Decide
    | Complete | Repair | Blocked | Exhausted

  datatype Suite = Regression | Faults | Performance | Confirmation

  const REQUIRED: seq<Suite> := [Regression, Faults, Performance, Confirmation]

  datatype Verdict = Passed | Failed | NotMeasured | BlockedVerdict

  datatype Decision = Start | NextSuite | NeedsRepair | DecidedBlocked | Completed | DecidedExhausted | CandidateChanged

  /** Canonical hash of a source snapshot. */
  type Fingerprint = nat

  const NO_SOURCE: Fingerprint := 0

  datatype Report = Report(campaignId: string, runId: string, attemptIndex: nat, suite: Suite, verdict: Verdict,
                           provenance: Fingerprint, sourceAfter: Option<Fingerprint>, activeBefore: nat, activeAfter: nat)

  /** The hash of a report, taken to be free of collisions. */
  datatype Digest = Sha256(report: Report)

  /** `sourceChecked` is the controller's own end-of-attempt source comparison, once made. */
  datatype Attempt = Attempt(index: nat, runId: string, suite: Suite, fingerprint: Fingerprint, verdict: Option<Verdict>,
                             ended: bool, report: Option<Report>, digest: Option<Digest>, sourceChecked: Option<bool>)

  datatype Transition = Transition(from: Phase, to: Phase)

  datatype Invalidation = Invalidation(fingerprint: Fingerprint, suites: seq<Suite>, atAttempt: nat)

  datatype Ledger = Ledger(campaignId: string, performanceKind: bool, consumed: nat, phase: Phase,
                           history: seq<Transition>, attempts: seq<Attempt>,
                           required: seq<Suite>, obtained: seq<Suite>, missing: seq<Suite>, invalidated: seq<Invalidation>,
                           decision: Decision, verdict: Verdict, fingerprint: Option<Fingerprint>)

  function Move(l: Ledger, to: Phase): Ledger { l.(phase := to, history := l.history + [Transition(l.phase, to)]) }

  function NewLedger(campaignId: string, performanceKind: bool): Ledger {
    Ledger(campaignId, performanceKind, 0, Prepare, [], [], REQUIRED, [], REQUIRED, [], Start, NotMeasured, None)
  }

  /** The required suites not yet obtained, in the required order. */
  function Missing(obtained: seq<Suite>): seq<Suite> { Without(REQUIRED, obtained) }

  function Without(suites: seq<Suite>, obtained: seq<Suite>): seq<Suite> {
    if suites == [] then []
    else (if suites[0] in obtained then [] else [suites[0]]) + Without(suites[1..], obtained)
  }

  // ---------------------------------------------------------------- resume checks

  predicate EvidenceMatches(l: Ledger, a: Attempt) {
    match a.report
    case Some(r) =>
      && a.digest == Some(Sha256(r))
      && r.campaignId == l.campaignId && r.runId == a.runId && r.attemptIndex == a.index && r.suite == a.suite
    case None => !a.ended
  }

  predicate Contiguous(attempts: seq<Attempt>) { forall i :: 0 <= i < |attempts| ==> attempts[i].index == i + 1 }

  predicate DistinctRuns(attempts: seq<Attempt>) {
    && (forall i :: 0 <= i < |attempts| ==> attempts[i].runId != "")
    && forall i, j :: 0 <= i < j < |attempts| ==> attempts[i].runId != attempts[j].runId
  }

  predicate DistinctSuites(suites: seq<Suite>) { forall i, j :: 0 <= i < j < |suites| ==> suites[i] != suites[j] }

  /** The checks a ledger must pass to be resumed, apart from the schema file and the clock. */
  predicate ValidLedger(l: Ledger) {
    && l.consumed == |l.attempts|
    && Contiguous(l.attempts)
    && DistinctRuns(l.attempts)
    && l.required == REQUIRED
    && DistinctSuites(l.obtained)
    && l.missing == Missing(l.obtained)
    && forall i :: 0 <= i < |l.attempts| ==> EvidenceMatches(l, l.attempts[i])
  }

  // ---------------------------------------------------------------- attempts

  function ExpectedSuite(l: Ledger): Option<Suite> {
    if l.decision == NeedsRepair && l.attempts != [] then Some(l.attempts[|l.attempts| - 1].suite)
    else if l.missing != [] then Some(l.missing[0]) else None
  }

  /** A changed candidate invalidates the coverage obtained so far. */
  function RecordCandidate(l: Ledger, fingerprint: Fingerprint, index: nat): Ledger {
    var changed :=
      if l.fingerprint.Some? && l.fingerprint.value != fingerprint then
        Move(l.(invalidated := l.invalidated + [Invalidation(l.fingerprint.value, l.obtained, index)],
                obtained := [], missing := REQUIRED, decision := CandidateChanged), Verify)
      else l;
    changed.(fingerprint := Some(fingerprint))
  }

  /** What the controller observes when it starts an attempt. Run ids are fresh; the clock may refuse. */
  datatype Input = Input(observed: Fingerprint, claimed: Option<Fingerprint>, suite: Option<Suite>, runId: string,
                         withinBudget: bool)

  /** The ledger after inspecting the source, before anything is reserved. */
  function Inspected(l: Ledger, observed: Fingerprint): Ledger {
    var verifying := if l.phase in {Prepare, Repair, Blocked} then Move(l, Verify) else l;
    RecordCandidate(verifying, observed, l.consumed + 1)
  }

  /** Reserves the next attempt; None is a raised ValueError. */
  function Reserved(l: Ledger, input: Input): (r: Option<Ledger>) {
    if !ValidLedger(l) || !l.performanceKind || l.consumed >= MAX_ATTEMPTS || !input.withinBudget then None
    else if input.claimed.Some? && input.claimed.value != input.observed then None
    else
      var c := Inspected(l, input.observed);
      var expected := ExpectedSuite(c);
      var selected := if input.suite.Some? then input.suite else expected;
      if selected.None? || selected != expected then None
      else
        var attempt := Attempt(l.consumed + 1, input.runId, selected.value, input.observed, None, false, None, None, None);
        var reserved := Move(c, Reserve);
        Some(Move(reserved.(attempts := reserved.attempts + [attempt], consumed := l.consumed + 1), Running))
  }

  function LastAttempt(l: Ledger): Attempt
    requires l.attempts != []
  {
    l.attempts[|l.attempts| - 1]
  }

  function InterruptedReport(l: Ledger, a: Attempt): Report {
    Report(l.campaignId, a.runId, a.index, a.suite, NotMeasured, NO_SOURCE, None, 0, 0)
  }

  /** The attempt with the controller's own record in place of a report. */
  function Unmeasured(l: Ledger, a: Attempt): Attempt {
    var r := InterruptedReport(l, a);
    a.(verdict := Some(NotMeasured), ended := true, report := Some(r), digest := Some(Sha256(r)))
  }

  predicate Identified(l: Ledger, a: Attempt, r: Report) {
    r.campaignId == l.campaignId && r.runId == a.runId && r.attemptIndex == a.index && r.suite == a.suite
  }

  function ExpectedExit(v: Verdict): Option<int> {
    match v
    case Passed => Some(0)
    case Failed => Some(1)
    case NotMeasured => Some(3)
    case BlockedVerdict => None
  }

  predicate SourceUnchanged(a: Attempt, r: Report, after: Fingerprint) {
    r.provenance == a.fingerprint && r.sourceAfter == Some(a.fingerprint) && after == a.fingerprint
  }

  // ---------------------------------------------------------------- an attempt, store by store

  /** How the attempt's process ended, what it reported, and the source found afterwards. */
  datatype Process = Process(error: bool, exitCode: int, report: Option<Report>, after: Fingerprint)

  /** Exceptions by who catches them: the first handler, the main program, or nobody. */
  datatype Kind = Invalid | OsError | Other

  /** An exception that is none of the controller's own checks. `at` counts the stores of the try block made before it
      (the phase, the history record, then those of the attempt), `done` those of the handler. An interrupt is caught
      by no handler; the closing block runs in every case. */
  datatype Fault =
    | NoFault
    | Raised(at: nat, kind: Kind)
    | Interrupted(at: nat)
    | InHandler(at: nat, done: nat, kind: Kind)

  datatype Outcome = Outcome(process: Process, fault: Fault)

  /** One store into the attempt's record. */
  datatype Store =
    | KeepReport(report: Report)
    | KeepDigest(report: Report)
    | TakeVerdict(verdict: Verdict)
    | RecordComparison(same: bool)
    | MarkEnded

  function Apply(a: Attempt, store: Store): Attempt {
    match store
    case KeepReport(r) => a.(report := Some(r))
    case KeepDigest(r) => a.(digest := Some(Sha256(r)))
    case TakeVerdict(v) => a.(verdict := Some(v))
    case RecordComparison(same) => a.(sourceChecked := Some(same))
    case MarkEnded => a.(ended := true)
  }

  function ApplyAll(a: Attempt, stores: seq<Store>): Attempt {
    if stores == [] then a else Apply(ApplyAll(a, stores[..|stores| - 1]), stores[|stores| - 1])
  }

  /** The report is the attempt's own. */
  predicate ReportAccepted(l: Ledger, a: Attempt, p: Process) {
    !p.error && p.report.Some? && Identified(l, a, p.report.value)
  }

  /** The exit code and the installation agree with the report. */
  predicate VerdictAccepted(p: Process)
    requires p.report.Some?
  {
    ExpectedExit(p.report.value.verdict) == Some(p.exitCode) && p.report.value.activeBefore == p.report.value.activeAfter
  }

  predicate ChecksPass(l: Ledger, a: Attempt, p: Process) { ReportAccepted(l, a, p) && VerdictAccepted(p) }

  /** What the try block stores into the attempt before it completes or a check raises. */
  function TryStores(l: Ledger, a: Attempt, p: Process): seq<Store> {
    if !ReportAccepted(l, a, p) then []
    else
      var r := p.report.value;
      if !VerdictAccepted(p) then [KeepReport(r), KeepDigest(r)]
      else
        var same := SourceUnchanged(a, r, p.after);
        [KeepReport(r), KeepDigest(r), TakeVerdict(r.verdict), RecordComparison(same)]
        + if same then [] else [TakeVerdict(Failed)]
  }

  /** What either handler stores: the controller's own record. */
  function HandlerStores(l: Ledger, a: Attempt): seq<Store> {
    var r := InterruptedReport(l, a);
    [TakeVerdict(NotMeasured), MarkEnded, KeepReport(r), KeepDigest(r)]
  }

  /** How many of its stores into the attempt the try block makes. */
  function Tried(l: Ledger, a: Attempt, o: Outcome): (k: nat)
    ensures k <= |TryStores(l, a, o.process)|
  {
    var n := |TryStores(l, a, o.process)|;
    if o.fault.NoFault? then n else if o.fault.at < 2 then 0 else if o.fault.at - 2 < n then o.fault.at - 2 else n
  }

  /** How many of its stores a handler makes. */
  function Handled(l: Ledger, a: Attempt, o: Outcome): (h: nat)
    ensures h <= 4
  {
    match o.fault
    case NoFault => if ChecksPass(l, a, o.process) then 0 else 4
    case Raised(_, _) => 4
    case Interrupted(_) => 0
    case InHandler(_, done, _) => if done < 4 then done else 4
  }

  /** The attempt as the closing block leaves it. */
  function Assessed(l: Ledger, a: Attempt, o: Outcome): Attempt {
    var tried := ApplyAll(a, TryStores(l, a, o.process)[..Tried(l, a, o)]);
    ApplyAll(tried, HandlerStores(l, a)[..Handled(l, a, o)]).(ended := true)
  }

  /** The exception fell between the new phase and its history record: the move to Observe is never recorded. */
  predicate Torn(o: Outcome) { !o.fault.NoFault? && o.fault.at == 1 }

  function Observed(l: Ledger, o: Outcome): Ledger { if Torn(o) then l.(phase := Observe) else Move(l, Observe) }

  /** The attempt's call returns to the loop instead of raising. */
  predicate Returns(o: Outcome) { o.fault.NoFault? || (o.fault.Raised? && o.fault.kind == Invalid) }

  /** The decision on the last attempt. */
  function Decided(l: Ledger): Ledger
    requires l.attempts != []
  {
    var a := LastAttempt(l);
    match a.verdict
    case Some(Passed) =>
      var obtained := if a.suite in l.obtained then l.obtained else l.obtained + [a.suite];
      var covered := l.(obtained := obtained, missing := Missing(obtained));
      if covered.missing == [] then Move(covered, Complete).(decision := Completed, verdict := Passed)
      else if covered.consumed >= MAX_ATTEMPTS then Move(covered, Exhausted).(decision := DecidedExhausted, verdict := NotMeasured)
      else Move(covered, Prepare).(decision := NextSuite, verdict := NotMeasured)
    case Some(Failed) => Move(l, Repair).(decision := NeedsRepair, verdict := Failed)
    case _ => Move(l, Blocked).(decision := DecidedBlocked, verdict := NotMeasured)
  }

  /** The whole of an attempt after its reservation. */
  function Concluded(l: Ledger, o: Outcome): Ledger
    requires l.attempts != []
  {
    var a := Assessed(l, LastAttempt(l), o);
    var observed := Observed(l, o).(attempts := l.attempts[|l.attempts| - 1 := a]);
    Decided(Move(Move(Move(observed, Assess), Cleanup), Decide))
  }

  /** Consumes a reservation left open by a crash; None is a raised ValueError. */
  function Recovered(l: Ledger): (r: Option<Ledger>) {
    if l.phase !in {Reserve, Running, Observe, Assess, Cleanup} then Some(l)
    else if l.attempts == [] then None
    else if LastAttempt(l).ended then Some(l)
    else
      var closed := l.(attempts := l.attempts[|l.attempts| - 1 := Unmeasured(l, LastAttempt(l))]);
      Some(Move(closed, Repair).(decision := NeedsRepair, verdict := NotMeasured))
  }

  // ---------------------------------------------------------------- what every ledger satisfies

  /** The current phase is the one last moved to. */
  ghost predicate Logged(l: Ledger) {
    l.phase == if l.history == [] then Prepare else l.history[|l.history| - 1].to
  }

  /** A passed attempt of the suite on the ledger's current candidate. */
  ghost predicate CoveredBy(l: Ledger, suite: Suite, i: int) {
    && 0 <= i < |l.attempts|
    && l.attempts[i].suite == suite && l.attempts[i].verdict == Some(Passed)
    && l.fingerprint == Some(l.attempts[i].fingerprint)
  }

  /** The obtained suites are a prefix of the required ones, each covered on the current candidate. */
  ghost predicate Coverage(l: Ledger) {
    && l.obtained <= REQUIRED
    && l.missing == REQUIRED[|l.obtained|..]
    && forall s :: s in l.obtained ==> exists i :: CoveredBy(l, s, i)
  }

  /** Where the decision and the coverage must agree. */
  ghost predicate Consistent(l: Ledger) {
    && (l.decision == Completed <==> l.missing == [])
    && (l.decision == NeedsRepair && l.attempts != [] ==> l.missing != [] && LastAttempt(l).suite == l.missing[0])
    && (l.phase == Running ==> UnderWay(l))
    && (l.phase != Running ==> l.phase in {Prepare, Repair, Blocked, Complete, Exhausted})
  }

  /** The last attempt is open, on the current candidate, and for the first missing suite. */
  ghost predicate UnderWay(l: Ledger) {
    && l.attempts != []
    && Untouched(LastAttempt(l))
    && l.missing != [] && LastAttempt(l).suite == l.missing[0]
    && l.fingerprint == Some(LastAttempt(l).fingerprint)
  }

  /** As reserved: nothing stored yet. */
  ghost predicate Untouched(a: Attempt) {
    a.verdict == None && a.report == None && a.digest == None && a.sourceChecked == None && !a.ended
  }

  /** A passed attempt carries a hashed report that passed. */
  ghost predicate PassProven(a: Attempt) {
    a.verdict == Some(Passed) ==>
      a.report.Some? && a.report.value.verdict == Passed && a.digest == Some(Sha256(a.report.value))
  }

  /** Attempts are numbered, distinct, at most five, and ended except the one under way; a report in them is theirs. */
  ghost predicate Attempts(l: Ledger) {
    && l.consumed == |l.attempts| <= MAX_ATTEMPTS
    && Contiguous(l.attempts) && DistinctRuns(l.attempts)
    && (forall i :: 0 <= i < |l.attempts| ==> (l.attempts[i].ended <==> !(l.phase == Running && i == |l.attempts| - 1)))
    && (forall i :: 0 <= i < |l.attempts| ==> Owned(l, l.attempts[i]) && PassProven(l.attempts[i]))
  }

  ghost predicate Owned(l: Ledger, a: Attempt) { a.report.Some? ==> Identified(l, a, a.report.value) }

  ghost predicate HashedReport(a: Attempt) { a.report.Some? && a.digest == Some(Sha256(a.report.value)) }

  /** Every ended attempt has its hashed evidence. */
  ghost predicate Evidenced(l: Ledger) {
    forall i :: 0 <= i < |l.attempts| && l.attempts[i].ended ==> HashedReport(l.attempts[i])
  }

  ghost predicate Sound(l: Ledger) {
    && l.required == REQUIRED
    && Logged(l) && Coverage(l) && Consistent(l) && Attempts(l)
  }

  lemma RequiredDistinct()
    ensures DistinctSuites(REQUIRED) && forall s: Suite :: s in REQUIRED
  {
    forall s: Suite ensures s in REQUIRED {
      match s {
        case Regression => assert REQUIRED[0] == s;
        case Faults => assert REQUIRED[1] == s;
        case Performance => assert REQUIRED[2] == s;
        case Confirmation => assert REQUIRED[3] == s;
      }
    }
  }

  lemma {:induction false} WithoutAll(suites: seq<Suite>, obtained: seq<Suite>)
    requires forall i :: 0 <= i < |suites| ==> suites[i] !in obtained
    ensures Without(suites, obtained) == suites
  {
    if suites != [] { WithoutAll(suites[1..], obtained); }
  }

  lemma {:induction false} WithoutPrefix(suites: seq<Suite>, obtained: seq<Suite>, n: nat)
    requires n <= |suites|
    requires forall i :: 0 <= i < n ==> suites[i] in obtained
    requires forall i :: n <= i < |suites| ==> suites[i] !in obtained
    ensures Without(suites, obtained) == suites[n..]
  {
    if n == 0 {
      WithoutAll(suites, obtained);
    } else {
      WithoutPrefix(suites[1..], obtained, n - 1);
    }
  }

  /** Filtering a prefix out of the required suites leaves the rest. */
  lemma MissingOfPrefix(obtained: seq<Suite>)
    requires obtained <= REQUIRED
    ensures Missing(obtained) == REQUIRED[|obtained|..] && DistinctSuites(obtained)
  {
    RequiredDistinct();
    forall i | |obtained| <= i < |REQUIRED| ensures REQUIRED[i] !in obtained {
      forall j | 0 <= j < |obtained| ensures obtained[j] != REQUIRED[i] {}
    }
    WithoutPrefix(REQUIRED, obtained, |obtained|);
  }

  /** A sound ledger passes its own resume checks exactly when every ended attempt has its evidence. */
  lemma ValidIffEvidenced(l: Ledger)
    requires Sound(l)
    ensures ValidLedger(l) <==> Evidenced(l)
  {
    MissingOfPrefix(l.obtained);
  }

  lemma NewLedgerSound(campaignId: string, performanceKind: bool)
    ensures Sound(NewLedger(campaignId, performanceKind)) && Evidenced(NewLedger(campaignId, performanceKind))
  {
  }

  /** In a sound ledger the suite to run next is the first missing one, on the repair branch too. */
  lemma ExpectedIsFirstMissing(l: Ledger)
    requires Sound(l)
    ensures ExpectedSuite(l) == if l.missing == [] then None else Some(l.missing[0])
    ensures l.missing != [] ==> l.missing[0] == REQUIRED[|l.obtained|]
  {
  }

  /** After inspecting the source: the same attempts, coverage of the observed candidate only. */
  lemma InspectedFacts(l: Ledger, observed: Fingerprint)
    requires Sound(l) && l.phase != Running
    ensures var c := Inspected(l, observed);
            && Coverage(c) && c.fingerprint == Some(observed)
            && c.attempts == l.attempts && c.required == REQUIRED && c.campaignId == l.campaignId
            && (l.missing != [] ==> c.missing != [] && ExpectedSuite(c) == Some(c.missing[0]))
            && (l.missing != [] ==> c.decision != Completed)
            && c.consumed == l.consumed && c.performanceKind == l.performanceKind
  {
    var c := Inspected(l, observed);
    if l.fingerprint.Some? && l.fingerprint.value != observed {
      assert REQUIRED[0..] == REQUIRED;
    } else {
      forall s | s in c.obtained ensures exists i :: CoveredBy(c, s, i) {
        var i :| CoveredBy(l, s, i);
        assert l.fingerprint.Some?;
        assert CoveredBy(c, s, i);
      }
    }
  }

  /** A reservation keeps the ledger sound and resumable. */
  lemma ReservedSound(l: Ledger, input: Input)
    requires Sound(l) && Evidenced(l) && l.phase != Running && l.missing != []
    requires Reserved(l, input).Some?
    requires input.runId != "" && forall i :: 0 <= i < |l.attempts| ==> l.attempts[i].runId != input.runId
    ensures var r := Reserved(l, input).value;
            Sound(r) && Evidenced(r) && r.phase == Running && r.consumed == l.consumed + 1
  {
    hide Inspected, ValidLedger;
    InspectedFacts(l, input.observed);
    var c := Inspected(l, input.observed);
    var r := Reserved(l, input).value;
    forall s | s in r.obtained ensures exists i :: CoveredBy(r, s, i) {
      var i :| CoveredBy(c, s, i);
      assert CoveredBy(r, s, i);
    }
    assert Attempts(r) by {
      assert forall i :: 0 <= i < |l.attempts| ==> r.attempts[i] == l.attempts[i];
    }
  }

  lemma CoverageKept(l: Ledger, r: Ledger)
    requires Coverage(l) && r.obtained == l.obtained && r.missing == l.missing && r.fingerprint == l.fingerprint
    requires |r.attempts| == |l.attempts| > 0 && LastAttempt(l).verdict == None
    requires forall i :: 0 <= i < |l.attempts| - 1 ==> r.attempts[i] == l.attempts[i]
    ensures Coverage(r)
  {
    forall s | s in r.obtained ensures exists i :: CoveredBy(r, s, i) {
      var i :| CoveredBy(l, s, i);
      assert CoveredBy(r, s, i);
    }
  }

  /** A passed attempt extends the prefix of obtained suites by one. */
  lemma CoverageGrows(l: Ledger, r: Ledger, suite: Suite)
    requires Coverage(l) && l.missing != [] && suite == l.missing[0]
    requires r.obtained == l.obtained + [suite] && r.missing == Missing(r.obtained) && r.fingerprint == l.fingerprint
    requires |r.attempts| == |l.attempts| > 0 && LastAttempt(l).verdict == None
    requires forall i :: 0 <= i < |l.attempts| - 1 ==> r.attempts[i] == l.attempts[i]
    requires CoveredBy(r, suite, |r.attempts| - 1)
    ensures Coverage(r)
  {
    assert r.obtained <= REQUIRED;
    MissingOfPrefix(r.obtained);
    forall s | s in r.obtained ensures exists i :: CoveredBy(r, s, i) {
      if s == suite {
        assert CoveredBy(r, s, |r.attempts| - 1);
      } else {
        assert s in l.obtained;
        var i :| CoveredBy(l, s, i);
        assert CoveredBy(r, s, i);
      }
    }
  }

  lemma FirstMissingIsNew(l: Ledger)
    requires Coverage(l) && l.missing != []
    ensures l.missing[0] !in l.obtained
  {
  }

  lemma ApplyNext(a: Attempt, stores: seq<Store>, k: nat)
    requires k < |stores|
    ensures ApplyAll(a, stores[..k + 1]) == Apply(ApplyAll(a, stores[..k]), stores[k])
  {
    assert stores[..k + 1][..k] == stores[..k];
  }

  // The attempt after the first `k` stores of the try block.
  lemma TriedFields(l: Ledger, a: Attempt, p: Process, k: nat)
    requires k <= |TryStores(l, a, p)|
    ensures k > 0 ==> p.report.Some?
    ensures ApplyAll(a, TryStores(l, a, p)[..k]) ==
              if k == 0 then a
              else
                var r, same := p.report.value, SourceUnchanged(a, p.report.value, p.after);
                a.(report := Some(r), digest := if k >= 2 then Some(Sha256(r)) else a.digest,
                   verdict := if k >= 5 then Some(Failed) else if k >= 3 then Some(r.verdict) else a.verdict,
                   sourceChecked := if k >= 4 then Some(same) else a.sourceChecked)
  {
    hide Identified, SourceUnchanged;
    if k > 0 {
      TriedFields(l, a, p, k - 1);
      ApplyNext(a, TryStores(l, a, p), k - 1);
    }
  }

  // The attempt after the first `h` stores of a handler.
  lemma HandledFields(l: Ledger, a: Attempt, t: Attempt, h: nat)
    requires h <= 4
    ensures ApplyAll(t, HandlerStores(l, a)[..h]) ==
              var r := InterruptedReport(l, a);
              t.(verdict := if h >= 1 then Some(NotMeasured) else t.verdict, ended := h >= 2 || t.ended,
                 report := if h >= 3 then Some(r) else t.report, digest := if h >= 4 then Some(Sha256(r)) else t.digest)
  {
    if h > 0 {
      HandledFields(l, a, t, h - 1);
      ApplyNext(t, HandlerStores(l, a), h - 1);
    }
  }

  /** What the closing block finds in the attempt, by how far the try block and a handler came. */
  lemma AssessedFields(l: Ledger, a: Attempt, o: Outcome)
    requires Untouched(a)
    ensures var k, h, r := Tried(l, a, o), Handled(l, a, o), o.process.report;
            && (k > 0 ==> r.Some? && Identified(l, a, r.value))
            && Assessed(l, a, o) == a.(ended := true,
                 report := if h >= 3 then Some(InterruptedReport(l, a)) else if k >= 1 then r else None,
                 digest := if h >= 4 then Some(Sha256(InterruptedReport(l, a)))
                           else if k >= 2 then Some(Sha256(r.value)) else None,
                 verdict := if h >= 1 then Some(NotMeasured) else if k >= 5 then Some(Failed)
                            else if k >= 3 then Some(r.value.verdict) else None,
                 sourceChecked := if k >= 4 then Some(SourceUnchanged(a, r.value, o.process.after)) else None)
  {
    var k := Tried(l, a, o);
    TriedFields(l, a, o.process, k);
    HandledFields(l, a, ApplyAll(a, TryStores(l, a, o.process)[..k]), Handled(l, a, o));
    hide ApplyAll, SourceUnchanged, InterruptedReport;
  }

  /** What assessing an open attempt can change. */
  lemma AssessedFacts(l: Ledger, a: Attempt, o: Outcome)
    requires Untouched(a)
    ensures var b := Assessed(l, a, o);
            && b.ended && b.index == a.index && b.runId == a.runId && b.suite == a.suite && b.fingerprint == a.fingerprint
            && Owned(l, b) && PassProven(b)
            && (HashedReport(b) <==> !Unevidenced(l, a, o))
  {
    hide Assessed, Tried, Handled, TryStores, SourceUnchanged;
    AssessedFields(l, a, o);
  }

  /** The exception kept the evidence from being complete: it fell before the digest of the process's report in the try
      block or before a handler's first store of its own record, or between that record and its digest. */
  predicate Unevidenced(l: Ledger, a: Attempt, o: Outcome) {
    var k, h := Tried(l, a, o), Handled(l, a, o);
    if h < 3 then k < 2 else h == 3 && !(k >= 2 && o.process.report == Some(InterruptedReport(l, a)))
  }

  ghost predicate SameRun(l: Ledger, r: Ledger) {
    && r.required == l.required && r.campaignId == l.campaignId && r.consumed == l.consumed
    && |r.attempts| == |l.attempts| > 0
    && (forall i :: 0 <= i < |l.attempts| - 1 ==> r.attempts[i] == l.attempts[i])
    && LastAttempt(r).ended && LastAttempt(r).index == LastAttempt(l).index && LastAttempt(r).runId == LastAttempt(l).runId
    && Owned(r, LastAttempt(r)) && PassProven(LastAttempt(r))
  }

  lemma AttemptsKept(l: Ledger, r: Ledger)
    requires Attempts(l) && l.phase == Running && r.phase != Running && SameRun(l, r)
    ensures Attempts(r)
  {
    hide PassProven;
    forall i | 0 <= i < |r.attempts| ensures Owned(r, r.attempts[i]) && PassProven(r.attempts[i]) {
      if i < |l.attempts| - 1 { assert r.attempts[i] == l.attempts[i]; }
    }
  }

  /** The ledger as the decision finds it. */
  function BeforeDecision(l: Ledger, o: Outcome): Ledger
    requires l.attempts != []
  {
    var a := Assessed(l, LastAttempt(l), o);
    Move(Move(Move(Observed(l, o).(attempts := l.attempts[|l.attempts| - 1 := a]), Assess), Cleanup), Decide)
  }

  /** What the decision builds on: the attempt is closed, everything else is as the reservation left it. */
  ghost predicate Closed(l: Ledger, b: Ledger) {
    && SameRun(l, b) && Coverage(b)
    && b.obtained == l.obtained && b.missing == l.missing && b.fingerprint == l.fingerprint
    && LastAttempt(b).suite == LastAttempt(l).suite && LastAttempt(b).fingerprint == LastAttempt(l).fingerprint
  }

  lemma BeforeDecisionFacts(l: Ledger, o: Outcome)
    requires Sound(l) && l.phase == Running
    ensures Closed(l, BeforeDecision(l, o))
    ensures LastAttempt(BeforeDecision(l, o)) == Assessed(l, LastAttempt(l), o)
  {
    hide Assessed, PassProven, HashedReport, Unevidenced, Missing;
    AssessedFacts(l, LastAttempt(l), o);
    CoverageKept(l, BeforeDecision(l, o));
  }

  lemma DecidedPassed(l: Ledger, b: Ledger)
    requires Sound(l) && l.phase == Running && Closed(l, b) && LastAttempt(b).verdict == Some(Passed)
    ensures Coverage(Decided(b)) && Consistent(Decided(b))
  {
    hide PassProven, Owned, Attempts, Untouched, Missing, CoveredBy;
    assert UnderWay(l);
    FirstMissingIsNew(l);
    var suite, r := LastAttempt(b).suite, Decided(b);
    assert r.obtained == l.obtained + [suite];
    LastCovers(r);
    UntouchedUnjudged(LastAttempt(l));
    CoverageGrows(l, r, suite);
  }

  lemma UntouchedUnjudged(a: Attempt)
    requires Untouched(a)
    ensures a.verdict == None
  {
  }

  // A last attempt that passed on the current candidate covers its suite.
  lemma LastCovers(r: Ledger)
    requires r.attempts != [] && LastAttempt(r).verdict == Some(Passed) && r.fingerprint == Some(LastAttempt(r).fingerprint)
    ensures CoveredBy(r, LastAttempt(r).suite, |r.attempts| - 1)
  {
  }

  lemma DecidedOtherwise(l: Ledger, b: Ledger)
    requires Sound(l) && l.phase == Running && Closed(l, b) && LastAttempt(b).verdict != Some(Passed)
    ensures Coverage(Decided(b)) && Consistent(Decided(b))
  {
    hide PassProven, Owned, DistinctRuns, Missing;
    CoverageKept(l, Decided(b));
  }

  /** However an attempt ends, wherever an exception falls, the ledger written at its end is sound. */
  lemma ConcludedSound(l: Ledger, o: Outcome)
    requires Sound(l) && l.phase == Running
    ensures Sound(Concluded(l, o)) && Concluded(l, o).phase != Running && SameRun(l, Concluded(l, o))
    ensures LastAttempt(Concluded(l, o)) == Assessed(l, LastAttempt(l), o)
  {
    hide Assessed, PassProven, Identified, DistinctRuns, Coverage, Consistent, Missing;
    BeforeDecisionFacts(l, o);
    var b, r := BeforeDecision(l, o), Concluded(l, o);
    assert UnderWay(l) by { RunningIsUnderWay(l); }
    if LastAttempt(b).verdict == Some(Passed) { DecidedPassed(l, b); } else { DecidedOtherwise(l, b); }
    OwnedSame(b, r);
    AttemptsKept(l, r);
  }

  lemma RunningIsUnderWay(l: Ledger)
    requires Sound(l) && l.phase == Running
    ensures UnderWay(l)
  {
  }

  lemma OwnedSame(b: Ledger, r: Ledger)
    requires r.campaignId == b.campaignId
    ensures forall a :: Owned(b, a) <==> Owned(r, a)
  {
  }

  /** The ledger written at the end of an attempt passes the resume checks exactly unless an exception kept the
      attempt's evidence from being complete: the closing block ends the attempt all the same. */
  lemma ConcludedValidIff(l: Ledger, o: Outcome)
    requires Sound(l) && Evidenced(l) && l.phase == Running
    ensures ValidLedger(Concluded(l, o)) <==> !Unevidenced(l, LastAttempt(l), o)
  {
    hide Assessed, PassProven, Owned, DistinctRuns, Coverage, Consistent, Missing, Concluded, ValidLedger, HashedReport, Unevidenced;
    RunningIsUnderWay(l);
    var r := Concluded(l, o);
    ConcludedSound(l, o);
    ValidIffEvidenced(r);
    AssessedFacts(l, LastAttempt(l), o);
    var n := |r.attempts| - 1;
    assert r.attempts[n] == Assessed(l, LastAttempt(l), o);
    forall i | 0 <= i < n ensures r.attempts[i] == l.attempts[i] && l.attempts[i].ended && HashedReport(r.attempts[i]) {
    }
  }

  /** An attempt that returns to the loop has its evidence. */
  lemma ReturnsEvidenced(l: Ledger, a: Attempt, o: Outcome)
    requires Returns(o)
    ensures !Unevidenced(l, a, o)
  {
  }

  /** Recovery closes the open attempt with the controller's own record; the result is sound and resumable. */
  lemma RecoveredSound(l: Ledger)
    requires Sound(l) && Evidenced(l)
    ensures Recovered(l).Some?
    ensures var r := Recovered(l).value;
            && Sound(r) && Evidenced(r) && r.phase != Running
            && r.consumed == l.consumed && r.obtained == l.obtained && r.fingerprint == l.fingerprint
            && (l.phase == Running <==> r != l)
            && (l.phase == Running ==> r.decision == NeedsRepair && LastAttempt(r).verdict == Some(NotMeasured))
  {
    if l.phase == Running {
      hide DistinctRuns;
      var r := Recovered(l).value;
      CoverageKept(l, r);
      AttemptsKept(l, r);
      forall i | 0 <= i < |r.attempts| && r.attempts[i].ended ensures HashedReport(r.attempts[i]) {
        if i < |r.attempts| - 1 { assert r.attempts[i] == l.attempts[i]; }
      }
    }
  }

  // ---------------------------------------------------------------- runs: sessions, crashes, resumes

  /** The controller process: not running, between attempts, or inside one. */
  datatype Session =
    | Off
    | Between(ledger: Ledger, authorized: bool)
    | Inside(ledger: Ledger)

  /** The ledger file, and the process that may be using it. */
  datatype World = World(disk: Option<Ledger>, session: Session)

  datatype Action =
    | Open(campaignId: string, performanceKind: bool)
    | Resume
    | Begin(input: Input)
    | Conclude(outcome: Outcome)
    | Quit
    | Crash

  predicate MayAttempt(l: Ledger, authorized: bool) { l.decision in {Start, NextSuite} || authorized }

  predicate FreshRun(l: Ledger, runId: string) {
    runId != "" && forall i :: 0 <= i < |l.attempts| ==> l.attempts[i].runId != runId
  }

  predicate Enabled(w: World, a: Action) {
    match a
    case Open(_, _) => w.session.Off?
    case Resume => w.session.Off? && w.disk.Some?
    case Begin(input) =>
      w.session.Between? && MayAttempt(w.session.ledger, w.session.authorized) && FreshRun(w.session.ledger, input.runId)
    case Conclude(_) =>
      w.session.Inside? && w.session.ledger.attempts != []
    case Quit => w.session.Between? && !MayAttempt(w.session.ledger, w.session.authorized)
    case Crash => true
  }

  /** One step of the controller. Every write of the ledger file is atomic. */
  function Step(w: World, a: Action): World
    requires Enabled(w, a)
  {
    match a
    case Open(id, kind) => w.(session := Between(NewLedger(id, kind), false))
    case Resume =>
      if !ValidLedger(w.disk.value) || Recovered(w.disk.value).None? then w
      else
        var l := Recovered(w.disk.value).value;
        World(Some(l), Between(l, l.decision in {NeedsRepair, DecidedBlocked}))
    case Begin(input) =>
      (match Reserved(w.session.ledger, input)
       case None => w.(session := Off)
       case Some(l) => World(Some(l), Inside(l)))
    case Conclude(o) =>
      var l := Concluded(w.session.ledger, o);
      World(Some(l), if Returns(o) && l.decision == NextSuite then Between(l, false) else Off)
    case Quit => World(Some(w.session.ledger), Off)
    case Crash => w.(session := Off)
  }

  ghost predicate WorldSound(w: World) {
    && (w.disk.Some? ==> Sound(w.disk.value))
    && (!w.session.Off? ==> Sound(w.session.ledger) && Evidenced(w.session.ledger))
    && (w.session.Between? ==> w.session.ledger.phase != Running)
    && (w.session.Between? && w.session.authorized ==> w.session.ledger.decision in {NeedsRepair, DecidedBlocked})
    && (w.session.Inside? ==> w.session.ledger.phase == Running)
  }

  lemma StepSound(w: World, a: Action)
    requires Enabled(w, a) && WorldSound(w)
    ensures WorldSound(Step(w, a))
  {
    hide Sound, Evidenced, ValidLedger, Reserved, Concluded, Recovered, Unevidenced;
    match a {
      case Open(id, kind) => NewLedgerSound(id, kind); NewLedgerPhase(id, kind);
      case Resume =>
        ValidIffEvidenced(w.disk.value);
        if ValidLedger(w.disk.value) { RecoveredSound(w.disk.value); }
      case Begin(input) =>
        DecisionMeansMissing(w.session.ledger);
        if Reserved(w.session.ledger, input).Some? { ReservedSound(w.session.ledger, input); }
      case Conclude(o) =>
        ConcludedSound(w.session.ledger, o);
        ConcludedValidIff(w.session.ledger, o);
        ValidIffEvidenced(Concluded(w.session.ledger, o));
        if Returns(o) { ReturnsEvidenced(w.session.ledger, LastAttempt(w.session.ledger), o); }
      case Quit =>
      case Crash =>
    }
  }

  lemma NewLedgerPhase(id: string, kind: bool)
    ensures NewLedger(id, kind).phase != Running
  {
  }

  lemma DecisionMeansMissing(l: Ledger)
    requires Sound(l) && l.decision != Completed
    ensures l.missing != []
  {
  }

  ghost predicate Run(worlds: seq<World>, actions: seq<Action>) {
    && |worlds| == |actions| + 1
    && worlds[0] == World(None, Off)
    && forall i :: 0 <= i < |actions| ==> Enabled(worlds[i], actions[i]) && worlds[i + 1] == Step(worlds[i], actions[i])
  }

  /** Across any sequence of attempts, source changes, crashes, interruptions and resumes, every ledger on disk and in
      memory is sound: at most five attempts, each with its own evidence if any, and coverage that is a prefix of the
      required suites and belongs to the current candidate. */
  lemma {:induction false} AlwaysSound(worlds: seq<World>, actions: seq<Action>, n: nat)
    requires Run(worlds, actions) && n < |worlds|
    ensures WorldSound(worlds[n])
  {
    hide WorldSound, Enabled, Step;
    if n == 0 {
      OffIsSound();
    } else {
      AlwaysSound(worlds, actions, n - 1);
      assert Enabled(worlds[n - 1], actions[n - 1]) && worlds[n - 1 + 1] == Step(worlds[n - 1], actions[n - 1]);
      StepSound(worlds[n - 1], actions[n - 1]);
    }
  }

  lemma OffIsSound()
    ensures WorldSound(World(None, Off))
  {
  }

  // ---------------------------------------------------------------- what a campaign proves

  /** Whenever the decision is complete, every required suite has a passed attempt on the current candidate, and that
      attempt holds its own hashed report, which passed. */
  lemma CompleteMeansCovered(l: Ledger, suite: Suite)
    requires Sound(l) && l.decision == Completed
    ensures exists i :: CoveredBy(l, suite, i) && Owned(l, l.attempts[i]) && HashedReport(l.attempts[i])
                        && l.attempts[i].report.value.verdict == Passed
  {
    RequiredDistinct();
    assert |l.missing| == |REQUIRED| - |l.obtained|;
    assert l.obtained == REQUIRED;
    assert suite in l.obtained;
    var i :| CoveredBy(l, suite, i);
    assert Owned(l, l.attempts[i]) && PassProven(l.attempts[i]);
  }
}
