/** Conservation of campaign evidence: no passed attempt is forgotten and no coverage is invented, across source
    changes, failures, crashes and resumes. */
module CampaignEvidence {
  import opened Wire
  import opened CampaignLedger

  ghost predicate PassedAt(l: Ledger, i: int, suite: Suite, candidate: Fingerprint) {
    && 0 <= i < |l.attempts| && l.attempts[i].verdict == Some(Passed)
    && l.attempts[i].suite == suite && l.attempts[i].fingerprint == candidate
  }

  /** An attempt of the suite passed on the candidate. */
  ghost predicate PassedOn(l: Ledger, suite: Suite, candidate: Fingerprint) { exists i :: PassedAt(l, i, suite, candidate) }

  ghost predicate InvalidatedAt(l: Ledger, k: int, suite: Suite, candidate: Fingerprint) {
    0 <= k < |l.invalidated| && l.invalidated[k].fingerprint == candidate && suite in l.invalidated[k].suites
  }

  /** The ledger's coverage speaks of the suite on the candidate: as obtained, or as invalidated by a later change. */
  ghost predicate Claimed(l: Ledger, suite: Suite, candidate: Fingerprint) {
    || (l.fingerprint == Some(candidate) && suite in l.obtained)
    || exists k :: InvalidatedAt(l, k, suite, candidate)
  }

  ghost predicate Conserved(l: Ledger) { forall s, c :: PassedOn(l, s, c) <==> Claimed(l, s, c) }

  // The same coverage makes the same claims.
  lemma SameClaims(l: Ledger, r: Ledger, s: Suite, c: Fingerprint)
    requires r.obtained == l.obtained && r.fingerprint == l.fingerprint && r.invalidated == l.invalidated
    ensures Claimed(r, s, c) <==> Claimed(l, s, c)
  {
    if k :| InvalidatedAt(l, k, s, c) { assert InvalidatedAt(r, k, s, c); }
    if k :| InvalidatedAt(r, k, s, c) { assert InvalidatedAt(l, k, s, c); }
  }

  lemma CoverageHasCandidate(l: Ledger)
    requires Coverage(l) && l.obtained != []
    ensures l.fingerprint.Some?
  {
    assert l.obtained[0] in l.obtained;
  }

  // The claims of a replaced candidate move to a record of their own.
  lemma ReplacedClaims(l: Ledger, r: Ledger, previous: Fingerprint, at: nat, s: Suite, c: Fingerprint)
    requires l.fingerprint == Some(previous) && r.obtained == []
    requires r.invalidated == l.invalidated + [Invalidation(previous, l.obtained, at)]
    ensures Claimed(r, s, c) <==> Claimed(l, s, c)
  {
    var n := |l.invalidated|;
    if k :| InvalidatedAt(l, k, s, c) { assert InvalidatedAt(r, k, s, c); }
    if previous == c && s in l.obtained { assert InvalidatedAt(r, n, s, c); }
    if k :| InvalidatedAt(r, k, s, c) && k < n { assert InvalidatedAt(l, k, s, c); }
  }

  // A first candidate finds nothing claimed as obtained.
  lemma FirstClaims(l: Ledger, r: Ledger, s: Suite, c: Fingerprint)
    requires l.obtained == [] && r.obtained == [] && r.invalidated == l.invalidated
    ensures Claimed(r, s, c) <==> Claimed(l, s, c)
  {
    if k :| InvalidatedAt(l, k, s, c) { assert InvalidatedAt(r, k, s, c); }
    if k :| InvalidatedAt(r, k, s, c) { assert InvalidatedAt(l, k, s, c); }
  }

  /** Inspecting the source moves the claims of a replaced candidate, and keeps them all. */
  lemma InspectedClaims(l: Ledger, observed: Fingerprint, s: Suite, c: Fingerprint)
    requires Coverage(l)
    ensures Claimed(Inspected(l, observed), s, c) <==> Claimed(l, s, c)
  {
    hide Claimed, Coverage;
    var r := Inspected(l, observed);
    if l.obtained != [] { CoverageHasCandidate(l); }
    if l.fingerprint.None? {
      FirstClaims(l, r, s, c);
    } else if l.fingerprint.value != observed {
      ReplacedClaims(l, r, l.fingerprint.value, l.consumed + 1, s, c);
    } else {
      SameClaims(l, r, s, c);
    }
  }

  // The ledgers agree on every attempt but the last of each, which has not passed.
  lemma SamePasses(l: Ledger, r: Ledger, n: nat, s: Suite, c: Fingerprint)
    requires n <= |l.attempts| <= n + 1 && n <= |r.attempts| <= n + 1
    requires forall i :: 0 <= i < n ==> r.attempts[i] == l.attempts[i]
    requires |l.attempts| > n ==> l.attempts[n].verdict != Some(Passed)
    requires |r.attempts| > n ==> r.attempts[n].verdict != Some(Passed)
    ensures PassedOn(r, s, c) <==> PassedOn(l, s, c)
  {
    if i :| PassedAt(l, i, s, c) { assert PassedAt(r, i, s, c); }
    if i :| PassedAt(r, i, s, c) { assert PassedAt(l, i, s, c); }
  }

  lemma ReservedConserved(l: Ledger, input: Input)
    requires Sound(l) && l.phase != Running && Conserved(l) && Reserved(l, input).Some?
    ensures Conserved(Reserved(l, input).value)
  {
    hide PassedOn, Claimed, ValidLedger, Inspected, DistinctRuns;
    InspectedFacts(l, input.observed);
    var c, r := Inspected(l, input.observed), Reserved(l, input).value;
    assert r.attempts[..|l.attempts|] == l.attempts;
    forall s, f ensures PassedOn(r, s, f) <==> Claimed(r, s, f) {
      SamePasses(l, r, |l.attempts|, s, f);
      InspectedClaims(l, input.observed, s, f);
      SameClaims(c, r, s, f);
    }
  }

  lemma RecoveredConserved(l: Ledger)
    requires Sound(l) && Evidenced(l) && Conserved(l) && Recovered(l).Some?
    ensures Conserved(Recovered(l).value)
  {
    hide PassedOn, Claimed, DistinctRuns, Coverage;
    var r := Recovered(l).value;
    if l.phase == Running {
      forall s, f ensures PassedOn(r, s, f) <==> Claimed(r, s, f) {
        SamePasses(l, r, |l.attempts| - 1, s, f);
        SameClaims(l, r, s, f);
      }
    }
  }

  // What the end of an attempt does to the coverage.
  lemma ConcludedCoverage(l: Ledger, o: Outcome)
    requires l.attempts != []
    ensures var a, r := Assessed(l, LastAttempt(l), o), Concluded(l, o);
            && r.fingerprint == l.fingerprint && r.invalidated == l.invalidated
            && r.attempts == l.attempts[|l.attempts| - 1 := a]
            && r.obtained == if a.verdict == Some(Passed) && a.suite !in l.obtained then l.obtained + [a.suite] else l.obtained
  {
    hide Assessed, Missing;
  }

  lemma ConcludedConserved(l: Ledger, o: Outcome)
    requires Sound(l) && l.phase == Running && Conserved(l)
    ensures Conserved(Concluded(l, o))
  {
    hide PassedOn, Claimed, Assessed, Concluded, Coverage, HashedReport, PassProven, Unevidenced, Attempts, Sound;
    RunningIsUnderWay(l);
    AssessedFacts(l, LastAttempt(l), o);
    ConcludedCoverage(l, o);
    var a, r, n := Assessed(l, LastAttempt(l), o), Concluded(l, o), |l.attempts| - 1;
    forall s, f ensures PassedOn(r, s, f) <==> Claimed(r, s, f) {
      if a.verdict == Some(Passed) {
        PassAdds(l, r, s, f);
        ClaimAdds(l, r, a.suite, a.fingerprint, s, f);
      } else {
        SamePasses(l, r, n, s, f);
        SameClaims(l, r, s, f);
      }
    }
  }

  lemma PassAdds(l: Ledger, r: Ledger, s: Suite, c: Fingerprint)
    requires |r.attempts| == |l.attempts| > 0 && LastAttempt(l).verdict == None && LastAttempt(r).verdict == Some(Passed)
    requires forall i :: 0 <= i < |l.attempts| - 1 ==> r.attempts[i] == l.attempts[i]
    ensures PassedOn(r, s, c) <==> PassedOn(l, s, c) || (LastAttempt(r).suite == s && LastAttempt(r).fingerprint == c)
  {
    if i :| PassedAt(l, i, s, c) { assert PassedAt(r, i, s, c); }
    if LastAttempt(r).suite == s && LastAttempt(r).fingerprint == c { assert PassedAt(r, |r.attempts| - 1, s, c); }
    if i :| PassedAt(r, i, s, c) && i < |r.attempts| - 1 { assert PassedAt(l, i, s, c); }
  }

  lemma ClaimAdds(l: Ledger, r: Ledger, suite: Suite, candidate: Fingerprint, s: Suite, c: Fingerprint)
    requires r.fingerprint == l.fingerprint == Some(candidate) && r.invalidated == l.invalidated
    requires r.obtained == if suite in l.obtained then l.obtained else l.obtained + [suite]
    ensures Claimed(r, s, c) <==> Claimed(l, s, c) || (suite == s && candidate == c)
  {
    if k :| InvalidatedAt(l, k, s, c) { assert InvalidatedAt(r, k, s, c); }
    if k :| InvalidatedAt(r, k, s, c) { assert InvalidatedAt(l, k, s, c); }
  }

  ghost predicate WorldConserved(w: World) {
    (w.disk.Some? ==> Conserved(w.disk.value)) && (!w.session.Off? ==> Conserved(w.session.ledger))
  }

  lemma NewLedgerConserved(id: string, kind: bool)
    ensures Conserved(NewLedger(id, kind))
  {
  }

  lemma StepConserved(w: World, a: Action)
    requires Enabled(w, a) && WorldSound(w) && WorldConserved(w)
    ensures WorldConserved(Step(w, a))
  {
    hide Sound, Evidenced, Conserved, ValidLedger, Reserved, Concluded, Recovered, NewLedger;
    match a {
      case Open(id, kind) => NewLedgerConserved(id, kind);
      case Resume =>
        ValidIffEvidenced(w.disk.value);
        if ValidLedger(w.disk.value) && Recovered(w.disk.value).Some? { RecoveredConserved(w.disk.value); }
      case Begin(input) =>
        if Reserved(w.session.ledger, input).Some? { ReservedConserved(w.session.ledger, input); }
      case Conclude(o) => ConcludedConserved(w.session.ledger, o);
      case Quit =>
      case Crash =>
    }
  }

  /** In every run, the suites that passed on a candidate are exactly the ones that the coverage records for it, as
      obtained or as invalidated. */
  lemma {:induction false} AlwaysConserved(worlds: seq<World>, actions: seq<Action>, n: nat)
    requires Run(worlds, actions) && n < |worlds|
    ensures WorldConserved(worlds[n])
  {
    hide Conserved, WorldSound, Enabled, Step;
    if n > 0 {
      AlwaysConserved(worlds, actions, n - 1);
      AlwaysSound(worlds, actions, n - 1);
      assert Enabled(worlds[n - 1], actions[n - 1]) && worlds[n - 1 + 1] == Step(worlds[n - 1], actions[n - 1]);
      StepConserved(worlds[n - 1], actions[n - 1]);
    }
  }
}
