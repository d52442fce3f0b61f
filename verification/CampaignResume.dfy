/** What the resume checks accept, on any ledger a file may hold. */
module CampaignResume {
  import opened Wire
  import opened CampaignLedger

  function Rank(s: Suite): nat {
    match s
    case Regression => 0
    case Faults => 1
    case Performance => 2
    case Confirmation => 3
  }

  ghost predicate Ranked(suites: seq<Suite>) { forall i, j :: 0 <= i < j < |suites| ==> Rank(suites[i]) < Rank(suites[j]) }

  lemma {:induction false} WithoutMembers(suites: seq<Suite>, obtained: seq<Suite>)
    ensures forall s :: s in Without(suites, obtained) <==> s in suites && s !in obtained
    ensures Ranked(suites) ==> Ranked(Without(suites, obtained))
  {
    if suites != [] {
      var rest := suites[1..];
      WithoutMembers(rest, obtained);
      assert suites == [suites[0]] + rest;
      if Ranked(suites) {
        assert Ranked(rest);
        forall s | s in Without(rest, obtained) ensures Rank(suites[0]) < Rank(s) {
          var k :| 0 <= k < |rest| && rest[k] == s;
          assert suites[k + 1] == s;
        }
      }
    }
  }

  // A ranked list is determined by its members.
  lemma {:induction false} RankedUnique(a: seq<Suite>, b: seq<Suite>)
    requires Ranked(a) && Ranked(b) && forall s :: s in a <==> s in b
    ensures a == b
  {
    hide Rank, Ranked;
    if a != [] { assert a[0] in a; }
    if b != [] { assert b[0] in b; }
    if a != [] && b != [] {
      var x, y := a[|a| - 1], b[|b| - 1];
      LastIsGreatest(a, y);
      LastIsGreatest(b, x);
      RankDistinct(x, y);
      var p, q := a[..|a| - 1], b[..|b| - 1];
      forall s ensures s in p <==> s in q {
        FrontMembers(a, s);
        FrontMembers(b, s);
      }
      FrontMembers(a, x);
      FrontMembers(b, y);
      RankedUnique(p, q);
      assert a == p + [x] && b == q + [y];
    }
  }

  lemma RankDistinct(x: Suite, y: Suite)
    ensures Rank(x) == Rank(y) ==> x == y
  {
  }

  lemma LastIsGreatest(a: seq<Suite>, s: Suite)
    requires Ranked(a) && s in a
    ensures a != [] && Rank(s) <= Rank(a[|a| - 1])
  {
    var k :| 0 <= k < |a| && a[k] == s;
  }

  lemma FrontMembers(a: seq<Suite>, s: Suite)
    requires Ranked(a) && a != []
    ensures s in a[..|a| - 1] <==> s in a && s != a[|a| - 1]
    ensures Ranked(a[..|a| - 1])
  {
    var front := a[..|a| - 1];
    if s in a && s != a[|a| - 1] {
      var k :| 0 <= k < |a| && a[k] == s;
      assert front[k] == s;
    }
  }

  /** The missing suites are those not obtained, in the required order. */
  lemma MissingIff(missing: seq<Suite>, obtained: seq<Suite>)
    ensures missing == Missing(obtained) <==> Ranked(missing) && forall s :: s in missing <==> s !in obtained
  {
    RequiredDistinct();
    assert Ranked(REQUIRED);
    WithoutMembers(REQUIRED, obtained);
    if Ranked(missing) && forall s :: s in missing <==> s !in obtained { RankedUnique(missing, Missing(obtained)); }
  }

  function Members<T>(s: seq<T>): set<T> { set x | x in s }

  lemma {:induction false} MembersCount<T>(s: seq<T>)
    ensures |Members(s)| <= |s|
    ensures |Members(s)| == |s| <==> forall i, j :: 0 <= i < j < |s| ==> s[i] != s[j]
  {
    if s != [] {
      var front, x := s[..|s| - 1], s[|s| - 1];
      MembersCount(front);
      assert forall i :: 0 <= i < |front| ==> front[i] == s[i];
      assert Members(s) == Members(front) + {x};
      if x in front {
        var k :| 0 <= k < |front| && front[k] == x;
        assert Members(s) == Members(front);
        assert s[k] == s[|s| - 1];
      } else {
        assert x !in Members(front);
      }
    }
  }

  function RunIds(attempts: seq<Attempt>): (r: seq<string>)
    ensures |r| == |attempts| && forall i :: 0 <= i < |r| ==> r[i] == attempts[i].runId
  {
    if attempts == [] then [] else RunIds(attempts[..|attempts| - 1]) + [attempts[|attempts| - 1].runId]
  }

  /** The evidence of one attempt: with a report, its own hash and identity; without one, the attempt has not ended. */
  ghost predicate EvidenceChecks(l: Ledger, a: Attempt) {
    match a.report
    case None => !a.ended
    case Some(r) =>
      && a.digest == Some(Sha256(r))
      && (r.campaignId, r.runId, r.attemptIndex, r.suite) == (l.campaignId, a.runId, a.index, a.suite)
  }

  /** A file is resumed exactly if its attempts are counted, numbered from one and run under distinct non-empty ids, its
      required suites are the four in order, its obtained suites are distinct, its missing suites are the others in
      order, and the evidence of every attempt is its own. */
  lemma ResumeChecks(l: Ledger)
    ensures ValidLedger(l) <==>
              && l.consumed == |l.attempts|
              && (forall i :: 0 <= i < |l.attempts| ==> l.attempts[i].index == i + 1)
              && "" !in RunIds(l.attempts) && |Members(RunIds(l.attempts))| == |l.attempts|
              && l.required == [Regression, Faults, Performance, Confirmation]
              && |Members(l.obtained)| == |l.obtained|
              && Ranked(l.missing) && (forall s :: s in l.missing <==> s !in l.obtained)
              && (forall i :: 0 <= i < |l.attempts| ==> EvidenceChecks(l, l.attempts[i]))
  {
    hide Missing, Members, Ranked;
    MissingIff(l.missing, l.obtained);
    MembersCount(l.obtained);
    var runs := RunIds(l.attempts);
    MembersCount(runs);
    assert "" !in runs <==> forall i :: 0 <= i < |l.attempts| ==> l.attempts[i].runId != "" by {
      if i :| 0 <= i < |l.attempts| && l.attempts[i].runId == "" { assert runs[i] == ""; }
    }
    assert DistinctRuns(l.attempts) <==>
             "" !in runs && forall i, j :: 0 <= i < j < |runs| ==> runs[i] != runs[j];
    forall i | 0 <= i < |l.attempts| ensures EvidenceChecks(l, l.attempts[i]) <==> EvidenceMatches(l, l.attempts[i]) {
    }
  }
}
