/** Reconstruction of one causal chain of spans from an unordered, possibly duplicated capture. */
module LongTrace {
  import opened Wire

  /** A captured span: the four keys that duplicates are compared on. */
  datatype Span = Span(traceId: Option<string>, spanId: string, parent: Option<string>, name: Option<string>)

  datatype Evidence = Evidence(valid: bool, ordered: seq<Span>, traceCaptures: nat, logicalCount: nat,
                               conflictingIds: set<string>, invalidIds: set<string>,
                               foreignTraceIds: set<Option<string>>, wrongParentIds: set<string>, orphanIds: set<string>)

  predicate IsHexDigit(ch: char) { '0' <= ch <= '9' || 'a' <= ch <= 'f' || 'A' <= ch <= 'F' }

  /** Sixteen hexadecimal digits that are not all zero. */
  predicate IsSpanId(id: string) {
    |id| == 16 && (forall i :: 0 <= i < 16 ==> IsHexDigit(id[i])) && exists i :: 0 <= i < 16 && id[i] != '0'
  }

  function DigitValue(ch: char): nat {
    if '0' <= ch <= '9' then ch as nat - '0' as nat
    else if 'a' <= ch <= 'f' then ch as nat - 'a' as nat + 10
    else if 'A' <= ch <= 'F' then ch as nat - 'A' as nat + 10
    else 0
  }

  /** The number a hexadecimal string denotes, most significant digit first. */
  function HexNumber(s: string): nat { if s == "" then 0 else 16 * HexNumber(s[..|s| - 1]) + DigitValue(s[|s| - 1]) }

  lemma {:induction false} ZeroIff(s: string)
    requires forall i :: 0 <= i < |s| ==> IsHexDigit(s[i])
    ensures HexNumber(s) == 0 <==> forall i :: 0 <= i < |s| ==> s[i] == '0'
  {
    if s != "" {
      var front := s[..|s| - 1];
      ZeroIff(front);
      assert forall i :: 0 <= i < |front| ==> front[i] == s[i];
    }
  }

  /** A span id is well formed exactly when it is sixteen hexadecimal digits that denote a number other than zero. */
  lemma SpanIdIff(id: string)
    ensures IsSpanId(id) <==> |id| == 16 && (forall i :: 0 <= i < 16 ==> id[i] in "0123456789abcdefABCDEF") && HexNumber(id) != 0
  {
    forall ch: char ensures IsHexDigit(ch) <==> ch in "0123456789abcdefABCDEF" { HexDigitIff(ch); }
    if |id| == 16 && forall i :: 0 <= i < 16 ==> IsHexDigit(id[i]) { ZeroIff(id); }
  }

  lemma HexDigitIff(ch: char)
    ensures IsHexDigit(ch) <==> ch in "0123456789abcdefABCDEF"
  {
    var digits := "0123456789abcdefABCDEF";
    if '0' <= ch <= '9' { assert digits[ch as nat - '0' as nat] == ch; }
    if 'a' <= ch <= 'f' { assert digits[10 + (ch as nat - 'a' as nat)] == ch; }
    if 'A' <= ch <= 'F' { assert digits[16 + (ch as nat - 'A' as nat)] == ch; }
    if ch in digits {
      var k :| 0 <= k < |digits| && digits[k] == ch;
    }
  }

  // ---------------------------------------------------------------- what a causal capture is

  /** The id a span of the path must name as its parent. */
  ghost function ParentAt(root: string, path: seq<Span>, i: nat): string
    requires i <= |path|
  {
    if i == 0 then root else path[i - 1].spanId
  }

  ghost predicate Linked(root: string, path: seq<Span>) {
    forall i :: 0 <= i < |path| ==> path[i].parent == Some(ParentAt(root, path, i))
  }

  ghost predicate DistinctIds(path: seq<Span>) {
    forall i, j :: 0 <= i < j < |path| ==> path[i].spanId != path[j].spanId
  }

  ghost predicate RootNotReused(root: string, path: seq<Span>) {
    forall i :: 0 <= i < |path| - 1 ==> path[i].spanId != root
  }

  /** A parent-linked path from the root, without repeated ids. No span that has a child reuses the root's id. */
  ghost predicate Chain(root: string, path: seq<Span>) {
    Linked(root, path) && DistinctIds(path) && RootNotReused(root, path)
  }

  /** The capture is, up to order and repetition, one chain of `n` well-formed spans from the root. */
  ghost predicate IsCausalPath(traceId: string, root: string, n: int, captured: seq<Span>, path: seq<Span>) {
    && |path| == n
    && Chain(root, path)
    && (forall i :: 0 <= i < |path| ==> path[i].traceId == Some(traceId) && IsSpanId(path[i].spanId))
    && (forall s :: s in captured <==> s in path)
  }

  // ---------------------------------------------------------------- collapsing duplicates

  /** The first captured span of each id. */
  ghost predicate Collapses(captured: seq<Span>, logical: map<string, Span>) {
    && (forall id :: id in logical ==> logical[id] in captured && logical[id].spanId == id)
    && (forall s :: s in captured ==> s.spanId in logical)
  }

  ghost predicate Conflicting(captured: seq<Span>, id: string) {
    exists s, t :: s in captured && t in captured && s.spanId == t.spanId == id && s != t
  }

  ghost predicate Agreeing(captured: seq<Span>) {
    forall s, t :: s in captured && t in captured && s.spanId == t.spanId ==> s == t
  }

  function Ids(path: seq<Span>): set<string> { set i | 0 <= i < |path| :: path[i].spanId }

  function Children(remaining: map<string, Span>, parent: string): set<string> {
    set id | id in remaining && remaining[id].parent == Some(parent)
  }

  /** The table holds the spans of the path under their ids, and nothing else. */
  ghost predicate Tabulates(path: seq<Span>, logical: map<string, Span>) {
    && logical.Keys == Ids(path)
    && forall i :: 0 <= i < |path| ==> path[i].spanId in logical && logical[path[i].spanId] == path[i]
  }

  // Two spans of a path that name the same parent are the same span.
  lemma SoleChild(root: string, path: seq<Span>, j: nat, k: nat)
    requires Chain(root, path)
    requires j < |path| && k < |path| && path[j].parent == Some(ParentAt(root, path, k))
    ensures j == k
  {
    assert path[j].parent == Some(ParentAt(root, path, j));
  }

  lemma IdsOfPrefix(path: seq<Span>, j: nat, k: nat)
    requires DistinctIds(path) && j < |path| && k <= |path|
    ensures path[j].spanId in Ids(path[..k]) <==> j < k
  {
  }

  /** Along a causal path the next child is always unique, from the root on. */
  lemma NextChild(root: string, path: seq<Span>, logical: map<string, Span>, remaining: map<string, Span>, k: nat)
    requires Chain(root, path) && Tabulates(path, logical)
    requires k < |path| && remaining == logical - Ids(path[..k])
    ensures Children(remaining, ParentAt(root, path, k)) == {path[k].spanId}
    ensures path[k].spanId in remaining && remaining[path[k].spanId] == path[k]
  {
    hide Linked, DistinctIds, RootNotReused;
    var parent := ParentAt(root, path, k);
    IdsOfPrefix(path, k, k);
    assert path[k].parent == Some(parent) by { LinkedAt(root, path, k); }
    forall other | other in Children(remaining, parent) ensures other == path[k].spanId {
      assert other in Ids(path);
      var j :| 0 <= j < |path| && path[j].spanId == other;
      SoleChild(root, path, j, k);
    }
  }

  lemma LinkedAt(root: string, path: seq<Span>, k: nat)
    requires Linked(root, path) && k < |path|
    ensures path[k].parent == Some(ParentAt(root, path, k))
  {
  }

  // ---------------------------------------------------------------- the analysis

  /** The table of first captures. */
  function FirstCaptures(spans: seq<Span>): map<string, Span> {
    if spans == [] then map[]
    else
      var first, last := FirstCaptures(spans[..|spans| - 1]), spans[|spans| - 1];
      if last.spanId in first then first else first[last.spanId := last]
  }

  lemma FirstCapturesNext(spans: seq<Span>, k: nat)
    requires k < |spans|
    ensures var first := FirstCaptures(spans[..k]);
            FirstCaptures(spans[..k + 1]) == if spans[k].spanId in first then first else first[spans[k].spanId := spans[k]]
  {
    assert spans[..k + 1][..k] == spans[..k];
  }

  lemma CollapsesNext(spans: seq<Span>, k: nat, logical: map<string, Span>)
    requires k < |spans| && Collapses(spans[..k], logical)
    ensures Collapses(spans[..k + 1], if spans[k].spanId in logical then logical else logical[spans[k].spanId := spans[k]])
  {
    assert spans[..k + 1] == spans[..k] + [spans[k]];
  }

  // A span conflicts with the earlier ones of its id exactly when it differs from the first, or they already conflict.
  lemma ConflictingNext(spans: seq<Span>, k: nat, logical: map<string, Span>, id: string)
    requires k < |spans| && Collapses(spans[..k], logical)
    ensures Conflicting(spans[..k + 1], id) <==>
              Conflicting(spans[..k], id) || (id == spans[k].spanId && id in logical && logical[id] != spans[k])
  {
    var front, span := spans[..k], spans[k];
    assert spans[..k + 1] == front + [span];
    if s, t :| s in front + [span] && t in front + [span] && s.spanId == t.spanId == id && s != t {
      var other := if s == span then t else s;
      assert other in front;
      assert id in logical && logical[id] in front;
    }
  }

  lemma AgreeingIff(spans: seq<Span>)
    ensures Agreeing(spans) <==> forall id :: !Conflicting(spans, id)
  {
    if s, t :| s in spans && t in spans && s.spanId == t.spanId && s != t { assert Conflicting(spans, s.spanId); }
  }

  lemma NothingCaptured(spans: seq<Span>)
    ensures FirstCaptures(spans[..0]) == map[] && Collapses(spans[..0], map[])
    ensures forall id :: !Conflicting(spans[..0], id)
  {
  }

  /** Fills the table of first captures; later captures of the same id must agree with it. */
  method CollapseDuplicates(spans: seq<Span>) returns (logical: map<string, Span>, conflicting: set<string>)
    ensures logical == FirstCaptures(spans) && Collapses(spans, logical)
    ensures conflicting == {} <==> Agreeing(spans)
    ensures forall id :: id in conflicting <==> Conflicting(spans, id)
  {
    hide FirstCaptures, Collapses, Conflicting, Agreeing;
    logical, conflicting := map[], {};
    NothingCaptured(spans);
    for k := 0 to |spans|
      invariant logical == FirstCaptures(spans[..k]) && Collapses(spans[..k], logical)
      invariant forall id :: id in conflicting <==> Conflicting(spans[..k], id)
    {
      var span := spans[k];
      FirstCapturesNext(spans, k);
      CollapsesNext(spans, k, logical);
      forall id {
        ConflictingNext(spans, k, logical, id);
      }
      if span.spanId !in logical {
        logical := logical[span.spanId := span];
      } else if logical[span.spanId] != span {
        conflicting := conflicting + {span.spanId};
      }
    }
    assert spans[..|spans|] == spans;
    AgreeingIff(spans);
  }

  lemma IdsAppend(ordered: seq<Span>, child: Span)
    ensures Ids(ordered + [child]) == Ids(ordered) + {child.spanId}
  {
    var more := ordered + [child];
    assert forall i :: 0 <= i < |ordered| ==> more[i] == ordered[i];
    assert more[|ordered|] == child;
  }

  /** What the walk has established: every span so far was the only remaining one naming its parent. */
  ghost predicate Walked(root: string, logical: map<string, Span>, ordered: seq<Span>) {
    && (forall i :: 0 <= i < |ordered| ==> ordered[i].spanId in logical && logical[ordered[i].spanId] == ordered[i])
    && (forall i :: 0 <= i < |ordered| ==>
          Children(logical - Ids(ordered[..i]), ParentAt(root, ordered, i)) == {ordered[i].spanId})
  }

  lemma WalkExtends(root: string, logical: map<string, Span>, ordered: seq<Span>, child: Span)
    requires Walked(root, logical, ordered)
    requires child.spanId in logical && logical[child.spanId] == child
    requires Children(logical - Ids(ordered), ParentAt(root, ordered, |ordered|)) == {child.spanId}
    ensures Walked(root, logical, ordered + [child])
  {
    hide Children, Ids;
    var more := ordered + [child];
    assert more[..|ordered|] == ordered;
    forall i | 0 <= i < |more|
      ensures Children(logical - Ids(more[..i]), ParentAt(root, more, i)) == {more[i].spanId}
    {
      if i < |ordered| { assert more[..i] == ordered[..i]; }
    }
  }

  lemma ChildIn(remaining: map<string, Span>, parent: string, id: string)
    requires Children(remaining, parent) == {id}
    ensures id in remaining && remaining[id].parent == Some(parent)
    ensures forall other :: other in remaining && remaining[other].parent == Some(parent) ==> other == id
  {
    assert id in Children(remaining, parent);
    forall other | other in remaining && remaining[other].parent == Some(parent) ensures other == id {
      assert other in Children(remaining, parent);
    }
  }

  /** A finished walk is a chain: linked, without repetition, and with the root's id free until the last span. */
  lemma WalkIsChain(root: string, logical: map<string, Span>, ordered: seq<Span>)
    requires Walked(root, logical, ordered)
    ensures Chain(root, ordered)
  {
    forall i | 0 <= i < |ordered|
      ensures ordered[i].parent == Some(ParentAt(root, ordered, i)) && ordered[i].spanId !in Ids(ordered[..i])
    {
      ChildIn(logical - Ids(ordered[..i]), ParentAt(root, ordered, i), ordered[i].spanId);
    }
    forall i, j | 0 <= i < j < |ordered| ensures ordered[i].spanId != ordered[j].spanId {
      assert ordered[..j][i].spanId in Ids(ordered[..j]);
    }
    forall i | 0 <= i < |ordered| - 1 ensures ordered[i].spanId != root {
      assert ordered[i + 1].parent == Some(ordered[i].spanId);
      assert ordered[..0] == [] && Ids([]) == {} && logical - {} == logical;
      ChildIn(logical, root, ordered[0].spanId);
    }
  }

  function Select(traceId: string, captured: seq<Span>): (r: seq<Span>)
    ensures forall s :: s in r <==> s in captured && s.traceId == Some(traceId)
  {
    if captured == [] then []
    else
      var front, last := Select(traceId, captured[..|captured| - 1]), captured[|captured| - 1];
      assert captured == captured[..|captured| - 1] + [last];
      if last.traceId == Some(traceId) then front + [last] else front
  }

  /** Spans are selected one by one, in order: those of the trace and no others. */
  lemma {:induction false} SelectConcat(traceId: string, a: seq<Span>, b: seq<Span>)
    ensures Select(traceId, a + b) == Select(traceId, a) + Select(traceId, b)
  {
    if b == [] {
      assert a + b == a;
    } else {
      var front, last := b[..|b| - 1], b[|b| - 1];
      assert (a + b)[..|a + b| - 1] == a + front && (a + b)[|a + b| - 1] == last;
      SelectConcat(traceId, a, front);
      var x, y := Select(traceId, a), Select(traceId, front);
      assert x + y + [last] == x + (y + [last]);
    }
  }

  lemma SelectOne(traceId: string, s: Span)
    ensures Select(traceId, [s]) == if s.traceId == Some(traceId) then [s] else []
  {
    assert [s][..0] == [];
  }

  /** The table keeps the earliest capture of each id. */
  lemma {:induction false} FirstCaptured(spans: seq<Span>, i: nat)
    requires i < |spans| && forall j :: 0 <= j < i ==> spans[j].spanId != spans[i].spanId
    ensures spans[i].spanId in FirstCaptures(spans) && FirstCaptures(spans)[spans[i].spanId] == spans[i]
    ensures forall id :: id in FirstCaptures(spans) ==> exists k :: 0 <= k < |spans| && spans[k].spanId == id
  {
    FirstCapturesIds(spans);
    if i == |spans| - 1 {
      FirstCapturesIds(spans[..i]);
    } else {
      FirstCaptured(spans[..|spans| - 1], i);
    }
  }

  lemma {:induction false} FirstCapturesIds(spans: seq<Span>)
    ensures forall id :: id in FirstCaptures(spans) ==> exists k :: 0 <= k < |spans| && spans[k].spanId == id
  {
    if spans != [] {
      var n := |spans| - 1;
      FirstCapturesIds(spans[..n]);
      forall id | id in FirstCaptures(spans) ensures exists k :: 0 <= k < |spans| && spans[k].spanId == id {
        if id in FirstCaptures(spans[..n]) {
          var k :| 0 <= k < n && spans[..n][k].spanId == id;
          assert spans[k].spanId == id;
        }
      }
    }
  }

  lemma Singleton<T>(s: set<T>, x: T)
    requires |s| == 1 && x in s
    ensures s == {x}
  {
    assert |s - {x}| == 0;
  }

  // While the walk is a prefix of a causal path, its next child is the next span of that path.
  lemma FollowsPath(traceId: string, root: string, n: int, captured: seq<Span>, logical: map<string, Span>,
                    ordered: seq<Span>, path: seq<Span>)
    requires IsCausalPath(traceId, root, n, captured, path) && Collapses(Select(traceId, captured), logical)
    requires |ordered| < |path| && ordered == path[..|ordered|]
    ensures Children(logical - Ids(ordered), ParentAt(root, ordered, |ordered|)) == {path[|ordered|].spanId}
    ensures path[|ordered|].spanId in logical && logical[path[|ordered|].spanId] == path[|ordered|]
  {
    hide Children;
    PathTabulated(traceId, root, n, captured, logical, path);
    var k := |ordered|;
    NextChild(root, path, logical, logical - Ids(path[..k]), k);
    if k > 0 { assert ordered[k - 1] == path[k - 1]; }
  }

  lemma PathTabulated(traceId: string, root: string, n: int, captured: seq<Span>, logical: map<string, Span>,
                      path: seq<Span>)
    requires IsCausalPath(traceId, root, n, captured, path) && Collapses(Select(traceId, captured), logical)
    ensures Agreeing(Select(traceId, captured)) && Tabulates(path, logical)
  {
  }

  /** Completeness of the bookkeeping: a walk that covers a causal path leaves nothing to complain about. */
  lemma PathLeavesNothing(traceId: string, root: string, n: int, captured: seq<Span>, logical: map<string, Span>,
                          path: seq<Span>)
    requires IsCausalPath(traceId, root, n, captured, path) && Collapses(Select(traceId, captured), logical)
    ensures Agreeing(Select(traceId, captured)) && logical - Ids(path) == map[]
    ensures forall id :: id in logical ==> IsSpanId(id)
    ensures forall s :: s in captured ==> s.traceId == Some(traceId)
  {
  }

  /** Soundness: a walk that covers the whole table, with nothing to complain about, is a causal path. */
  lemma WalkIsCausalPath(traceId: string, root: string, captured: seq<Span>, logical: map<string, Span>,
                         ordered: seq<Span>)
    requires Collapses(Select(traceId, captured), logical) && Agreeing(Select(traceId, captured))
    requires Walked(root, logical, ordered) && logical - Ids(ordered) == map[]
    requires forall id :: id in logical ==> IsSpanId(id)
    requires forall s :: s in captured ==> s.traceId == Some(traceId)
    ensures IsCausalPath(traceId, root, |ordered|, captured, ordered)
  {
    hide Children, IsSpanId, Chain;
    WalkIsChain(root, logical, ordered);
    forall s | s in captured ensures s in ordered {
      assert s.spanId in logical && logical[s.spanId] in Select(traceId, captured);
      assert s.spanId !in logical - Ids(ordered);
    }
    WalkIsCaptured(root, Select(traceId, captured), logical, ordered);
  }

  ghost predicate HasCausalPath(traceId: string, root: string, n: int, captured: seq<Span>) {
    exists path :: IsCausalPath(traceId, root, n, captured, path)
  }

  /** The walk so far is a prefix of every causal path of the capture. */
  ghost predicate OnEveryPath(traceId: string, root: string, n: int, captured: seq<Span>, ordered: seq<Span>) {
    forall path :: IsCausalPath(traceId, root, n, captured, path) ==> ordered <= path
  }

  lemma StepOnPath(traceId: string, root: string, n: int, captured: seq<Span>, logical: map<string, Span>,
                   ordered: seq<Span>, child: Span)
    requires Collapses(Select(traceId, captured), logical) && OnEveryPath(traceId, root, n, captured, ordered)
    requires |ordered| < n && child.spanId in logical && logical[child.spanId] == child
    requires Children(logical - Ids(ordered), ParentAt(root, ordered, |ordered|)) == {child.spanId}
    ensures OnEveryPath(traceId, root, n, captured, ordered + [child])
  {
    hide Children, Ids, Collapses, IsCausalPath, Select;
    var k := |ordered|;
    forall path: seq<Span> | IsCausalPath(traceId, root, n, captured, path) ensures ordered + [child] <= path {
      PathLength(traceId, root, n, captured, path);
      FollowsPath(traceId, root, n, captured, logical, ordered, path);
      assert path[k].spanId in {child.spanId};
      assert path[..k + 1] == path[..k] + [path[k]];
    }
  }

  lemma PathLength(traceId: string, root: string, n: int, captured: seq<Span>, path: seq<Span>)
    requires IsCausalPath(traceId, root, n, captured, path)
    ensures |path| == n
  {
  }

  lemma StuckMeansNoPath(traceId: string, root: string, n: int, captured: seq<Span>, logical: map<string, Span>,
                         ordered: seq<Span>)
    requires Collapses(Select(traceId, captured), logical) && OnEveryPath(traceId, root, n, captured, ordered)
    requires |ordered| < n && |Children(logical - Ids(ordered), ParentAt(root, ordered, |ordered|))| != 1
    ensures !HasCausalPath(traceId, root, n, captured)
  {
    hide Children, Ids, Collapses, IsCausalPath, Select;
    forall path: seq<Span> ensures !IsCausalPath(traceId, root, n, captured, path) {
      if IsCausalPath(traceId, root, n, captured, path) {
        PathLength(traceId, root, n, captured, path);
        FollowsPath(traceId, root, n, captured, logical, ordered, path);
      }
    }
  }

  /** What the final checks amount to. */
  lemma VerdictExact(traceId: string, root: string, n: int, captured: seq<Span>, logical: map<string, Span>,
                     ordered: seq<Span>, valid: bool)
    requires Collapses(Select(traceId, captured), logical) && Walked(root, logical, ordered)
    requires OnEveryPath(traceId, root, n, captured, ordered)
    requires |ordered| >= n || !HasCausalPath(traceId, root, n, captured)
    requires valid <==> |ordered| == n && logical - Ids(ordered) == map[] && Agreeing(Select(traceId, captured))
                        && (forall id :: id in logical ==> IsSpanId(id))
                        && (forall s :: s in captured ==> s.traceId == Some(traceId))
    ensures valid ==> IsCausalPath(traceId, root, n, captured, ordered)
    ensures forall path :: IsCausalPath(traceId, root, n, captured, path) ==> valid && ordered == path
  {
    if valid { WalkIsCausalPath(traceId, root, captured, logical, ordered); }
    forall path: seq<Span> | IsCausalPath(traceId, root, n, captured, path) ensures valid && ordered == path {
      assert ordered == path;
      PathLeavesNothing(traceId, root, n, captured, logical, path);
    }
  }

  /** The verdict is exact: the capture is valid if and only if it is, up to order and repetition, a causal path of
      the expected length, and the path returned is that path in causal order. */
  method Analyze(traceId: string, root: string, expected: int, captured: seq<Span>) returns (e: Evidence)
    ensures e.valid <==> HasCausalPath(traceId, root, expected, captured)
    ensures e.valid ==> IsCausalPath(traceId, root, expected, captured, e.ordered)
    ensures forall path :: IsCausalPath(traceId, root, expected, captured, path) ==> e.ordered == path
    ensures forall id :: id in e.conflictingIds <==> Conflicting(Select(traceId, captured), id)
    ensures e.foreignTraceIds == set s | s in captured && s.traceId != Some(traceId) :: s.traceId
    ensures e.invalidIds == set id | id in Ids(Select(traceId, captured)) && !IsSpanId(id)
    ensures e.orphanIds == Ids(Select(traceId, captured)) - Ids(e.ordered)
    ensures Chain(root, e.ordered) && forall s :: s in e.ordered ==> s in captured
    ensures e.traceCaptures == |Select(traceId, captured)| && e.logicalCount == |Ids(Select(traceId, captured))|
    ensures Walked(root, FirstCaptures(Select(traceId, captured)), e.ordered)
    ensures |e.ordered| <= expected || e.ordered == []
    ensures var next := Children(FirstCaptures(Select(traceId, captured)) - Ids(e.ordered),
                                 ParentAt(root, e.ordered, |e.ordered|));
            if |e.ordered| < expected then e.wrongParentIds == next && |next| != 1 else e.wrongParentIds == {}
  {
    hide IsCausalPath, Collapses, Agreeing, Walked, Conflicting, IsSpanId, Ids, OnEveryPath, Chain, FirstCaptures;
    var traceSpans := Select(traceId, captured);
    var foreign := set s | s in captured && s.traceId != Some(traceId) :: s.traceId;
    var logical, conflicting := CollapseDuplicates(traceSpans);
    var invalid := set id | id in logical && !IsSpanId(id);
    var ordered: seq<Span> := [];
    var current := root;
    var remaining := logical;
    var wrongParents: set<string> := {};
    StartOfWalk(traceId, root, expected, captured, logical);
    while |ordered| < expected
      invariant remaining == logical - Ids(ordered)
      invariant current == ParentAt(root, ordered, |ordered|)
      invariant Walked(root, logical, ordered) && OnEveryPath(traceId, root, expected, captured, ordered)
      invariant wrongParents == {} && (|ordered| <= expected || ordered == [])
    {
      var children := Children(remaining, current);
      if |children| != 1 {
        StuckMeansNoPath(traceId, root, expected, captured, logical, ordered);
        wrongParents := children;
        break;
      }
      var id :| id in children;
      var child := remaining[id];
      Singleton(children, id);
      KeyIsId(traceSpans, logical, id);
      WalkExtends(root, logical, ordered, child);
      StepOnPath(traceId, root, expected, captured, logical, ordered, child);
      IdsAppend(ordered, child);
      ordered := ordered + [child];
      current := child.spanId;
      remaining := remaining - {current};
    }
    var exact := |ordered| == expected && remaining == map[] && conflicting == {} && invalid == {};
    var valid := exact && foreign == {};
    assert foreign == {} <==> forall s :: s in captured ==> s.traceId == Some(traceId) by {
      if s :| s in captured && s.traceId != Some(traceId) { assert s.traceId in foreign; }
    }
    assert invalid == {} <==> forall id :: id in logical ==> IsSpanId(id) by {
      if id :| id in logical && !IsSpanId(id) { assert id in invalid; }
    }
    VerdictExact(traceId, root, expected, captured, logical, ordered, valid);
    CollapsedIds(traceSpans, logical);
    WalkIsChain(root, logical, ordered);
    WalkIsCaptured(root, traceSpans, logical, ordered);
    e := Evidence(valid, ordered, |traceSpans|, |logical.Keys|, conflicting, invalid, foreign, wrongParents, remaining.Keys);
  }

  lemma CollapsedIds(spans: seq<Span>, logical: map<string, Span>)
    requires Collapses(spans, logical)
    ensures logical.Keys == Ids(spans)
  {
  }

  lemma WalkIsCaptured(root: string, spans: seq<Span>, logical: map<string, Span>, ordered: seq<Span>)
    requires Collapses(spans, logical) && Walked(root, logical, ordered)
    ensures forall s :: s in ordered ==> s in spans
  {
  }

  lemma StartOfWalk(traceId: string, root: string, n: int, captured: seq<Span>, logical: map<string, Span>)
    ensures Walked(root, logical, []) && OnEveryPath(traceId, root, n, captured, []) && logical - Ids([]) == logical
  {
  }

  lemma KeyIsId(spans: seq<Span>, logical: map<string, Span>, id: string)
    requires Collapses(spans, logical) && id in logical
    ensures logical[id].spanId == id
  {
  }
}
