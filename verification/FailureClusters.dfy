/** Grouping of failed sends into runs of consecutive indexes with one failure key. */
module FailureClusters {
  import opened Wire

  /** A JSON value as the loop sees it: absent or null, an integer, or some other value. */
  datatype Json = Null | Int(value: int) | Other(raw: string)

  /** One emitter event. A completion flag or an index of another type than the loop asks for is None. */
  datatype Event = Event(sendCompleted: Option<bool>, index: Option<int>, stage: Json, osCode: Json,
                         startOffset: Json, endOffset: Json)

  predicate IsFailure(e: Event) { e.sendCompleted == Some(false) && e.index.Some? }

  type Failure = e: Event | IsFailure(e) witness Event(Some(false), Some(0), Null, Null, Null, Null)

  datatype Cluster = Cluster(startIndex: int, endIndex: int, count: nat, stage: Json, osCode: Json,
                             startOffset: Json, endOffset: Json, durations: seq<Option<int>>)

  function Duration(f: Failure): Option<int> {
    if f.startOffset.Int? && f.endOffset.Int? && f.endOffset.value >= f.startOffset.value
    then Some(f.endOffset.value - f.startOffset.value) else None
  }

  // ---------------------------------------------------------------- selecting and sorting

  function Failures(events: seq<Event>): seq<Failure> {
    if events == [] then []
    else
      var front, e := Failures(events[..|events| - 1]), events[|events| - 1];
      if IsFailure(e) then front + [e] else front
  }

  /** One event is selected exactly when its send did not complete and its index is an integer. */
  lemma FailuresOfOne(e: Event)
    ensures if e.sendCompleted == Some(false) && e.index.Some? then |Failures([e])| == 1 && Failures([e])[0] == e
            else Failures([e]) == []
  {
    assert [e][..0] == [];
  }

  /** Events are selected one by one, in order. */
  lemma {:induction false} FailuresConcat(a: seq<Event>, b: seq<Event>)
    ensures Failures(a + b) == Failures(a) + Failures(b)
    ensures Failures([]) == []
  {
    if b == [] {
      assert a + b == a;
    } else {
      assert (a + b)[..|a + b| - 1] == a + b[..|b| - 1];
      FailuresConcat(a, b[..|b| - 1]);
    }
  }

  /** A duration is known exactly when both offsets are integers and the end is not before the start. */
  lemma DurationIff(f: Failure, d: int)
    ensures Duration(f) == Some(d) <==> d >= 0 && exists start :: f.startOffset == Int(start) && f.endOffset == Int(start + d)
  {
    if Duration(f) == Some(d) { assert f.endOffset == Int(f.startOffset.value + d); }
  }

  function Insert(sorted: seq<Failure>, f: Failure): seq<Failure> {
    if sorted == [] || sorted[|sorted| - 1].index.value <= f.index.value then sorted + [f]
    else Insert(sorted[..|sorted| - 1], f) + [sorted[|sorted| - 1]]
  }

  function SortByIndex(fs: seq<Failure>): seq<Failure> {
    if fs == [] then [] else Insert(SortByIndex(fs[..|fs| - 1]), fs[|fs| - 1])
  }

  ghost predicate Sorted(fs: seq<Failure>) {
    forall i, j :: 0 <= i < j < |fs| ==> fs[i].index.value <= fs[j].index.value
  }

  /** The failures with one index, in order. */
  ghost function WithIndex(fs: seq<Failure>, k: int): seq<Failure> {
    if fs == [] then []
    else WithIndex(fs[..|fs| - 1], k) + if fs[|fs| - 1].index.value == k then [fs[|fs| - 1]] else []
  }

  lemma {:induction false} InsertPermutes(sorted: seq<Failure>, f: Failure)
    ensures multiset(Insert(sorted, f)) == multiset(sorted) + multiset{f}
  {
    if sorted != [] {
      var front, last := sorted[..|sorted| - 1], sorted[|sorted| - 1];
      assert sorted == front + [last];
      InsertPermutes(front, f);
    }
  }

  lemma {:induction false} InsertSorts(sorted: seq<Failure>, f: Failure)
    requires Sorted(sorted)
    ensures Sorted(Insert(sorted, f))
  {
    if sorted != [] && sorted[|sorted| - 1].index.value > f.index.value {
      var front, last := sorted[..|sorted| - 1], sorted[|sorted| - 1];
      var r := Insert(front, f);
      InsertSorts(front, f);
      InsertPermutes(front, f);
      forall i | 0 <= i < |r| ensures r[i].index.value <= last.index.value {
        assert r[i] in multiset(front) + multiset{f};
      }
    }
  }

  lemma WithIndexAppend(fs: seq<Failure>, f: Failure, k: int)
    ensures WithIndex(fs + [f], k) == WithIndex(fs, k) + if f.index.value == k then [f] else []
  {
  }

  lemma {:induction false} InsertIsStable(sorted: seq<Failure>, f: Failure, k: int)
    ensures WithIndex(Insert(sorted, f), k) == WithIndex(sorted, k) + if f.index.value == k then [f] else []
  {
    hide WithIndex;
    if sorted == [] || sorted[|sorted| - 1].index.value <= f.index.value {
      WithIndexAppend(sorted, f, k);
    } else {
      var front, last := sorted[..|sorted| - 1], sorted[|sorted| - 1];
      InsertIsStable(front, f, k);
      assert sorted == front + [last];
      WithIndexAppend(front, last, k);
      WithIndexAppend(Insert(front, f), last, k);
    }
  }

  /** The sort is the stable one: sorted, a rearrangement, and order kept among equal indexes. */
  lemma {:induction false} SortIsStable(fs: seq<Failure>, k: int)
    ensures Sorted(SortByIndex(fs))
    ensures multiset(SortByIndex(fs)) == multiset(fs)
    ensures WithIndex(SortByIndex(fs), k) == WithIndex(fs, k)
  {
    hide WithIndex, Insert;
    if fs != [] {
      var front, last := fs[..|fs| - 1], fs[|fs| - 1];
      assert fs == front + [last];
      SortIsStable(front, k);
      InsertPermutes(SortByIndex(front), last);
      InsertSorts(SortByIndex(front), last);
      InsertIsStable(SortByIndex(front), last, k);
      WithIndexAppend(front, last, k);
    }
  }

  // ---------------------------------------------------------------- clustering

  predicate Continues(c: Cluster, f: Failure) {
    f.index.value == c.endIndex + 1 && f.stage == c.stage && f.osCode == c.osCode
  }

  function Opened(f: Failure): Cluster {
    Cluster(f.index.value, f.index.value, 1, f.stage, f.osCode, f.startOffset, f.endOffset, [Duration(f)])
  }

  function Extended(c: Cluster, f: Failure): Cluster {
    c.(endIndex := f.index.value, count := c.count + 1, endOffset := f.endOffset, durations := c.durations + [Duration(f)])
  }

  function Cluster1(clusters: seq<Cluster>, f: Failure): seq<Cluster> {
    if clusters != [] && Continues(clusters[|clusters| - 1], f)
    then clusters[..|clusters| - 1] + [Extended(clusters[|clusters| - 1], f)]
    else clusters + [Opened(f)]
  }

  function Clusters(fs: seq<Failure>): seq<Cluster> {
    if fs == [] then [] else Cluster1(Clusters(fs[..|fs| - 1]), fs[|fs| - 1])
  }

  lemma ClustersAppend(fs: seq<Failure>, k: nat)
    requires k < |fs|
    ensures Clusters(fs[..k + 1]) == Cluster1(Clusters(fs[..k]), fs[k])
  {
    hide Cluster1;
    assert fs[..k + 1][..k] == fs[..k];
  }

  lemma NoClusters(fs: seq<Failure>)
    requires fs == []
    ensures Clusters(fs) == []
  {
  }

  /** The loop: the last cluster is edited in place or a new one appended. */
  method GroupFailures(events: seq<Event>) returns (clusters: seq<Cluster>)
    ensures clusters == Clusters(SortByIndex(Failures(events)))
  {
    hide Clusters, SortByIndex, Failures;
    var failures := SortByIndex(Failures(events));
    clusters := [];
    assert Clusters(failures[..0]) == [] by { NoClusters(failures[..0]); }
    for k := 0 to |failures|
      invariant clusters == Clusters(failures[..k])
    {
      ClustersAppend(failures, k);
      var f := failures[k];
      if clusters != [] && f.index.value == clusters[|clusters| - 1].endIndex + 1
         && (f.stage, f.osCode) == (clusters[|clusters| - 1].stage, clusters[|clusters| - 1].osCode) {
        var last := clusters[|clusters| - 1];
        last := last.(endIndex := f.index.value);
        last := last.(count := last.count + 1);
        last := last.(durations := last.durations + [Duration(f)]);
        last := last.(endOffset := f.endOffset);
        clusters := clusters[..|clusters| - 1] + [last];
      } else {
        clusters := clusters + [Opened(f)];
      }
    }
    assert failures[..|failures|] == failures;
  }

  // ---------------------------------------------------------------- what a clustering is

  /** A cluster describes a run: consecutive indexes, one failure key, durations one to one. */
  ghost predicate IsRun(c: Cluster, run: seq<Failure>) {
    && |run| == c.count == |c.durations| >= 1
    && c.endIndex == c.startIndex + c.count - 1
    && c.startOffset == run[0].startOffset && c.endOffset == run[c.count - 1].endOffset
    && (forall i :: 0 <= i < c.count ==>
          && run[i].index.value == c.startIndex + i
          && run[i].stage == c.stage && run[i].osCode == c.osCode
          && c.durations[i] == Duration(run[i]))
  }

  /** The clusters cut the failures, in order, into runs. */
  ghost predicate Partitions(clusters: seq<Cluster>, fs: seq<Failure>) {
    if clusters == [] then fs == []
    else
      var c, n := clusters[|clusters| - 1], |clusters| - 1;
      c.count <= |fs| && IsRun(c, fs[|fs| - c.count..]) && Partitions(clusters[..n], fs[..|fs| - c.count])
  }

  ghost predicate Mergeable(c: Cluster, d: Cluster) {
    d.startIndex == c.endIndex + 1 && d.stage == c.stage && d.osCode == c.osCode
  }

  ghost predicate NoneMergeable(clusters: seq<Cluster>) {
    forall i :: 0 < i < |clusters| ==> !Mergeable(clusters[i - 1], clusters[i])
  }

  lemma {:induction false} ExtendPartition(before: seq<Cluster>, front: seq<Failure>, f: Failure)
    requires Partitions(before, front) && NoneMergeable(before)
    requires before != [] && Continues(before[|before| - 1], f)
    ensures Partitions(Cluster1(before, f), front + [f]) && NoneMergeable(Cluster1(before, f))
  {
    var fs, after, n := front + [f], Cluster1(before, f), |before|;
    var c := before[n - 1];
    var run := front[|front| - c.count..];
    assert after[..n - 1] == before[..n - 1];
    assert fs[|fs| - (c.count + 1)..] == run + [f];
    assert IsRun(Extended(c, f), run + [f]);
    assert fs[..|fs| - (c.count + 1)] == front[..|front| - c.count];
    forall i | 0 < i < n ensures !Mergeable(after[i - 1], after[i]) {
      assert !Mergeable(before[i - 1], before[i]);
    }
  }

  lemma {:induction false} OpenPartition(before: seq<Cluster>, front: seq<Failure>, f: Failure)
    requires Partitions(before, front) && NoneMergeable(before)
    requires before == [] || !Continues(before[|before| - 1], f)
    ensures Partitions(Cluster1(before, f), front + [f]) && NoneMergeable(Cluster1(before, f))
  {
    var fs, after, n := front + [f], Cluster1(before, f), |before|;
    assert after[..n] == before;
    assert fs[|fs| - 1..] == [f] && fs[..|fs| - 1] == front;
    assert IsRun(Opened(f), [f]);
  }

  /** The clusters partition the failures into runs, and no two neighbours could be merged. */
  lemma {:induction false} ClustersPartition(fs: seq<Failure>)
    ensures Partitions(Clusters(fs), fs) && NoneMergeable(Clusters(fs))
  {
    if fs != [] {
      var front, f := fs[..|fs| - 1], fs[|fs| - 1];
      assert fs == front + [f];
      ClustersPartition(front);
      var before := Clusters(front);
      if before != [] && Continues(before[|before| - 1], f) {
        ExtendPartition(before, front, f);
      } else {
        OpenPartition(before, front, f);
      }
    }
  }

  // The last failure of a non-empty partition is the end of its last cluster.
  lemma {:induction false} LastOfPartition(clusters: seq<Cluster>, fs: seq<Failure>)
    requires Partitions(clusters, fs) && clusters != []
    ensures fs != []
    ensures var c, f := clusters[|clusters| - 1], fs[|fs| - 1];
            f.index.value == c.endIndex && f.stage == c.stage && f.osCode == c.osCode
  {
    var c := clusters[|clusters| - 1];
    assert fs[|fs| - c.count..][c.count - 1] == fs[|fs| - 1];
  }

  // A shorter last run leaves a neighbour it could be merged with.
  lemma {:induction false} ShorterLastRunMerges(a: seq<Cluster>, b: seq<Cluster>, fs: seq<Failure>)
    requires Partitions(a, fs) && Partitions(b, fs) && a != [] && b != []
    requires a[|a| - 1].count < b[|b| - 1].count
    ensures |a| >= 2 && Mergeable(a[|a| - 2], a[|a| - 1])
  {
    var c, d := a[|a| - 1], b[|b| - 1];
    var rest := fs[..|fs| - c.count];
    assert a[..|a| - 1] != [];
    LastOfPartition(a[..|a| - 1], rest);
    var p := |fs| - c.count - 1;
    var run := fs[|fs| - d.count..];
    assert run[d.count - c.count - 1] == fs[p] && run[d.count - c.count] == fs[p + 1];
    assert fs[|fs| - c.count..][0] == fs[p + 1];
  }

  lemma RunsAgree(c: Cluster, d: Cluster, run: seq<Failure>)
    requires IsRun(c, run) && IsRun(d, run)
    ensures c == d
  {
  }

  /** Only one sequence of clusters partitions the failures with no two neighbours mergeable. */
  lemma {:induction false} PartitionUnique(a: seq<Cluster>, b: seq<Cluster>, fs: seq<Failure>)
    requires Partitions(a, fs) && Partitions(b, fs) && NoneMergeable(a) && NoneMergeable(b)
    ensures a == b
  {
    if a != [] && b != [] {
      var c, d := a[|a| - 1], b[|b| - 1];
      if c.count < d.count { ShorterLastRunMerges(a, b, fs); }
      if d.count < c.count { ShorterLastRunMerges(b, a, fs); }
      RunsAgree(c, d, fs[|fs| - c.count..]);
      PartitionUnique(a[..|a| - 1], b[..|b| - 1], fs[..|fs| - c.count]);
      assert a == a[..|a| - 1] + [c] && b == b[..|b| - 1] + [d];
    }
  }

  /** The output is the one maximal clustering of the index-sorted failures. */
  lemma OnlyClustering(events: seq<Event>, clusters: seq<Cluster>)
    ensures Partitions(clusters, SortByIndex(Failures(events))) && NoneMergeable(clusters)
       <==> clusters == Clusters(SortByIndex(Failures(events)))
  {
    var fs := SortByIndex(Failures(events));
    ClustersPartition(fs);
    if Partitions(clusters, fs) && NoneMergeable(clusters) {
      PartitionUnique(clusters, Clusters(fs), fs);
    }
  }

  function TotalCount(clusters: seq<Cluster>): nat {
    if clusters == [] then 0 else TotalCount(clusters[..|clusters| - 1]) + clusters[|clusters| - 1].count
  }

  lemma {:induction false} PartitionCounts(clusters: seq<Cluster>, fs: seq<Failure>)
    requires Partitions(clusters, fs)
    ensures TotalCount(clusters) == |fs|
  {
    if clusters != [] {
      var n := |clusters| - 1;
      PartitionCounts(clusters[..n], fs[..|fs| - clusters[n].count]);
    }
  }

  /** The clusters hold as many failures as the events do. */
  lemma EveryFailureGrouped(events: seq<Event>)
    ensures TotalCount(Clusters(SortByIndex(Failures(events)))) == |Failures(events)|
  {
    var fs := SortByIndex(Failures(events));
    SortIsStable(Failures(events), 0);
    assert |fs| == |multiset(fs)| && |Failures(events)| == |multiset(Failures(events))|;
    ClustersPartition(fs);
    PartitionCounts(Clusters(fs), fs);
  }
}
