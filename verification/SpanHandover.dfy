/** When the daemon hands a batch over, over whole runs: only a full one, one the next span would make too large, one
    that is due at a tick, or the rest at shutdown. */
module SpanHandover {
  import opened Wire
  import opened SpanBatching

  /** The offered spans that fit a request of their own, with their instants. */
  function Stream(c: Config, offered: seq<Timed>): seq<Timed> {
    if offered == [] then []
    else
      var t := offered[|offered| - 1];
      Stream(c, offered[..|offered| - 1]) + if Fits(c, [t]) then [t] else []
  }

  /** Where the spans of a batch end in the stream. */
  function End(enqueued: seq<ExportBatch>, i: nat): nat
    requires i <= |enqueued|
  {
    |Concat(enqueued[..i])|
  }

  /** Batch `i` is the stream's next stretch, and remembers the instant of its first span. */
  ghost predicate BatchAt(c: Config, stream: seq<Timed>, enqueued: seq<ExportBatch>, i: int) {
    && 0 <= i < |enqueued|
    && End(enqueued, i) < End(enqueued, i + 1) <= |stream|
    && var own := stream[End(enqueued, i)..End(enqueued, i + 1)];
       enqueued[i] == ExportBatch(SpansOf(own), |own|, |EncodeRequest(c, SpansOf(own))|, own[0].at)
  }

  /** Batches are consecutive stretches of the stream, and the buffer is the rest of it. */
  ghost predicate Cut(c: Config, stream: seq<Timed>, st: State) {
    && End(st.enqueued, |st.enqueued|) <= |stream| && st.items == stream[End(st.enqueued, |st.enqueued|)..]
    && forall i :: 0 <= i < |st.enqueued| ==> BatchAt(c, stream, st.enqueued, i)
  }

  /** The batch is full, or the stream's next span does not fit behind it. */
  ghost predicate Sized(c: Config, stream: seq<Timed>, enqueued: seq<ExportBatch>, i: int)
    requires 0 <= i < |enqueued|
  {
    || enqueued[i].count == c.batchSize
    || (End(enqueued, i + 1) < |stream|
        && |EncodeRequest(c, enqueued[i].spans + [stream[End(enqueued, i + 1)].span])| > 1_048_576)
  }

  // ---------------------------------------------------------------- the two moves

  lemma EndPrefix(a: seq<ExportBatch>, b: seq<ExportBatch>, i: nat)
    requires i <= |a| && a <= b
    ensures End(a, i) == End(b, i)
  {
    assert a[..i] == b[..i];
  }

  // A longer stream and further batches leave a batch where it is.
  lemma BatchStays(c: Config, stream: seq<Timed>, more: seq<Timed>, a: seq<ExportBatch>, b: seq<ExportBatch>, i: nat)
    requires i < |a| && a <= b && stream <= more
    requires BatchAt(c, stream, a, i)
    ensures BatchAt(c, more, b, i)
    ensures Sized(c, stream, a, i) ==> Sized(c, more, b, i)
  {
    hide End, EncodeRequest, SpansOf;
    EndPrefix(a, b, i);
    EndPrefix(a, b, i + 1);
    assert more[End(a, i)..End(a, i + 1)] == stream[End(a, i)..End(a, i + 1)];
  }

  /** Buffering one more span of the stream. */
  lemma Accept(c: Config, stream: seq<Timed>, st: State, t: Timed)
    requires Cut(c, stream, st)
    ensures Cut(c, stream + [t], st.(items := st.items + [t]))
  {
    hide End, BatchAt;
    forall i | 0 <= i < |st.enqueued| ensures BatchAt(c, stream + [t], st.enqueued, i) {
      BatchStays(c, stream, stream + [t], st.enqueued, st.enqueued, i);
    }
  }

  lemma EndNext(enqueued: seq<ExportBatch>, b: ExportBatch)
    ensures End(enqueued + [b], |enqueued|) == End(enqueued, |enqueued|)
    ensures End(enqueued + [b], |enqueued| + 1) == End(enqueued, |enqueued|) + |b.spans|
  {
    ConcatAppend(enqueued, b);
    assert (enqueued + [b])[..|enqueued|] == enqueued[..|enqueued|] == enqueued;
    assert (enqueued + [b])[..|enqueued| + 1] == enqueued + [b];
  }

  /** Handing the buffer over. */
  lemma HandOver(c: Config, stream: seq<Timed>, st: State)
    requires Cut(c, stream, st) && st.items != []
    ensures var r := Flush(c, st);
            && Cut(c, stream, r) && r.items == [] && r.enqueued == st.enqueued + [BatchOf(c, st.items)]
            && End(r.enqueued, |r.enqueued|) == |stream|
            && r.enqueued[|st.enqueued|].spans == SpansOf(st.items) && r.enqueued[|st.enqueued|].count == |st.items|
            && r.enqueued[|st.enqueued|].oldest == st.items[0].at
  {
    hide End, EncodeRequest, SpansOf;
    var b, r := BatchOf(c, st.items), Flush(c, st);
    EndNext(st.enqueued, b);
    forall i | 0 <= i < |r.enqueued| ensures BatchAt(c, stream, r.enqueued, i) {
      if i < |st.enqueued| {
        BatchStays(c, stream, stream, st.enqueued, r.enqueued, i);
      } else {
        assert stream[End(st.enqueued, |st.enqueued|)..|stream|] == st.items;
      }
    }
  }

  // ---------------------------------------------------------------- frames

  lemma StreamAppend(c: Config, offered: seq<Timed>, t: Timed)
    ensures Stream(c, offered + [t]) == Stream(c, offered) + if Fits(c, [t]) then [t] else []
  {
  }

  /** All batches from `m` on were cut for size or count. */
  ghost predicate SizedFrom(c: Config, stream: seq<Timed>, enqueued: seq<ExportBatch>, m: nat) {
    forall i :: m <= i < |enqueued| ==> Sized(c, stream, enqueued, i)
  }

  lemma SizedStays(c: Config, stream: seq<Timed>, more: seq<Timed>, st: State, b: seq<ExportBatch>, m: nat)
    requires Cut(c, stream, st) && SizedFrom(c, stream, st.enqueued, m) && stream <= more && st.enqueued <= b
    ensures forall i :: m <= i < |st.enqueued| ==> Sized(c, more, b, i)
  {
    hide Sized, BatchAt, End;
    forall i | m <= i < |st.enqueued| ensures Sized(c, more, b, i) {
      BatchStays(c, stream, more, st.enqueued, b, i);
    }
  }

  // The buffer is handed over because the next span does not fit.
  lemma CutForRoom(c: Config, stream: seq<Timed>, st: State, t: Timed, m: nat)
    requires Cut(c, stream, st) && SizedFrom(c, stream, st.enqueued, m) && st.items != [] && !Fits(c, st.items + [t])
    ensures var r := Flush(c, st).(items := [t]);
            Cut(c, stream + [t], r) && SizedFrom(c, stream + [t], r.enqueued, m) && st.enqueued <= r.enqueued
  {
    hide End, EncodeRequest, BatchAt;
    var r := Flush(c, st);
    HandOver(c, stream, st);
    Accept(c, stream, r, t);
    assert [] + [t] == [t];
    SizedStays(c, stream, stream + [t], st, r.enqueued, m);
    assert SpansOf(st.items + [t]) == SpansOf(st.items) + [t.span];
    assert Sized(c, stream + [t], r.enqueued, |st.enqueued|);
  }

  // The buffer is handed over because it is full.
  lemma CutForCount(c: Config, stream: seq<Timed>, st: State, m: nat)
    requires Cut(c, stream, st) && SizedFrom(c, stream, st.enqueued, m) && st.items != [] && |st.items| == c.batchSize
    ensures var r := Flush(c, st);
            Cut(c, stream, r) && SizedFrom(c, stream, r.enqueued, m) && st.enqueued <= r.enqueued
  {
    hide End, EncodeRequest, BatchAt, SpansOf;
    HandOver(c, stream, st);
    SizedStays(c, stream, stream, st, Flush(c, st).enqueued, m);
  }

  /** Offering a span hands a batch over only for size or count. */
  lemma OfferSized(c: Config, stream: seq<Timed>, st: State, t: Timed, m: nat)
    requires c.Valid() && Cut(c, stream, st) && SizedFrom(c, stream, st.enqueued, m) && |st.items| < c.batchSize
    ensures var r, more := OfferOne(c, st, t), stream + if Fits(c, [t]) then [t] else [];
            && Cut(c, more, r) && SizedFrom(c, more, r.enqueued, m) && st.enqueued <= r.enqueued && |r.items| < c.batchSize
  {
    hide Cut, SizedFrom, Fits;
    assert stream + [] == stream;
    match Push(c, st.items, t) {
      case Refused => CutSame(c, stream, st, OfferOne(c, st, t));
      case Buffered(ready, items) =>
        var more := stream + [t];
        var next := State(items, if ready.Some? then st.enqueued + [ready.value] else st.enqueued, st.refused);
        if ready.Some? {
          CutForRoom(c, stream, st, t, m);
        } else {
          Accept(c, stream, st, t);
          SizedLonger(c, stream, st, t, m);
        }
        if |items| >= c.batchSize { CutForCount(c, more, next, m); }
    }
  }

  lemma CutSame(c: Config, stream: seq<Timed>, st: State, r: State)
    requires Cut(c, stream, st) && r.items == st.items && r.enqueued == st.enqueued
    ensures Cut(c, stream, r)
  {
  }

  lemma SizedLonger(c: Config, stream: seq<Timed>, st: State, t: Timed, m: nat)
    requires Cut(c, stream, st) && SizedFrom(c, stream, st.enqueued, m)
    ensures SizedFrom(c, stream + [t], st.enqueued, m)
  {
    SizedStays(c, stream, stream + [t], st, st.enqueued, m);
  }

  lemma {:induction false} OfferAllSized(c: Config, before: seq<Timed>, st: State, offered: seq<Timed>)
    requires c.Valid() && Cut(c, Stream(c, before), st) && |st.items| < c.batchSize
    ensures var r, more := OfferAll(c, st, offered), Stream(c, before + offered);
            && Cut(c, more, r) && SizedFrom(c, more, r.enqueued, |st.enqueued|) && st.enqueued <= r.enqueued
            && |r.items| < c.batchSize && Stream(c, before) <= more
  {
    hide Cut, Stream, OfferOne, Sized, Fits;
    if offered == [] {
      assert before + offered == before;
    } else {
      var front, t := offered[..|offered| - 1], offered[|offered| - 1];
      assert before + offered == before + front + [t];
      OfferAllSized(c, before, st, front);
      StreamAppend(c, before + front, t);
      OfferSized(c, Stream(c, before + front), OfferAll(c, st, front), t, |st.enqueued|);
    }
  }

  // ---------------------------------------------------------------- runs

  lemma StreamOf(c: Config, events: seq<Event>)
    requires events != []
    ensures var front, e := events[..|events| - 1], events[|events| - 1];
            Offered(events) == if e.Tick? then Offered(front) else Offered(front) + e.offered
  {
  }

  lemma NothingCut(c: Config)
    ensures Cut(c, Stream(c, []), START)
  {
  }

  ghost predicate CutBy(c: Config, stream: seq<Timed>, enqueued: seq<ExportBatch>, e: Event, i: nat)
    requires i < |enqueued|
  {
    || Sized(c, stream, enqueued, i)
    || (i == |enqueued| - 1 && (e.Drain? || (e.Tick? && Waited(enqueued[i].oldest, e.now) >= e.maxAge)))
  }

  // What one event does to the batches.
  lemma StepCuts(c: Config, before: seq<Timed>, st: State, e: Event)
    requires c.Valid() && Cut(c, Stream(c, before), st) && |st.items| < c.batchSize
    ensures var r, more := Step(c, st, e), Stream(c, if e.Tick? then before else before + e.offered);
            && Cut(c, more, r) && |r.items| < c.batchSize && Stream(c, before) <= more && st.enqueued <= r.enqueued
            && forall i :: |st.enqueued| <= i < |r.enqueued| ==> CutBy(c, more, r.enqueued, e, i)
  {
    hide Cut, Stream, Sized, Fits, EncodeRequest, SpansOf;
    if e.Tick? {
      if Due(st.items, e.now, e.maxAge) { HandOver(c, Stream(c, before), st); }
    } else {
      OfferAllSized(c, before, st, e.offered);
      var all := OfferAll(c, st, e.offered);
      if e.Drain? && all.items != [] {
        var more := Stream(c, before + e.offered);
        HandOver(c, more, all);
        SizedStays(c, more, more, all, Flush(c, all).enqueued, |st.enqueued|);
      }
    }
  }

  function Waited(since: nat, now: nat): nat { if now > since then now - since else 0 }

  /** Event `e` of the run handed batch `i` over. */
  ghost predicate HandedOverBy(c: Config, events: seq<Event>, e: int, i: int) {
    0 <= e < |events| && |Run(c, events[..e]).enqueued| <= i < |Run(c, events[..e + 1]).enqueued|
  }

  /** A tick at which the batch's first span had waited the age limit, or the last batch of a drain. */
  ghost predicate Released(c: Config, events: seq<Event>, e: int, i: int) {
    && HandedOverBy(c, events, e, i)
    && i == |Run(c, events[..e + 1]).enqueued| - 1
    && match events[e]
       case Frame(_) => false
       case Drain(_) => true
       case Tick(now, maxAge) => Waited(Run(c, events[..e + 1]).enqueued[i].oldest, now) >= maxAge
  }

  /** Over every run: batches are consecutive stretches of the acceptable spans, the buffer is the rest, and each batch
      has exactly `batchSize` spans, or the next acceptable span would make it too large, or it was handed over by a
      tick at which its first span had waited the age limit, or last of all by a drain. */
  lemma {:induction false} HandoversJustified(c: Config, events: seq<Event>)
    requires c.Valid()
    ensures Cut(c, Stream(c, Offered(events)), Run(c, events)) && |Run(c, events).items| < c.batchSize
    ensures forall i :: 0 <= i < |Run(c, events).enqueued| ==>
              Sized(c, Stream(c, Offered(events)), Run(c, events).enqueued, i) || exists e :: Released(c, events, e, i)
  {
    hide Cut, Stream, Sized, Step, Offered, Released;
    if events == [] {
      NothingCut(c);
      assert Offered(events) == [] by { NothingOffered(); }
    } else {
      var n := |events| - 1;
      var front, e := events[..n], events[n];
      HandoversJustified(c, front);
      StreamOf(c, events);
      var st, r := Run(c, front), Run(c, events);
      var was, more := Stream(c, Offered(front)), Stream(c, Offered(events));
      StepCuts(c, Offered(front), st, e);
      assert r == Step(c, st, e);
      SizedLift(c, was, more, st, r.enqueued);
      forall i | 0 <= i < |r.enqueued| && !Sized(c, more, r.enqueued, i) ensures exists k :: Released(c, events, k, i) {
        if i < |st.enqueued| {
          assert !Sized(c, was, st.enqueued, i);
          var k :| Released(c, front, k, i);
          ReleasedLift(c, events, k, i);
        } else {
          assert CutBy(c, more, r.enqueued, e, i);
          ReleasedLast(c, events, i);
        }
      }
    }
  }

  lemma NothingOffered()
    ensures Offered([]) == []
  {
  }

  lemma SizedLift(c: Config, stream: seq<Timed>, more: seq<Timed>, st: State, b: seq<ExportBatch>)
    requires Cut(c, stream, st) && stream <= more && st.enqueued <= b
    ensures forall i :: 0 <= i < |st.enqueued| && Sized(c, stream, st.enqueued, i) ==> Sized(c, more, b, i)
  {
    hide Sized, BatchAt, End;
    forall i | 0 <= i < |st.enqueued| && Sized(c, stream, st.enqueued, i) ensures Sized(c, more, b, i) {
      BatchStays(c, stream, more, st.enqueued, b, i);
    }
  }

  lemma ReleasedLift(c: Config, events: seq<Event>, k: int, i: int)
    requires events != [] && Released(c, events[..|events| - 1], k, i)
    ensures Released(c, events, k, i)
  {
    hide Run;
    var front := events[..|events| - 1];
    assert front[..k] == events[..k] && front[..k + 1] == events[..k + 1];
  }

  lemma ReleasedLast(c: Config, events: seq<Event>, i: nat)
    requires events != []
    requires var st, r, e := Run(c, events[..|events| - 1]), Run(c, events), events[|events| - 1];
             && |st.enqueued| <= i == |r.enqueued| - 1
             && (e.Drain? || (e.Tick? && Waited(r.enqueued[i].oldest, e.now) >= e.maxAge))
    ensures Released(c, events, |events| - 1, i)
  {
    hide Run;
    assert events[..|events| - 1 + 1] == events;
  }

  /** A tick before the age limit changes nothing, and one at it hands the whole buffer over. */
  lemma TickExact(c: Config, events: seq<Event>, now: nat, maxAge: nat)
    ensures var st, r := Run(c, events), Run(c, events + [Tick(now, maxAge)]);
            if st.items == [] || Waited(st.items[0].at, now) < maxAge then r == st
            else r.items == [] && r.enqueued == st.enqueued + [BatchOf(c, st.items)] && r.refused == st.refused
  {
    hide EncodeRequest;
    assert (events + [Tick(now, maxAge)])[..|events|] == events;
  }
}
