/** The daemon's span batcher: predicts the exact size of a nested OTLP request as spans arrive, and splits
    batches by size, count and age. Spans, resource and scope are opaque encoded messages. */
module SpanBatching {
  import opened Wire

  const MAX_REQUEST_BYTES: nat := 1024 * 1024

  type Span = seq<byte>

  // ---------------------------------------------------------------- the wire form of a request

  /** A length-delimited field whose number is below 16, so that the tag is one byte. */
  function EncodeField(tag: byte, payload: seq<byte>): seq<byte> {
    [tag] + EncodeVarint(|payload|) + payload
  }

  /** A string field; the empty string is omitted. */
  function EncodeString(tag: byte, text: seq<byte>): seq<byte> {
    if text == [] then [] else EncodeField(tag, text)
  }

  function EncodeSpans(spans: seq<Span>): seq<byte> {
    if spans == [] then [] else EncodeSpans(spans[..|spans| - 1]) + EncodeField(0x12, spans[|spans| - 1])
  }

  datatype Config = Config(resource: seq<byte>, scope: seq<byte>, schemaUrl: seq<byte>, batchSize: nat) {
    predicate Valid() { 1 <= batchSize <= 4096 }
  }

  function EncodeScopeSpans(c: Config, spans: seq<Span>): seq<byte> {
    EncodeField(0x0a, c.scope) + EncodeSpans(spans) + EncodeString(0x1a, c.schemaUrl)
  }

  function EncodeResourceSpans(c: Config, spans: seq<Span>): seq<byte> {
    EncodeField(0x0a, c.resource) + EncodeField(0x12, EncodeScopeSpans(c, spans)) + EncodeString(0x1a, c.schemaUrl)
  }

  /** The request built from a batch: one resource, one scope, the schema URL on both levels. */
  function EncodeRequest(c: Config, spans: seq<Span>): seq<byte> {
    EncodeField(0x0a, EncodeResourceSpans(c, spans))
  }

  // ---------------------------------------------------------------- predicted sizes

  function FieldBytes(len: nat): nat { 1 + |EncodeVarint(len)| + len }

  /** The varint width counted by shifting: the loop equals tag, varint and payload. */
  method CountFieldBytes(len: nat) returns (r: nat)
    ensures r == FieldBytes(len)
    ensures forall tag: byte, payload: seq<byte> :: |payload| == len ==> |EncodeField(tag, payload)| == r
  {
    var value, varint := len, 1;
    while value >= 128
      invariant varint - 1 + |EncodeVarint(value)| == |EncodeVarint(len)|
    {
      value := value / 128;
      varint := varint + 1;
    }
    r := 1 + varint + len;
  }

  function StringFieldBytes(len: nat): nat { if len == 0 then 0 else FieldBytes(len) }

  /** The size the batcher predicts from the running total of the span fields. */
  function RequestBytes(c: Config, spanBytes: nat): nat {
    var schema := StringFieldBytes(|c.schemaUrl|);
    var scopeInner := FieldBytes(|c.scope|) + spanBytes + schema;
    var resourceInner := FieldBytes(|c.resource|) + FieldBytes(scopeInner) + schema;
    FieldBytes(resourceInner)
  }

  /** The prediction is the length of the real encoding, for every resource, scope, schema and span sequence. */
  lemma RequestBytesExact(c: Config, spans: seq<Span>)
    ensures RequestBytes(c, |EncodeSpans(spans)|) == |EncodeRequest(c, spans)|
  {
  }

  lemma EncodeSpansAppend(spans: seq<Span>, span: Span)
    ensures |EncodeSpans(spans + [span])| == |EncodeSpans(spans)| + FieldBytes(|span|)
    ensures |EncodeSpans([span])| == FieldBytes(|span|)
  {
  }

  lemma {:induction false} EncodingMonotone(a: nat, b: nat)
    requires a <= b
    ensures |EncodeVarint(a)| <= |EncodeVarint(b)|
  {
    if a >= 128 { EncodingMonotone(a / 128, b / 128); }
  }

  /** A longer run of spans never encodes shorter. */
  lemma RequestBytesMonotone(c: Config, a: nat, b: nat)
    requires a <= b
    ensures RequestBytes(c, a) <= RequestBytes(c, b)
  {
    var schema := StringFieldBytes(|c.schemaUrl|);
    var sa, sb := FieldBytes(|c.scope|) + a + schema, FieldBytes(|c.scope|) + b + schema;
    EncodingMonotone(sa, sb);
    EncodingMonotone(FieldBytes(|c.resource|) + FieldBytes(sa) + schema,
                     FieldBytes(|c.resource|) + FieldBytes(sb) + schema);
  }

  // ---------------------------------------------------------------- batches and what one offer does

  /** A span with the instant at which it was offered. */
  datatype Timed = Timed(span: Span, at: nat)

  function SpansOf(items: seq<Timed>): (r: seq<Span>)
    ensures |r| == |items|
    ensures forall i :: 0 <= i < |items| ==> r[i] == items[i].span
  {
    seq(|items|, i requires 0 <= i < |items| => items[i].span)
  }

  datatype ExportBatch = ExportBatch(spans: seq<Span>, count: nat, encodedBytes: nat, oldest: nat)

  function BatchOf(c: Config, items: seq<Timed>): ExportBatch
    requires items != []
  {
    ExportBatch(SpansOf(items), |items|, |EncodeRequest(c, SpansOf(items))|, items[0].at)
  }

  /** The size limit a batch has to meet. */
  predicate Fits(c: Config, items: seq<Timed>) {
    |EncodeRequest(c, SpansOf(items))| <= MAX_REQUEST_BYTES
  }

  datatype Offer =
    | Refused
    | Buffered(ready: Option<ExportBatch>, items: seq<Timed>)

  /** What offering a span does to the buffered items. */
  function Push(c: Config, items: seq<Timed>, t: Timed): Offer {
    if !Fits(c, [t]) then Refused
    else if items != [] && !Fits(c, items + [t]) then Buffered(Some(BatchOf(c, items)), [t])
    else Buffered(None, items + [t])
  }

  /** The batcher object. `items` remembers, for the specification, when each buffered span was offered. */
  class SpanBatcher {
    const config: Config
    const resourceBytes: nat
    const scopeBytes: nat
    const schemaFieldBytes: nat
    var spans: seq<Span>
    var wireBytes: nat
    var oldest: Option<nat>
    ghost var items: seq<Timed>

    ghost predicate Valid()
      reads this
    {
      && config.Valid()
      && resourceBytes == FieldBytes(|config.resource|)
      && scopeBytes == FieldBytes(|config.scope|)
      && schemaFieldBytes == StringFieldBytes(|config.schemaUrl|)
      && spans == SpansOf(items)
      && wireBytes == |EncodeSpans(spans)|
      && oldest == if items == [] then None else Some(items[0].at)
    }

    constructor (resource: seq<byte>, scope: seq<byte>, batchSize: nat, schemaUrl: seq<byte>)
      ensures Valid() && items == []
      ensures config == Config(resource, scope, schemaUrl,
                               if batchSize < 1 then 1 else if batchSize > 4096 then 4096 else batchSize)
    {
      resourceBytes := FieldBytes(|resource|);
      scopeBytes := FieldBytes(|scope|);
      schemaFieldBytes := StringFieldBytes(|schemaUrl|);
      config := Config(resource, scope, schemaUrl,
                       if batchSize < 1 then 1 else if batchSize > 4096 then 4096 else batchSize);
      spans, wireBytes, oldest, items := [], 0, None, [];
    }

    method PredictRequestBytes(spanBytes: nat) returns (r: nat)
      requires Valid()
      ensures r == RequestBytes(config, spanBytes)
    {
      var scopeField := CountFieldBytes(scopeBytes + spanBytes + schemaFieldBytes);
      r := CountFieldBytes(resourceBytes + scopeField + schemaFieldBytes);
    }

    /** Offers a span. A returned batch precedes the newly buffered span. */
    method TryPush(span: Span, now: nat) returns (refused: bool, ready: Option<ExportBatch>)
      requires Valid()
      modifies this
      ensures Valid()
      ensures match Push(config, old(items), Timed(span, now))
              case Refused => refused && ready == None && items == old(items)
              case Buffered(batch, rest) => !refused && ready == batch && items == rest
    {
      hide EncodeVarint, EncodeRequest, EncodeSpans, FieldBytes, RequestBytes;
      ghost var t := Timed(span, now);
      var bytes := CountFieldBytes(|span|);
      var alone := PredictRequestBytes(bytes);
      assert SpansOf([t]) == [span] && SpansOf(items + [t]) == spans + [span];
      EncodeSpansAppend(spans, span);
      RequestBytesExact(config, [span]);
      RequestBytesExact(config, spans + [span]);
      if alone > MAX_REQUEST_BYTES {
        return true, None;
      }
      ready := None;
      if spans != [] {
        var together := PredictRequestBytes(wireBytes + bytes);
        if together > MAX_REQUEST_BYTES {
          ready := Take();
          assert items + [t] == [t];
        }
      }
      EncodeSpansAppend(spans, span);
      assert SpansOf(items + [t]) == spans + [span];
      if oldest == None { oldest := Some(now); }
      wireBytes := wireBytes + bytes;
      spans := spans + [span];
      items := items + [t];
      refused := false;
    }

    method IsFull() returns (full: bool)
      requires Valid()
      ensures full <==> |items| >= config.batchSize
    {
      full := |spans| >= config.batchSize;
    }

    /** Empties the buffer into a batch whose predicted size is its real size. */
    method Take() returns (ready: Option<ExportBatch>)
      requires Valid()
      modifies this
      ensures Valid() && items == []
      ensures ready == if old(items) == [] then None else Some(BatchOf(config, old(items)))
    {
      if spans == [] { return None; }
      var predicted := PredictRequestBytes(wireBytes);
      RequestBytesExact(config, spans);
      assert predicted == |EncodeRequest(config, spans)|;
      ready := Some(ExportBatch(spans, |spans|, |EncodeRequest(config, spans)|, oldest.value));
      spans, wireBytes, oldest, items := [], 0, None, [];
    }

    /** Empties the buffer once its first span has reached the age limit. */
    method TakeDue(now: nat, maxAge: nat) returns (ready: Option<ExportBatch>)
      requires Valid()
      modifies this
      ensures Valid()
      ensures Due(old(items), now, maxAge) ==> items == [] && ready == Some(BatchOf(config, old(items)))
      ensures !Due(old(items), now, maxAge) ==> items == old(items) && ready == None
    {
      ready := None;
      if oldest.Some? && (if now > oldest.value then now - oldest.value else 0) >= maxAge {
        ready := Take();
      }
    }
  }

  /** The first buffered span has waited at least `maxAge`; a clock before its instant counts as no wait. */
  predicate Due(items: seq<Timed>, now: nat, maxAge: nat) {
    items != [] && (if now > items[0].at then now - items[0].at else 0) >= maxAge
  }

  // ---------------------------------------------------------------- the daemon's use of the batcher

  /** The buffered spans, the batches handed to the export queue, and the count of refused spans. */
  datatype State = State(items: seq<Timed>, enqueued: seq<ExportBatch>, refused: nat)

  const START := State([], [], 0)

  datatype Event =
    | Frame(offered: seq<Timed>)
    | Tick(now: nat, maxAge: nat)
    | Drain(offered: seq<Timed>)

  function Flush(c: Config, st: State): State {
    if st.items == [] then st else State([], st.enqueued + [BatchOf(c, st.items)], st.refused)
  }

  function OfferOne(c: Config, st: State, t: Timed): State {
    match Push(c, st.items, t)
    case Refused => st.(refused := st.refused + 1)
    case Buffered(ready, items) =>
      var next := State(items, if ready.Some? then st.enqueued + [ready.value] else st.enqueued, st.refused);
      if |items| >= c.batchSize then Flush(c, next) else next
  }

  function OfferAll(c: Config, st: State, offered: seq<Timed>): State {
    if offered == [] then st
    else OfferOne(c, OfferAll(c, st, offered[..|offered| - 1]), offered[|offered| - 1])
  }

  function Step(c: Config, st: State, e: Event): State {
    match e
    case Frame(offered) => OfferAll(c, st, offered)
    case Tick(now, maxAge) => if Due(st.items, now, maxAge) then Flush(c, st) else st
    case Drain(offered) => Flush(c, OfferAll(c, st, offered))
  }

  function Run(c: Config, events: seq<Event>): State {
    if events == [] then START else Step(c, Run(c, events[..|events| - 1]), events[|events| - 1])
  }

  class Daemon {
    const batcher: SpanBatcher
    var enqueued: seq<ExportBatch>
    var refused: nat

    constructor (batcher: SpanBatcher)
      requires batcher.Valid() && batcher.items == []
      ensures this.batcher == batcher && Valid() && Value() == START
    {
      this.batcher := batcher;
      enqueued, refused := [], 0;
    }

    ghost predicate Valid()
      reads this, batcher
    {
      batcher.Valid()
    }

    ghost function Value(): State
      reads this, batcher
    {
      State(batcher.items, enqueued, refused)
    }

    /** Offers the spans of one frame in order, emptying the buffer whenever it is full. */
    method Transform(offered: seq<Timed>)
      requires Valid()
      modifies this, batcher
      ensures Valid()
      ensures Value() == OfferAll(batcher.config, old(Value()), offered)
    {
      assert offered[..0] == [];
      for k := 0 to |offered|
        invariant Valid()
        invariant Value() == OfferAll(batcher.config, old(Value()), offered[..k])
      {
        assert offered[..k + 1][..k] == offered[..k];
        var wasRefused, ready := batcher.TryPush(offered[k].span, offered[k].at);
        if wasRefused {
          refused := refused + 1;
        } else {
          if ready.Some? { enqueued := enqueued + [ready.value]; }
          var full := batcher.IsFull();
          if full {
            var batch := batcher.Take();
            if batch.Some? { enqueued := enqueued + [batch.value]; }
          }
        }
      }
      assert offered[..|offered|] == offered;
    }

    method OnTick(now: nat, maxAge: nat)
      requires Valid()
      modifies this, batcher
      ensures Valid()
      ensures Value() == Step(batcher.config, old(Value()), Tick(now, maxAge))
    {
      var ready := batcher.TakeDue(now, maxAge);
      if ready.Some? { enqueued := enqueued + [ready.value]; }
    }

    /** Shutdown: the frames still queued are transformed, then whatever is buffered is handed over. */
    method Shutdown(offered: seq<Timed>)
      requires Valid()
      modifies this, batcher
      ensures Valid()
      ensures Value() == Step(batcher.config, old(Value()), Drain(offered))
    {
      Transform(offered);
      var ready := batcher.Take();
      if ready.Some? { enqueued := enqueued + [ready.value]; }
    }
  }

  // ---------------------------------------------------------------- what holds over every run

  function Offered(events: seq<Event>): seq<Timed> {
    if events == [] then []
    else
      var e := events[|events| - 1];
      Offered(events[..|events| - 1]) + if e.Tick? then [] else e.offered
  }

  /** The offered spans that fit a request of their own, in order. */
  function Acceptable(c: Config, offered: seq<Timed>): seq<Span> {
    if offered == [] then []
    else
      var t := offered[|offered| - 1];
      Acceptable(c, offered[..|offered| - 1]) + if Fits(c, [t]) then [t.span] else []
  }

  function Concat(batches: seq<ExportBatch>): seq<Span> {
    if batches == [] then [] else Concat(batches[..|batches| - 1]) + batches[|batches| - 1].spans
  }

  /** A batch that the exporter can send: within both limits, its recorded size that of its encoding. */
  predicate Sendable(c: Config, b: ExportBatch) {
    && 1 <= b.count == |b.spans| <= c.batchSize
    && b.encodedBytes == |EncodeRequest(c, b.spans)| <= 1_048_576
  }

  /** Nothing lost, nothing reordered, nothing oversized. */
  ghost predicate Accounted(c: Config, offered: seq<Timed>, st: State) {
    && Concat(st.enqueued) + SpansOf(st.items) == Acceptable(c, offered)
    && st.refused + |Acceptable(c, offered)| == |offered|
    && (forall i :: 0 <= i < |st.enqueued| ==> Sendable(c, st.enqueued[i]))
    && |st.items| <= c.batchSize
    && (st.items != [] ==> Fits(c, st.items))
  }

  /** As above, and the buffer has room for another span. */
  ghost predicate Delivered(c: Config, offered: seq<Timed>, st: State) {
    Accounted(c, offered, st) && |st.items| < c.batchSize
  }

  lemma ConcatAppend(batches: seq<ExportBatch>, b: ExportBatch)
    ensures Concat(batches + [b]) == Concat(batches) + b.spans
  {
  }

  /** Handing over the buffer keeps the stream, whether or not the buffer had room left. */
  lemma FlushKeeps(c: Config, offered: seq<Timed>, st: State)
    requires c.Valid() && Accounted(c, offered, st)
    ensures Delivered(c, offered, Flush(c, st)) && Flush(c, st).items == []
    ensures Concat(Flush(c, st).enqueued) == Acceptable(c, offered)
  {
  }

  lemma AcceptableAppend(c: Config, offered: seq<Timed>, t: Timed)
    ensures Acceptable(c, offered + [t]) == Acceptable(c, offered) + if Fits(c, [t]) then [t.span] else []
  {
  }

  lemma PushKeeps(c: Config, offered: seq<Timed>, st: State, t: Timed)
    requires c.Valid() && Delivered(c, offered, st) && Push(c, st.items, t).Buffered?
    ensures var Buffered(ready, items) := Push(c, st.items, t);
            var enqueued := if ready.Some? then st.enqueued + [ready.value] else st.enqueued;
            Accounted(c, offered + [t], State(items, enqueued, st.refused))
  {
    hide EncodeRequest, Acceptable, Concat;
    var Buffered(ready, items) := Push(c, st.items, t);
    AcceptableAppend(c, offered, t);
    assert SpansOf([t]) == [t.span];
    if ready.Some? {
      ConcatAppend(st.enqueued, ready.value);
    } else {
      assert SpansOf(items) == SpansOf(st.items) + [t.span];
      assert Concat(st.enqueued) + SpansOf(items) == Concat(st.enqueued) + SpansOf(st.items) + [t.span];
      assert st.items == [] ==> items == [t];
    }
  }

  lemma OfferKeeps(c: Config, offered: seq<Timed>, st: State, t: Timed)
    requires c.Valid() && Delivered(c, offered, st)
    ensures Delivered(c, offered + [t], OfferOne(c, st, t))
  {
    hide EncodeRequest, Acceptable, Concat, SpansOf;
    AcceptableAppend(c, offered, t);
    match Push(c, st.items, t) {
      case Refused =>
        assert Acceptable(c, offered) + [] == Acceptable(c, offered);
      case Buffered(ready, items) =>
        PushKeeps(c, offered, st, t);
        var next := State(items, if ready.Some? then st.enqueued + [ready.value] else st.enqueued, st.refused);
        if |items| >= c.batchSize { FlushKeeps(c, offered + [t], next); }
    }
  }

  lemma {:induction false} OfferAllKeeps(c: Config, before: seq<Timed>, st: State, offered: seq<Timed>)
    requires c.Valid() && Delivered(c, before, st)
    ensures Delivered(c, before + offered, OfferAll(c, st, offered))
  {
    hide Delivered, OfferOne;
    if offered == [] {
      assert before + [] == before;
    } else {
      var front, t := offered[..|offered| - 1], offered[|offered| - 1];
      OfferAllKeeps(c, before, st, front);
      OfferKeeps(c, before + front, OfferAll(c, st, front), t);
      assert before + offered == before + front + [t];
    }
  }

  /** Over every run of frames, ticks and drains: the enqueued batches followed by the buffer are exactly the
      spans that fit alone, in the order offered; every batch is within both limits; the buffer has room. */
  lemma {:induction false} RunDelivers(c: Config, events: seq<Event>)
    requires c.Valid()
    ensures Delivered(c, Offered(events), Run(c, events))
    ensures events != [] && events[|events| - 1].Drain? ==>
              Run(c, events).items == [] && Concat(Run(c, events).enqueued) == Acceptable(c, Offered(events))
  {
    hide EncodeRequest;
    if events != [] {
      var front, e := events[..|events| - 1], events[|events| - 1];
      RunDelivers(c, front);
      var st := Run(c, front);
      if e.Tick? {
        assert Offered(events) == Offered(front);
        FlushKeeps(c, Offered(front), st);
      } else {
        OfferAllKeeps(c, Offered(front), st, e.offered);
        FlushKeeps(c, Offered(events), OfferAll(c, st, e.offered));
      }
    }
  }

  ghost predicate InOrder(items: seq<Timed>) { forall i, j :: 0 <= i < j < |items| ==> items[i].at <= items[j].at }

  /** The buffer holds spans offered before, oldest first. */
  ghost predicate OldestFirst(items: seq<Timed>, offered: seq<Timed>) {
    InOrder(items) && forall i :: 0 <= i < |items| ==> items[i] in offered
  }

  lemma OfferOldestFirst(c: Config, offered: seq<Timed>, st: State, t: Timed)
    requires InOrder(offered + [t]) && OldestFirst(st.items, offered)
    ensures OldestFirst(OfferOne(c, st, t).items, offered + [t])
  {
    hide Fits;
    var all := offered + [t];
    forall i | 0 <= i < |st.items| ensures st.items[i].at <= t.at {
      var k :| 0 <= k < |offered| && offered[k] == st.items[i];
      assert all[k] == offered[k] && all[|offered|] == t;
    }
    assert t in all && forall u :: u in offered ==> u in all;
  }

  lemma {:induction false} OfferAllOldestFirst(c: Config, before: seq<Timed>, st: State, offered: seq<Timed>)
    requires InOrder(before + offered) && OldestFirst(st.items, before)
    ensures OldestFirst(OfferAll(c, st, offered).items, before + offered)
  {
    hide OfferOne;
    if offered == [] {
      assert before + offered == before;
    } else {
      var front, t := offered[..|offered| - 1], offered[|offered| - 1];
      assert before + offered == before + front + [t];
      InOrderPrefix(before + front, [t]);
      OfferAllOldestFirst(c, before, st, front);
      OfferOldestFirst(c, before + front, OfferAll(c, st, front), t);
    }
  }

  lemma InOrderPrefix(a: seq<Timed>, b: seq<Timed>)
    requires InOrder(a + b)
    ensures InOrder(a)
  {
    assert forall i :: 0 <= i < |a| ==> (a + b)[i] == a[i];
  }

  lemma {:induction false} RunOldestFirst(c: Config, events: seq<Event>)
    requires InOrder(Offered(events))
    ensures OldestFirst(Run(c, events).items, Offered(events))
  {
    hide OfferOne, OldestFirst, Fits;
    if events == [] {
      NothingBuffered();
    } else {
      var front, e := events[..|events| - 1], events[|events| - 1];
      var all := Offered(events);
      InOrderPrefix(Offered(front), if e.Tick? then [] else e.offered);
      RunOldestFirst(c, front);
      if e.Tick? {
        assert all == Offered(front);
      } else {
        OfferAllOldestFirst(c, Offered(front), Run(c, front), e.offered);
      }
      EmptyIsOldestFirst(all);
    }
  }

  lemma NothingBuffered()
    ensures OldestFirst([], Offered([]))
  {
  }

  lemma EmptyIsOldestFirst(offered: seq<Timed>)
    ensures OldestFirst([], offered)
  {
  }

  /** Over every run with instants in order, after a tick no buffered span has waited the age limit: each one was
      offered less than `maxAge` before the tick. */
  lemma NothingOverdue(c: Config, events: seq<Event>)
    requires events != [] && events[|events| - 1].Tick? && InOrder(Offered(events))
    ensures var Tick(now, maxAge) := events[|events| - 1];
            forall i :: 0 <= i < |Run(c, events).items| ==> now < Run(c, events).items[i].at + maxAge
  {
    hide Offered, OfferOne, OfferAll;
    RunOldestFirst(c, events);
    var st := Run(c, events);
    if st.items != [] {
      assert forall i :: 0 < i < |st.items| ==> st.items[0].at <= st.items[i].at;
    }
  }

  /** A batch is cut short of its count only because the next span would have broken the size limit. */
  lemma CutOnlyWhenFull(c: Config, items: seq<Timed>, t: Timed)
    requires Push(c, items, t).Buffered? && Push(c, items, t).ready.Some?
    ensures Push(c, items, t).ready.value.spans == SpansOf(items)
    ensures |EncodeRequest(c, Push(c, items, t).ready.value.spans + [t.span])| > MAX_REQUEST_BYTES
    ensures Push(c, items, t).items == [t]
  {
    assert SpansOf(items + [t]) == SpansOf(items) + [t.span];
  }

  /** A span refused on its own would have broken the limit next to any others too, so nothing deliverable is lost. */
  lemma RefusedFitsNowhere(c: Config, items: seq<Timed>, t: Timed)
    requires Push(c, [], t).Refused?
    ensures !Fits(c, items + [t])
  {
    hide EncodeVarint, EncodeRequest, EncodeSpans, FieldBytes, RequestBytes;
    var spans := SpansOf(items);
    assert SpansOf([t]) == [t.span] && SpansOf(items + [t]) == spans + [t.span];
    EncodeSpansAppend(spans, t.span);
    RequestBytesExact(c, [t.span]);
    RequestBytesExact(c, spans + [t.span]);
    RequestBytesMonotone(c, |EncodeSpans([t.span])|, |EncodeSpans(spans + [t.span])|);
  }
}
