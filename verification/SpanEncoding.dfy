/** The request encoding that batch sizes are measured against, read as protobuf fields. */
module SpanEncoding {
  import opened Wire
  import opened OtlpResponse
  import opened SpanBatching

  /** The length-delimited field with a number below 16. */
  function Message(number: nat, payload: seq<byte>): Field
    requires 1 <= number < 16
  {
    Delimited([8 * number + 2], EncodeVarint(|payload|), payload)
  }

  lemma MessageIsField(number: nat, payload: seq<byte>)
    requires 1 <= number < 16 && |payload| < U64_LIMIT
    ensures var f := Message(number, payload);
            WellFormed(f) && Number(f) == number && Print(f) == EncodeField(8 * number + 2, payload)
  {
    EncodingIsVarint(|payload|);
    GroupSumOfEncoding(|payload|);
    var key: seq<byte> := [8 * number + 2];
    assert key[1..] == [] && GroupSum(key) == 8 * number + 2;
  }

  function SpanFields(spans: seq<Span>): seq<Field> {
    if spans == [] then [] else SpanFields(spans[..|spans| - 1]) + [Message(2, spans[|spans| - 1])]
  }

  /** A string field is left out when empty. */
  function SchemaFields(schemaUrl: seq<byte>): seq<Field> { if schemaUrl == [] then [] else [Message(3, schemaUrl)] }

  lemma PrintOne(f: Field)
    ensures PrintAll([f]) == Print(f)
  {
    assert [f][1..] == [];
    assert Print(f) + [] == Print(f);
  }

  lemma {:induction false} SpansAreFields(spans: seq<Span>)
    ensures PrintAll(SpanFields(spans)) == EncodeSpans(spans)
  {
    hide Print;
    if spans != [] {
      var front, span := spans[..|spans| - 1], spans[|spans| - 1];
      SpansAreFields(front);
      PrintAllConcat(SpanFields(front), [Message(2, span)]);
      PrintOne(Message(2, span));
      PrintsAsField(2, span);
    }
  }

  lemma PrintsAsField(number: nat, payload: seq<byte>)
    requires 1 <= number < 16
    ensures Print(Message(number, payload)) == EncodeField(8 * number + 2, payload)
  {
  }

  lemma SchemaIsField(schemaUrl: seq<byte>)
    ensures PrintAll(SchemaFields(schemaUrl)) == EncodeString(0x1a, schemaUrl)
  {
    if schemaUrl != [] {
      PrintOne(Message(3, schemaUrl));
      PrintsAsField(3, schemaUrl);
    }
  }

  /** The request is one resource message; that is the resource, one scope message and the schema URL; that is the scope,
      every span in order and the schema URL: field numbers 1, then 1, 2, 3 on both levels below. */
  lemma RequestIsFields(c: Config, spans: seq<Span>)
    ensures EncodeScopeSpans(c, spans) == PrintAll([Message(1, c.scope)] + SpanFields(spans) + SchemaFields(c.schemaUrl))
    ensures EncodeResourceSpans(c, spans)
         == PrintAll([Message(1, c.resource)] + [Message(2, EncodeScopeSpans(c, spans))] + SchemaFields(c.schemaUrl))
    ensures EncodeRequest(c, spans) == PrintAll([Message(1, EncodeResourceSpans(c, spans))])
  {
    hide Print, PrintAll, EncodeField, EncodeSpans, Message, SpanFields, SchemaFields, EncodeString;
    SpansAreFields(spans);
    SchemaIsField(c.schemaUrl);
    Level(c.scope, SpanFields(spans), SchemaFields(c.schemaUrl));
    Level(c.resource, [Message(2, EncodeScopeSpans(c, spans))], SchemaFields(c.schemaUrl));
    PrintOne(Message(2, EncodeScopeSpans(c, spans)));
    PrintsAsField(2, EncodeScopeSpans(c, spans));
    PrintOne(Message(1, EncodeResourceSpans(c, spans)));
    PrintsAsField(1, EncodeResourceSpans(c, spans));
  }

  lemma Level(head: seq<byte>, middle: seq<Field>, schema: seq<Field>)
    ensures PrintAll([Message(1, head)] + middle + schema) == EncodeField(0x0a, head) + PrintAll(middle) + PrintAll(schema)
  {
    PrintAllConcat([Message(1, head)] + middle, schema);
    PrintAllConcat([Message(1, head)], middle);
    PrintOne(Message(1, head));
    PrintsAsField(1, head);
  }

  ghost predicate IsSpanField(f: Field, span: Span) {
    WellFormed(f) && Number(f) == 2 && f.Delimited? && f.payload == span
  }

  /** Every field of the spans is well formed, so a protobuf reader recovers exactly the batch, span by span. */
  lemma {:induction false} SpanFieldsExact(spans: seq<Span>)
    requires forall i :: 0 <= i < |spans| ==> |spans[i]| < U64_LIMIT
    ensures |SpanFields(spans)| == |spans|
    ensures forall i :: 0 <= i < |spans| ==> IsSpanField(SpanFields(spans)[i], spans[i])
  {
    hide IsSpanField;
    if spans != [] {
      var n := |spans| - 1;
      SpanFieldsExact(spans[..n]);
      MessageIsSpanField(spans[n]);
      assert forall i :: 0 <= i < n ==> SpanFields(spans)[i] == SpanFields(spans[..n])[i];
    }
  }

  lemma MessageIsSpanField(span: Span)
    requires |span| < U64_LIMIT
    ensures IsSpanField(Message(2, span), span)
  {
    MessageIsField(2, span);
  }
}
