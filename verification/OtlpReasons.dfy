/** What the response parser's answer means: which count it returns, and which error and why. */
module OtlpReasons {
  import opened Wire
  import opened OtlpResponse

  // ---------------------------------------------------------------- counts

  predicate IsCount(f: Field) { f.Scalar? && Number(f) == 1 }

  predicate IsPartial(f: Field) { f.Delimited? && Number(f) == 1 }

  lemma {:induction false} LastCountAt(inner: seq<Field>, j: nat)
    requires j < |inner| && IsCount(inner[j]) && forall k :: j < k < |inner| ==> !IsCount(inner[k])
    ensures LastCount(inner) == Some(GroupSum(inner[j].value))
  {
    if j < |inner| - 1 { LastCountAt(inner[..|inner| - 1], j); }
  }

  lemma {:induction false} LastPartialAt(fields: seq<Field>, i: nat)
    requires i < |fields| && IsPartial(fields[i]) && forall k :: i < k < |fields| ==> !IsPartial(fields[k])
    ensures LastPartial(fields) == Some(fields[i].payload)
  {
    if i < |fields| - 1 { LastPartialAt(fields[..|fields| - 1], i); }
  }

  lemma {:induction false} NoPartial(fields: seq<Field>)
    requires forall k :: 0 <= k < |fields| ==> !IsPartial(fields[k])
    ensures LastPartial(fields) == None
  {
    if fields != [] { NoPartial(fields[..|fields| - 1]); }
  }

  /** A response, written field by field, yields the value of the last count field inside its last partial success. */
  lemma CountIsLastOfLast(fields: seq<Field>, i: nat, inner: seq<Field>, j: nat)
    requires OuterFields(fields) && |PrintAll(fields)| < U64_LIMIT
    requires i < |fields| && IsPartial(fields[i]) && forall k :: i < k < |fields| ==> !IsPartial(fields[k])
    requires InnerFields(inner) && fields[i].payload == PrintAll(inner)
    requires j < |inner| && IsCount(inner[j]) && forall k :: j < k < |inner| ==> !IsCount(inner[k])
    ensures ResponseCount(PrintAll(fields)) == Ok(Some(GroupSum(inner[j].value)))
  {
    hide OuterFields, InnerFields, PrintAll, ResponseCount;
    LastPartialAt(fields, i);
    LastCountAt(inner, j);
    CountOfFields(fields, inner);
  }

  /** It yields no count if it has no partial success, or the last one has no count field. */
  lemma NoCount(fields: seq<Field>, i: nat, inner: seq<Field>)
    requires OuterFields(fields) && |PrintAll(fields)| < U64_LIMIT
    requires InnerFields(inner) && forall k :: 0 <= k < |inner| ==> !IsCount(inner[k])
    requires if i < |fields| then
               IsPartial(fields[i]) && (forall k :: i < k < |fields| ==> !IsPartial(fields[k])) && fields[i].payload == PrintAll(inner)
             else
               inner == [] && forall k :: 0 <= k < |fields| ==> !IsPartial(fields[k])
    ensures ResponseCount(PrintAll(fields)) == Ok(None)
  {
    hide OuterFields, InnerFields, PrintAll, ResponseCount;
    if i < |fields| { LastPartialAt(fields, i); } else { NoPartial(fields); }
    LastCountIff(inner);
    CountOfFields(fields, inner);
  }

  // ---------------------------------------------------------------- the first error

  // Fields that stand at a position are skipped one by one.
  lemma {:induction false} OuterSkips(body: seq<byte>, i: nat, done: seq<Field>)
    requires i <= |body| < U64_LIMIT && OuterFields(done)
    requires i + |PrintAll(done)| <= |body| && body[i..i + |PrintAll(done)|] == PrintAll(done)
    ensures OuterFrom(body, i).Err? <==> OuterFrom(body, i + |PrintAll(done)|).Err?
    ensures OuterFrom(body, i).Err? ==> OuterFrom(body, i) == OuterFrom(body, i + |PrintAll(done)|)
    decreases |done|
  {
    hide WellFormed, NextOuter, PartialSuccessBody, InnerFrom, Print, NextInner;
    if done != [] {
      var f, rest := done[0], done[1..];
      assert OuterField(f);
      PrintNonempty(f);
      var all := PrintAll(done);
      SliceOfSlice(body, i, i + |all|, 0, |Print(f)|);
      SliceOfSlice(body, i, i + |all|, |Print(f)|, |all|);
      NextOuterIff(body, i, f);
      if Number(f) == 1 {
        PayloadShorter(body, i, f);
        PartialSuccessIff(f.payload);
      }
      OuterSkips(body, i + |Print(f)|, rest);
    }
  }

  /** The parser fails with the reason of the first field that is not well formed. */
  lemma FirstErrorWins(body: seq<byte>, done: seq<Field>)
    requires |body| < U64_LIMIT && OuterFields(done) && PrintAll(done) <= body && |PrintAll(done)| < |body|
    ensures NextOuter(body, |PrintAll(done)|).Err? ==>
              ResponseCount(body) == Err(NextOuter(body, |PrintAll(done)|).reason)
  {
    hide OuterFields, PrintAll, NextOuter;
    OuterSkips(body, 0, done);
    OuterErr(body, |PrintAll(done)|);
  }

  /** Or with the reason found inside the first partial success that does not parse. */
  lemma FirstBadPartialWins(body: seq<byte>, done: seq<Field>, f: Field)
    requires |body| < U64_LIMIT && OuterFields(done) && PrintAll(done) <= body && |PrintAll(done)| < |body|
    requires NextOuter(body, |PrintAll(done)|) == Ok(f) && IsPartial(f) && |f.payload| < U64_LIMIT && PartialCount(f.payload).Err?
    ensures ResponseCount(body) == Err(PartialCount(f.payload).reason)
  {
    hide OuterFields, PrintAll, NextOuter, PartialCount;
    OuterSkips(body, 0, done);
    OuterStop(body, |PrintAll(done)|, f);
  }

  lemma {:induction false} InnerSkips(body: seq<byte>, i: nat, done: seq<Field>)
    requires i <= |body| < U64_LIMIT && InnerFields(done)
    requires i + |PrintAll(done)| <= |body| && body[i..i + |PrintAll(done)|] == PrintAll(done)
    ensures InnerFrom(body, i).Err? <==> InnerFrom(body, i + |PrintAll(done)|).Err?
    ensures InnerFrom(body, i).Err? ==> InnerFrom(body, i) == InnerFrom(body, i + |PrintAll(done)|)
    decreases |done|
  {
    hide WellFormed, NextInner, Print;
    if done != [] {
      var f, rest := done[0], done[1..];
      assert InnerField(f);
      PrintNonempty(f);
      var all := PrintAll(done);
      SliceOfSlice(body, i, i + |all|, 0, |Print(f)|);
      SliceOfSlice(body, i, i + |all|, |Print(f)|, |all|);
      NextInnerIff(body, i, f);
      InnerSkips(body, i + |Print(f)|, rest);
    }
  }

  /** The same inside a partial success. */
  lemma FirstInnerErrorWins(body: seq<byte>, done: seq<Field>)
    requires |body| < U64_LIMIT && InnerFields(done) && PrintAll(done) <= body && |PrintAll(done)| < |body|
    ensures NextInner(body, |PrintAll(done)|).Err? ==>
              PartialCount(body) == Err(NextInner(body, |PrintAll(done)|).reason)
  {
    hide InnerFields, PrintAll, NextInner;
    InnerSkips(body, 0, done);
    InnerErr(body, |PrintAll(done)|);
  }

  // ---------------------------------------------------------------- causes

  /** Why a field of a response is refused: its key, then its wire type, then what follows. */
  lemma OuterCauses(body: seq<byte>, i: nat, number: nat, wire: nat, used: nat)
    requires i < |body| < U64_LIMIT && wire < 8
    requires DecodeVarint(body[i..]) == Read(8 * number + wire, used)
    ensures var next, rest := NextOuter(body, i), body[i + used..];
            && (next == Err(InvalidFieldNumber) <==> number == 0)
            && (next == Err(InvalidPartialSuccessWire) <==> number == 1 && wire != 2)
            && (number >= 2 ==> (next == Err(UnsupportedWire) <==> wire in {3, 4, 6, 7}))
            && (number >= 2 && wire == 1 ==> (next == Err(TruncatedResponse) <==> |rest| < 8))
            && (number >= 2 && wire == 5 ==> (next == Err(TruncatedResponse) <==> |rest| < 4))
            && (number >= 2 && wire == 0 ==> (next.Err? <==> !DecodeVarint(rest).Read?))
            && (number >= 1 && wire == 2 ==>
                  match DecodeVarint(rest)
                  case TruncatedVarint => next == Err(BadVarint(true))
                  case OversizedVarint => next == Err(BadVarint(false))
                  case Read(size, n) =>
                    && (next == Err(LengthOverflow) <==> i + used + n + size >= 0x1_0000_0000_0000_0000)
                    && (next == Err(TruncatedResponse) <==>
                          |rest| < n + size && i + used + n + size < 0x1_0000_0000_0000_0000))
  {
    hide DecodeVarint;
    assert (8 * number + wire) / 8 == number && (8 * number + wire) % 8 == wire;
  }

  /** Why a field of a partial success is refused. */
  lemma InnerCauses(body: seq<byte>, i: nat, number: nat, wire: nat, used: nat)
    requires i < |body| < U64_LIMIT && wire < 8
    requires DecodeVarint(body[i..]) == Read(8 * number + wire, used)
    ensures var next, rest := NextInner(body, i), body[i + used..];
            && (next == Err(InvalidPartialFieldNumber) <==> number == 0)
            && (next == Err(InvalidRejectedSpansWire) <==> number == 1 && wire != 0)
            && (next == Err(InvalidErrorMessageWire) <==> number == 2 && wire != 2)
            && (next == Err(InvalidPartial) <==> number >= 3 && wire !in {0, 2})
            && (number >= 1 && number != 2 && wire == 0 ==> (next.Err? <==> !DecodeVarint(rest).Read?))
            && (number >= 2 && wire == 2 ==>
                  match DecodeVarint(rest)
                  case TruncatedVarint => next == Err(BadVarint(true))
                  case OversizedVarint => next == Err(BadVarint(false))
                  case Read(size, n) =>
                    && (next == Err(LengthOverflow) <==> i + used + n + size >= 0x1_0000_0000_0000_0000)
                    && (next == Err(TruncatedPartial) <==>
                          |rest| < n + size && i + used + n + size < 0x1_0000_0000_0000_0000))
  {
    hide DecodeVarint;
    assert (8 * number + wire) / 8 == number && (8 * number + wire) % 8 == wire;
  }

  /** A key that cannot be read refuses the field with the varint's own failure. */
  lemma KeyCauses(body: seq<byte>, i: nat)
    requires i < |body| < U64_LIMIT && !DecodeVarint(body[i..]).Read?
    ensures NextOuter(body, i) == NextInner(body, i) == Err(BadVarint(DecodeVarint(body[i..]).TruncatedVarint?))
  {
  }
}
