/** The OTLP response probe: a hand-written parser of ExportTraceServiceResponse, specified against a
    grammar of protobuf fields. */
module OtlpResponse {
  import opened Wire

  datatype Reason =
    | BadVarint(truncated: bool)
    | InvalidFieldNumber
    | InvalidPartialSuccessWire
    | LengthOverflow
    | TruncatedResponse
    | UnsupportedWire
    | InvalidPartialFieldNumber
    | InvalidRejectedSpansWire
    | InvalidErrorMessageWire
    | TruncatedPartial
    | InvalidPartial

  datatype Result<+T> = Ok(value: T) | Err(reason: Reason)

  // ---------------------------------------------------------------- the grammar

  /** A field as written on the wire: its key, then what the wire type calls for. */
  datatype Field =
    | Scalar(key: seq<byte>, value: seq<byte>)
    | Delimited(key: seq<byte>, size: seq<byte>, payload: seq<byte>)
    | Fixed(key: seq<byte>, word: seq<byte>)

  function Number(f: Field): nat { GroupSum(f.key) / 8 }

  predicate WellFormed(f: Field) {
    && IsVarint(f.key)
    && Number(f) >= 1
    && match f
       case Scalar(key, value) => GroupSum(key) % 8 == 0 && IsVarint(value)
       case Delimited(key, size, payload) =>
         GroupSum(key) % 8 == 2 && IsVarint(size) && GroupSum(size) == |payload|
       case Fixed(key, word) =>
         (GroupSum(key) % 8 == 1 && |word| == 8) || (GroupSum(key) % 8 == 5 && |word| == 4)
  }

  function Print(f: Field): (r: seq<byte>) {
    match f
    case Scalar(key, value) => key + value
    case Delimited(key, size, payload) => key + size + payload
    case Fixed(key, word) => key + word
  }

  function PrintAll(fields: seq<Field>): seq<byte> {
    if fields == [] then [] else Print(fields[0]) + PrintAll(fields[1..])
  }

  /** A field of the partial-success message: count is a varint, message is delimited, no fixed-width fields. */
  predicate InnerField(f: Field) {
    && WellFormed(f)
    && !f.Fixed?
    && (Number(f) == 1 ==> f.Scalar?)
    && (Number(f) == 2 ==> f.Delimited?)
  }

  ghost predicate InnerFields(fields: seq<Field>) {
    forall i :: 0 <= i < |fields| ==> InnerField(fields[i])
  }

  ghost predicate PartialSuccessBody(body: seq<byte>) {
    exists fields :: InnerFields(fields) && PrintAll(fields) == body
  }

  /** A field of the response: field 1 must be a delimited partial success. */
  ghost predicate OuterField(f: Field) {
    && WellFormed(f)
    && (Number(f) == 1 ==> f.Delimited? && PartialSuccessBody(f.payload))
  }

  ghost predicate OuterFields(fields: seq<Field>) {
    forall i :: 0 <= i < |fields| ==> OuterField(fields[i])
  }

  /** The last rejected count written in a partial success. */
  function LastCount(fields: seq<Field>): Option<nat> {
    if fields == [] then None
    else
      var f := fields[|fields| - 1];
      if f.Scalar? && Number(f) == 1 then Some(GroupSum(f.value)) else LastCount(fields[..|fields| - 1])
  }

  /** The payload of the last partial success of a response. */
  function LastPartial(fields: seq<Field>): Option<seq<byte>> {
    if fields == [] then None
    else
      var f := fields[|fields| - 1];
      if f.Delimited? && Number(f) == 1 then Some(f.payload) else LastPartial(fields[..|fields| - 1])
  }

  // ---------------------------------------------------------------- one field at a position

  function VarintReason(r: VarintResult): Reason
    requires !r.Read?
  {
    BadVarint(r.TruncatedVarint?)
  }

  /** The delimited field whose length starts at `j`; `j + length` is a checked 64-bit addition. */
  function TakeDelimited(body: seq<byte>, i: nat, j: nat, truncated: Reason): (r: Result<Field>)
    requires i <= j <= |body|
  {
    var size := DecodeVarint(body[j..]);
    if !size.Read? then Err(VarintReason(size))
    else
      var start := j + size.used;
      if start + size.value >= U64_LIMIT then Err(LengthOverflow)
      else if start + size.value > |body| then Err(truncated)
      else Ok(Delimited(body[i..j], body[j..start], body[start..start + size.value]))
  }

  function TakeScalar(body: seq<byte>, i: nat, j: nat): (r: Result<Field>)
    requires i <= j <= |body|
  {
    var value := DecodeVarint(body[j..]);
    if !value.Read? then Err(VarintReason(value))
    else Ok(Scalar(body[i..j], body[j..j + value.used]))
  }

  /** The field of a partial success that starts at `i`. */
  function NextInner(body: seq<byte>, i: nat): (r: Result<Field>)
    requires i < |body|
  {
    var key := DecodeVarint(body[i..]);
    if !key.Read? then Err(VarintReason(key))
    else
      var j := i + key.used;
      var field, wire := key.value / 8, key.value % 8;
      if field == 0 then Err(InvalidPartialFieldNumber)
      else if field == 1 && wire != 0 then Err(InvalidRejectedSpansWire)
      else if field == 2 && wire != 2 then Err(InvalidErrorMessageWire)
      else if wire == 0 then TakeScalar(body, i, j)
      else if wire == 2 then TakeDelimited(body, i, j, TruncatedPartial)
      else Err(InvalidPartial)
  }

  /** The field of a response that starts at `i`, before a partial success is looked into. */
  function NextOuter(body: seq<byte>, i: nat): (r: Result<Field>)
    requires i < |body|
  {
    var key := DecodeVarint(body[i..]);
    if !key.Read? then Err(VarintReason(key))
    else
      var j := i + key.used;
      var field, wire := key.value / 8, key.value % 8;
      if field == 0 then Err(InvalidFieldNumber)
      else if field == 1 && wire != 2 then Err(InvalidPartialSuccessWire)
      else if wire == 0 then TakeScalar(body, i, j)
      else if wire == 2 then TakeDelimited(body, i, j, TruncatedResponse)
      else if wire == 1 || wire == 5 then
        var end := j + if wire == 1 then 8 else 4;
        if end > |body| then Err(TruncatedResponse) else Ok(Fixed(body[i..j], body[j..end]))
      else Err(UnsupportedWire)
  }

  ghost predicate At(body: seq<byte>, i: nat, f: Field) {
    i + |Print(f)| <= |body| && body[i..i + |Print(f)|] == Print(f)
  }

  // A varint at the front of the rest is read back as itself.
  lemma VarintAt(body: seq<byte>, j: nat, b: seq<byte>)
    requires j + |b| <= |body| && body[j..j + |b|] == b && IsVarint(b)
    ensures DecodeVarint(body[j..]) == Read(GroupSum(b), |b|)
  {
    assert body[j..][..|b|] == b;
    DecodeVarintIff(body[j..], |b|);
  }

  lemma ReadAt(body: seq<byte>, j: nat)
    requires j <= |body| && DecodeVarint(body[j..]).Read?
    ensures var r := DecodeVarint(body[j..]);
            j + r.used <= |body| && IsVarint(body[j..j + r.used]) && GroupSum(body[j..j + r.used]) == r.value
  {
    var r := DecodeVarint(body[j..]);
    assert body[j..][..r.used] == body[j..j + r.used];
    DecodeVarintIff(body[j..], r.used);
  }

  lemma TakeSound(body: seq<byte>, i: nat, j: nat, f: Field, truncated: Reason)
    requires i < j <= |body| && IsVarint(body[i..j]) && GroupSum(body[i..j]) >= 8
    requires |body| < U64_LIMIT
    requires (GroupSum(body[i..j]) % 8 == 0 && TakeScalar(body, i, j) == Ok(f))
          || (GroupSum(body[i..j]) % 8 == 2 && TakeDelimited(body, i, j, truncated) == Ok(f))
    ensures WellFormed(f) && At(body, i, f) && f.key == body[i..j]
  {
    hide GroupSum, DecodeVarint, IsVarint;
    ReadAt(body, j);
    var used := DecodeVarint(body[j..]).used;
    assert body[i..j] + body[j..j + used] == body[i..j + used];
    if f.Delimited? {
      assert body[i..j + used] + f.payload == body[i..j + used + |f.payload|];
    }
  }

  lemma KeyAt(body: seq<byte>, i: nat, f: Field)
    requires WellFormed(f) && At(body, i, f)
    ensures |f.key| >= 1 && i + |f.key| <= |body| && body[i..i + |f.key|] == f.key
  {
    assert |f.key| >= 1;
    hide GroupSum, IsVarint;
    assert body[i..i + |f.key|] == body[i..i + |Print(f)|][..|f.key|] == f.key;
  }

  lemma TakeScalarComplete(body: seq<byte>, i: nat, f: Field)
    requires WellFormed(f) && At(body, i, f) && f.Scalar?
    ensures i + |f.key| <= |body| && TakeScalar(body, i, i + |f.key|) == Ok(f)
  {
    hide GroupSum, DecodeVarint, IsVarint;
    KeyAt(body, i, f);
    var j, end := i + |f.key|, i + |Print(f)|;
    assert body[j..end] == body[i..end][|f.key|..] == f.value;
    VarintAt(body, j, f.value);
  }

  lemma SliceOfSlice(body: seq<byte>, i: nat, end: nat, from: nat, to: nat)
    requires from <= to && i + to <= end <= |body|
    ensures body[i..end][from..to] == body[i + from..i + to]
  {
    var inner, outer := body[i..end][from..to], body[i + from..i + to];
    assert |inner| == |outer| && forall k :: 0 <= k < |inner| ==> inner[k] == outer[k];
  }

  // Three parts that stand at a position stand at their own.
  lemma PartsAt(body: seq<byte>, i: nat, a: seq<byte>, b: seq<byte>, c: seq<byte>)
    requires i + |a + b + c| <= |body| && body[i..i + |a + b + c|] == a + b + c
    ensures body[i + |a|..i + |a| + |b|] == b && body[i + |a| + |b|..i + |a| + |b| + |c|] == c
  {
    var all := a + b + c;
    SliceOfSlice(body, i, i + |all|, |a|, |a| + |b|);
    SliceOfSlice(body, i, i + |all|, |a| + |b|, |all|);
    assert all[|a|..|a| + |b|] == b && all[|a| + |b|..|all|] == c;
  }

  lemma TakeDelimitedComplete(body: seq<byte>, i: nat, f: Field, truncated: Reason)
    requires |body| < U64_LIMIT
    requires WellFormed(f) && At(body, i, f) && f.Delimited?
    ensures i + |f.key| <= |body| && TakeDelimited(body, i, i + |f.key|, truncated) == Ok(f)
  {
    hide GroupSum, DecodeVarint, IsVarint;
    KeyAt(body, i, f);
    PartsAt(body, i, f.key, f.size, f.payload);
    VarintAt(body, i + |f.key|, f.size);
  }

  /** The inner step accepts exactly the fields of the inner grammar that stand at the position. */
  lemma NextInnerIff(body: seq<byte>, i: nat, f: Field)
    requires i < |body| < U64_LIMIT
    ensures NextInner(body, i) == Ok(f) <==> InnerField(f) && At(body, i, f)
  {
    hide GroupSum, DecodeVarint, IsVarint;
    if NextInner(body, i) == Ok(f) {
      ReadAt(body, i);
      var j := i + DecodeVarint(body[i..]).used;
      TakeSound(body, i, j, f, TruncatedPartial);
    }
    if InnerField(f) && At(body, i, f) {
      if f.Scalar? { TakeScalarComplete(body, i, f); } else { TakeDelimitedComplete(body, i, f, TruncatedPartial); }
      KeyAt(body, i, f);
      VarintAt(body, i, f.key);
    }
  }

  lemma NextOuterSound(body: seq<byte>, i: nat, f: Field)
    requires i < |body| < U64_LIMIT && NextOuter(body, i) == Ok(f)
    ensures WellFormed(f) && (Number(f) == 1 ==> f.Delimited?) && At(body, i, f)
  {
    hide GroupSum, DecodeVarint, IsVarint;
    ReadAt(body, i);
    var j := i + DecodeVarint(body[i..]).used;
    if f.Fixed? {
      assert body[i..j] + f.word == body[i..j + |f.word|];
    } else {
      TakeSound(body, i, j, f, TruncatedResponse);
    }
  }

  lemma NextOuterComplete(body: seq<byte>, i: nat, f: Field)
    requires i < |body| < U64_LIMIT
    requires WellFormed(f) && (Number(f) == 1 ==> f.Delimited?) && At(body, i, f)
    ensures NextOuter(body, i) == Ok(f)
  {
    hide GroupSum, DecodeVarint, IsVarint, TakeScalar, TakeDelimited;
    KeyAt(body, i, f);
    VarintAt(body, i, f.key);
    match f {
      case Scalar(_, _) => TakeScalarComplete(body, i, f);
      case Delimited(_, _, _) => TakeDelimitedComplete(body, i, f, TruncatedResponse);
      case Fixed(key, word) =>
        var end := i + |Print(f)|;
        assert body[i + |key|..end] == body[i..end][|key|..] == word;
    }
  }

  /** The outer step accepts exactly the well-formed fields at the position, field 1 only when delimited. */
  lemma NextOuterIff(body: seq<byte>, i: nat, f: Field)
    requires i < |body| < U64_LIMIT
    ensures NextOuter(body, i) == Ok(f)
       <==> WellFormed(f) && (Number(f) == 1 ==> f.Delimited?) && At(body, i, f)
  {
    hide *;
    if NextOuter(body, i) == Ok(f) { NextOuterSound(body, i, f); }
    if WellFormed(f) && (Number(f) == 1 ==> f.Delimited?) && At(body, i, f) { NextOuterComplete(body, i, f); }
  }

  // ---------------------------------------------------------------- whole messages

  /** All fields of a partial success from `i` on. */
  function InnerFrom(body: seq<byte>, i: nat): (r: Result<seq<Field>>)
    requires i <= |body| < U64_LIMIT
    decreases |body| - i
  {
    if i == |body| then Ok([])
    else
      var f := NextInner(body, i);
      if f.Err? then Err(f.reason)
      else
        NextInnerIff(body, i, f.value);
        var rest := InnerFrom(body, i + |Print(f.value)|);
        if rest.Err? then rest else Ok([f.value] + rest.value)
  }

  /** All fields of a response from `i` on; each partial success must itself parse. */
  function OuterFrom(body: seq<byte>, i: nat): (r: Result<seq<Field>>)
    requires i <= |body| < U64_LIMIT
    decreases |body| - i
  {
    if i == |body| then Ok([])
    else
      var f := NextOuter(body, i);
      if f.Err? then Err(f.reason)
      else
        NextOuterIff(body, i, f.value);
        var inner := if Number(f.value) == 1 then InnerFrom(f.value.payload, 0) else Ok([]);
        if inner.Err? then Err(inner.reason)
        else
          var rest := OuterFrom(body, i + |Print(f.value)|);
          if rest.Err? then rest else Ok([f.value] + rest.value)
  }

  lemma SplitFront(body: seq<byte>, i: nat, f: Field, rest: seq<Field>)
    requires i <= |body| && body[i..] == PrintAll([f] + rest)
    ensures At(body, i, f) && body[i + |Print(f)|..] == PrintAll(rest)
  {
    hide GroupSum, DecodeVarint, IsVarint, Print;
    var fields := [f] + rest;
    assert fields[1..] == rest;
    assert body[i..] == Print(f) + PrintAll(rest);
    SliceOfSlice(body, i, |body|, 0, |Print(f)|);
    SliceOfSlice(body, i, |body|, |Print(f)|, |body| - i);
  }

  lemma JoinFront(body: seq<byte>, i: nat, f: Field, rest: seq<Field>)
    requires At(body, i, f) && body[i + |Print(f)|..] == PrintAll(rest)
    ensures body[i..] == PrintAll([f] + rest)
  {
  }

  // Every printed field starts with a varint key, so it is not empty.
  lemma PrintNonempty(f: Field)
    requires WellFormed(f)
    ensures |Print(f)| >= 1
  {
  }

  lemma NoFieldsIffEmpty(fields: seq<Field>)
    requires forall i :: 0 <= i < |fields| ==> WellFormed(fields[i])
    ensures PrintAll(fields) == [] <==> fields == []
  {
  }

  /** The partial-success parser accepts a body exactly when it is a concatenation of inner fields, and finds
      those fields; so the decomposition is unique. */
  lemma {:induction false} InnerFromIff(body: seq<byte>, i: nat, fields: seq<Field>)
    requires i <= |body| < U64_LIMIT
    ensures InnerFrom(body, i) == Ok(fields) <==> InnerFields(fields) && body[i..] == PrintAll(fields)
    decreases |body| - i
  {
    hide WellFormed, NextInner, Print, Number;
    if InnerFields(fields) { NoFieldsIffEmpty(fields); }
    if i < |body| {
      if InnerFrom(body, i) == Ok(fields) {
        var f := NextInner(body, i).value;
        NextInnerIff(body, i, f);
        PrintNonempty(f);
        assert fields == [f] + fields[1..];
        InnerFromIff(body, i + |Print(f)|, fields[1..]);
        JoinFront(body, i, f, fields[1..]);
        assert forall k :: 0 < k < |fields| ==> fields[k] == fields[1..][k - 1];
      }
      if InnerFields(fields) && body[i..] == PrintAll(fields) {
        var f, rest := fields[0], fields[1..];
        assert fields == [f] + rest;
        assert InnerField(f);
        PrintNonempty(f);
        SplitFront(body, i, f, rest);
        NextInnerIff(body, i, f);
        InnerFromIff(body, i + |Print(f)|, rest);
      }
    }
  }

  lemma PartialSuccessIff(body: seq<byte>)
    requires |body| < U64_LIMIT
    ensures PartialSuccessBody(body) <==> InnerFrom(body, 0).Ok?
    ensures InnerFrom(body, 0).Ok?
        ==> InnerFields(InnerFrom(body, 0).value) && PrintAll(InnerFrom(body, 0).value) == body
  {
    assert body[0..] == body;
    if InnerFrom(body, 0).Ok? {
      InnerFromIff(body, 0, InnerFrom(body, 0).value);
    }
    if PartialSuccessBody(body) {
      var fields :| InnerFields(fields) && PrintAll(fields) == body;
      InnerFromIff(body, 0, fields);
    }
  }

  lemma PayloadShorter(body: seq<byte>, i: nat, f: Field)
    requires At(body, i, f) && f.Delimited? && |body| < U64_LIMIT
    ensures |f.payload| < U64_LIMIT
  {
  }

  /** The response parser accepts a body exactly when it is a concatenation of outer fields, and finds those
      fields; so the decomposition is unique. */
  lemma {:induction false} OuterFromIff(body: seq<byte>, i: nat, fields: seq<Field>)
    requires i <= |body| < U64_LIMIT
    ensures OuterFrom(body, i) == Ok(fields) <==> OuterFields(fields) && body[i..] == PrintAll(fields)
    decreases |body| - i
  {
    hide WellFormed, NextOuter, PartialSuccessBody, InnerFrom, Print;
    if OuterFields(fields) { NoFieldsIffEmpty(fields); }
    if i < |body| {
      if OuterFrom(body, i) == Ok(fields) {
        var f := NextOuter(body, i).value;
        NextOuterIff(body, i, f);
        PrintNonempty(f);
        assert fields == [f] + fields[1..];
        if Number(f) == 1 {
          PayloadShorter(body, i, f);
          PartialSuccessIff(f.payload);
        }
        OuterFromIff(body, i + |Print(f)|, fields[1..]);
        JoinFront(body, i, f, fields[1..]);
        assert forall k :: 0 < k < |fields| ==> fields[k] == fields[1..][k - 1];
      }
      if OuterFields(fields) && body[i..] == PrintAll(fields) {
        var f, rest := fields[0], fields[1..];
        assert fields == [f] + rest;
        assert OuterField(f);
        PrintNonempty(f);
        SplitFront(body, i, f, rest);
        NextOuterIff(body, i, f);
        if Number(f) == 1 {
          PayloadShorter(body, i, f);
          PartialSuccessIff(f.payload);
        }
        OuterFromIff(body, i + |Print(f)|, rest);
      }
    }
  }

  // ---------------------------------------------------------------- the two loops

  /** What a partial success denotes: the last rejected count in it, if any. */
  function PartialCount(body: seq<byte>): (r: Result<Option<nat>>)
    requires |body| < U64_LIMIT
  {
    var fields := InnerFrom(body, 0);
    if fields.Err? then Err(fields.reason) else Ok(LastCount(fields.value))
  }

  /** What a response denotes: the count of its last partial success. */
  function ResponseCount(body: seq<byte>): (r: Result<Option<nat>>)
    requires |body| < U64_LIMIT
  {
    var fields := OuterFrom(body, 0);
    if fields.Err? then Err(fields.reason)
    else
      match LastPartial(fields.value)
      case None => Ok(None)
      case Some(payload) => if |payload| < U64_LIMIT then PartialCount(payload) else Ok(None)
  }

  ghost function Prepend(done: seq<Field>, rest: Result<seq<Field>>): Result<seq<Field>> {
    if rest.Err? then rest else Ok(done + rest.value)
  }

  lemma PrependNothing(r: Result<seq<Field>>)
    ensures Prepend([], r) == r
  {
    if r.Ok? { assert [] + r.value == r.value; }
  }

  lemma PrependToNothing(done: seq<Field>)
    ensures Prepend(done, Ok([])) == Ok(done)
  {
    assert done + [] == done;
  }

  lemma InnerStep(body: seq<byte>, i: nat, done: seq<Field>, f: Field)
    requires i < |body| < U64_LIMIT && NextInner(body, i) == Ok(f)
    requires InnerFrom(body, 0) == Prepend(done, InnerFrom(body, i))
    ensures |Print(f)| >= 1 && i + |Print(f)| <= |body|
    ensures InnerFrom(body, 0) == Prepend(done + [f], InnerFrom(body, i + |Print(f)|))
    ensures LastCount(done + [f]) == if f.Scalar? && Number(f) == 1 then Some(GroupSum(f.value)) else LastCount(done)
  {
    hide NextInner, WellFormed, Print, Number, GroupSum;
    NextInnerIff(body, i, f);
    PrintNonempty(f);
    var rest := InnerFrom(body, i + |Print(f)|);
    if rest.Ok? { assert done + ([f] + rest.value) == done + [f] + rest.value; }
    assert (done + [f])[..|done + [f]| - 1] == done;
  }

  lemma InnerErr(body: seq<byte>, i: nat)
    requires i < |body| < U64_LIMIT
    ensures NextInner(body, i).Err? ==> InnerFrom(body, i) == Err(NextInner(body, i).reason)
  {
  }

  lemma InnerDone(body: seq<byte>)
    requires |body| < U64_LIMIT
    ensures InnerFrom(body, |body|) == Ok([])
  {
  }

  /** The partial-success loop: never slices past the end, consumes at least one byte per turn, and returns the
      last rejected count of the body's fields. */
  method ParsePartialSuccess(body: seq<byte>) returns (r: Result<Option<nat>>)
    requires |body| < U64_LIMIT
    ensures r == PartialCount(body)
  {
    hide DecodeVarint, GroupSum, IsVarint, Print, InnerFrom;
    InnerDone(body);
    var i := 0;
    var rejected := None;
    ghost var done: seq<Field> := [];
    PrependNothing(InnerFrom(body, 0));
    while i < |body|
      invariant 0 <= i <= |body|
      invariant InnerFrom(body, 0) == Prepend(done, InnerFrom(body, i))
      invariant rejected == LastCount(done)
    {
      ghost var i0 := i;
      InnerErr(body, i0);
      var key := ReadVarint(body[i..]);
      if !key.Read? { return Err(BadVarint(key.TruncatedVarint?)); }
      ghost var step := NextInner(body, i0);
      i := i + key.used;
      var field, wire := key.value / 8, key.value % 8;
      if field == 0 {
        return Err(InvalidPartialFieldNumber);
      } else if field == 1 && wire != 0 {
        return Err(InvalidRejectedSpansWire);
      } else if field == 2 && wire != 2 {
        return Err(InvalidErrorMessageWire);
      } else if wire == 0 {
        var value := ReadVarint(body[i..]);
        if !value.Read? { return Err(BadVarint(value.TruncatedVarint?)); }
        ScalarFacts(body, i0, i, step.value);
        if field == 1 { rejected := Some(value.value); }
        i := i + value.used;
      } else if wire == 2 {
        var size := ReadVarint(body[i..]);
        if !size.Read? { return Err(BadVarint(size.TruncatedVarint?)); }
        ghost var j := i;
        i := i + size.used;
        if i + size.value >= U64_LIMIT { return Err(LengthOverflow); }
        var end := i + size.value;
        if end > |body| { return Err(TruncatedPartial); }
        DelimitedFacts(body, i0, j, step.value, TruncatedPartial);
        i := end;
      } else {
        return Err(InvalidPartial);
      }
      InnerStep(body, i0, done, step.value);
      done := done + [step.value];
    }
    PrependToNothing(done);
    return Ok(rejected);
  }

  lemma ScalarFacts(body: seq<byte>, i: nat, j: nat, f: Field)
    requires i <= j <= |body| && TakeScalar(body, i, j) == Ok(f)
    requires DecodeVarint(body[i..]).Read? && DecodeVarint(body[i..]).used == j - i
    ensures f.Scalar? && i + |Print(f)| == j + DecodeVarint(body[j..]).used
    ensures GroupSum(f.key) == DecodeVarint(body[i..]).value && GroupSum(f.value) == DecodeVarint(body[j..]).value
  {
    hide DecodeVarint, GroupSum, IsVarint;
    ReadAt(body, i);
    ReadAt(body, j);
  }

  lemma FixedFacts(body: seq<byte>, i: nat, f: Field)
    requires i < |body| && NextOuter(body, i) == Ok(f) && f.Fixed?
    ensures GroupSum(f.key) == DecodeVarint(body[i..]).value
    ensures |Print(f)| == DecodeVarint(body[i..]).used + if DecodeVarint(body[i..]).value % 8 == 1 then 8 else 4
  {
    hide DecodeVarint, GroupSum, IsVarint;
    ReadAt(body, i);
  }

  lemma DelimitedFacts(body: seq<byte>, i: nat, j: nat, f: Field, truncated: Reason)
    requires i <= j <= |body| && TakeDelimited(body, i, j, truncated) == Ok(f)
    requires DecodeVarint(body[i..]).Read? && DecodeVarint(body[i..]).used == j - i
    ensures f.Delimited? && GroupSum(f.key) == DecodeVarint(body[i..]).value
    ensures DecodeVarint(body[j..]).Read?
    ensures var size := DecodeVarint(body[j..]);
            && i + |Print(f)| == j + size.used + size.value <= |body|
            && f.payload == body[j + size.used..j + size.used + size.value]
  {
    hide DecodeVarint, GroupSum, IsVarint;
    ReadAt(body, i);
    ReadAt(body, j);
  }

  /** Every partial success seen so far that matters, the last one, has parsed. */
  ghost predicate PartialsParse(done: seq<Field>) {
    LastPartial(done).Some? ==>
      |LastPartial(done).value| < U64_LIMIT && PartialCount(LastPartial(done).value).Ok?
  }

  /** The count the loop carries: that of the last partial success seen so far. */
  ghost function CountSoFar(done: seq<Field>): Option<nat> {
    match LastPartial(done)
    case None => None
    case Some(payload) =>
      if |payload| < U64_LIMIT && PartialCount(payload).Ok? then PartialCount(payload).value else None
  }

  lemma OuterStep(body: seq<byte>, i: nat, done: seq<Field>, f: Field)
    requires i < |body| < U64_LIMIT && NextOuter(body, i) == Ok(f)
    requires OuterFrom(body, 0) == Prepend(done, OuterFrom(body, i)) && PartialsParse(done)
    requires Number(f) == 1 ==> f.Delimited? && |f.payload| < U64_LIMIT && PartialCount(f.payload).Ok?
    ensures |Print(f)| >= 1 && i + |Print(f)| <= |body|
    ensures OuterFrom(body, 0) == Prepend(done + [f], OuterFrom(body, i + |Print(f)|))
    ensures PartialsParse(done + [f])
    ensures CountSoFar(done + [f]) == if Number(f) == 1 then PartialCount(f.payload).value else CountSoFar(done)
  {
    hide NextOuter, WellFormed, Print, Number, GroupSum, InnerFrom;
    NextOuterIff(body, i, f);
    PrintNonempty(f);
    var rest := OuterFrom(body, i + |Print(f)|);
    if rest.Ok? { assert done + ([f] + rest.value) == done + [f] + rest.value; }
    assert (done + [f])[..|done + [f]| - 1] == done;
  }

  lemma OuterErr(body: seq<byte>, i: nat)
    requires i < |body| < U64_LIMIT
    ensures NextOuter(body, i).Err? ==> OuterFrom(body, i) == Err(NextOuter(body, i).reason)
  {
  }

  lemma OuterDone(body: seq<byte>)
    requires |body| < U64_LIMIT
    ensures OuterFrom(body, |body|) == Ok([])
    ensures PartialsParse([]) && CountSoFar([]) == None
  {
  }

  lemma CountDone(body: seq<byte>, done: seq<Field>)
    requires |body| < U64_LIMIT && OuterFrom(body, 0) == Ok(done) && PartialsParse(done)
    ensures ResponseCount(body) == Ok(CountSoFar(done))
  {
  }

  /** A rejected partial success rejects the response with the same reason. */
  lemma OuterStop(body: seq<byte>, i: nat, f: Field)
    requires i < |body| < U64_LIMIT && NextOuter(body, i) == Ok(f)
    requires Number(f) == 1 && f.Delimited? && |f.payload| < U64_LIMIT && PartialCount(f.payload).Err?
    ensures OuterFrom(body, i) == Err(PartialCount(f.payload).reason)
  {
    hide NextOuter, WellFormed, Print, Number, GroupSum, InnerFrom;
    NextOuterIff(body, i, f);
  }

  /** The response loop: never slices past the end, consumes at least one byte per turn, and returns the count of
      the body's last partial success. */
  method ParseResponse(body: seq<byte>) returns (r: Result<Option<nat>>)
    requires |body| < U64_LIMIT
    ensures r == ResponseCount(body)
  {
    hide DecodeVarint, GroupSum, IsVarint, Print, OuterFrom, PartialCount, LastPartial, PartialsParse, CountSoFar;
    OuterDone(body);
    var i := 0;
    var rejected := None;
    ghost var done: seq<Field> := [];
    PrependNothing(OuterFrom(body, 0));
    while i < |body|
      invariant 0 <= i <= |body|
      invariant OuterFrom(body, 0) == Prepend(done, OuterFrom(body, i))
      invariant PartialsParse(done) && rejected == CountSoFar(done)
    {
      ghost var i0 := i;
      OuterErr(body, i0);
      var key := ReadVarint(body[i..]);
      if !key.Read? { return Err(BadVarint(key.TruncatedVarint?)); }
      ghost var step := NextOuter(body, i0);
      i := i + key.used;
      var field, wire := key.value / 8, key.value % 8;
      if field == 0 { return Err(InvalidFieldNumber); }
      if field == 1 && wire != 2 {
        return Err(InvalidPartialSuccessWire);
      } else if wire == 0 {
        var value := ReadVarint(body[i..]);
        if !value.Read? { return Err(BadVarint(value.TruncatedVarint?)); }
        ScalarFacts(body, i0, i, step.value);
        i := i + value.used;
      } else if wire == 2 {
        var size := ReadVarint(body[i..]);
        if !size.Read? { return Err(BadVarint(size.TruncatedVarint?)); }
        ghost var j := i;
        i := i + size.used;
        if i + size.value >= U64_LIMIT { return Err(LengthOverflow); }
        var end := i + size.value;
        if end > |body| { return Err(TruncatedResponse); }
        DelimitedFacts(body, i0, j, step.value, TruncatedResponse);
        if field == 1 {
          var inner := ParsePartialSuccess(body[i..end]);
          if inner.Err? {
            OuterStop(body, i0, step.value);
            return Err(inner.reason);
          }
          rejected := inner.value;
        }
        i := end;
      } else if wire == 1 {
        i := i + 8;
      } else if wire == 5 {
        i := i + 4;
      } else {
        return Err(UnsupportedWire);
      }
      if i > |body| { return Err(TruncatedResponse); }
      if wire == 1 || wire == 5 { FixedFacts(body, i0, step.value); }
      OuterStep(body, i0, done, step.value);
      done := done + [step.value];
    }
    PrependToNothing(done);
    CountDone(body, done);
    return Ok(rejected);
  }

  // ---------------------------------------------------------------- what the parser promises

  ghost predicate ResponseBody(body: seq<byte>) {
    exists fields :: OuterFields(fields) && PrintAll(fields) == body
  }

  /** The parser succeeds exactly on the response grammar. */
  lemma AcceptedIffGrammar(body: seq<byte>)
    requires |body| < U64_LIMIT
    ensures ResponseCount(body).Ok? <==> ResponseBody(body)
  {
    hide OuterFields, PartialSuccessBody, InnerFields, PrintAll, InnerFrom, LastCount;
    assert body[0..] == body;
    if OuterFrom(body, 0).Ok? {
      var fields := OuterFrom(body, 0).value;
      OuterFromIff(body, 0, fields);
      LastPartialParses(fields);
    }
    if ResponseBody(body) {
      var fields :| OuterFields(fields) && PrintAll(fields) == body;
      OuterFromIff(body, 0, fields);
      LastPartialParses(fields);
    }
  }

  lemma {:induction false} LastPartialParses(fields: seq<Field>)
    requires OuterFields(fields)
    ensures LastPartial(fields).Some? ==> PartialSuccessBody(LastPartial(fields).value)
    ensures PartialsParse(fields)
  {
    hide InnerFrom, LastCount, WellFormed, InnerFields, PrintAll;
    if fields != [] {
      var f := fields[|fields| - 1];
      assert OuterField(f);
      if f.Delimited? && Number(f) == 1 {
        DelimitedFits(f);
        PartialSuccessIff(f.payload);
      } else {
        LastPartialParses(fields[..|fields| - 1]);
      }
    }
  }

  lemma DelimitedFits(f: Field)
    requires WellFormed(f) && f.Delimited?
    ensures |f.payload| < U64_LIMIT
  {
    VarintFits(f.size);
  }

  /** For any response written field by field, the parser returns the last count of its last partial success. */
  lemma CountOfFields(fields: seq<Field>, inner: seq<Field>)
    requires OuterFields(fields) && |PrintAll(fields)| < U64_LIMIT
    requires InnerFields(inner)
    requires LastPartial(fields) == Some(PrintAll(inner)) || (LastPartial(fields) == None && inner == [])
    ensures ResponseCount(PrintAll(fields)) == Ok(LastCount(inner))
  {
    hide OuterFields, InnerFields, PrintAll, InnerFrom, OuterFrom;
    var body := PrintAll(fields);
    assert body[0..] == body;
    OuterFromIff(body, 0, fields);
    LastPartialParses(fields);
    if LastPartial(fields).Some? {
      var p := PrintAll(inner);
      assert p[0..] == p;
      InnerFromIff(p, 0, inner);
    }
  }

  /** Protobuf merges repeated occurrences of an embedded message: the count of the last occurrence that has one. */
  ghost function MergedCount(fields: seq<Field>): Option<nat> {
    if fields == [] then None
    else
      var f, front := fields[|fields| - 1], fields[..|fields| - 1];
      if HasCount(f) then PartialCount(f.payload).value else MergedCount(front)
  }

  ghost predicate HasCount(f: Field) {
    && f.Delimited? && Number(f) == 1 && |f.payload| < U64_LIMIT
    && PartialCount(f.payload).Ok? && PartialCount(f.payload).value.Some?
  }

  lemma {:induction false} MergedCountNone(fields: seq<Field>)
    ensures MergedCount(fields) == None <==> forall i :: 0 <= i < |fields| ==> !HasCount(fields[i])
  {
    hide HasCount, PartialCount, Number;
    if fields != [] {
      var f, front := fields[|fields| - 1], fields[..|fields| - 1];
      MergedCountNone(front);
      if HasCount(f) { HasCountValue(f); }
      assert forall i :: 0 <= i < |front| ==> front[i] == fields[i];
    }
  }

  lemma HasCountValue(f: Field)
    requires HasCount(f)
    ensures |f.payload| < U64_LIMIT && PartialCount(f.payload).Ok? && PartialCount(f.payload).value.Some?
  {
  }

  lemma {:induction false} LastAgainstMerged(fields: seq<Field>)
    ensures CountSoFar(fields).Some? ==> CountSoFar(fields) == MergedCount(fields)
  {
    hide PartialCount, Number;
    if fields != [] {
      LastAgainstMerged(fields[..|fields| - 1]);
    }
  }

  /** The payloads of all partial successes, one after the other. */
  function Payloads(fields: seq<Field>): seq<byte> {
    if fields == [] then []
    else
      var f := fields[|fields| - 1];
      Payloads(fields[..|fields| - 1]) + if f.Delimited? && Number(f) == 1 then f.payload else []
  }

  lemma {:induction false} PrintAllConcat(a: seq<Field>, b: seq<Field>)
    ensures PrintAll(a + b) == PrintAll(a) + PrintAll(b)
  {
    hide Print;
    if a == [] {
      assert a + b == b;
    } else {
      assert (a + b)[1..] == a[1..] + b;
      PrintAllConcat(a[1..], b);
    }
  }

  lemma {:induction false} LastCountConcat(a: seq<Field>, b: seq<Field>)
    ensures LastCount(a + b) == if LastCount(b).Some? then LastCount(b) else LastCount(a)
  {
    if b == [] {
      assert a + b == a;
    } else {
      assert (a + b)[..|a + b| - 1] == a + b[..|b| - 1];
      LastCountConcat(a, b[..|b| - 1]);
    }
  }

  // A partial success's count is the last one of any list of fields it is printed from.
  lemma PartialCountOf(inner: seq<Field>)
    requires InnerFields(inner) && |PrintAll(inner)| < U64_LIMIT
    ensures PartialCount(PrintAll(inner)) == Ok(LastCount(inner))
  {
    hide InnerFields, PrintAll, InnerFrom;
    var p := PrintAll(inner);
    assert p[0..] == p;
    InnerFromIff(p, 0, inner);
  }

  /** The merged count is that of the concatenated payloads, which is how the Protocol Buffers encoding guide defines
      merging. */
  lemma {:induction false} MergedIsConcatenation(fields: seq<Field>) returns (inner: seq<Field>)
    requires OuterFields(fields)
    ensures InnerFields(inner) && PrintAll(inner) == Payloads(fields) && LastCount(inner) == MergedCount(fields)
  {
    hide InnerField, LastCount, InnerFrom, WellFormed, Number;
    if fields == [] {
      inner := [];
      NoCountAtAll();
    } else {
      var front, f := fields[..|fields| - 1], fields[|fields| - 1];
      assert OuterField(f);
      inner := MergedIsConcatenation(front);
      if f.Delimited? && Number(f) == 1 {
        DelimitedFits(f);
        var own :| InnerFields(own) && PrintAll(own) == f.payload;
        PartialCountOf(own);
        PrintAllConcat(inner, own);
        LastCountConcat(inner, own);
        inner := inner + own;
      }
    }
  }

  lemma NoCountAtAll()
    ensures LastCount([]) == None
  {
  }

  /** The field is a partial success that, read by the grammar, holds a count. */
  ghost predicate CarriesCount(f: Field) {
    f.Delimited? && Number(f) == 1 && exists inner, j :: CountAt(f.payload, inner, j)
  }

  ghost predicate CountAt(payload: seq<byte>, inner: seq<Field>, j: int) {
    && InnerFields(inner) && PrintAll(inner) == payload
    && 0 <= j < |inner| && inner[j].Scalar? && Number(inner[j]) == 1
  }

  lemma {:induction false} LastCountIff(inner: seq<Field>)
    ensures LastCount(inner).Some? <==> exists j :: 0 <= j < |inner| && inner[j].Scalar? && Number(inner[j]) == 1
  {
    if inner != [] {
      var front := inner[..|inner| - 1];
      LastCountIff(front);
      assert forall j :: 0 <= j < |front| ==> front[j] == inner[j];
    }
  }

  lemma CarriesIff(f: Field)
    requires OuterField(f)
    ensures CarriesCount(f) <==> HasCount(f)
  {
    hide InnerFields, PrintAll, InnerFrom, LastCount, Number, PartialCount;
    if f.Delimited? && Number(f) == 1 {
      DelimitedFits(f);
      var own: seq<Field> :| InnerFields(own) && PrintAll(own) == f.payload;
      PartialCountOf(own);
      LastCountIff(own);
      if LastCount(own).Some? {
        var j :| 0 <= j < |own| && own[j].Scalar? && Number(own[j]) == 1;
        assert CountAt(f.payload, own, j);
      }
      if inner, j :| CountAt(f.payload, inner, j) {
        PartialCountOf(inner);
        LastCountIff(inner);
      }
    }
  }

  /** Where the last partial success stands, if there is one. */
  function LastPartialIndex(fields: seq<Field>): (r: Option<nat>)
    ensures r.Some? ==> r.value < |fields| && fields[r.value].Delimited? && Number(fields[r.value]) == 1
    ensures LastPartial(fields) == if r.Some? then Some(fields[r.value].payload) else None
  {
    if fields == [] then None
    else
      var f := fields[|fields| - 1];
      if f.Delimited? && Number(f) == 1 then Some(|fields| - 1) else LastPartialIndex(fields[..|fields| - 1])
  }

  /** The parser agrees with protobuf's merge rule exactly when the last partial success holds a count field or no
      partial success does. */
  lemma MergeRuleIff(fields: seq<Field>)
    requires OuterFields(fields) && |PrintAll(fields)| < U64_LIMIT
    ensures ResponseCount(PrintAll(fields)) == Ok(MergedCount(fields))
       <==> || (LastPartialIndex(fields).Some? && CarriesCount(fields[LastPartialIndex(fields).value]))
            || forall i :: 0 <= i < |fields| ==> !CarriesCount(fields[i])
  {
    hide OuterField, PrintAll, OuterFrom, HasCount, MergedCount, PartialsParse, CarriesCount;
    var body := PrintAll(fields);
    assert body[0..] == body;
    OuterFromIff(body, 0, fields);
    LastPartialParses(fields);
    CountDone(body, fields);
    LastAgainstMerged(fields);
    MergedCountNone(fields);
    forall i | 0 <= i < |fields| ensures CarriesCount(fields[i]) <==> HasCount(fields[i]) { CarriesIff(fields[i]); }
    if LastPartialIndex(fields).Some? { CountSoFarOf(fields, fields[LastPartialIndex(fields).value]); }
  }

  lemma CountSoFarOf(fields: seq<Field>, f: Field)
    requires f.Delimited? && Number(f) == 1 && LastPartial(fields) == Some(f.payload)
    ensures CountSoFar(fields).Some? <==> HasCount(f)
  {
  }

  const COUNT_TWO := Delimited([0x0a], [2], [0x08, 2])
  const NO_COUNT := Delimited([0x0a], [0], [])

  lemma CountTwoValue()
    ensures OuterField(COUNT_TWO) && PartialCount([0x08, 2]) == Ok(Some(2))
  {
    hide InnerFrom, DecodeVarint;
    var two := Scalar([0x08], [2]);
    assert [two][1..] == [];
    assert InnerFields([two]) && PrintAll([two]) == [0x08, 2];
    assert [0x08, 2][0..] == PrintAll([two]);
    InnerFromIff([0x08, 2], 0, [two]);
  }

  lemma NoCountValue()
    ensures OuterField(NO_COUNT) && PartialCount([]) == Ok(None)
  {
    assert InnerFields([]) && PrintAll([]) == [];
  }

  /** A response on which the merge rule is broken: a partial success with count 2, then an empty one. */
  lemma MergeRuleBroken()
    ensures PrintAll([COUNT_TWO, NO_COUNT]) == [0x0a, 2, 0x08, 2, 0x0a, 0]
    ensures ResponseCount(PrintAll([COUNT_TWO, NO_COUNT])) == Ok(None)
    ensures MergedCount([COUNT_TWO, NO_COUNT]) == Some(2)
  {
    var fields := [COUNT_TWO, NO_COUNT];
    CountTwoValue();
    NoCountValue();
    hide OuterField, InnerFrom, PartialCount;
    assert fields[1..] == [NO_COUNT] && [NO_COUNT][1..] == [] && fields[..1] == [COUNT_TWO];
    assert Print(COUNT_TWO) == [0x0a, 2, 0x08, 2] && PrintAll([NO_COUNT]) == [0x0a, 0];
    assert PrintAll(fields) == [0x0a, 2, 0x08, 2, 0x0a, 0];
    assert OuterFields(fields) && LastPartial(fields) == Some([]);
    CountOfFields(fields, []);
    assert !HasCount(NO_COUNT) && HasCount(COUNT_TWO);
    assert MergedCount(fields) == MergedCount(fields[..1]);
  }
}
