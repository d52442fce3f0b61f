/** The hook timing record: written by the Rust client into a fixed 48-byte buffer, read by the Python probe. */
module HookTiming {
  import opened Wire

  const RECORD_LEN: nat := 48
  const RECORD_V1_LEN: nat := 40

  // ---------------------------------------------------------------- little-endian words

  function LittleEndian(v: nat, width: nat): (r: seq<byte>)
    ensures |r| == width
  {
    if width == 0 then [] else [v % 256] + LittleEndian(v / 256, width - 1)
  }

  function FromLittleEndian(b: seq<byte>): nat {
    if b == [] then 0 else b[0] + 256 * FromLittleEndian(b[1..])
  }

  function Pow256(n: nat): (r: nat)
    ensures r >= 1
  {
    if n == 0 then 1 else 256 * Pow256(n - 1)
  }

  lemma {:induction false} WordRoundTrip(v: nat, width: nat)
    requires v < Pow256(width)
    ensures FromLittleEndian(LittleEndian(v, width)) == v
  {
    if width > 0 {
      assert v / 256 < Pow256(width - 1);
      WordRoundTrip(v / 256, width - 1);
      assert LittleEndian(v, width)[1..] == LittleEndian(v / 256, width - 1);
    }
  }

  lemma {:induction false} WordReprint(b: seq<byte>)
    ensures LittleEndian(FromLittleEndian(b), |b|) == b && FromLittleEndian(b) < Pow256(|b|)
  {
    if b != [] {
      WordReprint(b[1..]);
      assert FromLittleEndian(b) % 256 == b[0] && FromLittleEndian(b) / 256 == FromLittleEndian(b[1..]);
      assert b == [b[0]] + b[1..];
    }
  }

  // ---------------------------------------------------------------- the writer

  datatype Stage =
    | Connect | WaitForPipe | Reopen | CreateEvent | FrameTooLarge
    | Submit | AwaitCompletion | ObserveCompletion | Deadline | ShortWrite

  /** The stable discriminant of a stage. */
  function StageCode(s: Stage): (r: byte)
    ensures r < 10
  {
    match s
    case Connect => 0 case WaitForPipe => 1 case Reopen => 2 case CreateEvent => 3 case FrameTooLarge => 4
    case Submit => 5 case AwaitCompletion => 6 case ObserveCompletion => 7 case Deadline => 8 case ShortWrite => 9
  }

  datatype SendError = SendError(stage: Stage, osCode: nat)

  /** A duration in nanoseconds, saturated to the width of the wire. */
  function Nanos(duration: nat): (r: nat)
    ensures r < U64_LIMIT
  {
    if duration >= U64_LIMIT then U64_LIMIT - 1 else duration
  }

  datatype Sample = Sample(pid: nat, response: nat, transport: nat, work: nat, error: Option<SendError>) {
    predicate Valid() {
      pid < 0x1_0000_0000 && (error.Some? ==> error.value.osCode < 0x1_0000_0000)
    }
  }

  const MAGIC: seq<byte> := [0x41, 0x4f, 0x42, 0x54]

  function ErrorStage(s: Sample): byte { if s.error.Some? then StageCode(s.error.value.stage) + 1 else 0 }

  function ErrorCode(s: Sample): nat { if s.error.Some? then s.error.value.osCode else 0 }

  function Flags(s: Sample): nat { if s.error.None? then 3 else 1 }

  /** The record laid out field by field. */
  function Record(s: Sample): (r: seq<byte>)
    ensures |r| == RECORD_LEN
  {
    MAGIC + LittleEndian(2, 2) + LittleEndian(RECORD_LEN, 2) + LittleEndian(s.pid, 4) + LittleEndian(Flags(s), 4)
    + [ErrorStage(s), 0, 0, 0] + LittleEndian(ErrorCode(s), 4)
    + LittleEndian(Nanos(s.response), 8) + LittleEndian(Nanos(s.transport), 8) + LittleEndian(Nanos(s.work), 8)
  }

  /** Copies `data` into the buffer at `at`. */
  method CopyInto(record: array<byte>, at: nat, data: seq<byte>)
    requires at + |data| <= record.Length
    modifies record
    ensures forall i :: 0 <= i < record.Length ==>
              record[i] == if at <= i < at + |data| then data[i - at] else old(record[i])
  {
    for k := 0 to |data|
      invariant forall i :: 0 <= i < record.Length ==>
        record[i] == if at <= i < at + k then data[i - at] else old(record[i])
    {
      record[at + k] := data[k];
    }
  }

  lemma ZeroWord()
    ensures LittleEndian(0, 4) == [0, 0, 0, 0]
  {
  }

  /** Writes the record slice by slice, over a zeroed buffer. */
  method EncodeRecord(s: Sample) returns (record: array<byte>)
    requires s.Valid()
    ensures fresh(record) && record[..] == Record(s)
  {
    hide LittleEndian, Nanos, Pow256;
    record := new byte[RECORD_LEN](_ => 0);
    CopyInto(record, 0, MAGIC);
    CopyInto(record, 4, LittleEndian(2, 2));
    CopyInto(record, 6, LittleEndian(RECORD_LEN, 2));
    CopyInto(record, 8, LittleEndian(s.pid, 4));
    var flags := if s.error.None? then 3 else 1;
    CopyInto(record, 12, LittleEndian(flags, 4));
    ghost var head := MAGIC + LittleEndian(2, 2) + LittleEndian(RECORD_LEN, 2) + LittleEndian(s.pid, 4)
                      + LittleEndian(Flags(s), 4);
    assert record[..16] == head;
    assert record[16..24] == [0, 0, 0, 0, 0, 0, 0, 0];
    if s.error.Some? {
      record[16] := StageCode(s.error.value.stage) + 1;
      CopyInto(record, 20, LittleEndian(s.error.value.osCode, 4));
    } else {
      ZeroWord();
    }
    assert record[..24] == head + [ErrorStage(s), 0, 0, 0] + LittleEndian(ErrorCode(s), 4);
    CopyInto(record, 24, LittleEndian(Nanos(s.response), 8));
    CopyInto(record, 32, LittleEndian(Nanos(s.transport), 8));
    CopyInto(record, 40, LittleEndian(Nanos(s.work), 8));
    assert record[..] == record[..24] + record[24..32] + record[32..40] + record[40..48];
  }

  // ---------------------------------------------------------------- the reader

  datatype TimingRecord = TimingRecord(version: nat, pid: nat, flags: nat, stage: Option<Stage>, osCode: Option<nat>,
                                       response: nat, transport: nat, work: nat)

  /** The reader's table: code 0 is no stage, code `n` the n-th stage. */
  function StageAt(code: nat): Option<Stage>
    requires code < 11
  {
    match code
    case 0 => None
    case 1 => Some(Connect) case 2 => Some(WaitForPipe) case 3 => Some(Reopen) case 4 => Some(CreateEvent)
    case 5 => Some(FrameTooLarge) case 6 => Some(Submit) case 7 => Some(AwaitCompletion)
    case 8 => Some(ObserveCompletion) case 9 => Some(Deadline) case _ => Some(ShortWrite)
  }

  function Word(data: seq<byte>, at: nat, width: nat): nat
    requires at + width <= |data|
  {
    FromLittleEndian(data[at..at + width])
  }

  /** Decoding, for either version of the record; None is a raised ValueError. */
  function Decode(data: seq<byte>, expectedPid: nat): (r: Option<TimingRecord>) {
    if |data| < 8 || data[..4] != MAGIC then None
    else
      var version, size := Word(data, 4, 2), Word(data, 6, 2);
      if version == 1 then
        if size != RECORD_V1_LEN || |data| != RECORD_V1_LEN then None
        else Checked(TimingRecord(1, Word(data, 8, 4), Word(data, 12, 4), None, None,
                                  Word(data, 16, 8), Word(data, 24, 8), Word(data, 32, 8)), expectedPid)
      else if version == 2 then
        if size != RECORD_LEN || |data| != RECORD_LEN || data[16] >= 11 then None
        else Checked(TimingRecord(2, Word(data, 8, 4), Word(data, 12, 4), StageAt(data[16]), Some(Word(data, 20, 4)),
                                  Word(data, 24, 8), Word(data, 32, 8), Word(data, 40, 8)), expectedPid)
      else None
  }

  /** The checks both versions share, then those of version 2. */
  function Checked(t: TimingRecord, expectedPid: nat): Option<TimingRecord> {
    if t.pid != expectedPid || t.flags / 4 != 0 || t.flags % 2 == 0 then None
    else if !(t.response <= t.transport <= t.work) then None
    else
      var sent := (t.flags / 2) % 2 == 1;
      if t.version == 2 && sent && (t.stage.Some? || t.osCode != Some(0)) then None
      else if t.version == 2 && !sent && t.stage.None? then None
      else Some(t)
  }

  // ---------------------------------------------------------------- writer and reader agree

  lemma RecordFields(s: Sample)
    ensures var r := Record(s);
            && r[..4] == MAGIC && r[4..6] == LittleEndian(2, 2) && r[6..8] == LittleEndian(RECORD_LEN, 2)
            && r[8..12] == LittleEndian(s.pid, 4) && r[12..16] == LittleEndian(Flags(s), 4)
            && r[16] == ErrorStage(s) && r[20..24] == LittleEndian(ErrorCode(s), 4)
            && r[24..32] == LittleEndian(Nanos(s.response), 8) && r[32..40] == LittleEndian(Nanos(s.transport), 8)
            && r[40..48] == LittleEndian(Nanos(s.work), 8)
  {
    hide LittleEndian, Nanos;
  }

  lemma Widths()
    ensures Pow256(2) == 0x1_0000 && Pow256(4) == 0x1_0000_0000 && Pow256(8) == U64_LIMIT
  {
  }

  /** The reader accepts a written record exactly when the process id is the expected one and the saturated
      checkpoints are in order; it then recovers every field. */
  lemma WrittenRecordDecodes(s: Sample, expectedPid: nat)
    requires s.Valid()
    ensures Decode(Record(s), expectedPid) ==
              if s.pid == expectedPid && Nanos(s.response) <= Nanos(s.transport) <= Nanos(s.work)
              then Some(TimingRecord(2, s.pid, Flags(s),
                                     if s.error.Some? then Some(s.error.value.stage) else None,
                                     Some(ErrorCode(s)),
                                     Nanos(s.response), Nanos(s.transport), Nanos(s.work)))
              else None
  {
    hide LittleEndian, FromLittleEndian, Record, Nanos;
    RecordFields(s);
    Widths();
    WordRoundTrip(2, 2);
    WordRoundTrip(RECORD_LEN, 2);
    WordRoundTrip(s.pid, 4);
    WordRoundTrip(Flags(s), 4);
    WordRoundTrip(ErrorCode(s), 4);
    WordRoundTrip(Nanos(s.response), 8);
    WordRoundTrip(Nanos(s.transport), 8);
    WordRoundTrip(Nanos(s.work), 8);
  }

  lemma SameWords(x: seq<byte>, y: seq<byte>)
    requires |x| == |y| == RECORD_LEN
    requires x[..4] == y[..4] && x[4..6] == y[4..6] && x[6..8] == y[6..8] && x[8..12] == y[8..12] && x[12..16] == y[12..16]
    requires x[16] == y[16] && x[20..24] == y[20..24] && x[24..32] == y[24..32] && x[32..40] == y[32..40]
    requires x[40..48] == y[40..48]
    ensures x[..17] == y[..17] && x[20..] == y[20..]
  {
    assert x[..17] == x[..4] + x[4..6] + x[6..8] + x[8..12] + x[12..16] + [x[16]];
    assert y[..17] == y[..4] + y[4..6] + y[6..8] + y[8..12] + y[12..16] + [y[16]];
    assert x[20..] == x[20..24] + x[24..32] + x[32..40] + x[40..48];
    assert y[20..] == y[20..24] + y[24..32] + y[32..40] + y[40..48];
  }

  /** Conversely the reader accepts nothing else: an accepted record of version 2 is, but for its three padding bytes,
      the record the client writes for some sample of that process with ordered checkpoints. */
  lemma AcceptedIsWritten(data: seq<byte>, expectedPid: nat) returns (s: Sample)
    requires Decode(data, expectedPid).Some? && Decode(data, expectedPid).value.version == 2
    ensures s.Valid() && s.pid == expectedPid && s.response <= s.transport <= s.work < U64_LIMIT
    ensures |data| == RECORD_LEN && data[..17] == Record(s)[..17] && data[20..] == Record(s)[20..]
  {
    hide LittleEndian, FromLittleEndian, Record, Pow256;
    var t := Decode(data, expectedPid).value;
    Widths();
    WordReprint(data[4..6]);
    WordReprint(data[6..8]);
    WordReprint(data[8..12]);
    WordReprint(data[12..16]);
    WordReprint(data[20..24]);
    WordReprint(data[24..32]);
    WordReprint(data[32..40]);
    WordReprint(data[40..48]);
    s := Sample(t.pid, t.response, t.transport, t.work,
                if t.stage.None? then None else Some(SendError(t.stage.value, t.osCode.value)));
    RecordFields(s);
    SameWords(data, Record(s));
  }

  /** Saturation keeps the order the reader demands, so ordered checkpoints always decode. */
  lemma OrderedCheckpointsDecode(s: Sample)
    requires s.Valid() && s.response <= s.transport <= s.work
    ensures Decode(Record(s), s.pid).Some?
    ensures s.work < U64_LIMIT ==>
              var t := Decode(Record(s), s.pid).value;
              t.response == s.response && t.transport == s.transport && t.work == s.work
  {
    WrittenRecordDecodes(s, s.pid);
  }

  /** Within the wire's width a record tells apart any two samples of one process. */
  lemma RecordInjective(a: Sample, b: Sample)
    requires a.Valid() && b.Valid() && Record(a) == Record(b)
    requires a.response <= a.transport <= a.work < U64_LIMIT && b.response <= b.transport <= b.work < U64_LIMIT
    ensures a == b
  {
    hide Record, Decode;
    WrittenRecordDecodes(a, a.pid);
    WrittenRecordDecodes(b, a.pid);
  }

  // ---------------------------------------------------------------- the first version, and known records

  /** A record of the first version: no transport error, 40 bytes. */
  function RecordV1(pid: nat, flags: nat, response: nat, transport: nat, work: nat): (r: seq<byte>)
    ensures |r| == RECORD_V1_LEN
  {
    MAGIC + LittleEndian(1, 2) + LittleEndian(RECORD_V1_LEN, 2) + LittleEndian(pid, 4) + LittleEndian(flags, 4)
    + LittleEndian(response, 8) + LittleEndian(transport, 8) + LittleEndian(work, 8)
  }

  lemma RecordV1Fields(pid: nat, flags: nat, response: nat, transport: nat, work: nat)
    ensures var r := RecordV1(pid, flags, response, transport, work);
            && r[..4] == MAGIC && r[4..6] == LittleEndian(1, 2) && r[6..8] == LittleEndian(RECORD_V1_LEN, 2)
            && r[8..12] == LittleEndian(pid, 4) && r[12..16] == LittleEndian(flags, 4)
            && r[16..24] == LittleEndian(response, 8) && r[24..32] == LittleEndian(transport, 8)
            && r[32..40] == LittleEndian(work, 8)
  {
    hide LittleEndian;
  }

  /** The reader still accepts a record of the first version exactly when the process id is the expected one, the flags
      are normal completion with or without a completed send, and the checkpoints are in order. */
  lemma FirstVersionDecodes(pid: nat, flags: nat, response: nat, transport: nat, work: nat, expectedPid: nat)
    requires pid < 0x1_0000_0000 && flags < 0x1_0000_0000
    requires response < U64_LIMIT && transport < U64_LIMIT && work < U64_LIMIT
    ensures Decode(RecordV1(pid, flags, response, transport, work), expectedPid) ==
              if pid == expectedPid && (flags == 1 || flags == 3) && response <= transport <= work
              then Some(TimingRecord(1, pid, flags, None, None, response, transport, work)) else None
  {
    hide LittleEndian, FromLittleEndian, RecordV1, Pow256;
    RecordV1Fields(pid, flags, response, transport, work);
    Widths();
    WordRoundTrip(1, 2);
    WordRoundTrip(RECORD_V1_LEN, 2);
    WordRoundTrip(pid, 4);
    WordRoundTrip(flags, 4);
    WordRoundTrip(response, 8);
    WordRoundTrip(transport, 8);
    WordRoundTrip(work, 8);
  }

  /** Conversely an accepted record of the first version is one of these. */
  lemma AcceptedFirstVersion(data: seq<byte>, expectedPid: nat)
    requires Decode(data, expectedPid).Some? && Decode(data, expectedPid).value.version == 1
    ensures var t := Decode(data, expectedPid).value;
            data == RecordV1(t.pid, t.flags, t.response, t.transport, t.work)
  {
    hide LittleEndian, FromLittleEndian;
    WordReprint(data[4..6]);
    WordReprint(data[6..8]);
    WordReprint(data[8..12]);
    WordReprint(data[12..16]);
    WordReprint(data[16..24]);
    WordReprint(data[24..32]);
    WordReprint(data[32..40]);
    assert data == data[..4] + data[4..6] + data[6..8] + data[8..12] + data[12..16] + data[16..24] + data[24..32] + data[32..40];
  }

  lemma SmallWord(v: byte, width: nat)
    requires width > 0
    ensures LittleEndian(v, width) == [v] + seq(width - 1, _ => 0)
  {
    assert v / 256 == 0 && v % 256 == v;
    if width > 1 {
      SmallWord(0, width - 1);
      assert [0] + seq(width - 2, _ => 0) == seq(width - 1, _ => 0);
    }
  }

  lemma SmallWords(v: byte)
    ensures LittleEndian(v, 2) == [v, 0] && LittleEndian(v, 4) == [v, 0, 0, 0]
    ensures LittleEndian(v, 8) == [v, 0, 0, 0, 0, 0, 0, 0]
  {
    SmallWord(v, 2);
    SmallWord(v, 4);
    SmallWord(v, 8);
  }

  /** Two records byte by byte, one of a failed connect and one of a completed send. */
  lemma KnownRecords()
    ensures Record(Sample(9, 1, 2, 3, Some(SendError(Connect, 2)))) ==
              [0x41, 0x4f, 0x42, 0x54] + [2, 0] + [48, 0] + [9, 0, 0, 0] + [1, 0, 0, 0] + [1, 0, 0, 0] + [2, 0, 0, 0]
              + [1, 0, 0, 0, 0, 0, 0, 0] + [2, 0, 0, 0, 0, 0, 0, 0] + [3, 0, 0, 0, 0, 0, 0, 0]
    ensures Record(Sample(9, 1, 2, 3, None)) ==
              [0x41, 0x4f, 0x42, 0x54] + [2, 0] + [48, 0] + [9, 0, 0, 0] + [3, 0, 0, 0] + [0, 0, 0, 0] + [0, 0, 0, 0]
              + [1, 0, 0, 0, 0, 0, 0, 0] + [2, 0, 0, 0, 0, 0, 0, 0] + [3, 0, 0, 0, 0, 0, 0, 0]
  {
    hide LittleEndian;
    SmallWords(0);
    SmallWords(1);
    SmallWords(2);
    SmallWords(3);
    SmallWords(9);
    SmallWords(48);
  }

  /** The reader's stage names stand in the order of the writer's discriminants. */
  lemma StagesInOrder()
    ensures forall s: Stage :: StageAt(StageCode(s) + 1) == Some(s)
    ensures StageCode(Connect) == 0 && StageCode(WaitForPipe) == 1 && StageCode(Reopen) == 2 && StageCode(CreateEvent) == 3
         && StageCode(FrameTooLarge) == 4 && StageCode(Submit) == 5 && StageCode(AwaitCompletion) == 6
         && StageCode(ObserveCompletion) == 7 && StageCode(Deadline) == 8 && StageCode(ShortWrite) == 9
  {
  }
}
