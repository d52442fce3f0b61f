/** The W3C traceparent header (section 3.2.2 of W3C Trace Context): the byte-level parser and the printer. */
module TraceParent {
  import opened Wire

  const DASH: byte := 0x2d

  datatype Context = Context(traceId: seq<byte>, parentSpanId: seq<byte>, flags: byte)

  predicate IsZero(id: seq<byte>) { forall i :: 0 <= i < |id| ==> id[i] == 0 }

  // ---------------------------------------------------------------- hexadecimal

  /** Lower-case digits only. */
  function HexNibble(b: byte): (r: Option<byte>)
    ensures r.Some? ==> r.value < 16
  {
    if 0x30 <= b <= 0x39 then Some(b - 0x30)
    else if 0x61 <= b <= 0x66 then Some(b - 0x61 + 10)
    else None
  }

  function NibbleChar(n: byte): (b: byte)
    requires n < 16
    ensures HexNibble(b) == Some(n)
  {
    if n < 10 then 0x30 + n else 0x61 + (n - 10)
  }

  lemma NibbleUnique(b: byte)
    requires HexNibble(b).Some?
    ensures NibbleChar(HexNibble(b).value) == b
  {
  }

  /** Two digits, most significant first, for each byte. */
  function PrintHex(bytes: seq<byte>): (r: seq<byte>)
    ensures |r| == 2 * |bytes|
  {
    if bytes == [] then []
    else [NibbleChar(bytes[0] / 16), NibbleChar(bytes[0] % 16)] + PrintHex(bytes[1..])
  }

  function HexValue(text: seq<byte>): (r: Option<seq<byte>>)
    ensures r.Some? ==> |text| == 2 * |r.value|
  {
    if text == [] then Some([])
    else if |text| == 1 then None
    else
      var hi, lo, rest := HexNibble(text[0]), HexNibble(text[1]), HexValue(text[2..]);
      if hi.None? || lo.None? || rest.None? then None
      else Some([hi.value * 16 + lo.value] + rest.value)
  }

  /** The loop that fills the output array; it fails at the first byte that is no digit. */
  method ParseHex(text: seq<byte>, n: nat) returns (r: Option<seq<byte>>)
    ensures r == if |text| == 2 * n then HexValue(text) else None
  {
    if |text| != n * 2 { return None; }
    var parsed := new byte[n](_ => 0);
    assert text[..0] == [];
    for k := 0 to n
      invariant HexValue(text[..2 * k]) == Some(parsed[..k])
    {
      HexSplit(text, k + 1);
      var hi, lo := HexNibble(text[2 * k]), HexNibble(text[2 * k + 1]);
      HexExtend(text, k);
      if hi.None? { HexFails(text[..2 * k + 2], text[2 * k + 2..]); return None; }
      if lo.None? { HexFails(text[..2 * k + 2], text[2 * k + 2..]); return None; }
      parsed[k] := hi.value * 16 + lo.value;
      assert parsed[..k + 1] == parsed[..k] + [parsed[k]];
    }
    assert text[..2 * n] == text && parsed[..n] == parsed[..];
    return Some(parsed[..]);
  }

  lemma HexSplit(text: seq<byte>, k: nat)
    requires 2 * k <= |text|
    ensures text == text[..2 * k] + text[2 * k..]
  {
  }

  lemma {:induction false} HexConcat(a: seq<byte>, b: seq<byte>)
    requires |a| % 2 == 0
    ensures HexValue(a + b) == if HexValue(a).Some? && HexValue(b).Some? then Some(HexValue(a).value + HexValue(b).value) else None
    decreases |a|
  {
    if a == [] {
      assert a + b == b;
      if HexValue(b).Some? { assert [] + HexValue(b).value == HexValue(b).value; }
    } else {
      assert (a + b)[2..] == a[2..] + b;
      HexConcat(a[2..], b);
      if HexValue(a).Some? && HexValue(b).Some? {
        var x := [HexNibble(a[0]).value * 16 + HexNibble(a[1]).value];
        assert x + HexValue(a[2..]).value + HexValue(b).value == x + (HexValue(a[2..]).value + HexValue(b).value);
      }
    }
  }

  lemma HexExtend(text: seq<byte>, k: nat)
    requires 2 * k + 1 < |text|
    ensures var hi, lo := HexNibble(text[2 * k]), HexNibble(text[2 * k + 1]);
            HexValue(text[..2 * k + 2]) ==
              if HexValue(text[..2 * k]).Some? && hi.Some? && lo.Some?
              then Some(HexValue(text[..2 * k]).value + [hi.value * 16 + lo.value]) else None
  {
    var pair := [text[2 * k], text[2 * k + 1]];
    assert text[..2 * k + 2] == text[..2 * k] + pair;
    HexConcat(text[..2 * k], pair);
    if HexNibble(pair[0]).Some? && HexNibble(pair[1]).Some? { TwoDigits(pair[0], pair[1]); }
  }

  lemma HexFails(a: seq<byte>, b: seq<byte>)
    requires |a| % 2 == 0 && HexValue(a) == None
    ensures HexValue(a + b) == None
  {
    hide HexValue;
    HexConcat(a, b);
  }

  lemma {:induction false} HexRoundTrip(bytes: seq<byte>)
    ensures HexValue(PrintHex(bytes)) == Some(bytes)
  {
    if bytes != [] {
      HexRoundTrip(bytes[1..]);
      assert PrintHex(bytes)[2..] == PrintHex(bytes[1..]);
      assert bytes == [bytes[0]] + bytes[1..];
    }
  }

  lemma {:induction false} HexReprint(text: seq<byte>)
    requires HexValue(text).Some?
    ensures PrintHex(HexValue(text).value) == text
    decreases |text|
  {
    if text != [] {
      HexReprint(text[2..]);
      var v := HexValue(text).value;
      assert v[1..] == HexValue(text[2..]).value;
      NibbleUnique(text[0]);
      NibbleUnique(text[1]);
      assert text == [text[0], text[1]] + text[2..];
    }
  }

  // ---------------------------------------------------------------- the header

  function Parse(raw: seq<byte>): (r: Option<Context>)
    ensures r.Some? ==> |r.value.traceId| == 16 && |r.value.parentSpanId| == 8
  {
    if |raw| < 55 || |raw| > 512 then None
    else if raw[2] != DASH || raw[35] != DASH || raw[52] != DASH then None
    else
      var version := HexValue(raw[..2]);
      if version.None? || version.value[0] == 0xff then None
      else if version.value[0] == 0 && |raw| != 55 then None
      else if version.value[0] != 0 && |raw| > 55
              && (raw[55] != DASH || |raw| == 56 || exists i :: 56 <= i < |raw| && raw[i] >= 128) then None
      else
        var trace, span, flags := HexValue(raw[3..35]), HexValue(raw[36..52]), HexValue(raw[53..55]);
        if trace.None? || span.None? || flags.None? then None
        else if IsZero(trace.value) || IsZero(span.value) then None
        else Some(Context(trace.value, span.value, flags.value[0]))
  }

  function Format(traceId: seq<byte>, spanId: seq<byte>, sampled: bool): (r: seq<byte>)
    requires |traceId| == 16 && |spanId| == 8
    ensures |r| == 55
  {
    [0x30, 0x30, DASH] + PrintHex(traceId) + [DASH] + PrintHex(spanId) + [DASH, 0x30, if sampled then 0x31 else 0x30]
  }

  lemma TwoDigits(a: byte, b: byte)
    requires HexNibble(a).Some? && HexNibble(b).Some?
    ensures HexValue([a, b]) == Some([HexNibble(a).value * 16 + HexNibble(b).value])
  {
    assert [a, b][2..] == [];
    var x := HexNibble(a).value * 16 + HexNibble(b).value;
    assert [x] + [] == [x];
  }

  lemma FormatFields(traceId: seq<byte>, spanId: seq<byte>, sampled: bool)
    requires |traceId| == 16 && |spanId| == 8
    ensures var raw := Format(traceId, spanId, sampled);
            && raw[..2] == [0x30, 0x30] && raw[2] == DASH && raw[35] == DASH && raw[52] == DASH
            && raw[3..35] == PrintHex(traceId) && raw[36..52] == PrintHex(spanId)
            && raw[53..55] == [0x30, if sampled then 0x31 else 0x30]
  {
  }

  /** What may follow the four fields: nothing, or in a later version a dash and some ASCII. */
  predicate IsExtension(version: byte, ext: seq<byte>) {
    ext == [] || (version != 0 && |ext| >= 2 && ext[0] == DASH && forall i :: 1 <= i < |ext| ==> ext[i] < 128)
  }

  function Fields(version: byte, c: Context): seq<byte> {
    PrintHex([version]) + [DASH] + PrintHex(c.traceId) + [DASH] + PrintHex(c.parentSpanId) + [DASH] + PrintHex([c.flags])
  }

  /** The header grammar. */
  ghost predicate IsHeader(raw: seq<byte>, version: byte, c: Context, ext: seq<byte>) {
    && |c.traceId| == 16 && |c.parentSpanId| == 8 && !IsZero(c.traceId) && !IsZero(c.parentSpanId)
    && version != 0xff && IsExtension(version, ext)
    && raw == Fields(version, c) + ext && |raw| <= 512
  }

  lemma HeaderFields(version: byte, c: Context, ext: seq<byte>)
    requires |c.traceId| == 16 && |c.parentSpanId| == 8
    ensures var raw := Fields(version, c) + ext;
            && |raw| == 55 + |ext| && raw[..2] == PrintHex([version]) && raw[2] == DASH && raw[35] == DASH && raw[52] == DASH
            && raw[3..35] == PrintHex(c.traceId) && raw[36..52] == PrintHex(c.parentSpanId)
            && raw[53..55] == PrintHex([c.flags]) && raw[55..] == ext
  {
    hide PrintHex;
  }

  /** The parser accepts exactly the header grammar, in every version but ff, and returns its fields. */
  lemma ParseIff(raw: seq<byte>, c: Context)
    ensures Parse(raw) == Some(c) <==> exists version, ext :: IsHeader(raw, version, c, ext)
  {
    if Parse(raw) == Some(c) { ParsedIsHeader(raw); }
    if version, ext :| IsHeader(raw, version, c, ext) { HeaderParses(raw, version, c, ext); }
  }

  lemma ParsedIsHeader(raw: seq<byte>)
    requires Parse(raw).Some?
    ensures var version := HexValue(raw[..2]); version.Some? && IsHeader(raw, version.value[0], Parse(raw).value, raw[55..])
  {
    hide HexValue, PrintHex;
    var c := Parse(raw).value;
    HexReprint(raw[..2]);
    HexReprint(raw[3..35]);
    HexReprint(raw[36..52]);
    HexReprint(raw[53..55]);
    assert HexValue(raw[..2]).value == [HexValue(raw[..2]).value[0]] && HexValue(raw[53..55]).value == [c.flags];
    assert raw == raw[..2] + [raw[2]] + raw[3..35] + [raw[35]] + raw[36..52] + [raw[52]] + raw[53..55] + raw[55..];
  }

  lemma HeaderParses(raw: seq<byte>, version: byte, c: Context, ext: seq<byte>)
    requires IsHeader(raw, version, c, ext)
    ensures Parse(raw) == Some(c)
  {
    hide HexValue, PrintHex, Fields;
    HeaderFields(version, c, ext);
    HexRoundTrip([version]);
    HexRoundTrip(c.traceId);
    HexRoundTrip(c.parentSpanId);
    HexRoundTrip([c.flags]);
    assert forall i :: 56 <= i < |raw| ==> raw[i] == ext[i - 55];
  }

  /** Parsing a printed header returns the same ids and flag, for all nonzero ids. */
  lemma FormatParses(traceId: seq<byte>, spanId: seq<byte>, sampled: bool)
    requires |traceId| == 16 && |spanId| == 8
    ensures Parse(Format(traceId, spanId, sampled))
         == if IsZero(traceId) || IsZero(spanId) then None
            else Some(Context(traceId, spanId, if sampled then 1 else 0))
  {
    hide HexValue, Format, PrintHex;
    FormatFields(traceId, spanId, sampled);
    HexRoundTrip(traceId);
    HexRoundTrip(spanId);
    TwoDigits(0x30, 0x30);
    TwoDigits(0x30, if sampled then 0x31 else 0x30);
  }

  predicate IsVersion00(raw: seq<byte>) { |raw| >= 2 && raw[0] == 0x30 && raw[1] == 0x30 }

  /** An accepted version-00 header, field by field. */
  lemma Version00Shape(raw: seq<byte>)
    requires Parse(raw).Some? && IsVersion00(raw)
    ensures var c := Parse(raw).value;
            raw == [0x30, 0x30, DASH] + PrintHex(c.traceId) + [DASH] + PrintHex(c.parentSpanId) + [DASH]
                 + PrintHex([c.flags])
  {
    hide HexValue, PrintHex;
    var c := Parse(raw).value;
    TwoDigits(0x30, 0x30);
    assert raw[..2] == [0x30, 0x30];
    HexReprint(raw[3..35]);
    HexReprint(raw[36..52]);
    HexReprint(raw[53..55]);
    assert HexValue(raw[53..55]).value == [c.flags];
    assert raw == raw[..2] + [raw[2]] + raw[3..35] + [raw[35]] + raw[36..52] + [raw[52]] + raw[53..55];
  }

  /** An accepted version-00 header reprints to itself exactly when its flags are 00 or 01: the printer keeps only
      the sampled flag. */
  lemma ReprintIff(raw: seq<byte>)
    requires Parse(raw).Some? && IsVersion00(raw)
    ensures var c := Parse(raw).value;
            Format(c.traceId, c.parentSpanId, c.flags % 2 == 1) == raw <==> c.flags <= 1
  {
    var c := Parse(raw).value;
    Version00Shape(raw);
    assert [c.flags][1..] == [];
    assert PrintHex([c.flags]) == [NibbleChar(c.flags / 16), NibbleChar(c.flags % 16)];
    hide PrintHex, Parse;
    var printed := Format(c.traceId, c.parentSpanId, c.flags % 2 == 1);
    assert raw[53] == NibbleChar(c.flags / 16) && raw[54] == NibbleChar(c.flags % 16);
    assert printed[53] == 0x30 && printed[54] == if c.flags % 2 == 1 then 0x31 else 0x30;
    NibbleValues(c.flags);
    if c.flags <= 1 {
      assert [DASH] + [raw[53], raw[54]] == [DASH, raw[53], raw[54]];
    }
  }

  const FLAGGED := Context(seq(16, _ => 1), seq(8, _ => 1), 2)

  /** A header that does not reprint to itself: accepted, version 00, flags 02. */
  lemma ReprintBroken()
    ensures var raw := Fields(0, FLAGGED);
            && IsVersion00(raw) && Parse(raw) == Some(FLAGGED)
            && Format(FLAGGED.traceId, FLAGGED.parentSpanId, FLAGGED.flags % 2 == 1) != raw
  {
    var raw := Fields(0, FLAGGED);
    HeaderFields(0, FLAGGED, []);
    assert raw + [] == raw;
    assert PrintHex([0]) == [0x30, 0x30];
    assert raw[..2][0] == raw[0] && raw[..2][1] == raw[1];
    assert FLAGGED.traceId[0] == 1 && FLAGGED.parentSpanId[0] == 1;
    hide PrintHex, Parse, Fields, Format;
    HeaderParses(raw, 0, FLAGGED, []);
    ReprintIff(raw);
  }

  lemma NibbleValues(flags: byte)
    ensures flags <= 1 <==> NibbleChar(flags / 16) == 0x30 && NibbleChar(flags % 16) == if flags % 2 == 1 then 0x31 else 0x30
  {
  }

  /** Distinct accepted version-00 headers give distinct contexts. */
  lemma Version00Injective(a: seq<byte>, b: seq<byte>)
    requires Parse(a).Some? && Parse(b).Some? && IsVersion00(a) && IsVersion00(b)
    requires Parse(a) == Parse(b)
    ensures a == b
  {
    Version00Shape(a);
    Version00Shape(b);
  }
}
