/** The allocation pre-scan of hook JSON: a byte loop with four variables, specified against documents of
    RFC 8259 (sections 2 to 7) printed with any legal whitespace and escapes. */
module JsonScan {
  import opened Wire

  const MAX_HOOK_INPUT_BYTES: nat := 16 * 1024 * 1024
  const MAX_DYNAMIC_JSON_NODES: nat := 65_536

  const QUOTE: byte := 0x22
  const BACKSLASH: byte := 0x5c
  const OPEN_BRACE: byte := 0x7b
  const CLOSE_BRACE: byte := 0x7d
  const OPEN_BRACKET: byte := 0x5b
  const CLOSE_BRACKET: byte := 0x5d
  const COMMA: byte := 0x2c
  const COLON: byte := 0x3a

  // ---------------------------------------------------------------- documents

  predicate IsSpace(b: byte) { b == 0x20 || b == 0x09 || b == 0x0a || b == 0x0d }

  predicate IsDigit(b: byte) { 0x30 <= b <= 0x39 }

  predicate IsHex(b: byte) { IsDigit(b) || 0x61 <= b <= 0x66 || 0x41 <= b <= 0x46 }

  type Space = s: seq<byte> | forall i :: 0 <= i < |s| ==> IsSpace(s[i]) witness []

  type Digits = s: seq<byte> | |s| >= 1 && forall i :: 0 <= i < |s| ==> IsDigit(s[i]) witness [0x30]

  /** One character of a string: a byte as it is, a two-byte escape, or a four-digit code point. */
  datatype Unit = Plain(b: byte) | Escape(c: byte) | CodePoint(h0: byte, h1: byte, h2: byte, h3: byte) {
    predicate Valid() {
      match this
      case Plain(b) => b >= 0x20 && b != QUOTE && b != BACKSLASH
      case Escape(c) => c in {QUOTE, BACKSLASH, 0x2f, 0x62, 0x66, 0x6e, 0x72, 0x74}
      case CodePoint(h0, h1, h2, h3) => IsHex(h0) && IsHex(h1) && IsHex(h2) && IsHex(h3)
    }
    function Print(): seq<byte> {
      match this
      case Plain(b) => [b]
      case Escape(c) => [BACKSLASH, c]
      case CodePoint(h0, h1, h2, h3) => [BACKSLASH, 0x75, h0, h1, h2, h3]
    }
  }

  type Text = s: seq<Unit> | forall i :: 0 <= i < |s| ==> s[i].Valid() witness []

  datatype Exponent = NoExponent | Exponent(upper: bool, sign: Option<bool>, digits: Digits) {
    function Print(): seq<byte> {
      match this
      case NoExponent => []
      case Exponent(upper, sign, digits) =>
        var mark := if sign.None? then [] else if sign.value then [0x2d] else [0x2b];
        [if upper then 0x45 else 0x65] + mark + digits
    }
  }

  datatype Number = Number(negative: bool, whole: Digits, fraction: Option<Digits>, exponent: Exponent) {
    predicate Valid() { whole[0] == 0x30 ==> |whole| == 1 }
    function Print(): seq<byte> {
      (if negative then [0x2d] else []) + whole + (if fraction.None? then [] else [0x2e] + fraction.value)
      + exponent.Print()
    }
  }

  /** A value with the whitespace it was written with. */
  datatype Value =
    | Null
    | True
    | False
    | Numeral(number: Number)
    | Str(text: Text)
    | EmptyArray(gap: Space)
    | Array(elements: Elements)
    | EmptyObject(gap: Space)
    | Object(members: Members)

  datatype Elements = Elements(before: Space, first: Value, after: Space, more: MoreElements)
  datatype MoreElements = NoElements | MoreElements(rest: Elements)

  datatype Members =
    Members(before: Space, key: Text, colonBefore: Space, colonAfter: Space, value: Value, after: Space, more: MoreMembers)
  datatype MoreMembers = NoMembers | MoreMembers(rest: Members)

  datatype Document = Document(before: Space, value: Value, after: Space)

  ghost predicate Valid(v: Value) {
    match v
    case Numeral(n) => n.Valid()
    case Array(es) => ValidElements(es)
    case Object(ms) => ValidMembers(ms)
    case _ => true
  }

  ghost predicate ValidElements(es: Elements) {
    Valid(es.first) && (es.more.MoreElements? ==> ValidElements(es.more.rest))
  }

  ghost predicate ValidMembers(ms: Members) {
    Valid(ms.value) && (ms.more.MoreMembers? ==> ValidMembers(ms.more.rest))
  }

  function PrintUnits(units: seq<Unit>): seq<byte> {
    if units == [] then [] else units[0].Print() + PrintUnits(units[1..])
  }

  function PrintText(text: Text): seq<byte> { [QUOTE] + (PrintUnits(text) + [QUOTE]) }

  function Print(v: Value): seq<byte> {
    match v
    case Null => [0x6e, 0x75, 0x6c, 0x6c]
    case True => [0x74, 0x72, 0x75, 0x65]
    case False => [0x66, 0x61, 0x6c, 0x73, 0x65]
    case Numeral(n) => n.Print()
    case Str(text) => PrintText(text)
    case EmptyArray(gap) => [OPEN_BRACKET] + (gap + [CLOSE_BRACKET])
    case Array(es) => [OPEN_BRACKET] + (PrintElements(es) + [CLOSE_BRACKET])
    case EmptyObject(gap) => [OPEN_BRACE] + (gap + [CLOSE_BRACE])
    case Object(ms) => [OPEN_BRACE] + (PrintMembers(ms) + [CLOSE_BRACE])
  }

  function PrintElements(es: Elements): seq<byte> {
    es.before + (Print(es.first) + (es.after
    + if es.more.NoElements? then [] else [COMMA] + PrintElements(es.more.rest)))
  }

  function PrintMembers(ms: Members): seq<byte> {
    ms.before + (PrintText(ms.key) + (ms.colonBefore + ([COLON] + (ms.colonAfter + (Print(ms.value) + (ms.after
    + if ms.more.NoMembers? then [] else [COMMA] + PrintMembers(ms.more.rest)))))))
  }

  function PrintDocument(d: Document): seq<byte> { d.before + (Print(d.value) + d.after) }

  /** What a parser would allocate: one node for each value and one for each object key. */
  function Nodes(v: Value): (n: nat) {
    match v
    case Array(es) => 1 + ElementNodes(es)
    case Object(ms) => 1 + MemberNodes(ms)
    case _ => 1
  }

  function ElementNodes(es: Elements): nat {
    Nodes(es.first) + if es.more.NoElements? then 0 else ElementNodes(es.more.rest)
  }

  function MemberNodes(ms: Members): nat {
    1 + Nodes(ms.value) + if ms.more.NoMembers? then 0 else MemberNodes(ms.more.rest)
  }

  // ---------------------------------------------------------------- the scanner

  datatype Scan = Scan(nodes: nat, inString: bool, escaped: bool, inPrimitive: bool)

  /** Closing brackets, comma, colon, space, tab, carriage return and line feed. */
  predicate IsSeparator(b: byte) {
    || b == CLOSE_BRACE || b == CLOSE_BRACKET || b == COMMA || b == COLON
    || b == 0x20 || b == 0x09 || b == 0x0d || b == 0x0a
  }

  function Step(s: Scan, b: byte): Scan {
    if s.inString then
      if s.escaped then s.(escaped := false)
      else if b == BACKSLASH then s.(escaped := true)
      else if b == QUOTE then s.(inString := false)
      else s
    else if b == QUOTE then Scan(s.nodes + 1, true, s.escaped, false)
    else if b == OPEN_BRACE || b == OPEN_BRACKET then Scan(s.nodes + 1, false, s.escaped, false)
    else if IsSeparator(b) then s.(inPrimitive := false)
    else if !s.inPrimitive then Scan(s.nodes + 1, false, s.escaped, true)
    else s
  }

  function Run(s: Scan, bytes: seq<byte>): Scan
    decreases |bytes|
  {
    if bytes == [] then s else Run(Step(s, bytes[0]), bytes[1..])
  }

  const START := Scan(0, false, false, false)

  lemma {:induction false} RunAppend(s: Scan, a: seq<byte>, b: seq<byte>)
    ensures Run(s, a + b) == Run(Run(s, a), b)
    decreases |a|
  {
    if a == [] {
      assert a + b == b;
    } else {
      assert (a + b)[1..] == a[1..] + b;
      RunAppend(Step(s, a[0]), a[1..], b);
    }
  }

  lemma {:induction false} NodesGrow(s: Scan, bytes: seq<byte>)
    ensures Run(s, bytes).nodes >= s.nodes
    decreases |bytes|
  {
    if bytes != [] { NodesGrow(Step(s, bytes[0]), bytes[1..]); }
  }

  predicate Accepts(bytes: seq<byte>) {
    |bytes| <= MAX_HOOK_INPUT_BYTES && Run(START, bytes).nodes <= MAX_DYNAMIC_JSON_NODES
  }

  /** The scan loop stops as soon as the budget is exceeded, which never changes the verdict. */
  method ValidateComplexity(bytes: seq<byte>) returns (accepted: bool)
    ensures accepted <==> Accepts(bytes)
    ensures |bytes| > 16_777_216 ==> !accepted
  {
    if |bytes| > MAX_HOOK_INPUT_BYTES { return false; }
    var nodes, inString, escaped, inPrimitive := 0, false, false, false;
    for k := 0 to |bytes|
      invariant Run(START, bytes) == Run(Scan(nodes, inString, escaped, inPrimitive), bytes[k..])
      invariant nodes <= MAX_DYNAMIC_JSON_NODES
    {
      var b := bytes[k];
      assert bytes[k..][1..] == bytes[k + 1..];
      if inString {
        if escaped {
          escaped := false;
        } else if b == BACKSLASH {
          escaped := true;
        } else if b == QUOTE {
          inString := false;
        }
        continue;
      }
      if b == QUOTE {
        inString, inPrimitive, nodes := true, false, nodes + 1;
      } else if b == OPEN_BRACE || b == OPEN_BRACKET {
        inPrimitive, nodes := false, nodes + 1;
      } else if IsSeparator(b) {
        inPrimitive := false;
      } else if !inPrimitive {
        inPrimitive, nodes := true, nodes + 1;
      }
      if nodes > MAX_DYNAMIC_JSON_NODES {
        NodesGrow(Scan(nodes, inString, escaped, inPrimitive), bytes[k + 1..]);
        return false;
      }
    }
    return true;
  }

  // ---------------------------------------------------------------- the count on documents

  // Scanner states between tokens.
  function Outside(nodes: nat, inPrimitive: bool): Scan { Scan(nodes, false, false, inPrimitive) }

  // The state after any separator.
  function Settled(s: Scan): Scan { s.(inPrimitive := false) }

  lemma {:induction false} RunSpace(n: nat, p: bool, s: Space)
    ensures Run(Outside(n, p), s) == Outside(n, if s == [] then p else false)
    decreases |s|
  {
    if s != [] { RunSpace(n, false, s[1..]); }
  }

  predicate IsPrimitiveByte(b: byte) {
    b != QUOTE && b != OPEN_BRACE && b != OPEN_BRACKET && !IsSeparator(b)
  }

  lemma {:induction false} RunPrimitive(n: nat, p: bool, s: seq<byte>)
    requires |s| >= 1 && forall i :: 0 <= i < |s| ==> IsPrimitiveByte(s[i])
    ensures Run(Outside(n, p), s) == Outside(if p then n else n + 1, true)
    decreases |s|
  {
    if |s| > 1 { RunPrimitive(if p then n else n + 1, true, s[1..]); }
  }

  lemma NumberIsPrimitive(n: Number)
    ensures |n.Print()| >= 1 && forall i :: 0 <= i < |n.Print()| ==> IsPrimitiveByte(n.Print()[i])
  {
  }

  lemma {:induction false} RunUnits(n: nat, units: seq<Unit>)
    requires forall i :: 0 <= i < |units| ==> units[i].Valid()
    ensures Run(Scan(n, true, false, false), PrintUnits(units)) == Scan(n, true, false, false)
  {
    if units != [] {
      RunAppend(Scan(n, true, false, false), units[0].Print(), PrintUnits(units[1..]));
      RunUnit(n, units[0]);
      RunUnits(n, units[1..]);
    }
  }

  lemma RunUnit(n: nat, u: Unit)
    requires u.Valid()
    ensures Run(Scan(n, true, false, false), u.Print()) == Scan(n, true, false, false)
  {
    var s := Scan(n, true, false, false);
    match u {
      case Plain(b) =>
        assert Run(s, [b]) == Run(Step(s, b), []);
      case Escape(c) =>
        RunByte(s, BACKSLASH, [c]);
        RunByte(Step(s, BACKSLASH), c, []);
        assert [BACKSLASH] + [c] == [BACKSLASH, c] && [c] + [] == [c];
      case CodePoint(h0, h1, h2, h3) =>
        RunAppend(s, [BACKSLASH, 0x75], [h0, h1, h2, h3]);
        assert [BACKSLASH, 0x75] + [h0, h1, h2, h3] == u.Print();
        assert [BACKSLASH, 0x75][1..] == [0x75] && [0x75][1..] == [];
        RunHex(s, [h0, h1, h2, h3]);
    }
  }

  lemma {:induction false} RunHex(s: Scan, digits: seq<byte>)
    requires s.inString && !s.escaped && forall i :: 0 <= i < |digits| ==> IsHex(digits[i])
    ensures Run(s, digits) == s
    decreases |digits|
  {
    if digits != [] { RunHex(s, digits[1..]); }
  }

  lemma RunByte(s: Scan, b: byte, rest: seq<byte>)
    ensures Run(s, [b] + rest) == Run(Step(s, b), rest)
  {
  }

  lemma RunText(n: nat, p: bool, text: Text)
    ensures Run(Outside(n, p), PrintText(text)) == Outside(n + 1, false)
  {
    var inside := Scan(n + 1, true, false, false);
    RunByte(Outside(n, p), QUOTE, PrintUnits(text) + [QUOTE]);
    RunAppend(inside, PrintUnits(text), [QUOTE]);
    RunUnits(n + 1, text);
    assert [QUOTE] + [] == [QUOTE];
    RunByte(inside, QUOTE, []);
  }

  predicate IsPrimitive(v: Value) { v.Null? || v.True? || v.False? || v.Numeral? }

  /** Scanning a printed value adds exactly its nodes, whatever whitespace and escapes it was printed with. */
  lemma {:induction false} RunValue(n: nat, v: Value)
    requires Valid(v)
    ensures Run(Outside(n, false), Print(v)) == Outside(n + Nodes(v), IsPrimitive(v))
    decreases v
  {
    hide Run, IsPrimitiveByte;
    if IsPrimitive(v) {
      PrimitiveBytes(v);
      RunPrimitive(n, false, Print(v));
    } else {
      match v {
        case Str(text) => RunText(n, false, text);
        case EmptyArray(gap) => RunBracketed(n, OPEN_BRACKET, gap, CLOSE_BRACKET); RunSpace(n + 1, false, gap);
        case EmptyObject(gap) => RunBracketed(n, OPEN_BRACE, gap, CLOSE_BRACE); RunSpace(n + 1, false, gap);
        case Array(es) => RunBracketed(n, OPEN_BRACKET, PrintElements(es), CLOSE_BRACKET); RunElements(n + 1, es);
        case Object(ms) => RunBracketed(n, OPEN_BRACE, PrintMembers(ms), CLOSE_BRACE); RunMembers(n + 1, ms);
      }
    }
  }

  lemma PrimitiveBytes(v: Value)
    requires Valid(v) && IsPrimitive(v)
    ensures |Print(v)| >= 1 && forall i :: 0 <= i < |Print(v)| ==> IsPrimitiveByte(Print(v)[i])
  {
    if v.Numeral? { NumberIsPrimitive(v.number); }
  }

  lemma RunBracketed(n: nat, open: byte, body: seq<byte>, close: byte)
    requires open == OPEN_BRACE || open == OPEN_BRACKET
    requires close == CLOSE_BRACE || close == CLOSE_BRACKET
    ensures Run(Outside(n, false), [open] + (body + [close])) == Step(Run(Outside(n + 1, false), body), close)
  {
    RunByte(Outside(n, false), open, body + [close]);
    RunAppend(Outside(n + 1, false), body, [close]);
    assert [close] + [] == [close];
    RunByte(Run(Outside(n + 1, false), body), close, []);
  }

  // A value between whitespace, then whatever follows.
  lemma RunPadded(n: nat, before: Space, v: Value, after: Space, tail: seq<byte>, m: nat)
    requires Run(Outside(n, false), Print(v)) == Outside(m, IsPrimitive(v))
    ensures var p := after == [] && IsPrimitive(v);
            Run(Outside(n, false), before + (Print(v) + (after + tail))) == Run(Outside(m, p), tail)
  {
    hide Run, Step, Print;
    RunAppend(Outside(n, false), before, Print(v) + (after + tail));
    RunSpace(n, false, before);
    RunAppend(Outside(n, false), Print(v), after + tail);
    RunAppend(Outside(m, IsPrimitive(v)), after, tail);
    RunSpace(m, IsPrimitive(v), after);
  }

  lemma {:induction false} RunElements(n: nat, es: Elements)
    requires ValidElements(es)
    ensures Settled(Run(Outside(n, false), PrintElements(es))) == Outside(n + ElementNodes(es), false)
    decreases es
  {
    hide Run, Print;
    var tail := if es.more.NoElements? then [] else [COMMA] + PrintElements(es.more.rest);
    var m := n + Nodes(es.first);
    RunValue(n, es.first);
    RunPadded(n, es.before, es.first, es.after, tail, m);
    var p := es.after == [] && IsPrimitive(es.first);
    if es.more.MoreElements? {
      RunByte(Outside(m, p), COMMA, PrintElements(es.more.rest));
      RunElements(m, es.more.rest);
    } else {
      RunNothing(Outside(m, p));
    }
  }

  lemma RunNothing(s: Scan)
    ensures Run(s, []) == s
  {
  }

  lemma {:induction false} RunMembers(n: nat, ms: Members)
    requires ValidMembers(ms)
    ensures Settled(Run(Outside(n, false), PrintMembers(ms))) == Outside(n + MemberNodes(ms), false)
    decreases ms
  {
    hide Run, Print;
    var tail := if ms.more.NoMembers? then [] else [COMMA] + PrintMembers(ms.more.rest);
    var m := n + 1 + Nodes(ms.value);
    RunKey(n, ms, ms.colonAfter + (Print(ms.value) + (ms.after + tail)));
    RunValue(n + 1, ms.value);
    RunPadded(n + 1, ms.colonAfter, ms.value, ms.after, tail, m);
    var p := ms.after == [] && IsPrimitive(ms.value);
    if ms.more.MoreMembers? {
      RunByte(Outside(m, p), COMMA, PrintMembers(ms.more.rest));
      RunMembers(m, ms.more.rest);
    } else {
      RunNothing(Outside(m, p));
    }
  }

  lemma RunKey(n: nat, ms: Members, rest: seq<byte>)
    ensures Run(Outside(n, false), ms.before + (PrintText(ms.key) + (ms.colonBefore + ([COLON] + rest))))
         == Run(Outside(n + 1, false), rest)
  {
    RunAppend(Outside(n, false), ms.before, PrintText(ms.key) + (ms.colonBefore + ([COLON] + rest)));
    RunSpace(n, false, ms.before);
    RunAppend(Outside(n, false), PrintText(ms.key), ms.colonBefore + ([COLON] + rest));
    RunText(n, false, ms.key);
    RunAppend(Outside(n + 1, false), ms.colonBefore, [COLON] + rest);
    RunSpace(n + 1, false, ms.colonBefore);
    RunByte(Outside(n + 1, false), COLON, rest);
  }

  /** On every JSON document the scanner's count is the number of values plus object keys. */
  lemma ScanCountsNodes(d: Document)
    requires Valid(d.value)
    ensures Run(START, PrintDocument(d)).nodes == Nodes(d.value)
  {
    RunAppend(START, d.before, Print(d.value) + d.after);
    RunSpace(0, false, d.before);
    RunAppend(START, Print(d.value), d.after);
    RunValue(0, d.value);
    RunSpace(Nodes(d.value), IsPrimitive(d.value), d.after);
  }

  /** So a document is accepted exactly when it is at most 16 MiB long and that number is at most 65,536. */
  lemma AcceptedIffWithinBudget(d: Document)
    requires Valid(d.value)
    ensures Accepts(PrintDocument(d)) <==> |PrintDocument(d)| <= 16_777_216 && Nodes(d.value) <= 65_536
  {
    ScanCountsNodes(d);
  }

  /** Input above 16 MiB is refused, whatever it holds. */
  lemma OversizedRefused(bytes: seq<byte>)
    requires |bytes| > 16_777_216
    ensures !Accepts(bytes)
  {
  }

  /** Cutting input short, even inside a token, never raises its count. */
  lemma PrefixCountsLess(a: seq<byte>, b: seq<byte>)
    ensures Run(START, a).nodes <= Run(START, a + b).nodes
  {
    RunAppend(START, a, b);
    NodesGrow(Run(START, a), b);
  }
}
