/** Bytes and the base-128 varint of the Protocol Buffers encoding guide: the encoder, the value of an
    encoding, and the reader of the OTLP response probe. */
module Wire {

  type byte = x: int | 0 <= x < 256

  const U64_LIMIT: nat := 0x1_0000_0000_0000_0000

  datatype Option<+T> = None | Some(value: T)

  /** The canonical (shortest) base-128 encoding, least significant group first. */
  function EncodeVarint(v: nat): (r: seq<byte>)
    ensures |r| >= 1
  {
    if v < 128 then [v] else [128 + v % 128] + EncodeVarint(v / 128)
  }

  /** The number denoted by a sequence of 7-bit groups, least significant group first. */
  function GroupSum(groups: seq<byte>): nat {
    if groups == [] then 0 else groups[0] % 128 + 128 * GroupSum(groups[1..])
  }

  /** A complete varint of at most 64 bits. Overlong encodings are included, as the reader accepts them. */
  predicate IsVarint(b: seq<byte>) {
    && 1 <= |b| <= 10
    && (forall i :: 0 <= i < |b| - 1 ==> b[i] >= 128)
    && b[|b| - 1] < 128
    && (|b| == 10 ==> b[9] <= 1)
  }

  datatype VarintResult =
    | Read(value: nat, used: nat)
    | TruncatedVarint
    | OversizedVarint

  /** How many bytes at the front carry the continuation bit. */
  function Continuations(b: seq<byte>): (n: nat)
    ensures n <= |b|
    ensures forall i :: 0 <= i < n ==> b[i] >= 128
    ensures n < |b| ==> b[n] < 128
  {
    if b == [] || b[0] < 128 then 0
    else
      var n := Continuations(b[1..]);
      assert forall i :: 0 < i <= n ==> b[i] == b[1..][i - 1];
      n + 1
  }

  /** What reading a varint at the front of `b` yields. */
  function DecodeVarint(b: seq<byte>): (r: VarintResult)
    ensures r.Read? ==> 1 <= r.used <= |b| && r.used <= 10
  {
    var n := Continuations(b);
    if n >= 9 && |b| >= 10 && b[9] > 1 then OversizedVarint
    else if n == |b| then TruncatedVarint
    else Read(GroupSum(b[..n + 1]), n + 1)
  }

  /** The reader succeeds exactly on input that starts with a varint, and returns the sum of its groups. */
  lemma DecodeVarintIff(b: seq<byte>, n: nat)
    ensures n <= |b| && IsVarint(b[..n]) <==> DecodeVarint(b).Read? && DecodeVarint(b).used == n
    ensures DecodeVarint(b).Read? ==> DecodeVarint(b).value == GroupSum(b[..DecodeVarint(b).used])
  {
  }

  /** The two failures are exactly: the input ends inside a varint, or the varint needs more than 64 bits. */
  lemma DecodeVarintFailures(b: seq<byte>)
    ensures DecodeVarint(b).TruncatedVarint? <==> |b| < 10 && forall i :: 0 <= i < |b| ==> b[i] >= 128
    ensures DecodeVarint(b).OversizedVarint?
       <==> |b| >= 10 && b[9] > 1 && forall i :: 0 <= i < 9 ==> b[i] >= 128
  {
  }

  ghost function Pow2(n: nat): (r: nat)
    ensures r >= 1
  {
    if n == 0 then 1 else 2 * Pow2(n - 1)
  }

  lemma {:induction false} Pow2Add(a: nat, b: nat)
    ensures Pow2(a + b) == Pow2(a) * Pow2(b)
  {
    if a > 0 {
      Pow2Add(a - 1, b);
      assert Pow2(a + b) == 2 * Pow2(a - 1 + b);
    }
  }

  lemma Pow2Step7(n: nat)
    ensures Pow2(n + 7) == 128 * Pow2(n)
  {
    Pow2Add(7, n);
    assert Pow2(7) == 128 by { Pow2Add(3, 4); }
  }

  lemma {:induction false} GroupSumBound(b: seq<byte>)
    ensures GroupSum(b) < Pow2(7 * |b|)
  {
    if b != [] {
      GroupSumBound(b[1..]);
      Pow2Step7(7 * (|b| - 1));
    }
  }

  lemma {:induction false} GroupSumAppend(b: seq<byte>, x: byte)
    ensures GroupSum(b + [x]) == GroupSum(b) + (x % 128) * Pow2(7 * |b|)
  {
    if b == [] {
      assert [x][1..] == [];
    } else {
      assert (b + [x])[1..] == b[1..] + [x];
      GroupSumAppend(b[1..], x);
      Pow2Step7(7 * (|b| - 1));
      assert 128 * ((x % 128) * Pow2(7 * (|b| - 1))) == (x % 128) * Pow2(7 * |b|);
    }
  }

  lemma {:induction false} GroupSumOfEncoding(v: nat)
    ensures GroupSum(EncodeVarint(v)) == v
    ensures forall i :: 0 <= i < |EncodeVarint(v)| - 1 ==> EncodeVarint(v)[i] >= 128
    ensures EncodeVarint(v)[|EncodeVarint(v)| - 1] < 128
  {
    var e := EncodeVarint(v);
    if v >= 128 {
      GroupSumOfEncoding(v / 128);
      assert e[1..] == EncodeVarint(v / 128);
      assert forall i :: 0 < i < |e| ==> e[i] == e[1..][i - 1];
    }
  }

  /** An encoding has `n` groups exactly when the value needs `n` groups of seven bits. */
  lemma {:induction false} EncodingLength(v: nat, n: nat)
    requires n >= 1
    requires v < Pow2(7 * n)
    ensures |EncodeVarint(v)| <= n
  {
    if v >= 128 {
      if n == 1 {
        Pow2Step7(0);
        assert false;
      }
      Pow2Step7(7 * (n - 1));
      EncodingLength(v / 128, n - 1);
    }
  }

  lemma Pow2Values()
    ensures Pow2(56) == 0x100_0000_0000_0000
    ensures Pow2(63) == 0x8000_0000_0000_0000
    ensures Pow2(64) == U64_LIMIT
  {
    Pow2Step7(0); Pow2Step7(7); Pow2Step7(14); Pow2Step7(21); Pow2Step7(28); Pow2Step7(35); Pow2Step7(42);
    Pow2Step7(49); Pow2Step7(56);
    assert Pow2(64) == 2 * Pow2(63);
  }

  /** Every 64-bit value's encoding is a varint the reader accepts. */
  lemma EncodingIsVarint(v: nat)
    requires v < U64_LIMIT
    ensures IsVarint(EncodeVarint(v))
  {
    GroupSumOfEncoding(v);
    Pow2Values();
    Pow2Step7(63);
    EncodingLength(v, 10);
    var e := EncodeVarint(v);
    if |e| == 10 {
      var front := e[..9];
      assert e == front + [e[9]];
      GroupSumAppend(front, e[9]);
    }
  }

  /** Reading inverts encoding for every 64-bit value, whatever bytes follow. */
  lemma VarintRoundTrip(v: nat, rest: seq<byte>)
    requires v < U64_LIMIT
    ensures DecodeVarint(EncodeVarint(v) + rest) == Read(v, |EncodeVarint(v)|)
  {
    var e := EncodeVarint(v);
    EncodingIsVarint(v);
    GroupSumOfEncoding(v);
    assert (e + rest)[..|e|] == e;
    DecodeVarintIff(e + rest, |e|);
  }

  /** No varint denotes more than 64 bits, so nothing is lost to the width of the accumulator. */
  lemma VarintFits(b: seq<byte>)
    requires IsVarint(b)
    ensures GroupSum(b) < U64_LIMIT
  {
    Pow2Values();
    var front := b[..|b| - 1];
    assert b == front + [b[|b| - 1]];
    GroupSumAppend(front, b[|b| - 1]);
    GroupSumBound(front);
    if |b| <= 9 {
      GroupSumBound(b);
      Pow2Monotone(7 * |b|, 63);
    }
  }

  lemma {:induction false} Pow2Monotone(a: nat, b: nat)
    requires a <= b
    ensures Pow2(a) <= Pow2(b)
    decreases b
  {
    if a < b { Pow2Monotone(a, b - 1); }
  }

  /** Bitwise or on naturals. */
  function BitOr(a: nat, b: nat): nat {
    if a == 0 && b == 0 then 0
    else (if a % 2 == 1 || b % 2 == 1 then 1 else 0) + 2 * BitOr(a / 2, b / 2)
  }

  /** `x << shift` on a 64-bit word: bits past the top are dropped. */
  function ShiftLeft64(x: nat, shift: nat): nat
    decreases shift
  {
    if shift == 0 then x % U64_LIMIT else ShiftLeft64(2 * x, shift - 1)
  }

  lemma {:induction false} ShiftLeft64Value(x: nat, shift: nat)
    ensures ShiftLeft64(x, shift) == (x * Pow2(shift)) % U64_LIMIT
    decreases shift
  {
    if shift > 0 {
      ShiftLeft64Value(2 * x, shift - 1);
      assert 2 * x * Pow2(shift - 1) == x * Pow2(shift);
    }
  }

  lemma {:induction false} BitOrZero(b: nat)
    ensures BitOr(0, b) == b
  {
    if b > 0 { BitOrZero(b / 2); }
  }

  /** Or-ing a value with a word whose low `shift` bits are clear is addition when the value fits below them. */
  lemma {:induction false} BitOrDisjoint(a: nat, b: nat, shift: nat)
    requires a < Pow2(shift)
    ensures BitOr(a, b * Pow2(shift)) == a + b * Pow2(shift)
  {
    if shift == 0 {
      BitOrZero(b);
    } else {
      var w := b * Pow2(shift - 1);
      assert b * Pow2(shift) == 2 * w;
      BitOrDisjoint(a / 2, b, shift - 1);
      assert (2 * w) / 2 == w && (2 * w) % 2 == 0;
      if a == 0 && w == 0 {
      } else {
        assert BitOr(a, 2 * w) == a % 2 + 2 * BitOr(a / 2, w);
      }
    }
  }

  lemma MulMonotone(a: nat, b: nat, c: nat, d: nat)
    requires a <= c && b <= d
    ensures a * b <= c * d
  {
  }

  lemma ShiftedGroupFits(x: nat, n: nat)
    requires n <= 9 && x < 128
    requires n == 9 ==> x <= 1
    ensures x * Pow2(7 * n) < U64_LIMIT
  {
    var p := Pow2(7 * n);
    if n < 9 {
      assert p <= 0x100_0000_0000_0000 by {
        Pow2Values();
        Pow2Monotone(7 * n, 56);
      }
      MulMonotone(x, p, 128, 0x100_0000_0000_0000);
    } else {
      assert p == 0x8000_0000_0000_0000 by { Pow2Values(); }
      MulMonotone(x, p, 1, p);
    }
  }

  lemma SmallMod(x: nat)
    requires x < U64_LIMIT
    ensures x % U64_LIMIT == x
  {
  }

  lemma ShiftExact(g: nat, n: nat)
    requires n <= 9 && g < 128
    requires n == 9 ==> g <= 1
    ensures ShiftLeft64(g, 7 * n) == g * Pow2(7 * n)
  {
    ShiftLeft64Value(g, 7 * n);
    ShiftedGroupFits(g, n);
    SmallMod(g * Pow2(7 * n));
  }

  /** One accumulator update of the reader is exact: no bit is dropped and no bit is set twice. */
  lemma AccumulateExact(front: seq<byte>, x: byte)
    requires |front| <= 9
    requires |front| == 9 ==> x <= 1
    ensures BitOr(GroupSum(front), ShiftLeft64(x % 128, 7 * |front|)) == GroupSum(front + [x])
  {
    hide BitOr, ShiftLeft64, GroupSum, Pow2;
    GroupSumBound(front);
    GroupSumAppend(front, x);
    ShiftExact(x % 128, |front|);
    BitOrDisjoint(GroupSum(front), x % 128, 7 * |front|);
  }

  /** The probe's varint reader: shifts and ors seven bits at a time into a 64-bit accumulator. */
  method ReadVarint(bytes: seq<byte>) returns (r: VarintResult)
    ensures r == DecodeVarint(bytes)
  {
    var value := 0;
    var idx := 0;
    DecodeVarintFailures(bytes);
    while idx < |bytes| && idx < 10
      invariant 0 <= idx <= |bytes| && idx <= 10
      invariant forall i :: 0 <= i < idx ==> bytes[i] >= 128
      invariant idx == 10 ==> bytes[9] <= 1
      invariant value == GroupSum(bytes[..idx])
    {
      var b := bytes[idx];
      var shift := idx * 7;
      if idx == 9 && b > 1 {
        return OversizedVarint;
      }
      AccumulateExact(bytes[..idx], b);
      assert bytes[..idx] + [b] == bytes[..idx + 1];
      value := BitOr(value, ShiftLeft64(b % 128, shift));
      if b < 128 {
        DecodeVarintIff(bytes, idx + 1);
        assert IsVarint(bytes[..idx + 1]);
        return Read(value, idx + 1);
      }
      idx := idx + 1;
    }
    return TruncatedVarint;
  }
}
