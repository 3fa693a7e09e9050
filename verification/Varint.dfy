/** The varint codec of hmath.h: little-endian base 128, the high bit set on all bytes but the last. */
module Varint {
  import opened Bytes

  const TWO63: nat := 0x8000_0000_0000_0000
  const TWO64: nat := 0x1_0000_0000_0000_0000

  // The format

  function Pow128(n: nat): (p: nat)
    ensures p > 0
  {
    if n == 0 then 1 else 128 * Pow128(n - 1)
  }

  /** The number spelled by the low seven bits of the bytes, least significant first. */
  function Value(w: seq<Byte>): nat {
    if |w| == 0 then 0 else w[0] as int % 128 + 128 * Value(w[1..])
  }

  /** The first byte without the high bit, or |buf|. */
  function LastByte(buf: seq<Byte>): (t: nat)
    ensures t <= |buf| && (t < |buf| ==> buf[t] < 128)
    ensures forall i :: 0 <= i < t ==> buf[i] >= 128
  {
    if |buf| == 0 || buf[0] < 128 then 0 else 1 + LastByte(buf[1..])
  }

  /** A whole encoding: exactly the last byte lacks the high bit. */
  predicate Whole(w: seq<Byte>) {
    |w| > 0 && LastByte(w) == |w| - 1
  }

  function Encoded(v: nat): (w: seq<Byte>)
    ensures Whole(w)
  {
    if v < 128 then [v as Byte] else [(v % 128 + 128) as Byte] + Encoded(v / 128)
  }

  lemma {:induction false} EncodedValue(v: nat)
    ensures Value(Encoded(v)) == v
  {
    if v < 128 {
      assert Value([v as Byte]) == v % 128 + 128 * Value([v as Byte][1..]);
    } else {
      EncodedValue(v / 128);
      assert Encoded(v)[1..] == Encoded(v / 128);
    }
  }

  lemma {:induction false} ValueBound(w: seq<Byte>)
    ensures Value(w) < Pow128(|w|)
  {
    if |w| > 0 {
      ValueBound(w[1..]);
    }
  }

  /** No whole byte sequence with the same value is shorter. */
  lemma {:induction false} EncodedMinimal(v: nat, w: seq<Byte>)
    requires Whole(w) && Value(w) == v
    ensures |Encoded(v)| <= |w|
  {
    if v >= 128 {
      assert |w| > 1;
      assert LastByte(w) == 1 + LastByte(w[1..]);
      EncodedMinimal(v / 128, w[1..]);
    }
  }

  lemma {:induction false} EncodedLength(v: nat, n: nat)
    requires n > 0 && v < Pow128(n)
    ensures |Encoded(v)| <= n
  {
    if v >= 128 {
      assert n > 1;
      EncodedLength(v / 128, n - 1);
    }
  }

  lemma {:induction false} NineBytes()
    ensures Pow128(9) == TWO63
  {
    assert Pow128(3) == 128 * 128 * 128;
    assert Pow128(6) == 128 * 128 * 128 * Pow128(3);
    assert Pow128(9) == 128 * 128 * 128 * Pow128(6);
  }

  /** Every nonnegative long long takes at most nine bytes. */
  lemma {:induction false} EncodedShort(v: nat)
    requires v < TWO63
    ensures |Encoded(v)| <= 9
  {
    NineBytes();
    EncodedLength(v, 9);
  }

  lemma {:induction false} OneByte(w: seq<Byte>)
    requires Whole(w) && |w| == 1
    ensures Value(w) == w[0] as int && Encoded(Value(w)) == w
  {
    assert Value(w) == w[0] as int % 128 + 128 * Value(w[1..]);
  }

  /** The first byte of several is the remainder, the others the quotient. */
  lemma {:induction false} ValueSplits(w: seq<Byte>)
    requires Whole(w) && |w| > 1
    ensures var v, q := Value(w), Value(w[1..]);
      && (q > 0 ==> Encoded(v) == [w[0]] + Encoded(q))
      && (q == 0 ==> |Encoded(v)| == 1)
  {
    var v, q := Value(w), Value(w[1..]);
    assert v == w[0] as int - 128 + 128 * q;
    assert v / 128 == q && v % 128 == w[0] as int - 128;
  }

  lemma {:induction false} ZeroBytes(w: seq<Byte>)
    requires Whole(w) && Value(w) == 0
    ensures w[|w| - 1] == 0
  {
    if |w| > 1 {
      assert LastByte(w) == 1 + LastByte(w[1..]);
      ZeroBytes(w[1..]);
    } else {
      assert Value(w) == w[0] as int + 128 * Value(w[1..]);
    }
  }

  /** Only one whole byte sequence without a final zero byte has a given value. */
  lemma {:induction false} CanonicalUnique(w: seq<Byte>)
    requires Whole(w)
    ensures Encoded(Value(w)) == w <==> |w| == 1 || w[|w| - 1] != 0
  {
    hide Value, Encoded;
    if |w| == 1 {
      OneByte(w);
    } else {
      var r := w[1..];
      assert LastByte(w) == 1 + LastByte(r);
      assert w == [w[0]] + r;
      CanonicalUnique(r);
      ValueSplits(w);
      if Value(r) == 0 {
        ZeroBytes(r);
      } else if |r| == 1 {
        OneByte(r);
      }
    }
  }

  // Encoding

  lemma {:induction false} EncodedStep(v: nat)
    ensures Encoded(v) == if v / 128 == 0 then [(v % 128) as Byte] else [(v % 128 + 128) as Byte] + Encoded(v / 128)
  {
  }

  lemma {:induction false} Regroup(a: seq<Byte>, b: seq<Byte>, c: seq<Byte>)
    ensures a + (b + c) == (a + b) + c
  {
  }

  /** Writes the encoding at the front of buf, which must be long enough for it. */
  method VarintEncode(value: nat, buf: array<Byte>) returns (bytes: nat)
    requires value < TWO63 && |Encoded(value)| <= buf.Length
    modifies buf
    ensures bytes == |Encoded(value)| <= 9
    ensures buf[..bytes] == Encoded(value)
    ensures forall k :: bytes <= k < buf.Length ==> buf[k] == old(buf[k])
  {
    hide Encoded;
    EncodedShort(value);
    var v := value;
    bytes := 0;
    while true
      invariant bytes <= buf.Length && buf[..bytes] + Encoded(v) == Encoded(value)
      invariant forall k :: bytes <= k < buf.Length ==> buf[k] == old(buf[k])
      decreases v
    {
      EncodedStep(v);
      ghost var w := buf[..bytes];
      var ch: Byte := (v % 128) as Byte;
      v := v / 128;
      buf[bytes] := if v == 0 then ch else ch + 128;
      bytes := bytes + 1;
      assert buf[..bytes] == w + [buf[bytes - 1]];
      Regroup(w, [buf[bytes - 1]], Encoded(v));
      if v == 0 {
        break;
      }
    }
  }

  // Decoding

  /** A 64-bit pattern as a long long. */
  function Signed(x: nat): int {
    var m := x % TWO64;
    if m < TWO63 then m else m - TWO64
  }

  /** The result and the size that decoding reports; a limit of 0 or less is none. */
  function Decoded(buf: seq<Byte>, limit: int): (int, int) {
    var t := LastByte(buf);
    if 0 < limit <= t && limit < 10 then (0, 0)
    else if t < |buf| && t < 10 then (Signed(Value(buf[..t + 1])), t + 1)
    else (Signed(Value(if |buf| < 10 then buf else buf[..10])), -1)
  }

  /** Every byte that decoding may look at is there. */
  predicate Readable(buf: seq<Byte>, limit: int) {
    0 < limit <= |buf| || |buf| >= 10 || LastByte(buf) < |buf|
  }

  lemma {:induction false} Carry(x: nat, p: nat)
    ensures 128 * (x * p) == x * (128 * p)
  {
  }

  lemma {:induction false} ValueSnoc(w: seq<Byte>, b: Byte)
    ensures Value(w + [b]) == Value(w) + (b as int % 128) * Pow128(|w|)
  {
    if |w| == 0 {
      assert w + [b] == [b];
      assert Value([b]) == b as int % 128 + 128 * Value([b][1..]);
    } else {
      assert (w + [b])[1..] == w[1..] + [b];
      ValueSnoc(w[1..], b);
      Carry(b as int % 128, Pow128(|w| - 1));
    }
  }

  lemma {:induction false} AddWraps(a: nat, b: nat)
    ensures (a % TWO64 + b) % TWO64 == (a + b) % TWO64
  {
  }

  lemma {:induction false} Units(n: nat)
    ensures Pow128(0) == 1 && Value([]) == 0 && (n > 0 ==> Pow128(n) == 128 * Pow128(n - 1))
  {
  }

  /** acc | (x << bits), for unit == 1 << bits and acc below it: the bits do not overlap. */
  function OrShifted(acc: nat, x: nat, unit: nat): nat
    requires acc < unit && x < 128
  {
    (acc + x * unit) % TWO64
  }

  lemma {:induction false} PowMonotone(n: nat)
    requires n <= 9
    ensures Pow128(n) <= TWO63
    decreases 9 - n
  {
    NineBytes();
    if n < 9 {
      PowMonotone(n + 1);
    }
  }

  /** One more byte. */
  lemma {:induction false} DecodedStep(buf: seq<Byte>, bytes: nat, acc: nat, unit: nat)
    requires bytes < |buf| && bytes < 10 && acc == Value(buf[..bytes]) % TWO64 && unit == Pow128(bytes)
    ensures acc < unit && unit * 128 == Pow128(bytes + 1)
    ensures OrShifted(acc, buf[bytes] as int % 128, unit) == Value(buf[..bytes + 1]) % TWO64
  {
    hide Value, Pow128;
    Units(bytes + 1);
    assert buf[..bytes] + [buf[bytes]] == buf[..bytes + 1];
    ValueSnoc(buf[..bytes], buf[bytes]);
    ValueBound(buf[..bytes]);
    PowMonotone(bytes);
    AddWraps(Value(buf[..bytes]), (buf[bytes] as int % 128) * unit);
  }

  lemma {:induction false} SignedWraps(x: nat)
    ensures Signed(x % TWO64) == Signed(x)
  {
  }

  method VarintDecode(buf: seq<Byte>, limit: int) returns (ret: int, len: int)
    requires Readable(buf, limit)
    ensures (ret, len) == Decoded(buf, limit)
  {
    hide Value, Pow128, LastByte, OrShifted, Signed;
    var acc, bytes, unit := 0, 0, 1;
    Units(0);
    assert buf[..0] == [];
    while bytes < 10
      invariant 0 <= bytes <= LastByte(buf) && bytes <= 10 && (0 < limit < 10 ==> bytes <= limit)
      invariant unit == Pow128(bytes) && acc == Value(buf[..bytes]) % TWO64
    {
      if limit > 0 && bytes == limit {
        return 0, 0;
      }
      DecodedStep(buf, bytes, acc, unit);
      acc := OrShifted(acc, buf[bytes] as int % 128, unit);
      bytes := bytes + 1;
      if buf[bytes - 1] < 128 {
        SignedWraps(Value(buf[..bytes]));
        return Signed(acc), bytes;
      }
      unit := unit * 128;
    }
    SignedWraps(Value(buf[..10]));
    return Signed(acc), -1;
  }

  // Round trips

  lemma {:induction false} LastByteOf(w: seq<Byte>, rest: seq<Byte>)
    requires Whole(w)
    ensures LastByte(w + rest) == |w| - 1
  {
    if |w| > 1 {
      assert LastByte(w) == 1 + LastByte(w[1..]);
      LastByteOf(w[1..], rest);
      assert (w + rest)[1..] == w[1..] + rest;
    }
  }

  /** Whatever follows, and with no limit or any limit that covers it, an encoding decodes to its value. */
  lemma {:induction false} RoundTrip(v: nat, rest: seq<Byte>, limit: int)
    requires v < TWO63 && (limit <= 0 || limit >= |Encoded(v)|)
    ensures Decoded(Encoded(v) + rest, limit) == (v, |Encoded(v)|)
  {
    hide Value, Encoded, LastByte;
    var w := Encoded(v);
    EncodedShort(v);
    EncodedValue(v);
    LastByteOf(w, rest);
    assert (w + rest)[..|w|] == w;
  }

  /** A cut-off encoding is reported as not enough. */
  lemma {:induction false} StrictPrefix(v: nat, k: nat)
    requires v < TWO63 && 0 < k < |Encoded(v)|
    ensures Decoded(Encoded(v)[..k], k) == (0, 0)
  {
    EncodedShort(v);
    var w := Encoded(v);
    assert forall i :: 0 <= i < k ==> w[..k][i] == w[i] >= 128;
  }

  lemma {:induction false} WholePrefix(buf: seq<Byte>)
    requires LastByte(buf) < |buf|
    ensures Whole(buf[..LastByte(buf) + 1])
  {
    var w := buf[..LastByte(buf) + 1];
    assert LastByte(w) < |w| ==> w[LastByte(w)] == buf[LastByte(w)];
    assert w[LastByte(buf)] == buf[LastByte(buf)];
  }

  /** What decodes within nine bytes is the encoding of the result, unless a final zero byte pads it. */
  lemma {:induction false} DecodedCanonical(buf: seq<Byte>, limit: int)
    requires 0 < Decoded(buf, limit).1 <= 9
    ensures var (v, n) := Decoded(buf, limit);
      && n <= |buf| && 0 <= v < TWO63
      && (Encoded(v) == buf[..n] <==> n == 1 || buf[n - 1] != 0)
  {
    hide Value, Encoded, LastByte;
    var n := Decoded(buf, limit).1;
    var w := buf[..n];
    WholePrefix(buf);
    ValueBound(w);
    PowMonotone(n);
    CanonicalUnique(w);
  }

  function EncodedAll(vs: seq<nat>): seq<Byte> {
    if |vs| == 0 then [] else Encoded(vs[0]) + EncodedAll(vs[1..])
  }

  /** Decode one value after the other, each time skipping the reported size. */
  function DecodedAll(buf: seq<Byte>): seq<int>
    decreases |buf|
  {
    if |buf| == 0 then []
    else
      var (v, n) := Decoded(buf, |buf|);
      if 0 < n <= |buf| then [v] + DecodedAll(buf[n..]) else []
  }

  /** A stream of encodings decodes to the values encoded. */
  lemma {:induction false} StreamRoundTrip(vs: seq<nat>)
    requires forall v :: v in vs ==> v < TWO63
    ensures DecodedAll(EncodedAll(vs)) == vs
  {
    hide Encoded, Decoded;
    if |vs| > 0 {
      var w, rest := Encoded(vs[0]), EncodedAll(vs[1..]);
      assert vs[0] in vs;
      RoundTrip(vs[0], rest, |w + rest|);
      assert forall v :: v in vs[1..] ==> v in vs;
      StreamRoundTrip(vs[1..]);
      assert (w + rest)[|w|..] == rest;
      assert [vs[0]] + vs[1..] == vs;
    }
  }

  lemma {:induction false} SignedIs(x: nat)
    ensures -(TWO63 as int) <= Signed(x) < TWO63 && (Signed(x) - x) % TWO64 == 0
  {
    var m := x % TWO64;
    assert x == TWO64 * (x / TWO64) + m;
    var q := -(x / TWO64);
    if m < TWO63 {
      assert Signed(x) - x == TWO64 * q;
    } else {
      assert Signed(x) - x == TWO64 * (q - 1);
    }
  }

  /** What decoding any bytes reports: a size if a byte without the high bit ends the number within the
      limit and ten bytes, 0 if a limit below ten cuts it off, -1 otherwise. The result is the value of
      the bytes read modulo 2^64, as a long long. */
  lemma {:induction false} DecodedExact(buf: seq<Byte>, limit: int)
    requires Readable(buf, limit)
    ensures var (v, n) := Decoded(buf, limit);
      && (n > 0 <==> exists t :: 0 <= t < |buf| && t < 10 && (0 < limit < 10 ==> t < limit) && buf[t] < 128)
      && (n > 0 ==> n <= |buf| && buf[n - 1] < 128 && forall i :: 0 <= i < n - 1 ==> buf[i] >= 128)
      && (n <= 0 ==> n == if 0 < limit < 10 then 0 else -1)
      && (n != 0 ==> -(TWO63 as int) <= v < TWO63)
      && (n > 0 ==> (v - Value(buf[..n])) % TWO64 == 0)
      && (n == -1 ==> |buf| >= 10 && (v - Value(buf[..10])) % TWO64 == 0)
  {
    hide Value;
    var t := LastByte(buf);
    SignedIs(Value(buf[..if t < |buf| then t + 1 else |buf|]));
    if |buf| >= 10 { SignedIs(Value(buf[..10])); }
  }

  /** The example of the Protocol Buffers encoding guide. */
  lemma {:induction false} Encoded300()
    ensures Encoded(300) == [0xAC, 0x02]
  {
    assert Encoded(2) == [2];
  }
}
