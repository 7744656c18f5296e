/** Big-endian bytes and hexadecimal text of field elements (contracts/scripts/test-joinsplit-proof.ts). */
module FieldBytes {
  import opened Common
  import opened ModArith

  function Power(b: nat, n: nat): (r: nat)
    ensures b > 0 ==> r > 0
  {
    if n == 0 then 1 else b * Power(b, n - 1)
  }

  /** The number written by digits in base `b`, most significant first. */
  function Value(b: nat, s: seq<nat>): nat {
    if s == [] then 0 else b * Value(b, s[..|s| - 1]) + s[|s| - 1]
  }

  /** The low `n` bytes of `v`, big-endian; of a negative number, those of its two's complement. */
  function BigEndian(v: int, n: nat): (r: bytes)
    ensures |r| == n
    decreases n
  {
    if n == 0 then [] else BigEndian(v / 256, n - 1) + [v % 256]
  }

  function Digits(s: bytes): (d: seq<nat>)
    ensures |d| == |s| && forall k | 0 <= k < |s| :: d[k] == s[k] && d[k] < 256
  {
    seq(|s|, k requires 0 <= k < |s| => s[k] as nat)
  }

  /** The number read from big-endian bytes. */
  function FromBytes(s: bytes): nat {
    Value(256, Digits(s))
  }

  lemma FromBytesLast(s: bytes)
    requires s != []
    ensures FromBytes(s) == 256 * FromBytes(s[..|s| - 1]) + s[|s| - 1]
  {
    assert Digits(s)[..|s| - 1] == Digits(s[..|s| - 1]);
  }

  lemma RemainderIs(v: int, k: int, x: int, m: nat)
    requires 0 <= x < m && v == k * m + x
    ensures v % m == x
  {
    CongFromMultiple(v, x, k, m);
    CongReduced(v, m);
    CongTransitive(v % m, v, x, m);
    CongSmall(v % m, x, m);
  }

  lemma LastByteSplits(v: int, m: nat)
    requires m > 0
    ensures v % (256 * m) == 256 * (v / 256 % m) + v % 256
  {
    var q, r := v / 256, v % 256;
    var k, x := q / m, q % m;
    assert q == k * m + x;
    assert v == k * (256 * m) + (256 * x + r);
    RemainderIs(v, k, 256 * x + r, 256 * m);
  }

  /** Writing then reading reduces modulo 256^n; on numbers in range it is the identity. */
  lemma {:induction false} BytesRoundTrip(v: int, n: nat)
    ensures FromBytes(BigEndian(v, n)) == v % Power(256, n)
    ensures 0 <= v < Power(256, n) ==> FromBytes(BigEndian(v, n)) == v
    decreases n
  {
    if n > 0 {
      var r := BigEndian(v, n);
      BytesRoundTrip(v / 256, n - 1);
      FromBytesLast(r);
      assert r[..n - 1] == BigEndian(v / 256, n - 1);
      LastByteSplits(v, Power(256, n - 1));
    }
    if 0 <= v < Power(256, n) {
      RemainderIs(v, 0, v, Power(256, n));
    }
  }

  lemma QuotientIs(v: int, k: int, x: int, m: nat)
    requires 0 <= x < m && v == k * m + x
    ensures v / m == k
  {
    RemainderIs(v, k, x, m);
    var q := v / m;
    assert v == m * q + x;
    assert m * (q - k) == 0;
    ProductBound(m, q - k);
  }

  lemma DivideTwice(v: int, m: nat)
    requires m > 0
    ensures v / 256 / m == v / (256 * m)
  {
    var q, r := v / 256, v % 256;
    var k, x := q / m, q % m;
    assert q == k * m + x;
    assert v == k * (256 * m) + (256 * x + r);
    QuotientIs(v, k, 256 * x + r, 256 * m);
  }

  /** Byte k of n counts 256^(n-1-k): the most significant byte comes first. */
  lemma {:induction false} BigEndianByte(v: int, n: nat, k: nat)
    requires k < n
    ensures BigEndian(v, n)[k] == v / Power(256, n - 1 - k) % 256
    decreases n
  {
    if k < n - 1 {
      BigEndianByte(v / 256, n - 1, k);
      DivideTwice(v, Power(256, n - 2 - k));
    } else {
      assert Power(256, 0) == 1;
    }
  }

  lemma LowByte(high: nat, low: byte)
    ensures (256 * high + low) / 256 == high && (256 * high + low) % 256 == low
  {
  }

  /** Reading then writing is the identity on every byte string. */
  lemma {:induction false} NumberRoundTrip(s: bytes)
    ensures BigEndian(FromBytes(s), |s|) == s
  {
    if s != [] {
      hide FromBytes;
      var front, last := s[..|s| - 1], s[|s| - 1];
      FromBytesLast(s);
      NumberRoundTrip(front);
      LowByte(FromBytes(front), last);
      assert s == front + [last];
    }
  }

  method BigintToBytes32BE(value: int) returns (out: array<byte>)
    ensures fresh(out) && out[..] == BigEndian(value, 32)
  {
    out := new byte[32](_ => 0);
    var v: int := value;
    var i := 32;
    while i > 0
      invariant 0 <= i <= 32 && out.Length == 32
      invariant BigEndian(value, 32) == BigEndian(v, i) + out[i..]
    {
      i := i - 1;
      ghost var tail := out[i + 1..];
      out[i] := v % 256;
      assert out[i..] == [v % 256] + tail;
      v := v / 256;
    }
    assert out[0..] == out[..];
  }

  method Bytes32ToBigintBE(s: bytes) returns (result: nat)
    ensures result == FromBytes(s)
  {
    result := 0;
    for i := 0 to |s|
      invariant result == FromBytes(s[..i])
    {
      FromBytesLast(s[..i + 1]);
      assert s[..i + 1][..i] == s[..i];
      result := result * 256 + s[i];
    }
    assert s[..|s|] == s;
  }

  // ---- Hexadecimal text --------------------------------------------------------------------------------------

  /** `toString(16)`: no leading zeros, and "0" for zero. */
  function Hex(v: nat): (h: seq<nat>)
    ensures |h| > 0 && forall k | 0 <= k < |h| :: h[k] < 16
  {
    if v < 16 then [v] else Hex(v / 16) + [v % 16]
  }

  lemma {:induction false} HexValue(v: nat)
    ensures Value(16, Hex(v)) == v
  {
    if v >= 16 {
      HexValue(v / 16);
      assert Hex(v)[..|Hex(v)| - 1] == Hex(v / 16);
    } else {
      assert Hex(v)[..0] == [];
    }
  }

  /** A number has at most n hex digits exactly when it is below 16^n. */
  lemma {:induction false} HexLength(v: nat, n: nat)
    requires n > 0
    ensures |Hex(v)| <= n <==> v < Power(16, n)
    decreases n
  {
    if n == 1 {
      assert Power(16, 1) == 16 * Power(16, 0) == 16;
    } else if v >= 16 {
      HexLength(v / 16, n - 1);
    } else {
      PowerAtLeast(n);
    }
  }

  lemma {:induction false} PowerAtLeast(n: nat)
    requires n > 0
    ensures Power(16, n) >= 16
  {
    if n > 1 {
      PowerAtLeast(n - 1);
    } else {
      assert Power(16, 0) == 1;
    }
  }

  function PadStart(h: seq<nat>, n: nat): (p: seq<nat>)
    ensures |p| == Max(|h|, n)
  {
    if |h| >= n then h else Repeat(0, n - |h|) + h
  }

  lemma {:induction false} PaddingKeepsValue(h: seq<nat>, z: seq<nat>)
    requires forall k | 0 <= k < |z| :: z[k] == 0
    ensures Value(16, z + h) == Value(16, h)
    decreases |h|, |z|
  {
    var s := z + h;
    if h != [] {
      assert s[..|s| - 1] == z + h[..|h| - 1];
      PaddingKeepsValue(h[..|h| - 1], z);
    } else if z != [] {
      assert s[..|s| - 1] == z[..|z| - 1] + h;
      PaddingKeepsValue(h, z[..|z| - 1]);
    }
  }

  /** `Buffer.from(text, "hex")`: one byte per pair of digits; an unpaired last digit is dropped. */
  function FromHex(h: seq<nat>): (r: bytes)
    requires AreHexDigits(h)
    ensures |r| == |h| / 2
  {
    if |h| < 2 then [] else [16 * h[0] + h[1]] + FromHex(h[2..])
  }

  predicate AreHexDigits(h: seq<nat>) {
    forall k | 0 <= k < |h| :: h[k] < 16
  }

  lemma FromHexFirst(h: seq<nat>)
    requires |h| >= 2 && AreHexDigits(h)
    ensures AreHexDigits(h[2..]) && FromHex(h) == [16 * h[0] + h[1]] + FromHex(h[2..])
  {
  }

  lemma {:induction false} FromHexLast(h: seq<nat>)
    requires |h| >= 2 && |h| % 2 == 0 && AreHexDigits(h)
    ensures AreHexDigits(h[..|h| - 2])
    ensures FromHex(h) == FromHex(h[..|h| - 2]) + [16 * h[|h| - 2] + h[|h| - 1]]
    decreases |h|
  {
    FromHexFirst(h);
    if |h| > 2 {
      hide FromHex;
      var front, rest := h[..|h| - 2], h[2..];
      FromHexLast(rest);
      FromHexFirst(front);
      assert rest[..|rest| - 2] == front[2..];
    } else {
      assert FromHex(h[2..]) == [] && FromHex(h[..0]) == [];
    }
  }

  lemma ValueOfTwo(h: seq<nat>)
    requires |h| >= 2
    ensures Value(16, h) == 256 * Value(16, h[..|h| - 2]) + (16 * h[|h| - 2] + h[|h| - 1])
  {
    assert h[..|h| - 1][..|h| - 2] == h[..|h| - 2];
  }

  lemma {:induction false} FromHexValue(h: seq<nat>)
    requires |h| % 2 == 0 && AreHexDigits(h)
    ensures FromBytes(FromHex(h)) == Value(16, h)
    decreases |h|
  {
    if h != [] {
      hide FromHex, FromBytes, Value;
      var front := h[..|h| - 2];
      FromHexLast(h);
      FromHexValue(front);
      FromBytesLast(FromHex(h));
      ValueOfTwo(h);
      assert FromHex(h)[..|FromHex(h)| - 1] == FromHex(front);
    }
  }

  /** A coordinate as the serializers write it: hex, padded to 64 digits, then bytes. */
  function Encode(v: nat): bytes {
    FromHex(PadStart(Hex(v), 64))
  }

  /** The encoding is 32 bytes exactly when the number has at most 65 hex digits. */
  lemma EncodeLength(v: nat)
    ensures |Encode(v)| >= 32
    ensures |Encode(v)| == 32 <==> v < Power(16, 65)
  {
    hide Power;
    HexLength(v, 65);
  }

  /** Below 2^256 it is the 32-byte big-endian form, so it can be read back. */
  lemma EncodeIsBigEndian(v: nat)
    requires v < Power(16, 64)
    ensures Encode(v) == BigEndian(v, 32) && FromBytes(Encode(v)) == v
  {
    hide Power, FromBytes;
    HexLength(v, 64);
    HexValue(v);
    PaddingKeepsValue(Hex(v), Repeat(0, 64 - |Hex(v)|));
    FromHexValue(PadStart(Hex(v), 64));
    NumberRoundTrip(Encode(v));
  }

  /** A 65th digit is dropped: 16^64 and 16^64 + 1 get the same bytes. */
  lemma LongCoordinatesCollide(v: nat)
    requires Power(16, 64) <= v < Power(16, 65) && v % 16 == 0
    ensures Encode(v) == Encode(v + 1)
  {
    hide Power, FromBytes;
    HexLength(v, 64);
    HexLength(v, 65);
    var h := Hex(v / 16);
    assert Hex(v) == h + [0] && Hex(v + 1) == h + [1];
    DropsUnpaired(h, 0);
    DropsUnpaired(h, 1);
  }

  lemma {:induction false} DropsUnpaired(h: seq<nat>, d: nat)
    requires |h| % 2 == 0 && d < 16 && AreHexDigits(h)
    ensures FromHex(h + [d]) == FromHex(h)
    decreases |h|
  {
    if |h| >= 2 {
      assert (h + [d])[2..] == h[2..] + [d];
      DropsUnpaired(h[2..], d);
    }
  }
}
