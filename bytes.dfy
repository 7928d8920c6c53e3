// Byte strings, Go's fixed-width unsigned conversions, big-endian integer
// layouts (encoding/binary.BigEndian) and bytes.Compare.
module Bytes {
  import opened Ordering

  type byte = x: int | 0 <= x < 0x100
  type bytes = seq<byte>

  const U8: nat := 0x100
  const U16: nat := 0x1_0000
  const U32: nat := 0x1_0000_0000
  const U64: nat := 0x1_0000_0000_0000_0000

  /** Go's conversion of an int to an unsigned type of the given modulus: the low bits, two's complement. */
  function Wrap(x: int, modulus: nat): (r: nat)
    requires modulus > 0
    ensures r < modulus
    ensures 0 <= x < modulus ==> r == x
  {
    x % modulus
  }

  /** Go's int(uint32) read back as the signed 32-bit value it was written from. */
  function Int32Of(x: nat): (r: int)
    requires x < U32
    ensures -0x8000_0000 <= r < 0x8000_0000
    ensures Wrap(r, U32) == x
  {
    if x < 0x8000_0000 then x else x - U32
  }

  function BE16(x: nat): (r: bytes)
    requires x < U16
    ensures |r| == 2
  {
    [x / U8, x % U8]
  }

  function ReadBE16(b: bytes): (x: nat)
    requires |b| >= 2
    ensures x < U16
  {
    b[0] * U8 + b[1]
  }

  function BE32(x: nat): (r: bytes)
    requires x < U32
    ensures |r| == 4
  {
    BE16(x / U16) + BE16(x % U16)
  }

  function ReadBE32(b: bytes): (x: nat)
    requires |b| >= 4
    ensures x < U32
  {
    ReadBE16(b) * U16 + ReadBE16(b[2..])
  }

  function BE64(x: nat): (r: bytes)
    requires x < U64
    ensures |r| == 8
  {
    BE32(x / U32) + BE32(x % U32)
  }

  function ReadBE64(b: bytes): (x: nat)
    requires |b| >= 8
    ensures x < U64
  {
    ReadBE32(b) * U32 + ReadBE32(b[4..])
  }

  lemma BE16RoundTrip(x: nat, rest: bytes)
    requires x < U16
    ensures ReadBE16(BE16(x) + rest) == x
  {
  }

  lemma BE32RoundTrip(x: nat, rest: bytes)
    requires x < U32
    ensures ReadBE32(BE32(x) + rest) == x
  {
    var b := BE32(x) + rest;
    assert b == BE16(x / U16) + (BE16(x % U16) + rest);
    BE16RoundTrip(x / U16, BE16(x % U16) + rest);
    assert b[2..] == BE16(x % U16) + rest;
    BE16RoundTrip(x % U16, rest);
  }

  lemma BE64RoundTrip(x: nat, rest: bytes)
    requires x < U64
    ensures ReadBE64(BE64(x) + rest) == x
  {
    var b := BE64(x) + rest;
    assert b == BE32(x / U32) + (BE32(x % U32) + rest);
    BE32RoundTrip(x / U32, BE32(x % U32) + rest);
    assert b[4..] == BE32(x % U32) + rest;
    BE32RoundTrip(x % U32, rest);
  }

  /** Decoding the first two bytes and encoding them again gives those bytes back. */
  lemma ReadBE16Inverse(b: bytes)
    requires |b| >= 2
    ensures BE16(ReadBE16(b)) == b[..2]
  {
  }

  lemma ReadBE32Inverse(b: bytes)
    requires |b| >= 4
    ensures BE32(ReadBE32(b)) == b[..4]
  {
    var x := ReadBE32(b);
    assert x / U16 == ReadBE16(b);
    assert x % U16 == ReadBE16(b[2..]);
    ReadBE16Inverse(b);
    ReadBE16Inverse(b[2..]);
  }

  function Pow2(k: nat): (r: nat)
    ensures r >= 1
  {
    if k == 0 then 1 else 2 * Pow2(k - 1)
  }

  lemma Pow2Sixteen()
    ensures Pow2(16) == U16
  {
    assert Pow2(4) == 16;
    assert Pow2(8) == 256;
    assert Pow2(12) == 4096;
  }

  /** Go's ^ on unsigned integers: bitwise exclusive or, least significant bit first. */
  function Xor(a: nat, b: nat): nat
    decreases a + b
  {
    if a == 0 && b == 0 then 0 else 2 * Xor(a / 2, b / 2) + (if a % 2 == b % 2 then 0 else 1)
  }

  /** x ^ y is zero exactly when x and y are equal. */
  lemma {:induction false} XorZero(a: nat, b: nat)
    ensures Xor(a, b) == 0 <==> a == b
    decreases a + b
  {
    if a == 0 && b == 0 {
    } else {
      XorZero(a / 2, b / 2);
    }
  }

  /** With k one-bits, m ^ x is m - x, and (m - x) ^ x is m again. */
  lemma {:induction false} XorComplement(k: nat, x: nat)
    requires x < Pow2(k)
    ensures Xor(Pow2(k) - 1, x) == Pow2(k) - 1 - x
    ensures Xor(Pow2(k) - 1 - x, x) == Pow2(k) - 1
  {
    if k > 0 {
      var m := Pow2(k) - 1;
      assert m / 2 == Pow2(k - 1) - 1 && m % 2 == 1;
      XorComplement(k - 1, x / 2);
      assert (m - x) / 2 == Pow2(k - 1) - 1 - x / 2;
    }
  }

  /** 65535 ^ x for a 16-bit x, and its partner property. */
  lemma XorAllOnes16(x: nat)
    requires x < U16
    ensures Xor(0xFFFF, x) == 0xFFFF - x
    ensures Xor(0xFFFF - x, x) == 0xFFFF
  {
    Pow2Sixteen();
    XorComplement(16, x);
  }

  /** bytes.Compare: lexicographic order, a proper prefix first. */
  function Compare(a: bytes, b: bytes): (r: int)
    ensures -1 <= r <= 1
    ensures r == 0 <==> a == b
  {
    if a == [] then (if b == [] then 0 else -1)
    else if b == [] then 1
    else if a[0] < b[0] then -1
    else if a[0] > b[0] then 1
    else
      assert a == [a[0]] + a[1..] && b == [b[0]] + b[1..];
      Compare(a[1..], b[1..])
  }

  lemma {:induction false} CompareAntisymmetric(a: bytes, b: bytes)
    ensures Compare(a, b) == -Compare(b, a)
  {
    if a != [] && b != [] && a[0] == b[0] {
      CompareAntisymmetric(a[1..], b[1..]);
    }
  }

  lemma {:induction false} CompareTransitive(a: bytes, b: bytes, c: bytes)
    requires Compare(a, b) < 0 && Compare(b, c) < 0
    ensures Compare(a, c) < 0
  {
    if a != [] && b != [] && c != [] && a[0] == b[0] && b[0] == c[0] {
      CompareTransitive(a[1..], b[1..], c[1..]);
    }
  }

  lemma CompareTotal()
    ensures TotalOrder(Compare)
  {
    forall a: bytes, b: bytes ensures Compare(a, b) < 0 <==> Compare(b, a) > 0 {
      CompareAntisymmetric(a, b);
    }
    forall a: bytes, b: bytes, c: bytes | Compare(a, b) < 0 && Compare(b, c) < 0
      ensures Compare(a, c) < 0
    {
      CompareTransitive(a, b, c);
    }
  }

  /** bytes.HasPrefix. */
  predicate HasPrefix(s: bytes, prefix: bytes)
  {
    |prefix| <= |s| && s[..|prefix|] == prefix
  }

  /** make([]byte, n): n zero bytes. */
  function ZeroBytes(n: nat): (r: bytes)
    ensures |r| == n && forall i :: 0 <= i < n ==> r[i] == 0
  {
    seq(n, _ => 0)
  }

  /** The bytes of an ASCII string literal. */
  function Ascii(s: string): (r: bytes)
    requires forall i :: 0 <= i < |s| ==> s[i] as int < 0x80
    ensures |r| == |s| && forall i :: 0 <= i < |s| ==> r[i] == s[i] as int
  {
    seq(|s|, i requires 0 <= i < |s| => s[i] as int)
  }
}
