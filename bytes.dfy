/**
 Octets and the fixed-width integer layouts that the capture daemon puts on
 its output stream: 16- and 32-bit big-endian (network byte order) fields,
 two's complement 32-bit integers, and the little-endian digit strings of
 the Erlang bignum encoding.
 */
module Bytes {

  newtype byte = x: int | 0 <= x < 256

  const TwoTo16: nat := 0x1_0000
  const TwoTo31: nat := 0x8000_0000
  const TwoTo32: nat := 0x1_0000_0000
  const TwoTo63: nat := 0x8000_0000_0000_0000
  const TwoTo64: nat := 0x1_0000_0000_0000_0000

  /** The range of a C `long` (and of `time_t`, `suseconds_t`) on an LP64 platform. */
  predicate IsInt64(n: int) { -(TwoTo63 as int) <= n < TwoTo63 }

  /** The range of a C `int`. */
  predicate IsInt32(n: int) { -(TwoTo31 as int) <= n < TwoTo31 }

  /** The range of a C `unsigned int` / `u_int32_t`. */
  predicate IsUint32(n: int) { 0 <= n < TwoTo32 }

  /** The unsigned value of the first two bytes, most significant first. */
  function Uint16(s: seq<byte>): (v: nat)
    requires |s| >= 2
    ensures v < TwoTo16
  {
    s[0] as int * 256 + s[1] as int
  }

  /** The unsigned value of the first four bytes, most significant first. */
  function Uint32(s: seq<byte>): (v: nat)
    requires |s| >= 4
    ensures v < TwoTo32
  {
    Uint16(s) * TwoTo16 + Uint16(s[2..])
  }

  /** `x` in network byte order (what `htons` followed by a 2-byte write produces). */
  function BE16(x: nat): (r: seq<byte>)
    requires x < TwoTo16
    ensures |r| == 2 && Uint16(r) == x
  {
    [(x / 256) as byte, (x % 256) as byte]
  }

  /** `x` as four bytes, most significant first. */
  function BE32(x: nat): (r: seq<byte>)
    requires x < TwoTo32
    ensures |r| == 4 && Uint32(r) == x
  {
    var r := BE16(x / TwoTo16) + BE16(x % TwoTo16);
    assert r[2..] == BE16(x % TwoTo16);
    r
  }

  /** The 32-bit two's complement pattern of a signed 32-bit value. */
  function ToUnsigned32(n: int): (u: nat)
    requires -(TwoTo31 as int) <= n < TwoTo31
    ensures u < TwoTo32 && ToSigned32(u) == n
  {
    if n < 0 then n + TwoTo32 else n
  }

  /** The signed value a 32-bit two's complement pattern stands for. */
  function ToSigned32(u: nat): int
    requires u < TwoTo32
  {
    if u < TwoTo31 then u else u - TwoTo32
  }

  /** The value of a little-endian string of base-256 digits. */
  function LeValue(s: seq<byte>): nat
  {
    if s == [] then 0 else s[0] as int + 256 * LeValue(s[1..])
  }

  /** The shortest little-endian base-256 digit string of `n` (no trailing zero digit). */
  function LeDigits(n: nat): (r: seq<byte>)
    ensures LeValue(r) == n
    ensures r == [] <==> n == 0
    ensures r != [] ==> r[|r| - 1] != 0
  {
    if n == 0 then []
    else
      var r := [(n % 256) as byte] + LeDigits(n / 256);
      assert r[1..] == LeDigits(n / 256);
      r
  }

  function Pow256(k: nat): nat
  {
    if k == 0 then 1 else 256 * Pow256(k - 1)
  }

  /** A number below 256^k needs at most k digits. */
  lemma {:induction false} LeDigitsShort(n: nat, k: nat)
    requires n < Pow256(k)
    ensures |LeDigits(n)| <= k
  {
    if n > 0 {
      assert k > 0;
      LeDigitsShort(n / 256, k - 1);
    }
  }

  lemma Pow256Values()
    ensures Pow256(4) == TwoTo32
    ensures Pow256(8) == TwoTo64
  {
    assert Pow256(1) == 0x100;
    assert Pow256(2) == 0x1_0000;
    assert Pow256(3) == 0x100_0000;
    assert Pow256(4) == 0x1_0000_0000;
    assert Pow256(5) == 0x100_0000_0000;
    assert Pow256(6) == 0x1_0000_0000_0000;
    assert Pow256(7) == 0x100_0000_0000_0000;
  }

  /** Digits-count bounds for the two widths the daemon encodes: 32 and 64 bits. */
  lemma LeDigitsWidth(n: nat)
    ensures n < TwoTo32 ==> |LeDigits(n)| <= 4
    ensures n < TwoTo64 ==> |LeDigits(n)| <= 8
  {
    Pow256Values();
    if n < TwoTo32 { LeDigitsShort(n, 4); }
    if n < TwoTo64 { LeDigitsShort(n, 8); }
  }
}
