/** Bytes, status codes, and the small integer vocabulary the other modules share. */
module Bytes {

  type byte = x: int | 0 <= x < 256

  // Status codes of the library: non-negative ones are successes.
  const ARCHIVE_OK := 0
  const ARCHIVE_EOF := 1
  const ARCHIVE_RETRY := -10
  const ARCHIVE_FAILED := -25
  const ARCHIVE_FATAL := -30

  datatype Option<T> = None | Some(value: T)

  const INT64_MAX: nat := 0x7fff_ffff_ffff_ffff
  const INT64_MIN: int := -0x8000_0000_0000_0000
  const TWO32: nat := 0x1_0000_0000
  const TWO63: nat := 0x8000_0000_0000_0000
  const TWO64: nat := 0x1_0000_0000_0000_0000

  function Min(a: int, b: int): int {
    if a <= b then a else b
  }

  function Max(a: int, b: int): int {
    if a >= b then a else b
  }

  type word = x: int | 0 <= x < 0x1_0000_0000

  /** The 32-bit little-endian value of four bytes. */
  function Le32(b0: byte, b1: byte, b2: byte, b3: byte): word {
    b0 + 0x100 * b1 + 0x1_0000 * b2 + 0x100_0000 * b3
  }

  /** A byte as a number. */
  function Octet(s: seq<byte>, i: nat): (b: nat)
    requires i < |s|
    ensures b < 0x100
  {
    s[i]
  }

  /** The 16-bit little-endian value at `i`. */
  function Le16(s: seq<byte>, i: nat): (x: nat)
    requires i + 2 <= |s|
    ensures x < 0x1_0000
  {
    Octet(s, i) + 0x100 * Octet(s, i + 1)
  }

  lemma LeastByteFirst()
    ensures Le16([0x34, 0x12], 0) == 0x1234 && Le32(0x78, 0x56, 0x34, 0x12) == 0x1234_5678
  {
  }

  function Zeros(n: nat): (s: seq<byte>)
    ensures |s| == n
  {
    seq(n, _ => 0)
  }

  lemma ZerosJoin(m: nat, n: nat)
    ensures Zeros(m) + Zeros(n) == Zeros(m + n)
  {
  }

  function Pow2(n: nat): (r: nat)
    ensures r >= 1
  {
    if n == 0 then 1 else 2 * Pow2(n - 1)
  }

  function Pow256(n: nat): (r: nat)
    ensures r >= 1
  {
    if n == 0 then 1 else 256 * Pow256(n - 1)
  }

  lemma Concat3<T>(a: seq<T>, b: seq<T>, c: seq<T>)
    ensures (a + b) + c == a + (b + c)
  {
  }
}
