/** Byte strings, little-endian integers and flag tests shared by every decoder. */
module Bytes {

  newtype Byte = b: int | 0 <= b < 0x100
  type U16 = n: int | 0 <= n < 0x1_0000
  type U32 = n: int | 0 <= n < 0x1_0000_0000
  type Bytes = seq<Byte>

  /** The size of a WAL page and of a heap page. */
  const PAGE_SIZE := 8192

  /** The fixed part of a WAL record. */
  const RECORD_HEADER := 24

  /** `value & mask != 0` for a mask with a single bit set. */
  predicate HasFlag(value: nat, mask: nat)
    requires mask > 0
  {
    value / mask % 2 == 1
  }

  function LE16(s: Bytes, i: nat): (n: U16)
    requires i + 2 <= |s|
  {
    s[i] as int + 0x100 * s[i + 1] as int
  }

  function LE32(s: Bytes, i: nat): (n: U32)
    requires i + 4 <= |s|
  {
    s[i] as int + 0x100 * s[i + 1] as int + 0x1_0000 * s[i + 2] as int + 0x100_0000 * s[i + 3] as int
  }

  function Put16(n: U16): (s: Bytes)
    ensures |s| == 2 && LE16(s, 0) == n
  {
    [(n % 0x100) as Byte, (n / 0x100) as Byte]
  }

  function Put32(n: U32): (s: Bytes)
    ensures |s| == 4 && LE32(s, 0) == n
  {
    var b := n / 0x100;
    var c := b / 0x100;
    [(n % 0x100) as Byte, (b % 0x100) as Byte, (c % 0x100) as Byte, (c / 0x100) as Byte]
  }

  function Zeros(n: nat): (s: Bytes)
    ensures |s| == n && forall i :: 0 <= i < n ==> s[i] == 0
  {
    seq(n, _ => 0)
  }

  /** The number of 8-byte words that hold `n` bytes. */
  function Words(n: nat): (w: nat)
    ensures n <= 8 * w < n + 8
  {
    assert n <= 8 * ((n + 7) / 8) < n + 8;
    var w: nat :| n <= 8 * w < n + 8;
    w
  }

  /** PostgreSQL's MAXALIGN: the next multiple of 8. */
  function MaxAlign(n: nat): nat {
    8 * Words(n)
  }

  /** A field read out of a larger string is the field read out of the part that holds it. */
  lemma LE32At(s: Bytes, i: nat, j: nat, n: U32)
    requires i + 4 <= j <= |s|
    requires s[i..i + 4] == Put32(n)
    ensures LE32(s, i) == n
  {
    var w := s[i..i + 4];
    assert w[0] == s[i] && w[1] == s[i + 1] && w[2] == s[i + 2] && w[3] == s[i + 3];
  }
}
