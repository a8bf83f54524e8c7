/** Bytes and the little-endian fields the flash layout is made of. */
module Bytes {
  type byte = x: int | 0 <= x < 256
  type u16 = x: int | 0 <= x < 0x1_0000
  type u32 = x: int | 0 <= x < 0x1_0000_0000

  function Le16(v: u16): seq<byte> {
    [v % 256, v / 256]
  }

  function Le32(v: u32): seq<byte> {
    Le16(v % 0x1_0000) + Le16(v / 0x1_0000)
  }

  function ReadLe16(s: seq<byte>, at: nat): u16
    requires at + 2 <= |s|
  {
    s[at] as int + 256 * (s[at + 1] as int)
  }

  function ReadLe32(s: seq<byte>, at: nat): u32
    requires at + 4 <= |s|
  {
    ReadLe16(s, at) as int + 0x1_0000 * (ReadLe16(s, at + 2) as int)
  }

  /** `n` copies of one byte. */
  function Fill(n: nat, b: byte): (r: seq<byte>)
    ensures |r| == n
    ensures forall i :: 0 <= i < n ==> r[i] == b
  {
    seq(n, _ => b)
  }

  predicate AllAre(s: seq<byte>, b: byte) {
    forall i :: 0 <= i < |s| ==> s[i] == b
  }
}
