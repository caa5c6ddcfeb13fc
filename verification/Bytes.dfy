/** Bytes, and ASCII text as bytes. */
module Bytes {
  import opened Wrappers

  type byte = b: int | 0 <= b < 256

  predicate IsAscii(s: string) {
    forall i | 0 <= i < |s| :: s[i] as int < 0x80
  }

  function Ascii(s: string): (bs: seq<byte>)
    requires IsAscii(s)
    ensures |bs| == |s| && forall i | 0 <= i < |s| :: bs[i] == s[i] as int
  {
    seq(|s|, i requires 0 <= i < |s| && s[i] as int < 0x80 => s[i] as int)
  }

  function HexValue(b: byte): Option<nat> {
    if 0x30 <= b <= 0x39 then Some(b - 0x30)
    else if 0x61 <= b <= 0x66 then Some(b - 0x61 + 10)
    else if 0x41 <= b <= 0x46 then Some(b - 0x41 + 10)
    else None
  }

  predicate IsHex(b: byte) {
    HexValue(b).Some?
  }

  lemma DropDrop(bs: seq<byte>, i: nat, j: nat)
    requires i + j <= |bs|
    ensures bs[i..][j..] == bs[i + j..]
  {
  }

  lemma DropTake(bs: seq<byte>, i: nat, j: nat)
    requires i + j <= |bs|
    ensures bs[i..][..j] == bs[i..i + j]
  {
  }
}
