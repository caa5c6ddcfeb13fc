/** UTF-8 (section 3 of RFC 3629): the encoding, and the check `str::from_utf8` makes. */
module Utf8 {
  import opened Bytes

  /** Unicode scalar values. */
  type Scalar = n: int | 0 <= n < 0xD800 || 0xE000 <= n < 0x11_0000

  function Encode(c: Scalar): seq<byte> {
    if c < 0x80 then [c]
    else if c < 0x800 then [0xC0 + c / 0x40, 0x80 + c % 0x40]
    else if c < 0x1_0000 then [0xE0 + c / 0x1000, 0x80 + c / 0x40 % 0x40, 0x80 + c % 0x40]
    else [0xF0 + c / 0x4_0000, 0x80 + c / 0x1000 % 0x40, 0x80 + c / 0x40 % 0x40, 0x80 + c % 0x40]
  }

  function EncodeAll(cs: seq<Scalar>): seq<byte> {
    if cs == [] then [] else Encode(cs[0]) + EncodeAll(cs[1..])
  }

  predicate Tail(b: byte) {
    0x80 <= b < 0xC0
  }

  /** The length of the well-formed sequence that `bs` starts with, or zero. */
  function FirstLength(bs: seq<byte>): (n: nat)
    ensures n <= |bs|
  {
    if bs == [] then 0
    else
      var b := bs[0];
      if b < 0x80 then 1
      else if 0xC2 <= b < 0xE0 then (if |bs| >= 2 && Tail(bs[1]) then 2 else 0)
      else if 0xE0 <= b < 0xF0 then
        if |bs| >= 3 && Tail(bs[1]) && Tail(bs[2]) && (b == 0xE0 ==> bs[1] >= 0xA0) && (b == 0xED ==> bs[1] < 0xA0) then 3 else 0
      else if 0xF0 <= b < 0xF5 then
        if |bs| >= 4 && Tail(bs[1]) && Tail(bs[2]) && Tail(bs[3]) && (b == 0xF0 ==> bs[1] >= 0x90) && (b == 0xF4 ==> bs[1] < 0x90)
        then 4 else 0
      else 0
  }

  predicate Valid(bs: seq<byte>)
    decreases |bs|
  {
    bs == [] || (FirstLength(bs) > 0 && Valid(bs[FirstLength(bs)..]))
  }

  lemma EncodedFirst(c: Scalar, rest: seq<byte>)
    ensures FirstLength(Encode(c) + rest) == |Encode(c)|
  {
  }

  lemma {:induction false} EncodedIsValid(cs: seq<Scalar>)
    ensures Valid(EncodeAll(cs))
  {
    if cs != [] {
      hide Tail;
      var rest := EncodeAll(cs[1..]);
      EncodedFirst(cs[0], rest);
      assert (Encode(cs[0]) + rest)[|Encode(cs[0])|..] == rest;
      EncodedIsValid(cs[1..]);
    }
  }

  lemma FirstDecoded(bs: seq<byte>) returns (c: Scalar)
    requires FirstLength(bs) > 0
    ensures bs[..FirstLength(bs)] == Encode(c)
  {
    var n := FirstLength(bs);
    var b0: int := bs[0];
    if n == 1 {
      c := b0;
    } else if n == 2 {
      var b1: int := bs[1];
      c := (b0 - 0xC0) * 0x40 + (b1 - 0x80);
    } else if n == 3 {
      var b1: int, b2: int := bs[1], bs[2];
      var high := (b0 - 0xE0) * 0x40 + (b1 - 0x80);
      c := high * 0x40 + (b2 - 0x80);
      assert c / 0x40 == high && high / 0x40 == b0 - 0xE0 && c / 0x1000 == high / 0x40;
    } else {
      var b1: int, b2: int, b3: int := bs[1], bs[2], bs[3];
      var top := (b0 - 0xF0) * 0x40 + (b1 - 0x80);
      var high := top * 0x40 + (b2 - 0x80);
      c := high * 0x40 + (b3 - 0x80);
      assert c / 0x40 == high && high / 0x40 == top && top / 0x40 == b0 - 0xF0;
      assert c / 0x1000 == top && c / 0x4_0000 == top / 0x40;
    }
  }

  lemma {:induction false} ValidIsEncoded(bs: seq<byte>) returns (cs: seq<Scalar>)
    requires Valid(bs)
    ensures EncodeAll(cs) == bs
    decreases |bs|
  {
    hide Encode, Tail;
    cs := [];
    if bs != [] {
      var n := FirstLength(bs);
      var c := FirstDecoded(bs);
      var rest := ValidIsEncoded(bs[n..]);
      cs := [c] + rest;
      assert cs[1..] == rest;
      assert EncodeAll(cs) == bs[..n] + bs[n..];
    }
  }

  /** `Valid` accepts exactly the encodings of sequences of scalar values. */
  lemma ValidExactly(bs: seq<byte>)
    ensures Valid(bs) <==> exists cs :: EncodeAll(cs) == bs
  {
    if Valid(bs) {
      var cs := ValidIsEncoded(bs);
    } else if cs :| EncodeAll(cs) == bs {
      EncodedIsValid(cs);
    }
  }
}
