/** Fixed-width big-endian numbers and length-prefixed fields. */
module BigEndian {
  import opened Bytes

  const U32_MAX: nat := 0xFFFF_FFFF

  function Bytes32(n: nat): (bs: seq<byte>)
    requires n <= U32_MAX
    ensures |bs| == 4
  {
    [n / 0x100_0000, n / 0x1_0000 % 0x100, n / 0x100 % 0x100, n % 0x100]
  }

  function Value32(bs: seq<byte>): (n: nat)
    requires |bs| == 4
    ensures n <= U32_MAX
  {
    ((bs[0] as int * 0x100 + bs[1]) * 0x100 + bs[2]) * 0x100 + bs[3]
  }

  lemma ValueOfBytes(n: nat)
    requires n <= U32_MAX
    ensures Value32(Bytes32(n)) == n
  {
    var a, b := n / 0x100, n / 0x1_0000;
    assert b == a / 0x100 && n / 0x100_0000 == b / 0x100;
    assert n == a * 0x100 + n % 0x100 && a == b * 0x100 + a % 0x100 && b == b / 0x100 * 0x100 + b % 0x100;
  }

  lemma BytesOfValue(bs: seq<byte>)
    requires |bs| == 4
    ensures Bytes32(Value32(bs)) == bs
  {
    var b: int := bs[0] as int * 0x100 + bs[1];
    var a: int := b * 0x100 + bs[2];
    var n: int := a * 0x100 + bs[3];
    assert n / 0x100 == a && n % 0x100 == bs[3];
    assert a / 0x100 == b && a % 0x100 == bs[2];
    assert b / 0x100 == bs[0] && b % 0x100 == bs[1];
    assert n / 0x1_0000 == a / 0x100 && n / 0x100_0000 == b / 0x100;
  }

  /** A field with its length in front, as frames, AAD and hash pre-images are made of. */
  function Field(bs: seq<byte>): seq<byte>
    requires |bs| <= U32_MAX
  {
    Bytes32(|bs|) + bs
  }

  /** A field can be told apart from what follows it. */
  lemma FieldsDecode(a: seq<byte>, restA: seq<byte>, b: seq<byte>, restB: seq<byte>)
    requires |a| <= U32_MAX && |b| <= U32_MAX && Field(a) + restA == Field(b) + restB
    ensures a == b && restA == restB
  {
    hide Bytes32, Value32;
    var text := Field(a) + restA;
    assert text[..4] == Bytes32(|a|) && text[..4] == Bytes32(|b|);
    ValueOfBytes(|a|);
    ValueOfBytes(|b|);
    assert a == text[4..4 + |a|] && b == text[4..4 + |b|];
    assert restA == text[4 + |a|..] && restB == text[4 + |b|..];
  }

  const U64_MAX: nat := 0xFFFF_FFFF_FFFF_FFFF

  function Bytes64(n: nat): (bs: seq<byte>)
    requires n <= U64_MAX
    ensures |bs| == 8
  {
    Bytes32(n / 0x1_0000_0000) + Bytes32(n % 0x1_0000_0000)
  }

  lemma Bytes64Injective(m: nat, n: nat)
    requires m <= U64_MAX && n <= U64_MAX && Bytes64(m) == Bytes64(n)
    ensures m == n
  {
    hide Bytes32, Value32;
    assert Bytes64(m)[..4] == Bytes32(m / 0x1_0000_0000) && Bytes64(m)[4..] == Bytes32(m % 0x1_0000_0000);
    assert Bytes64(n)[..4] == Bytes32(n / 0x1_0000_0000) && Bytes64(n)[4..] == Bytes32(n % 0x1_0000_0000);
    ValueOfBytes(m / 0x1_0000_0000);
    ValueOfBytes(n / 0x1_0000_0000);
    ValueOfBytes(m % 0x1_0000_0000);
    ValueOfBytes(n % 0x1_0000_0000);
  }

  predicate AllShort(fields: seq<seq<byte>>) {
    forall i | 0 <= i < |fields| :: |fields[i]| <= U32_MAX
  }

  function Fields(fields: seq<seq<byte>>): seq<byte>
    requires AllShort(fields)
  {
    if fields == [] then [] else Field(fields[0]) + Fields(fields[1..])
  }

  /** Length-prefixed lists of any lengths have different texts. */
  lemma {:induction false} FieldsUnique(a: seq<seq<byte>>, b: seq<seq<byte>>)
    requires AllShort(a) && AllShort(b) && Fields(a) == Fields(b)
    ensures a == b
  {
    assert a != [] ==> |Fields(a)| >= 4;
    assert b != [] ==> |Fields(b)| >= 4;
    if a != [] {
      FieldsDecode(a[0], Fields(a[1..]), b[0], Fields(b[1..]));
      FieldsUnique(a[1..], b[1..]);
      assert a == [a[0]] + a[1..] && b == [b[0]] + b[1..];
    }
  }

  lemma {:induction false} FieldsAppend(fields: seq<seq<byte>>, last: seq<byte>)
    requires AllShort(fields) && |last| <= U32_MAX
    ensures AllShort(fields + [last]) && Fields(fields + [last]) == Fields(fields) + Field(last)
  {
    hide Field;
    if fields == [] {
      assert fields + [last] == [last] && [last][1..] == [];
    } else {
      FieldsAppend(fields[1..], last);
      assert (fields + [last])[1..] == fields[1..] + [last];
    }
  }
}
