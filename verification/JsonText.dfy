/** JSON strings as `serde_json` writes them: an injective encoding that the key-import scanner would decode again. */
module JsonText {
  import opened Bytes
  import opened JsonString
  import opened Wrappers

  function LowerHex(n: nat): (b: byte)
    requires n < 16
    ensures HexValue(b) == Some(n)
  {
    if n < 10 then 0x30 + n else 0x61 + n - 10
  }

  /** The letter of a short escape, for the bytes that have one. */
  function ShortLetter(b: byte): (c: Option<byte>)
    ensures c.Some? ==> ShortMeaning(c.value) == Some(b)
  {
    if b == QUOTE || b == BACKSLASH then Some(b)
    else if b == 0x08 then Some(0x62)
    else if b == 0x09 then Some(0x74)
    else if b == 0x0A then Some(0x6E)
    else if b == 0x0C then Some(0x66)
    else if b == 0x0D then Some(0x72)
    else None
  }

  function UnitOf(b: byte): (u: Unit)
    ensures Legal(u) && Meaning(u) == [b]
  {
    if ShortLetter(b).Some? then Short(ShortLetter(b).value)
    else if b < 0x20 then
      var quad := [0x30, 0x30, LowerHex(b / 16), LowerHex(b % 16)];
      assert QuadValue(quad) == b / 16 * 16 + b % 16;
      Code(quad)
    else Raw(b)
  }

  function Units(text: seq<byte>): (us: seq<Unit>)
    ensures AllLegal(us)
  {
    if text == [] then [] else [UnitOf(text[0])] + Units(text[1..])
  }

  /** `serde_json::to_string` of a string. */
  function Encoded(text: seq<byte>): seq<byte> {
    Quoted(Units(text))
  }

  lemma {:induction false} UnitsMean(text: seq<byte>)
    ensures MeaningAll(Units(text)) == text
  {
    hide Meaning, UnitOf;
    if text != [] {
      UnitsMean(text[1..]);
      assert Units(text)[1..] == Units(text[1..]);
      assert text == [text[0]] + text[1..];
    }
  }

  /** Encoding and decoding give the text back, up to the decoder's size cap. */
  lemma DecodesEncoded(text: seq<byte>, rest: seq<byte>)
    ensures Decode(Encoded(text) + rest) == if |text| <= MAX_SECRET_BYTES then Ok(text) else Err(TooLong)
  {
    UnitsMean(text);
    DecodesQuoted(Units(text), rest);
  }

  /** No encoded byte is the start of another, or a closing quote. */
  lemma UnitsDiffer(a: byte, x: seq<byte>, b: byte, y: seq<byte>)
    requires Written(UnitOf(a)) + x == Written(UnitOf(b)) + y
    ensures a == b && x == y
  {
    hide UnitOf, Meaning, Next;
    NextReadsUnit(UnitOf(a), x);
    NextReadsUnit(UnitOf(b), y);
    assert [a] == [b];
    assert x == (Written(UnitOf(a)) + x)[|Written(UnitOf(a))|..];
  }

  lemma UnitIsNotQuote(a: byte, x: seq<byte>)
    ensures (Written(UnitOf(a)) + x)[..1] != [QUOTE]
  {
    hide UnitOf;
    NextReadsUnit(UnitOf(a), x);
  }

  lemma WrittenFirst(text: seq<byte>, x: seq<byte>)
    ensures var all := WrittenAll(Units(text)) + [QUOTE] + x;
            all == if text == [] then [QUOTE] + x else Written(UnitOf(text[0])) + (WrittenAll(Units(text[1..])) + [QUOTE] + x)
  {
    hide UnitOf, Written;
    if text != [] {
      assert Units(text)[1..] == Units(text[1..]);
    }
  }

  lemma {:induction false} WrittenUnique(a: seq<byte>, x: seq<byte>, b: seq<byte>, y: seq<byte>)
    requires WrittenAll(Units(a)) + [QUOTE] + x == WrittenAll(Units(b)) + [QUOTE] + y
    ensures a == b && x == y
    decreases |a|
  {
    hide UnitOf, Written, WrittenAll, Units;
    WrittenFirst(a, x);
    WrittenFirst(b, y);
    assert ([QUOTE] + x)[..1] == [QUOTE] && ([QUOTE] + y)[..1] == [QUOTE];
    if a != [] && b != [] {
      var restA, restB := WrittenAll(Units(a[1..])) + [QUOTE] + x, WrittenAll(Units(b[1..])) + [QUOTE] + y;
      UnitsDiffer(a[0], restA, b[0], restB);
      WrittenUnique(a[1..], x, b[1..], y);
      assert a == [a[0]] + a[1..] && b == [b[0]] + b[1..];
    } else if a != [] {
      UnitIsNotQuote(a[0], WrittenAll(Units(a[1..])) + [QUOTE] + x);
    } else if b != [] {
      UnitIsNotQuote(b[0], WrittenAll(Units(b[1..])) + [QUOTE] + y);
    } else {
      assert x == ([QUOTE] + x)[1..] && y == ([QUOTE] + y)[1..];
    }
  }

  /** Encoded strings can be told apart from each other and from what follows them. */
  lemma EncodedUnique(a: seq<byte>, x: seq<byte>, b: seq<byte>, y: seq<byte>)
    requires Encoded(a) + x == Encoded(b) + y
    ensures a == b && x == y
  {
    hide WrittenAll, Units;
    assert (Encoded(a) + x)[1..] == WrittenAll(Units(a)) + [QUOTE] + x;
    assert (Encoded(b) + y)[1..] == WrittenAll(Units(b)) + [QUOTE] + y;
    WrittenUnique(a, x, b, y);
  }
}
