/**
 Which of the strings that the key-import scanner decodes are strings of RFC 8259. The scanner goes byte by byte and
 does not ask whether the bytes written as themselves are UTF-8; everything else it checks as section 7 says.
 */
module JsonRfcStrings {
  import opened Bytes
  import opened JsonString
  import opened Utf8
  import opened Wrappers

  ghost predicate AllItems(items: seq<Item>) {
    forall i | 0 <= i < |items| :: LegalItem(items[i])
  }

  // ----- UTF-8 of parts

  lemma {:induction false} ValidBoth(a: seq<byte>, b: seq<byte>)
    requires Valid(a) && Valid(b)
    ensures Valid(a + b)
    decreases |a|
  {
    if a == [] {
      assert a + b == b;
    } else {
      var n := FirstLength(a);
      FirstStays(a, b);
      assert (a + b)[n..] == a[n..] + b;
      ValidBoth(a[n..], b);
    }
  }

  lemma FirstStays(a: seq<byte>, b: seq<byte>)
    requires FirstLength(a) > 0
    ensures FirstLength(a + b) == FirstLength(a)
  {
  }

  lemma {:induction false} ValidAfterAscii(a: seq<byte>, b: seq<byte>)
    requires (forall i | 0 <= i < |a| :: a[i] < 0x80) && Valid(a + b)
    ensures Valid(b)
  {
    if a == [] {
      assert a + b == b;
    } else {
      assert (a + b)[0] == a[0] && (a + b)[1..] == a[1..] + b;
      ValidAfterAscii(a[1..], b);
    }
  }

  lemma {:induction false} AsciiValid(a: seq<byte>)
    requires forall i | 0 <= i < |a| :: a[i] < 0x80
    ensures Valid(a)
  {
    if a != [] {
      AsciiValid(a[1..]);
    }
  }

  /** Escapes are written in ASCII. */
  lemma EscapeIsAscii(u: Unit)
    requires Legal(u) && !u.Raw?
    ensures forall i | 0 <= i < |Written(u)| :: Written(u)[i] < 0x80
  {
    hide QuadValue, IsQuad, IsHigh, IsLow;
    match u {
      case Short(_) =>
      case Code(q) => QuadIsAscii(q);
      case Pair(h, l) =>
        QuadIsAscii(h);
        QuadIsAscii(l);
    }
  }

  lemma QuadIsAscii(q: seq<byte>)
    requires IsQuad(q)
    ensures |q| == 4 && q[0] < 0x80 && q[1] < 0x80 && q[2] < 0x80 && q[3] < 0x80
  {
  }

  lemma CharacterValid(c: Scalar)
    ensures Valid(Encode(c))
  {
    EncodedIsValid([c]);
    assert [c][1..] == [] && Encode(c) + [] == Encode(c);
  }

  // ----- text of the RFC is UTF-8

  lemma {:induction false} ItemsAreValid(items: seq<Item>)
    requires AllItems(items)
    ensures Valid(ItemsText(items))
  {
    hide Valid, LegalItem, Written;
    if items == [] {
      AsciiValid([]);
    } else {
      ItemValid(items[0]);
      ItemsAreValid(items[1..]);
      ValidBoth(ItemText(items[0]), ItemsText(items[1..]));
    }
  }

  lemma ItemValid(i: Item)
    requires LegalItem(i)
    ensures Valid(ItemText(i))
  {
    hide Valid, Encode, Written, Legal;
    if i.Unescaped? {
      CharacterValid(i.c);
    } else {
      EscapeIsAscii(i.u);
      AsciiValid(Written(i.u));
    }
  }

  // ----- and UTF-8 text is text of the RFC

  /** Bytes that cannot begin an escape were written as themselves. */
  lemma {:induction false} RawPrefix(us: seq<Unit>, n: nat)
    requires AllLegal(us) && n <= |WrittenAll(us)| && forall i | 0 <= i < n :: WrittenAll(us)[i] != BACKSLASH
    ensures n <= |us| && (forall i | 0 <= i < n :: us[i] == Raw(WrittenAll(us)[i]))
    ensures WrittenAll(us[n..]) == WrittenAll(us)[n..]
  {
    hide Legal;
    var text := WrittenAll(us);
    if n > 0 {
      var rest := WrittenAll(us[1..]);
      assert text == Written(us[0]) + rest;
      assert us[0].Raw? by {
        assert text[0] != BACKSLASH && text[0] == Written(us[0])[0];
      }
      assert text == [us[0].b] + rest && text[1..] == rest;
      assert forall i | 0 <= i < n - 1 :: rest[i] == text[i + 1];
      RawPrefix(us[1..], n - 1);
      assert us[1..][n - 1..] == us[n..];
      assert forall i | 0 < i < n :: us[i] == us[1..][i - 1];
    } else {
      assert us[0..] == us && text[0..] == text;
    }
  }

  /** Past its first byte a character has no byte of ASCII. */
  lemma NotAscii(text: seq<byte>, i: nat)
    requires 0 < i < FirstLength(text)
    ensures text[i] >= 0x80
  {
  }

  lemma FirstCharacter(text: seq<byte>) returns (c: Scalar)
    requires FirstLength(text) > 0
    ensures text[..FirstLength(text)] == Encode(c) && (FirstLength(text) > 1 ==> c >= 0x80)
  {
    c := FirstDecoded(text);
    assert c < 0x80 ==> |Encode(c)| == 1;
  }

  lemma {:induction false} ValidIsItems(us: seq<Unit>) returns (items: seq<Item>)
    requires AllLegal(us) && Valid(WrittenAll(us))
    ensures AllItems(items) && ItemsText(items) == WrittenAll(us)
    decreases |us|
  {
    hide Written, Encode, Legal, FirstLength;
    var text := WrittenAll(us);
    items := [];
    if us != [] {
      if us[0].Raw? {
        items := RawIsItems(us);
      } else {
        EscapeIsAscii(us[0]);
        ValidAfterAscii(Written(us[0]), WrittenAll(us[1..]));
        var rest := ValidIsItems(us[1..]);
        items := [Escaped(us[0])] + rest;
        assert items[1..] == rest;
      }
    }
  }

  lemma ValidStep(text: seq<byte>)
    requires Valid(text) && text != []
    ensures FirstLength(text) > 0 && Valid(text[FirstLength(text)..])
  {
  }

  /** No byte of a character that does not begin with a backslash is a backslash. */
  lemma FirstHasNoBackslash(text: seq<byte>)
    requires text != [] && text[0] != BACKSLASH
    ensures forall i | 0 <= i < FirstLength(text) :: text[i] != BACKSLASH
  {
    hide FirstLength;
    forall i | 0 <= i < FirstLength(text) ensures text[i] != BACKSLASH {
      if i > 0 {
        NotAscii(text, i);
      }
    }
  }

  lemma FirstIsRaw(us: seq<Unit>)
    requires us != [] && us[0].Raw? && AllLegal(us)
    ensures WrittenAll(us) != [] && IsRaw(WrittenAll(us)[0]) && WrittenAll(us)[0] != BACKSLASH
  {
    assert Legal(us[0]);
  }

  /** A character written as itself, in one byte or several. */
  lemma {:induction false} RawIsItems(us: seq<Unit>) returns (items: seq<Item>)
    requires AllLegal(us) && Valid(WrittenAll(us)) && us != [] && us[0].Raw?
    ensures AllItems(items) && ItemsText(items) == WrittenAll(us)
    decreases |us|, 0
  {
    hide Encode, FirstLength, Valid, Written, WrittenAll, LegalItem, IsRaw, Legal;
    var text := WrittenAll(us);
    FirstIsRaw(us);
    ValidStep(text);
    var n := FirstLength(text);
    var c := FirstCharacter(text);
    FirstHasNoBackslash(text);
    RawPrefix(us, n);
    var rest := ValidIsItems(us[n..]);
    RawCharacter(text, c);
    items := [Unescaped(c)] + rest;
    assert items[1..] == rest;
    assert text == text[..n] + text[n..];
  }

  lemma RawCharacter(text: seq<byte>, c: Scalar)
    requires FirstLength(text) > 0 && text[..FirstLength(text)] == Encode(c) && (FirstLength(text) > 1 ==> c >= 0x80)
    requires IsRaw(text[0])
    ensures LegalItem(Unescaped(c))
  {
    if FirstLength(text) == 1 {
      assert Encode(c)[0] == text[0];
    }
  }

  /** A string that is legal byte by byte is a string of section 7 of RFC 8259 exactly when its text is UTF-8. */
  lemma RfcExactly(us: seq<Unit>)
    requires AllLegal(us)
    ensures (exists items :: AllItems(items) && ItemsText(items) == WrittenAll(us)) <==> Valid(WrittenAll(us))
  {
    hide AllLegal, ItemsText, WrittenAll, Valid;
    if Valid(WrittenAll(us)) {
      var items := ValidIsItems(us);
    } else if items :| AllItems(items) && ItemsText(items) == WrittenAll(us) {
      ItemsAreValid(items);
    }
  }

  // ----- the scanner

  /** The input starts with a string of RFC 8259 that denotes these scalar values. */
  ghost predicate StartsWithRfc(input: seq<byte>, items: seq<Item>) {
    AllItems(items) && [QUOTE] + ItemsText(items) + [QUOTE] <= input
  }

  /** What stands between the quotes that `json_string_end` finds. */
  function Between(input: seq<byte>): seq<byte>
    requires StringEnd(input).Ok?
  {
    StringEndFits(input);
    input[1..StringEnd(input).value - 1]
  }

  lemma StringEndFits(input: seq<byte>)
    requires StringEnd(input).Ok?
    ensures 2 <= StringEnd(input).value <= |input|
  {
    EndBounds(input[1..]);
  }

  /**
   Of the inputs that decode, those that start with a string of RFC 8259 are exactly those with UTF-8 between the
   quotes; there the bytes are the UTF-8 of the scalar values the string denotes.
   */
  lemma DecodesRfcExactly(input: seq<byte>, out: seq<byte>)
    ensures (|out| <= MAX_SECRET_BYTES && exists items :: StartsWithRfc(input, items) && EncodeAll(Scalars(items)) == out)
            <==> Decode(input) == Ok(out) && StringEnd(input).Ok? && Valid(Between(input))
  {
    hide Decode, StringEnd, ItemsText, EncodeAll, Valid, Scalars, LegalItem;
    if |out| <= MAX_SECRET_BYTES && exists items :: StartsWithRfc(input, items) && EncodeAll(Scalars(items)) == out {
      var items :| StartsWithRfc(input, items) && EncodeAll(Scalars(items)) == out;
      RfcDecodes(input, items);
    }
    if Decode(input) == Ok(out) && StringEnd(input).Ok? && Valid(Between(input)) {
      var items := DecodedRfc(input, out);
    }
  }

  lemma RfcDecodes(input: seq<byte>, items: seq<Item>)
    requires StartsWithRfc(input, items)
    ensures Decode(input) == if |EncodeAll(Scalars(items))| <= MAX_SECRET_BYTES then Ok(EncodeAll(Scalars(items))) else Err(TooLong)
    ensures StringEnd(input).Ok? && Between(input) == ItemsText(items) && Valid(Between(input))
  {
    hide Decode, StringEnd, ItemsText, EncodeAll, Valid, Scalars, LegalItem;
    var text := ItemsText(items);
    var rest := input[|text| + 2..];
    assert input == [QUOTE] + text + [QUOTE] + rest;
    DecodesEveryEncoding(items, rest);
    ItemsAreValid(items);
  }

  lemma DecodedRfc(input: seq<byte>, out: seq<byte>) returns (items: seq<Item>)
    requires Decode(input) == Ok(out) && StringEnd(input).Ok? && Valid(Between(input))
    ensures |out| <= MAX_SECRET_BYTES && StartsWithRfc(input, items) && EncodeAll(Scalars(items)) == out
  {
    hide Decode, StringEnd, ItemsText, EncodeAll, Valid, Scalars, MeaningAll, WrittenAll, AllLegal, AllItems;
    var us := SameClosingQuote(input);
    assert Between(input) == WrittenAll(us);
    items := ValidIsItems(us);
    assert [QUOTE] + ItemsText(items) + [QUOTE] == Quoted(us);
    RfcDecodes(input, items);
  }

  /** The other inputs exist: a byte that is not UTF-8, between quotes, decodes to itself. */
  lemma DecodesBeyondRfc()
    ensures Decode([QUOTE, 0xFF, QUOTE]) == Ok([0xFF]) && !Valid([0xFF])
    ensures forall items :: !StartsWithRfc([QUOTE, 0xFF, QUOTE], items)
  {
    var input: seq<byte> := [QUOTE, 0xFF, QUOTE];
    assert input[1..] == [0xFF, QUOTE] && input[1..][1..] == [QUOTE];
    assert Next(input[1..]) == Ok(Token([0xFF], 1));
    assert [] + [0xFF] == [0xFF as byte];
    assert DecodeFrom(input[1..], []) == DecodeFrom(input[1..][1..], [0xFF]);
    assert EndFrom(input[1..]) == Plus(1, EndFrom(input[1..][1..]));
    assert StringEnd(input) == Ok(3) && Between(input) == [0xFF];
    forall items ensures !StartsWithRfc(input, items) {
      if StartsWithRfc(input, items) {
        RfcDecodes(input, items);
      }
    }
  }
}
