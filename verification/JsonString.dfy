/**
 JSON strings as the key-import scanner of crates/avault-cli/src/main.rs reads them: section 7 of RFC 8259, on bytes
 that need not be UTF-8.

 `Written` and `Meaning` say what a string may look like and what it denotes, one unit at a time. The two
 loops of the source, which decode a string and which only find its end, are proved against them.
 */
module JsonString {
  import opened Bytes
  import opened Utf8
  import opened Wrappers

  const QUOTE: byte := 0x22
  const BACKSLASH: byte := 0x5C
  const LETTER_U: byte := 0x75
  const MAX_SECRET_BYTES: nat := 1024 * 1024

  datatype JsonError =
    | StringExpected
    | Unterminated
    | BadEscape
    | BadSurrogate
    | ControlByte
    | TooLong
    | BadValue
    | BadBracket
    | KeyExpected
    | BadObject
    | NotAnObject
    | MissingField

  // ----- the grammar

  /**
   One unit between the quotes: a byte written as itself, a two-character escape, a `\u` escape of a scalar value,
   or a pair of `\u` escapes of surrogates. Any byte from 0x20 up may be written as itself, quotes and backslashes
   aside: legality is byte by byte, and says nothing of UTF-8 (see `JsonRfcStrings`).
   */
  datatype Unit =
    | Raw(b: byte)
    | Short(c: byte)
    | Code(quad: seq<byte>)
    | Pair(high: seq<byte>, low: seq<byte>)

  predicate IsRaw(b: byte) {
    b >= 0x20 && b != QUOTE && b != BACKSLASH
  }

  /** The character a two-character escape stands for. */
  function ShortMeaning(c: byte): Option<byte> {
    if c == QUOTE || c == BACKSLASH || c == 0x2F then Some(c)
    else if c == 0x62 then Some(0x08)
    else if c == 0x66 then Some(0x0C)
    else if c == 0x6E then Some(0x0A)
    else if c == 0x72 then Some(0x0D)
    else if c == 0x74 then Some(0x09)
    else None
  }

  predicate IsQuad(q: seq<byte>) {
    |q| == 4 && IsHex(q[0]) && IsHex(q[1]) && IsHex(q[2]) && IsHex(q[3])
  }

  function QuadValue(q: seq<byte>): (v: nat)
    requires IsQuad(q)
    ensures v < 0x1_0000
  {
    ((HexValue(q[0]).value * 16 + HexValue(q[1]).value) * 16 + HexValue(q[2]).value) * 16 + HexValue(q[3]).value
  }

  predicate IsHigh(v: nat) {
    0xD800 <= v < 0xDC00
  }

  predicate IsLow(v: nat) {
    0xDC00 <= v < 0xE000
  }

  predicate Legal(u: Unit) {
    match u
    case Raw(b) => IsRaw(b)
    case Short(c) => ShortMeaning(c).Some?
    case Code(q) => IsQuad(q) && !IsHigh(QuadValue(q)) && !IsLow(QuadValue(q))
    case Pair(h, l) => IsQuad(h) && IsQuad(l) && IsHigh(QuadValue(h)) && IsLow(QuadValue(l))
  }

  predicate AllLegal(us: seq<Unit>) {
    forall i | 0 <= i < |us| :: Legal(us[i])
  }

  function Written(u: Unit): seq<byte> {
    match u
    case Raw(b) => [b]
    case Short(c) => [BACKSLASH, c]
    case Code(q) => [BACKSLASH, LETTER_U] + q
    case Pair(h, l) => [BACKSLASH, LETTER_U] + h + [BACKSLASH, LETTER_U] + l
  }

  function Meaning(u: Unit): seq<byte>
    requires Legal(u)
  {
    match u
    case Raw(b) => [b]
    case Short(c) => [ShortMeaning(c).value]
    case Code(q) => Encode(QuadValue(q))
    case Pair(h, l) => Encode(0x1_0000 + (QuadValue(h) - 0xD800) * 0x400 + (QuadValue(l) - 0xDC00))
  }

  function WrittenAll(us: seq<Unit>): seq<byte> {
    if us == [] then [] else Written(us[0]) + WrittenAll(us[1..])
  }

  function MeaningAll(us: seq<Unit>): seq<byte>
    requires AllLegal(us)
  {
    if us == [] then [] else Meaning(us[0]) + MeaningAll(us[1..])
  }

  /** The string with its quotes. */
  function Quoted(us: seq<Unit>): seq<byte> {
    [QUOTE] + WrittenAll(us) + [QUOTE]
  }

  // ----- one unit at a time

  function HexQuad(input: seq<byte>): Result<nat, JsonError> {
    if |input| < 4 || !IsQuad(input[..4]) then Err(BadEscape) else Ok(QuadValue(input[..4]))
  }

  datatype Token = Token(bytes: seq<byte>, consumed: nat)

  /** What follows `\u`. */
  function UnicodeEscape(input: seq<byte>): Result<Token, JsonError> {
    match HexQuad(input)
    case Err(e) => Err(e)
    case Ok(first) =>
      if IsHigh(first) then
        if |input| < 6 || input[4] != BACKSLASH || input[5] != LETTER_U then Err(BadSurrogate)
        else
          (match HexQuad(input[6..])
           case Err(e) => Err(e)
           case Ok(second) =>
             if !IsLow(second) then Err(BadSurrogate)
             else Ok(Token(Encode(0x1_0000 + (first - 0xD800) * 0x400 + (second - 0xDC00)), 10)))
      else if IsLow(first) then Err(BadSurrogate)
      else Ok(Token(Encode(first), 4))
  }

  function Next(input: seq<byte>): Result<Token, JsonError>
    requires input != [] && input[0] != QUOTE
  {
    if input[0] == BACKSLASH then
      if |input| < 2 then Err(BadEscape)
      else if input[1] == LETTER_U then
        match UnicodeEscape(input[2..])
        case Err(e) => Err(e)
        case Ok(token) => Ok(Token(token.bytes, token.consumed + 2))
      else
        match ShortMeaning(input[1])
        case None => Err(BadEscape)
        case Some(b) => Ok(Token([b], 2))
    else if input[0] < 0x20 then Err(ControlByte)
    else Ok(Token([input[0]], 1))
  }

  lemma NextFits(input: seq<byte>)
    requires input != [] && input[0] != QUOTE && Next(input).Ok?
    ensures 1 <= Next(input).value.consumed <= |input|
  {
  }

  lemma NextReadsUnit(u: Unit, rest: seq<byte>)
    requires Legal(u)
    ensures var input := Written(u) + rest;
            input != [] && input[0] != QUOTE && Next(input) == Ok(Token(Meaning(u), |Written(u)|))
  {
    var input := Written(u) + rest;
    match u {
      case Raw(_) =>
      case Short(_) =>
      case Code(q) => assert input[2..][..4] == q;
      case Pair(h, l) =>
        assert input[2..][..4] == h;
        assert input[2..][6..][..4] == l;
    }
  }

  lemma NextIsUnit(input: seq<byte>) returns (u: Unit)
    requires input != [] && input[0] != QUOTE && Next(input).Ok?
    ensures Legal(u) && Next(input).value == Token(Meaning(u), |Written(u)|)
    ensures 1 <= |Written(u)| <= |input| && input[..|Written(u)|] == Written(u)
  {
    NextFits(input);
    if input[0] != BACKSLASH {
      u := Raw(input[0]);
    } else if input[1] != LETTER_U {
      u := Short(input[1]);
    } else {
      var first := input[2..][..4];
      if IsHigh(QuadValue(first)) {
        u := Pair(first, input[2..][6..][..4]);
      } else {
        u := Code(first);
      }
    }
  }

  // ----- decoding

  /** `decode_json_string_bytes` from the position after some decoded bytes `out`. */
  function DecodeFrom(input: seq<byte>, out: seq<byte>): Result<seq<byte>, JsonError>
    decreases |input|
  {
    if input == [] then Err(Unterminated)
    else if input[0] == QUOTE then Ok(out)
    else
      match Next(input)
      case Err(e) => Err(e)
      case Ok(token) =>
        NextFits(input);
        var out' := out + token.bytes;
        if |out'| > MAX_SECRET_BYTES then Err(TooLong) else DecodeFrom(input[token.consumed..], out')
  }

  function Decode(input: seq<byte>): Result<seq<byte>, JsonError> {
    if input == [] || input[0] != QUOTE then Err(StringExpected) else DecodeFrom(input[1..], [])
  }

  lemma {:induction false} DecodesUnits(us: seq<Unit>, rest: seq<byte>, out: seq<byte>)
    requires AllLegal(us) && |out| <= MAX_SECRET_BYTES
    ensures DecodeFrom(WrittenAll(us) + [QUOTE] + rest, out) ==
            if |out| + |MeaningAll(us)| <= MAX_SECRET_BYTES then Ok(out + MeaningAll(us)) else Err(TooLong)
  {
    hide Next, Meaning, Written;
    var input := WrittenAll(us) + [QUOTE] + rest;
    if us == [] {
      assert out + MeaningAll(us) == out;
    } else {
      var tail := WrittenAll(us[1..]) + [QUOTE] + rest;
      assert input == Written(us[0]) + tail;
      NextReadsUnit(us[0], tail);
      assert input[|Written(us[0])|..] == tail;
      var out' := out + Meaning(us[0]);
      if |out'| <= MAX_SECRET_BYTES {
        DecodesUnits(us[1..], rest, out');
        assert out' + MeaningAll(us[1..]) == out + MeaningAll(us);
      }
    }
  }

  lemma {:induction false} DecodedIsUnits(input: seq<byte>, out: seq<byte>) returns (us: seq<Unit>)
    requires DecodeFrom(input, out).Ok?
    ensures AllLegal(us) && DecodeFrom(input, out).value == out + MeaningAll(us)
    ensures |WrittenAll(us)| < |input| && input[..|WrittenAll(us)|] == WrittenAll(us) && input[|WrittenAll(us)|] == QUOTE
    decreases |input|
  {
    hide Next, Meaning, Written, Legal;
    if input[0] == QUOTE {
      us := [];
      assert out + MeaningAll(us) == out;
    } else {
      var u := NextIsUnit(input);
      var n := |Written(u)|;
      var out' := out + Meaning(u);
      var rest := DecodedIsUnits(input[n..], out');
      us := [u] + rest;
      assert us[1..] == rest;
      assert out' + MeaningAll(rest) == out + MeaningAll(us);
      assert input[..|WrittenAll(us)|] == input[..n] + input[n..][..|WrittenAll(rest)|];
    }
  }

  /** The input starts with the string `us`. */
  ghost predicate StartsWith(input: seq<byte>, us: seq<Unit>) {
    |Quoted(us)| <= |input| && input[..|Quoted(us)|] == Quoted(us)
  }

  /**
   Decoding succeeds with `out` exactly when the input starts with a string that is legal byte by byte and denotes
   `out`, within the size cap. In particular a lone surrogate, which no legal unit writes, is rejected.
   */
  lemma DecodeExactly(input: seq<byte>, out: seq<byte>)
    ensures Decode(input) == Ok(out) <==>
              |out| <= MAX_SECRET_BYTES && exists us :: AllLegal(us) && MeaningAll(us) == out && StartsWith(input, us)
  {
    hide DecodeFrom, Legal, MeaningAll;
    if Decode(input) == Ok(out) {
      var us := DecodedIsUnits(input[1..], []);
      assert [] + MeaningAll(us) == out;
      var n := |WrittenAll(us)|;
      assert input[..n + 2] == [input[0]] + input[1..][..n] + [input[1..][n]];
      assert StartsWith(input, us);
      WithinCap(input[1..], []);
    } else if us :| |out| <= MAX_SECRET_BYTES && AllLegal(us) && MeaningAll(us) == out && StartsWith(input, us) {
      assert input == Quoted(us) + input[|Quoted(us)|..];
      DecodesQuoted(us, input[|Quoted(us)|..]);
    }
  }

  lemma {:induction false} WithinCap(input: seq<byte>, out: seq<byte>)
    requires DecodeFrom(input, out).Ok? && |out| <= MAX_SECRET_BYTES
    ensures |DecodeFrom(input, out).value| <= MAX_SECRET_BYTES
    decreases |input|
  {
    if input[0] != QUOTE {
      NextFits(input);
      WithinCap(input[Next(input).value.consumed..], out + Next(input).value.bytes);
    }
  }

  lemma {:induction false} DecodesQuoted(us: seq<Unit>, rest: seq<byte>)
    requires AllLegal(us)
    ensures Decode(Quoted(us) + rest) == if |MeaningAll(us)| <= MAX_SECRET_BYTES then Ok(MeaningAll(us)) else Err(TooLong)
  {
    assert (Quoted(us) + rest)[1..] == WrittenAll(us) + [QUOTE] + rest;
    DecodesUnits(us, rest, []);
    assert [] + MeaningAll(us) == MeaningAll(us);
  }

  // ----- finding the end

  function Plus(n: nat, r: Result<nat, JsonError>): Result<nat, JsonError> {
    if r.Ok? then Ok(n + r.value) else r
  }

  /** `json_string_end` from inside the string: a backslash skips whatever byte follows it. */
  function EndFrom(input: seq<byte>): Result<nat, JsonError>
    decreases |input|
  {
    if input == [] then Err(Unterminated)
    else if input[0] == QUOTE then Ok(1)
    else if input[0] == BACKSLASH then
      if |input| < 2 then Err(BadEscape) else Plus(2, EndFrom(input[2..]))
    else if input[0] < 0x20 then Err(ControlByte)
    else Plus(1, EndFrom(input[1..]))
  }

  function StringEnd(input: seq<byte>): Result<nat, JsonError> {
    if input == [] || input[0] != QUOTE then Err(StringExpected) else Plus(1, EndFrom(input[1..]))
  }

  lemma {:induction false} EndSkipsRaw(bs: seq<byte>, rest: seq<byte>)
    requires forall i | 0 <= i < |bs| :: IsRaw(bs[i])
    ensures EndFrom(bs + rest) == Plus(|bs|, EndFrom(rest))
  {
    if bs == [] {
      assert bs + rest == rest;
    } else {
      assert (bs + rest)[1..] == bs[1..] + rest;
      EndSkipsRaw(bs[1..], rest);
    }
  }

  lemma EndSkipsEscape(c: byte, quad: seq<byte>, rest: seq<byte>)
    requires forall i | 0 <= i < |quad| :: IsHex(quad[i])
    ensures EndFrom([BACKSLASH, c] + quad + rest) == Plus(2 + |quad|, EndFrom(rest))
  {
    assert ([BACKSLASH, c] + quad + rest)[2..] == quad + rest;
    EndSkipsRaw(quad, rest);
  }

  lemma EndSkipsUnit(u: Unit, rest: seq<byte>)
    requires Legal(u)
    ensures EndFrom(Written(u) + rest) == Plus(|Written(u)|, EndFrom(rest))
  {
    hide EndFrom;
    match u {
      case Raw(b) => EndSkipsRaw([b], rest);
      case Short(c) =>
        EndSkipsEscape(c, [], rest);
        assert [BACKSLASH, c] + [] + rest == Written(u) + rest;
      case Code(q) => EndSkipsEscape(LETTER_U, q, rest);
      case Pair(h, l) => EndSkipsPair(h, l, rest);
    }
  }

  lemma EndSkipsPair(h: seq<byte>, l: seq<byte>, rest: seq<byte>)
    requires IsQuad(h) && IsQuad(l)
    ensures EndFrom([BACKSLASH, LETTER_U] + h + [BACKSLASH, LETTER_U] + l + rest) == Plus(12, EndFrom(rest))
  {
    hide EndFrom;
    var second := [BACKSLASH, LETTER_U] + l + rest;
    assert [BACKSLASH, LETTER_U] + h + [BACKSLASH, LETTER_U] + l + rest == [BACKSLASH, LETTER_U] + h + second;
    EndSkipsEscape(LETTER_U, h, second);
    EndSkipsEscape(LETTER_U, l, rest);
  }

  lemma {:induction false} EndOfUnits(us: seq<Unit>, rest: seq<byte>)
    requires AllLegal(us)
    ensures EndFrom(WrittenAll(us) + [QUOTE] + rest) == Ok(|WrittenAll(us)| + 1)
  {
    hide Legal, Written;
    var input := WrittenAll(us) + [QUOTE] + rest;
    if us != [] {
      var tail := WrittenAll(us[1..]) + [QUOTE] + rest;
      assert input == Written(us[0]) + tail;
      EndSkipsUnit(us[0], tail);
      EndOfUnits(us[1..], rest);
    }
  }

  lemma EndOfQuoted(us: seq<Unit>, rest: seq<byte>)
    requires AllLegal(us)
    ensures StringEnd(Quoted(us) + rest) == Ok(|Quoted(us)|)
  {
    assert (Quoted(us) + rest)[1..] == WrittenAll(us) + [QUOTE] + rest;
    EndOfUnits(us, rest);
  }

  /** Whenever decoding succeeds, `json_string_end` stops right after the closing quote of the string that was decoded. */
  lemma SameClosingQuote(input: seq<byte>) returns (us: seq<Unit>)
    requires Decode(input).Ok?
    ensures AllLegal(us) && Decode(input) == Ok(MeaningAll(us)) && StartsWith(input, us)
    ensures StringEnd(input) == Ok(|Quoted(us)|)
  {
    hide Decode, StringEnd, Legal, MeaningAll;
    DecodeExactly(input, Decode(input).value);
    us :| AllLegal(us) && MeaningAll(us) == Decode(input).value && StartsWith(input, us);
    EndOfQuoted(us, input[|Quoted(us)|..]);
    assert input == Quoted(us) + input[|Quoted(us)|..];
  }

  lemma {:induction false} EndBounds(input: seq<byte>)
    ensures EndFrom(input).Ok? ==> 1 <= EndFrom(input).value <= |input|
    decreases |input|
  {
    if input != [] && input[0] == BACKSLASH && |input| >= 2 {
      EndBounds(input[2..]);
    } else if input != [] {
      EndBounds(input[1..]);
    }
  }

  // ----- characters of RFC 8259

  /** A character of a JSON string as section 7 of RFC 8259 writes it. */
  datatype Item =
    | Unescaped(c: Scalar)
    | Escaped(u: Unit)

  predicate LegalItem(i: Item) {
    match i
    case Unescaped(c) => c >= 0x20 && c != 0x22 && c != 0x5C
    case Escaped(u) => Legal(u) && !u.Raw?
  }

  /** The Unicode scalar value an item denotes. */
  function ScalarOf(i: Item): Scalar
    requires LegalItem(i)
  {
    match i
    case Unescaped(c) => c
    case Escaped(Short(c)) => ShortMeaning(c).value
    case Escaped(Code(q)) => QuadValue(q)
    case Escaped(Pair(h, l)) => 0x1_0000 + (QuadValue(h) - 0xD800) * 0x400 + (QuadValue(l) - 0xDC00)
  }

  function ItemText(i: Item): seq<byte> {
    match i
    case Unescaped(c) => Encode(c)
    case Escaped(u) => Written(u)
  }

  function ItemsText(items: seq<Item>): seq<byte> {
    if items == [] then [] else ItemText(items[0]) + ItemsText(items[1..])
  }

  function Scalars(items: seq<Item>): seq<Scalar>
    requires forall i | 0 <= i < |items| :: LegalItem(items[i])
  {
    if items == [] then [] else [ScalarOf(items[0])] + Scalars(items[1..])
  }

  function RawUnits(bs: seq<byte>): seq<Unit> {
    seq(|bs|, i requires 0 <= i < |bs| => Raw(bs[i]))
  }

  lemma {:induction false} RawUnitsAre(bs: seq<byte>)
    requires forall i | 0 <= i < |bs| :: IsRaw(bs[i])
    ensures AllLegal(RawUnits(bs)) && WrittenAll(RawUnits(bs)) == bs && MeaningAll(RawUnits(bs)) == bs
  {
    if bs != [] {
      RawUnitsAre(bs[1..]);
      assert RawUnits(bs)[1..] == RawUnits(bs[1..]);
      assert bs == [bs[0]] + bs[1..];
    }
  }

  lemma {:induction false} UnitsConcat(us: seq<Unit>, vs: seq<Unit>)
    requires AllLegal(us) && AllLegal(vs)
    ensures AllLegal(us + vs)
    ensures WrittenAll(us + vs) == WrittenAll(us) + WrittenAll(vs) && MeaningAll(us + vs) == MeaningAll(us) + MeaningAll(vs)
  {
    hide Meaning, Written, Legal;
    if us == [] {
      assert us + vs == vs;
    } else {
      UnitsConcat(us[1..], vs);
      assert (us + vs)[1..] == us[1..] + vs;
    }
  }

  lemma ItemUnits(i: Item) returns (us: seq<Unit>)
    requires LegalItem(i)
    ensures AllLegal(us) && WrittenAll(us) == ItemText(i) && MeaningAll(us) == Encode(ScalarOf(i))
  {
    match i {
      case Unescaped(c) =>
        us := RawUnits(Encode(c));
        RawUnitsAre(Encode(c));
      case Escaped(u) =>
        us := [u];
        assert us[1..] == [];
        assert Written(u) + [] == Written(u) && Meaning(u) + [] == Meaning(u);
    }
  }

  lemma {:induction false} ItemsUnits(items: seq<Item>) returns (us: seq<Unit>)
    requires forall i | 0 <= i < |items| :: LegalItem(items[i])
    ensures AllLegal(us) && WrittenAll(us) == ItemsText(items) && MeaningAll(us) == EncodeAll(Scalars(items))
  {
    us := [];
    if items != [] {
      var first := ItemUnits(items[0]);
      var rest := ItemsUnits(items[1..]);
      us := first + rest;
      UnitsConcat(first, rest);
      assert Scalars(items)[1..] == Scalars(items[1..]);
    }
  }

  /** Every string that section 7 of RFC 8259 allows decodes to the UTF-8 of its scalar values, up to the cap, and ends where it ends. */
  lemma DecodesEveryEncoding(items: seq<Item>, rest: seq<byte>)
    requires forall i | 0 <= i < |items| :: LegalItem(items[i])
    ensures var input := [QUOTE] + ItemsText(items) + [QUOTE] + rest;
            var utf8 := EncodeAll(Scalars(items));
            && Decode(input) == (if |utf8| <= MAX_SECRET_BYTES then Ok(utf8) else Err(TooLong))
            && StringEnd(input) == Ok(|ItemsText(items)| + 2)
  {
    var us := ItemsUnits(items);
    DecodesQuoted(us, rest);
    EndOfQuoted(us, rest);
    assert [QUOTE] + ItemsText(items) + [QUOTE] + rest == Quoted(us) + rest;
  }

  /** The surrogate that `quad` writes has no other half in what follows it. */
  predicate Lone(quad: seq<byte>, rest: seq<byte>)
    requires IsQuad(quad)
  {
    || IsLow(QuadValue(quad))
    || (&& IsHigh(QuadValue(quad))
        && !(|rest| >= 6 && rest[0] == BACKSLASH && rest[1] == LETTER_U && IsQuad(rest[2..6]) && IsLow(QuadValue(rest[2..6]))))
  }

  lemma LoneEscapeFails(quad: seq<byte>, rest: seq<byte>)
    requires IsQuad(quad) && Lone(quad, rest)
    ensures UnicodeEscape(quad + rest).Err?
    ensures Next([BACKSLASH, LETTER_U] + quad + rest).Err?
  {
    hide QuadValue, IsHex;
    assert ([BACKSLASH, LETTER_U] + quad + rest)[2..] == quad + rest;
    var input := quad + rest;
    assert input[..4] == quad;
    if |rest| >= 6 {
      assert input[6..][..4] == rest[2..6];
    }
  }

  /** Wherever a surrogate escape is not half of a pair, decoding fails. */
  lemma LoneSurrogateRejected(us: seq<Unit>, quad: seq<byte>, rest: seq<byte>)
    requires AllLegal(us) && IsQuad(quad) && Lone(quad, rest)
    ensures Decode([QUOTE] + WrittenAll(us) + [BACKSLASH, LETTER_U] + quad + rest).Err?
  {
    hide Lone, Next, DecodeFrom, IsQuad;
    var tail := [BACKSLASH, LETTER_U] + quad + rest;
    LoneEscapeFails(quad, rest);
    FailsAfterUnits(us, tail, []);
    assert ([QUOTE] + WrittenAll(us) + [BACKSLASH, LETTER_U] + quad + rest)[1..] == WrittenAll(us) + tail;
  }

  lemma {:induction false} FailsAfterUnits(us: seq<Unit>, tail: seq<byte>, out: seq<byte>)
    requires AllLegal(us) && tail != [] && tail[0] != QUOTE && Next(tail).Err?
    ensures DecodeFrom(WrittenAll(us) + tail, out).Err?
  {
    hide Next, Meaning, Written, Legal;
    if us == [] {
      assert WrittenAll(us) + tail == tail;
    } else {
      var rest := WrittenAll(us[1..]) + tail;
      assert WrittenAll(us) + tail == Written(us[0]) + rest;
      NextReadsUnit(us[0], rest);
      assert (WrittenAll(us) + tail)[|Written(us[0])|..] == rest;
      FailsAfterUnits(us[1..], tail, out + Meaning(us[0]));
    }
  }

  // ----- the loops of the source

  function HexSoFar(q: seq<byte>): (v: nat)
    requires forall i | 0 <= i < |q| :: IsHex(q[i])
  {
    if q == [] then 0 else assert IsHex(q[|q| - 1]); HexSoFar(q[..|q| - 1]) * 16 + HexValue(q[|q| - 1]).value
  }

  lemma HexSoFarIs(q: seq<byte>)
    requires IsQuad(q)
    ensures HexSoFar(q) == QuadValue(q)
  {
    assert HexSoFar(q[..1]) == HexValue(q[0]).value;
    assert q[..2][..1] == q[..1];
    assert HexSoFar(q[..2]) == HexSoFar(q[..1]) * 16 + HexValue(q[1]).value;
    assert q[..3][..2] == q[..2];
    assert HexSoFar(q[..3]) == HexSoFar(q[..2]) * 16 + HexValue(q[2]).value;
  }

  /** The shift of a `u16` drops the bits above the sixteenth. */
  function ShiftIn(value: nat, digit: nat): nat {
    value * 16 % 0x1_0000 + digit
  }

  method DecodeHexQuad(input: seq<byte>, start: nat) returns (r: Result<nat, JsonError>)
    requires start <= |input|
    ensures r == HexQuad(input[start..])
  {
    if start + 4 > |input| {
      return Err(BadEscape);
    }
    ghost var quad := input[start..start + 4];
    assert input[start..][..4] == quad;
    var value, k := 0, 0;
    while k < 4
      invariant 0 <= k <= 4
      invariant forall i | 0 <= i < k :: IsHex(quad[i])
      invariant value == HexSoFar(quad[..k]) && value < (if k == 0 then 1 else if k == 1 then 0x10 else if k == 2 then 0x100 else if k == 3 then 0x1000 else 0x1_0000)
    {
      var digit := HexValue(input[start + k]);
      assert quad[k] == input[start + k] && quad[..k + 1][..k] == quad[..k];
      if digit.None? {
        return Err(BadEscape);
      }
      value := ShiftIn(value, digit.value);
      k := k + 1;
    }
    assert quad[..4] == quad;
    HexSoFarIs(quad);
    r := Ok(value);
  }

  method DecodeJsonUnicodeEscape(input: seq<byte>, start: nat) returns (r: Result<Token, JsonError>)
    requires start <= |input|
    ensures r == UnicodeEscape(input[start..])
  {
    var first := DecodeHexQuad(input, start);
    if first.Err? {
      return Err(first.error);
    }
    if IsHigh(first.value) {
      if start + 4 >= |input| || input[start + 4] != BACKSLASH || start + 5 >= |input| || input[start + 5] != LETTER_U {
        return Err(BadSurrogate);
      }
      assert input[start..][6..] == input[start + 6..];
      var second := DecodeHexQuad(input, start + 6);
      if second.Err? {
        return Err(second.error);
      }
      if !IsLow(second.value) {
        return Err(BadSurrogate);
      }
      r := Ok(Token(Encode(0x1_0000 + (first.value - 0xD800) * 0x400 + (second.value - 0xDC00)), 10));
    } else if IsLow(first.value) {
      r := Err(BadSurrogate);
    } else {
      r := Ok(Token(Encode(first.value), 4));
    }
  }

  lemma StepDecode(input: seq<byte>, index: nat, out: seq<byte>, token: Token)
    requires index < |input| && input[index] != QUOTE && Next(input[index..]) == Ok(token)
    ensures 1 <= token.consumed <= |input| - index
    ensures DecodeFrom(input[index..], out) ==
            if |out + token.bytes| > MAX_SECRET_BYTES then Err(TooLong) else DecodeFrom(input[index + token.consumed..], out + token.bytes)
  {
    NextFits(input[index..]);
    assert input[index..][token.consumed..] == input[index + token.consumed..];
  }

  lemma StepFails(input: seq<byte>, index: nat, out: seq<byte>, e: JsonError)
    requires index < |input| && input[index] != QUOTE && Next(input[index..]) == Err(e)
    ensures DecodeFrom(input[index..], out) == Err(e)
  {
  }

  method DecodeJsonStringBytes(input: seq<byte>) returns (r: Result<seq<byte>, JsonError>)
    ensures r == Decode(input)
  {
    hide DecodeFrom, UnicodeEscape;
    if input == [] || input[0] != QUOTE {
      return Err(StringExpected);
    }
    var out: seq<byte> := [];
    var index := 1;
    while index < |input|
      invariant 1 <= index <= |input|
      invariant Decode(input) == DecodeFrom(input[index..], out)
      decreases |input| - index
    {
      ghost var start, before := index, out;
      ghost var rest := input[index..];
      if input[index] == QUOTE {
        EndsAtQuote(rest, out);
        return Ok(out);
      } else if input[index] == BACKSLASH {
        index := index + 1;
        if index >= |input| {
          StepFails(input, start, before, BadEscape);
          return Err(BadEscape);
        }
        assert rest[1] == input[index];
        if input[index] == LETTER_U {
          assert rest[2..] == input[index + 1..];
          var escape := DecodeJsonUnicodeEscape(input, index + 1);
          if escape.Err? {
            StepFails(input, start, before, escape.error);
            return Err(escape.error);
          }
          out := out + escape.value.bytes;
          index := index + escape.value.consumed;
          StepDecode(input, start, before, Token(escape.value.bytes, escape.value.consumed + 2));
        } else {
          var meaning := ShortMeaning(input[index]);
          if meaning.None? {
            StepFails(input, start, before, BadEscape);
            return Err(BadEscape);
          }
          out := out + [meaning.value];
          StepDecode(input, start, before, Token([meaning.value], 2));
        }
      } else if input[index] < 0x20 {
        StepFails(input, start, before, ControlByte);
        return Err(ControlByte);
      } else {
        out := out + [input[index]];
        StepDecode(input, start, before, Token([input[index]], 1));
      }
      if |out| > MAX_SECRET_BYTES {
        return Err(TooLong);
      }
      index := index + 1;
    }
    EndsAtQuote(input[index..], out);
    r := Err(Unterminated);
  }

  lemma EndsAtQuote(rest: seq<byte>, out: seq<byte>)
    ensures rest == [] ==> DecodeFrom(rest, out) == Err(Unterminated)
    ensures rest != [] && rest[0] == QUOTE ==> DecodeFrom(rest, out) == Ok(out)
  {
  }

  method JsonStringEnd(input: seq<byte>) returns (r: Result<nat, JsonError>)
    ensures r == StringEnd(input)
  {
    if input == [] || input[0] != QUOTE {
      return Err(StringExpected);
    }
    var index := 1;
    while index < |input|
      invariant 1 <= index <= |input|
      invariant StringEnd(input) == Plus(index, EndFrom(input[index..]))
    {
      ghost var rest := input[index..];
      if input[index] == QUOTE {
        return Ok(index + 1);
      } else if input[index] == BACKSLASH {
        assert |rest| >= 2 ==> rest[2..] == input[index + 2..];
        index := index + 1;
        if index >= |input| {
          return Err(BadEscape);
        }
      } else if input[index] < 0x20 {
        return Err(ControlByte);
      } else {
        assert rest[1..] == input[index + 1..];
      }
      index := index + 1;
    }
    r := Err(Unterminated);
  }
}
