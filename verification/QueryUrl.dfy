/**
 A credential added to the query of a URL (crates/avault-cli/src/main.rs), read back with the
 application/x-www-form-urlencoded parser of section 5.1 of the WHATWG URL Standard.
 */
module QueryUrl {
  import opened Bytes
  import opened Wrappers

  const HASH: byte := 0x23
  const QUESTION: byte := 0x3F
  const AMPERSAND: byte := 0x26
  const EQUALS: byte := 0x3D
  const PERCENT: byte := 0x25
  const PLUS: byte := 0x2B
  const SPACE: byte := 0x20

  /** Where the byte first stands, or the length of the text. */
  function Find(text: seq<byte>, b: byte): (i: nat)
    ensures i <= |text| && (i < |text| ==> text[i] == b) && forall j | 0 <= j < i :: text[j] != b
  {
    if text == [] || text[0] == b then 0 else 1 + Find(text[1..], b)
  }

  lemma FindIs(text: seq<byte>, b: byte, i: nat)
    requires i <= |text| && (i < |text| ==> text[i] == b) && forall j | 0 <= j < i :: text[j] != b
    ensures Find(text, b) == i
  {
    var found := Find(text, b);
    assert !(found < i) && !(i < found);
  }

  // ----- reading a URL

  function Base(url: seq<byte>): seq<byte> {
    url[..Find(url, HASH)]
  }

  /** With its `#`, or empty. */
  function Fragment(url: seq<byte>): seq<byte> {
    url[Find(url, HASH)..]
  }

  function Query(url: seq<byte>): Option<seq<byte>> {
    var base := Base(url);
    var at := Find(base, QUESTION);
    if at < |base| then Some(base[at + 1..]) else None
  }

  /** What stands before the query. */
  function Path(url: seq<byte>): seq<byte> {
    Base(url)[..Find(Base(url), QUESTION)]
  }

  type Pair = (seq<byte>, seq<byte>)

  function PlusAsSpace(text: seq<byte>): (r: seq<byte>)
    ensures |r| == |text| && forall i | 0 <= i < |r| :: r[i] == if text[i] == PLUS then SPACE else text[i]
  {
    seq(|text|, i requires 0 <= i < |text| => if text[i] == PLUS then SPACE else text[i])
  }

  function PercentDecode(text: seq<byte>): seq<byte> {
    if text == [] then []
    else if text[0] == PERCENT && |text| >= 3 && IsHex(text[1]) && IsHex(text[2]) then
      [HexValue(text[1]).value * 16 + HexValue(text[2]).value] + PercentDecode(text[3..])
    else [text[0]] + PercentDecode(text[1..])
  }

  function FormDecode(text: seq<byte>): seq<byte> {
    PercentDecode(PlusAsSpace(text))
  }

  function ParsePair(segment: seq<byte>): Pair {
    var at := Find(segment, EQUALS);
    (FormDecode(segment[..at]), if at < |segment| then FormDecode(segment[at + 1..]) else [])
  }

  function FormParse(query: seq<byte>): seq<Pair>
    decreases |query|
  {
    var at := Find(query, AMPERSAND);
    var first := if at == 0 then [] else [ParsePair(query[..at])];
    if at < |query| then first + FormParse(query[at + 1..]) else first
  }

  function Pairs(url: seq<byte>): seq<Pair> {
    match Query(url)
    case None => []
    case Some(query) => FormParse(query)
  }

  // ----- building one

  predicate IsUnreserved(b: byte) {
    0x41 <= b <= 0x5A || 0x61 <= b <= 0x7A || 0x30 <= b <= 0x39 || b == 0x2D || b == 0x2E || b == 0x5F || b == 0x7E
  }

  function HexDigit(n: nat): (b: byte)
    requires n < 16
    ensures HexValue(b) == Some(n) && IsUnreserved(b)
  {
    if n < 10 then 0x30 + n else 0x41 + n - 10
  }

  function EncodedByte(b: byte): seq<byte> {
    if IsUnreserved(b) then [b]
    else if b == SPACE then [PLUS]
    else [PERCENT, HexDigit(b / 16), HexDigit(b % 16)]
  }

  function Encoded(value: seq<byte>): seq<byte> {
    if value == [] then [] else EncodedByte(value[0]) + Encoded(value[1..])
  }

  function EncodedQueryLen(value: seq<byte>): (n: nat)
    ensures n == |Encoded(value)|
  {
    if value == [] then 0
    else (if IsUnreserved(value[0]) || value[0] == SPACE then 1 else 3) + EncodedQueryLen(value[1..])
  }

  function Separator(base: seq<byte>): byte {
    if QUESTION in base then AMPERSAND else QUESTION
  }

  function Added(name: seq<byte>, value: seq<byte>): seq<byte> {
    Encoded(name) + [EQUALS] + Encoded(value)
  }

  function WithPair(url: seq<byte>, name: seq<byte>, value: seq<byte>): seq<byte> {
    Base(url) + [Separator(Base(url))] + Added(name, value) + Fragment(url)
  }

  // ----- reading back

  /** The characters that encoding leaves or makes. */
  predicate IsEncoded(b: byte) {
    IsUnreserved(b) || b == PLUS || b == PERCENT
  }

  lemma {:induction false} EncodedBytes(value: seq<byte>)
    ensures forall i | 0 <= i < |Encoded(value)| :: IsEncoded(Encoded(value)[i])
  {
    if value != [] {
      EncodedBytes(value[1..]);
    }
  }

  lemma DecodesByte(b: byte, rest: seq<byte>)
    ensures FormDecode(EncodedByte(b) + rest) == [b] + FormDecode(rest)
  {
    var text := EncodedByte(b) + rest;
    var plain := PlusAsSpace(text);
    assert plain == PlusAsSpace(EncodedByte(b)) + PlusAsSpace(rest);
    assert plain[|EncodedByte(b)|..] == PlusAsSpace(rest);
    if IsUnreserved(b) || b == SPACE {
      assert plain[0] == b;
    } else {
      assert plain[0] == PERCENT && plain[1] == HexDigit(b / 16) && plain[2] == HexDigit(b % 16);
      assert b / 16 * 16 + b % 16 == b;
    }
  }

  /** Form decoding inverts the encoding of every byte string. */
  lemma {:induction false} DecodesEncoded(value: seq<byte>)
    ensures FormDecode(Encoded(value)) == value
  {
    if value != [] {
      DecodesByte(value[0], Encoded(value[1..]));
      DecodesEncoded(value[1..]);
      assert value == [value[0]] + value[1..];
    }
  }

  lemma ParsesAdded(name: seq<byte>, value: seq<byte>)
    ensures FormParse(Added(name, value)) == [(name, value)]
  {
    var added := Added(name, value);
    EncodedBytes(name);
    EncodedBytes(value);
    FindIs(added, AMPERSAND, |added|);
    FindIs(added, EQUALS, |Encoded(name)|);
    assert added[..|added|] == added;
    assert added[..|Encoded(name)|] == Encoded(name) && added[|Encoded(name)| + 1..] == Encoded(value);
    DecodesEncoded(name);
    DecodesEncoded(value);
  }

  function Segment(segment: seq<byte>): seq<Pair> {
    if segment == [] then [] else [ParsePair(segment)]
  }

  lemma FormParseFirst(segment: seq<byte>, rest: seq<byte>)
    requires AMPERSAND !in segment
    ensures FormParse(segment + [AMPERSAND] + rest) == Segment(segment) + FormParse(rest)
    ensures FormParse(segment) == Segment(segment)
  {
    hide ParsePair;
    var query := segment + [AMPERSAND] + rest;
    FindIs(query, AMPERSAND, |segment|);
    FindIs(segment, AMPERSAND, |segment|);
    assert query[..|segment|] == segment && query[|segment| + 1..] == rest;
    assert segment[..|segment|] == segment;
  }

  /** Two queries joined by an ampersand read as the pairs of both. */
  lemma {:induction false} FormParseJoins(a: seq<byte>, b: seq<byte>)
    ensures FormParse(a + [AMPERSAND] + b) == FormParse(a) + FormParse(b)
    decreases |a|
  {
    hide FormParse, Segment;
    var at := Find(a, AMPERSAND);
    var first := a[..at];
    if at == |a| {
      assert AMPERSAND !in a;
      FormParseFirst(a, b);
    } else {
      var rest := a[at + 1..];
      assert AMPERSAND !in first && a == first + [AMPERSAND] + rest;
      FormParseFirst(first, rest);
      FormParseJoins(rest, b);
      FormParseFirst(first, rest + [AMPERSAND] + b);
      assert a + [AMPERSAND] + b == first + [AMPERSAND] + (rest + [AMPERSAND] + b);
    }
  }

  lemma AddedHasNoDelimiter(name: seq<byte>, value: seq<byte>)
    ensures HASH !in Added(name, value) && QUESTION !in Added(name, value)
  {
    EncodedBytes(name);
    EncodedBytes(value);
  }

  lemma BaseAndFragment(url: seq<byte>, name: seq<byte>, value: seq<byte>)
    ensures Base(WithPair(url, name, value)) == Base(url) + [Separator(Base(url))] + Added(name, value)
    ensures Fragment(WithPair(url, name, value)) == Fragment(url)
  {
    var base := Base(url) + [Separator(Base(url))] + Added(name, value);
    AddedHasNoDelimiter(name, value);
    assert forall j | 0 <= j < |base| :: base[j] != HASH;
    FindIs(WithPair(url, name, value), HASH, |base|);
  }

  lemma QueryExtended(url: seq<byte>, name: seq<byte>, value: seq<byte>)
    ensures Path(WithPair(url, name, value)) == Path(url)
    ensures Query(WithPair(url, name, value)) ==
            Some(if Query(url).Some? then Query(url).value + [AMPERSAND] + Added(name, value) else Added(name, value))
  {
    hide Added;
    var base, out := Base(url), Base(WithPair(url, name, value));
    BaseAndFragment(url, name, value);
    var at := Find(base, QUESTION);
    if at == |base| {
      assert QUESTION !in base;
    }
    assert out[..|base|] == base;
    FindIs(out, QUESTION, at);
    if at < |base| {
      assert out[at + 1..] == base[at + 1..] + [AMPERSAND] + Added(name, value);
    } else {
      assert out[at + 1..] == Added(name, value);
    }
  }

  /**
   Whatever the URL, the name and the value: the result reads as the pairs of the URL followed by exactly the new
   one, and its path and fragment are those of the URL.
   */
  lemma {:induction false} AddsExactlyOnePair(url: seq<byte>, name: seq<byte>, value: seq<byte>)
    ensures var out := WithPair(url, name, value);
            Pairs(out) == Pairs(url) + [(name, value)] && Path(out) == Path(url) && Fragment(out) == Fragment(url)
  {
    hide WithPair, Added, Query, Path, Fragment;
    BaseAndFragment(url, name, value);
    QueryExtended(url, name, value);
    ParsesAdded(name, value);
    if Query(url).Some? {
      FormParseJoins(Query(url).value, Added(name, value));
    }
  }

  // ----- the buffer

  /** A zeroized string: growing past its capacity would leave a copy of the secret behind. */
  class SecretString {
    var text: seq<byte>
    var capacity: nat
    var reallocated: bool

    constructor (capacity: nat)
      ensures text == [] && this.capacity == capacity && !reallocated
    {
      text, this.capacity, reallocated := [], capacity, false;
    }

    method Push(more: seq<byte>)
      modifies this
      ensures text == old(text) + more
      ensures if |text| <= old(capacity) then capacity == old(capacity) && reallocated == old(reallocated)
              else capacity >= |text| && reallocated
    {
      if |text| + |more| > capacity {
        capacity := |text| + |more|;
        reallocated := true;
      }
      text := text + more;
    }

    method PushEncodedByte(b: byte)
      requires |text| + |EncodedByte(b)| <= capacity
      modifies this
      ensures text == old(text) + EncodedByte(b) && capacity == old(capacity) && reallocated == old(reallocated)
    {
      if IsUnreserved(b) {
        Push([b]);
      } else if b == SPACE {
        Push([PLUS]);
      } else {
        Push([PERCENT]);
        Push([HexDigit(b / 16)]);
        Push([HexDigit(b % 16)]);
      }
    }

    method PushQueryEncoded(value: seq<byte>)
      requires |text| + |Encoded(value)| <= capacity
      modifies this
      ensures text == old(text) + Encoded(value) && capacity == old(capacity) && reallocated == old(reallocated)
    {
      hide EncodedByte, Encoded;
      var i := 0;
      assert value[0..] == value && old(text) + [] == old(text);
      while i < |value|
        invariant i <= |value| && |text| + |Encoded(value[i..])| <= capacity
        invariant text + Encoded(value[i..]) == old(text) + Encoded(value)
        invariant capacity == old(capacity) && reallocated == old(reallocated)
      {
        ghost var before, rest := text, Encoded(value[i + 1..]);
        EncodedStep(value, i);
        PushEncodedByte(value[i]);
        assert text + rest == before + (EncodedByte(value[i]) + rest);
        i := i + 1;
      }
      EncodedStep(value, i);
    }
  }

  lemma EncodedStep(value: seq<byte>, i: nat)
    requires i <= |value|
    ensures Encoded(value[i..]) == if i < |value| then EncodedByte(value[i]) + Encoded(value[i + 1..]) else []
  {
    if i < |value| {
      DropDrop(value, i, 1);
    }
  }

  lemma Associates(a: seq<byte>, b: seq<byte>, c: seq<byte>, d: seq<byte>, e: seq<byte>)
    ensures a + b + c + [EQUALS] + d + e == a + b + (c + [EQUALS] + d) + e
  {
  }

  datatype Built = Built(out: SecretString) | NotAUrl

  /**
   `parses` is whether the URL library accepts the URL. The result fills the reserved capacity exactly, so the
   buffer is never reallocated.
   */
  method BuildSecretQueryUrl(url: seq<byte>, parses: bool, name: seq<byte>, value: seq<byte>) returns (built: Built)
    ensures built.Built? <==> parses
    ensures parses ==>
              && fresh(built.out) && built.out.text == WithPair(url, name, value)
              && !built.out.reallocated && built.out.capacity == |built.out.text|
  {
    hide Encoded, EncodedQueryLen, Find, Separator;
    if !parses {
      return NotAUrl;
    }
    var fragmentStart := Find(url, HASH);
    var base, fragment := url[..fragmentStart], url[fragmentStart..];
    var out := new SecretString(|base| + 1 + EncodedQueryLen(name) + 1 + EncodedQueryLen(value) + |fragment|);
    out.Push(base);
    out.Push([Separator(base)]);
    out.PushQueryEncoded(name);
    out.Push([EQUALS]);
    out.PushQueryEncoded(value);
    out.Push(fragment);
    Associates(base, [Separator(base)], Encoded(name), Encoded(value), fragment);
    built := Built(out);
  }
}
