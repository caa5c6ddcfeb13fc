/**
 JSON texts (RFC 8259): the key-import scanner's search for a top-level member and for the end of a value, in
 crates/avault-cli/src/main.rs, against a grammar of concrete texts with arbitrary white space and nesting.
 */
module JsonValue {
  import opened Bytes
  import opened JsonString
  import opened Wrappers

  const OPEN_BRACE: byte := 0x7B
  const CLOSE_BRACE: byte := 0x7D
  const OPEN_BRACKET: byte := 0x5B
  const CLOSE_BRACKET: byte := 0x5D
  const COLON: byte := 0x3A
  const COMMA: byte := 0x2C
  const TRUE: seq<byte> := [0x74, 0x72, 0x75, 0x65]
  const FALSE: seq<byte> := [0x66, 0x61, 0x6C, 0x73, 0x65]
  const NULL: seq<byte> := [0x6E, 0x75, 0x6C, 0x6C]

  // ----- the grammar (sections 2 to 7 of RFC 8259)

  datatype Sign = Unsigned | PlusSign | MinusSign

  datatype Exponent = NoExponent | Exponent(upper: bool, sign: Sign, digits: seq<byte>)

  datatype Json =
    | Text(units: seq<Unit>)
    | Number(minus: bool, whole: seq<byte>, fraction: Option<seq<byte>>, exponent: Exponent)
    | True
    | False
    | Null
    | Array(pad: seq<byte>, items: Items)
    | Object(pad: seq<byte>, members: Members)

  datatype Items =
    | NoItems
    | Item(before: seq<byte>, value: Json, after: seq<byte>, rest: Items)

  datatype Members =
    | NoMembers
    | Member(before: seq<byte>, key: seq<Unit>, afterKey: seq<byte>, beforeValue: seq<byte>, value: Json, after: seq<byte>, rest: Members)

  predicate IsWs(b: byte) {
    b == 0x20 || b == 0x0A || b == 0x0D || b == 0x09
  }

  predicate AllWs(bs: seq<byte>) {
    forall i | 0 <= i < |bs| :: IsWs(bs[i])
  }

  predicate IsDigit(b: byte) {
    0x30 <= b <= 0x39
  }

  predicate Digits(bs: seq<byte>) {
    bs != [] && forall i | 0 <= i < |bs| :: IsDigit(bs[i])
  }

  predicate LegalExponent(e: Exponent) {
    e.Exponent? ==> Digits(e.digits)
  }

  predicate WellFormed(v: Json) {
    match v
    case Text(units) => AllLegal(units)
    case Number(_, whole, fraction, exponent) =>
      && Digits(whole) && (whole[0] == 0x30 ==> |whole| == 1)
      && (fraction.Some? ==> Digits(fraction.value))
      && LegalExponent(exponent)
    case Array(pad, items) => AllWs(pad) && WellFormedItems(items)
    case Object(pad, members) => AllWs(pad) && WellFormedMembers(members)
    case _ => true
  }

  predicate WellFormedItems(items: Items) {
    items.Item? ==> AllWs(items.before) && WellFormed(items.value) && AllWs(items.after) && WellFormedItems(items.rest)
  }

  predicate WellFormedMembers(ms: Members) {
    ms.Member? ==>
      && AllWs(ms.before) && AllLegal(ms.key) && AllWs(ms.afterKey)
      && AllWs(ms.beforeValue) && WellFormed(ms.value) && AllWs(ms.after)
      && WellFormedMembers(ms.rest)
  }

  function SignText(s: Sign): seq<byte> {
    match s
    case Unsigned => []
    case PlusSign => [0x2B]
    case MinusSign => [0x2D]
  }

  function ExponentText(e: Exponent): seq<byte> {
    match e
    case NoExponent => []
    case Exponent(upper, sign, digits) => [if upper then 0x45 else 0x65] + SignText(sign) + digits
  }

  function NumberText(minus: bool, whole: seq<byte>, fraction: Option<seq<byte>>, exponent: Exponent): seq<byte> {
    (if minus then [0x2D] else []) + whole + (if fraction.Some? then [0x2E] + fraction.value else []) + ExponentText(exponent)
  }

  function Render(v: Json): seq<byte> {
    match v
    case Text(units) => Quoted(units)
    case Number(minus, whole, fraction, exponent) => NumberText(minus, whole, fraction, exponent)
    case True => TRUE
    case False => FALSE
    case Null => NULL
    case Array(pad, items) => [OPEN_BRACKET] + (pad + RenderItems(items) + [CLOSE_BRACKET])
    case Object(pad, members) => [OPEN_BRACE] + (pad + RenderMembers(members) + [CLOSE_BRACE])
  }

  function RenderItems(items: Items): seq<byte> {
    match items
    case NoItems => []
    case Item(before, value, after, rest) => before + (Render(value) + (after + Separator(rest.Item?) + RenderItems(rest)))
  }

  function Separator(more: bool): seq<byte> {
    if more then [COMMA] else []
  }

  /** The key, the colon and the white space around them, up to the value. */
  function Head(m: Members): seq<byte>
    requires m.Member?
  {
    m.before + (Quoted(m.key) + (m.afterKey + [COLON] + m.beforeValue))
  }

  function RenderMembers(ms: Members): seq<byte> {
    match ms
    case NoMembers => []
    case Member(_, _, _, _, value, after, rest) => Head(ms) + (Render(value) + (after + Separator(rest.Member?) + RenderMembers(rest)))
  }

  // ----- the end of a value

  function Ws(input: seq<byte>): (n: nat)
    ensures n <= |input| && AllWs(input[..n]) && (n < |input| ==> !IsWs(input[n]))
  {
    if input == [] || !IsWs(input[0]) then 0
    else
      var n := Ws(input[1..]);
      assert input[..n + 1] == [input[0]] + input[1..][..n];
      n + 1
  }

  lemma {:induction false} WsIs(ws: seq<byte>, rest: seq<byte>)
    requires AllWs(ws) && (rest != [] ==> !IsWs(rest[0]))
    ensures Ws(ws + rest) == |ws| && (ws + rest)[|ws|..] == rest
  {
    if ws == [] {
      assert ws + rest == rest;
    } else {
      assert (ws + rest)[1..] == ws[1..] + rest;
      WsIs(ws[1..], rest);
    }
  }

  predicate IsScalarByte(b: byte) {
    b == 0x2D || b == 0x2B || b == 0x2E || IsDigit(b) || 0x61 <= b <= 0x7A || 0x41 <= b <= 0x5A
  }

  function ScalarEnd(input: seq<byte>): (n: nat)
    ensures n <= |input| && (forall i | 0 <= i < n :: IsScalarByte(input[i])) && (n < |input| ==> !IsScalarByte(input[n]))
  {
    if input == [] || !IsScalarByte(input[0]) then 0
    else
      var n := ScalarEnd(input[1..]);
      assert forall i | 0 <= i < n + 1 :: i > 0 ==> input[i] == input[1..][i - 1];
      n + 1
  }

  lemma StringEndBounds(input: seq<byte>)
    requires StringEnd(input).Ok?
    ensures 2 <= StringEnd(input).value <= |input|
  {
    EndBounds(input[1..]);
  }

  /** `json_compound_end` inside brackets: `stack` holds the open ones, the innermost last. */
  function CompoundFrom(input: seq<byte>, stack: seq<byte>): Result<nat, JsonError>
    requires stack != []
    decreases |input|
  {
    if input == [] then Err(Unterminated)
    else if input[0] == QUOTE then
      match StringEnd(input)
      case Err(e) => Err(e)
      case Ok(n) =>
        StringEndBounds(input);
        Plus(n, CompoundFrom(input[n..], stack))
    else if input[0] == OPEN_BRACE || input[0] == OPEN_BRACKET then
      Plus(1, CompoundFrom(input[1..], stack + [input[0]]))
    else if input[0] == CLOSE_BRACE || input[0] == CLOSE_BRACKET then
      if stack[|stack| - 1] != (if input[0] == CLOSE_BRACE then OPEN_BRACE else OPEN_BRACKET) then Err(BadBracket)
      else if |stack| == 1 then Ok(1)
      else Plus(1, CompoundFrom(input[1..], stack[..|stack| - 1]))
    else Plus(1, CompoundFrom(input[1..], stack))
  }

  /** `json_value_end`, as the length of the value that `input` starts with. */
  function ValueEnd(input: seq<byte>): Result<nat, JsonError> {
    if input == [] then Err(BadValue)
    else if input[0] == QUOTE then StringEnd(input)
    else if input[0] == OPEN_BRACE || input[0] == OPEN_BRACKET then Plus(1, CompoundFrom(input[1..], [input[0]]))
    else if input[0] == 0x2D || IsDigit(input[0]) then Ok(ScalarEnd(input))
    else if TRUE <= input then Ok(4)
    else if FALSE <= input then Ok(5)
    else if NULL <= input then Ok(4)
    else Err(BadValue)
  }

  predicate IsPlain(b: byte) {
    b != QUOTE && b != OPEN_BRACE && b != OPEN_BRACKET && b != CLOSE_BRACE && b != CLOSE_BRACKET
  }

  predicate AllPlain(bs: seq<byte>) {
    forall i | 0 <= i < |bs| :: IsPlain(bs[i])
  }

  /** Inside the open brackets `stack`, the scan passes over `text` whatever follows it. */
  ghost predicate Skips(text: seq<byte>, stack: seq<byte>)
    requires stack != []
  {
    forall rest: seq<byte> :: CompoundFrom(text + rest, stack) == Plus(|text|, CompoundFrom(rest, stack))
  }

  lemma SkipsMeans(text: seq<byte>, stack: seq<byte>)
    requires stack != []
    requires forall rest: seq<byte> :: CompoundFrom(text + rest, stack) == Plus(|text|, CompoundFrom(rest, stack))
    ensures Skips(text, stack)
  {
    hide CompoundFrom;
  }

  lemma SkipsAt(text: seq<byte>, rest: seq<byte>, stack: seq<byte>)
    requires stack != [] && Skips(text, stack)
    ensures CompoundFrom(text + rest, stack) == Plus(|text|, CompoundFrom(rest, stack))
  {
    hide CompoundFrom;
  }

  lemma SkipsBoth(a: seq<byte>, b: seq<byte>, stack: seq<byte>)
    requires stack != [] && Skips(a, stack) && Skips(b, stack)
    ensures Skips(a + b, stack)
  {
    hide CompoundFrom, Skips;
    forall rest: seq<byte> ensures CompoundFrom(a + b + rest, stack) == Plus(|a + b|, CompoundFrom(rest, stack)) {
      SkipsAt(b, rest, stack);
      SkipsAt(a, b + rest, stack);
      assert a + b + rest == a + (b + rest);
    }
    SkipsMeans(a + b, stack);
  }

  lemma {:induction false} SkipsPlain(bs: seq<byte>, stack: seq<byte>)
    requires AllPlain(bs) && stack != []
    ensures Skips(bs, stack)
  {
    if bs == [] {
      assert forall rest: seq<byte> :: bs + rest == rest;
    } else {
      SkipsPlain(bs[1..], stack);
      forall rest: seq<byte> ensures CompoundFrom(bs + rest, stack) == Plus(|bs|, CompoundFrom(rest, stack)) {
        assert (bs + rest)[1..] == bs[1..] + rest;
        assert IsPlain(bs[0]);
      }
    }
  }

  lemma SkipsWs(ws: seq<byte>, stack: seq<byte>)
    requires AllWs(ws) && stack != []
    ensures Skips(ws, stack)
  {
    assert AllPlain(ws) by {
      forall i | 0 <= i < |ws| ensures IsPlain(ws[i]) { assert IsWs(ws[i]); }
    }
    SkipsPlain(ws, stack);
  }

  lemma SkipsScalarBytes(bs: seq<byte>, stack: seq<byte>)
    requires stack != [] && forall i | 0 <= i < |bs| :: IsScalarByte(bs[i])
    ensures Skips(bs, stack)
  {
    assert AllPlain(bs) by {
      forall i | 0 <= i < |bs| ensures IsPlain(bs[i]) { assert IsScalarByte(bs[i]); }
    }
    SkipsPlain(bs, stack);
  }

  lemma SkipsText(units: seq<Unit>, stack: seq<byte>)
    requires AllLegal(units) && stack != []
    ensures Skips(Quoted(units), stack)
  {
    forall rest: seq<byte>
      ensures CompoundFrom(Quoted(units) + rest, stack) == Plus(|Quoted(units)|, CompoundFrom(rest, stack))
    {
      EndOfQuoted(units, rest);
      assert (Quoted(units) + rest)[|Quoted(units)|..] == rest;
    }
  }

  lemma NumberBytes(v: Json)
    requires v.Number? && WellFormed(v)
    ensures Render(v) != [] && (Render(v)[0] == 0x2D || IsDigit(Render(v)[0]))
    ensures forall i | 0 <= i < |Render(v)| :: IsScalarByte(Render(v)[i])
  {
    var sign := if v.minus then [0x2D] else [];
    var fraction := if v.fraction.Some? then [0x2E] + v.fraction.value else [];
    ExponentBytes(v.exponent);
    assert forall i | 0 <= i < |v.whole| :: IsScalarByte(v.whole[i]);
    assert forall i | 0 <= i < |fraction| :: IsScalarByte(fraction[i]);
    assert Render(v) == sign + v.whole + fraction + ExponentText(v.exponent);
  }

  lemma ExponentBytes(e: Exponent)
    requires LegalExponent(e)
    ensures forall i | 0 <= i < |ExponentText(e)| :: IsScalarByte(ExponentText(e)[i])
  {
  }

  /** An opening bracket, text that is passed over inside it, and the closing bracket. */
  lemma SkipsBracketed(open: byte, inside: seq<byte>, close: byte, rest: seq<byte>, stack: seq<byte>)
    requires (close == CLOSE_BRACE && open == OPEN_BRACE) || (close == CLOSE_BRACKET && open == OPEN_BRACKET)
    requires Skips(inside, stack + [open])
    ensures CompoundFrom(inside + [close] + rest, stack + [open]) ==
            if stack == [] then Ok(|inside| + 1) else Plus(|inside| + 1, CompoundFrom(rest, stack))
  {
    hide Skips;
    assert inside + [close] + rest == inside + ([close] + rest);
    SkipsAt(inside, [close] + rest, stack + [open]);
    assert ([close] + rest)[1..] == rest;
    assert (stack + [open])[..|stack|] == stack;
  }

  /** What stands between the brackets of an array or an object. */
  function Inside(v: Json): seq<byte>
    requires v.Array? || v.Object?
  {
    if v.Array? then v.pad + RenderItems(v.items) else v.pad + RenderMembers(v.members)
  }

  function Opening(v: Json): byte
    requires v.Array? || v.Object?
  {
    if v.Array? then OPEN_BRACKET else OPEN_BRACE
  }

  function Closing(v: Json): byte
    requires v.Array? || v.Object?
  {
    if v.Array? then CLOSE_BRACKET else CLOSE_BRACE
  }

  lemma RenderBracketed(v: Json)
    requires v.Array? || v.Object?
    ensures Render(v) == [Opening(v)] + (Inside(v) + [Closing(v)])
  {
  }

  /** Inside brackets a value is passed over whole, whatever is open around it. */
  lemma {:induction false} SkipsValue(v: Json, stack: seq<byte>)
    requires WellFormed(v) && stack != []
    ensures Skips(Render(v), stack)
    decreases v
  {
    match v {
      case Text(units) => SkipsText(units, stack);
      case Number(_, _, _, _) =>
        NumberBytes(v);
        SkipsScalarBytes(Render(v), stack);
      case True => SkipsScalarBytes(TRUE, stack);
      case False => SkipsScalarBytes(FALSE, stack);
      case Null => SkipsScalarBytes(NULL, stack);
      case _ =>
        SkipsInside(v, stack + [Opening(v)]);
        SkipsCompound(v, stack);
    }
  }

  lemma {:induction false} SkipsCompound(v: Json, stack: seq<byte>)
    requires (v.Array? || v.Object?) && stack != [] && Skips(Inside(v), stack + [Opening(v)])
    ensures Skips(Render(v), stack)
  {
    hide Inside, Render, Skips;
    RenderBracketed(v);
    forall rest: seq<byte> ensures CompoundFrom(Render(v) + rest, stack) == Plus(|Render(v)|, CompoundFrom(rest, stack)) {
      SkipsBracketed(Opening(v), Inside(v), Closing(v), rest, stack);
      assert (Render(v) + rest)[1..] == Inside(v) + [Closing(v)] + rest;
    }
    SkipsMeans(Render(v), stack);
  }

  lemma {:induction false} SkipsInside(v: Json, stack: seq<byte>)
    requires WellFormed(v) && (v.Array? || v.Object?) && stack != []
    ensures Skips(Inside(v), stack)
    decreases v, 0
  {
    hide Skips;
    SkipsWs(v.pad, stack);
    if v.Array? {
      SkipsItems(v.items, stack);
      SkipsBoth(v.pad, RenderItems(v.items), stack);
    } else {
      SkipsMembers(v.members, stack);
      SkipsBoth(v.pad, RenderMembers(v.members), stack);
    }
  }

  lemma SkipsAfter(after: seq<byte>, more: bool, stack: seq<byte>)
    requires AllWs(after) && stack != []
    ensures Skips(after + Separator(more), stack)
  {
    SkipsWs(after, stack);
    SkipsPlain(Separator(more), stack);
    SkipsBoth(after, Separator(more), stack);
  }

  lemma {:induction false} SkipsItems(items: Items, stack: seq<byte>)
    requires WellFormedItems(items) && stack != []
    ensures Skips(RenderItems(items), stack)
    decreases items
  {
    hide Skips, Render, WellFormed;
    match items {
      case NoItems => SkipsPlain([], stack);
      case Item(before, value, after, more) =>
        SkipsItems(more, stack);
        SkipsAfter(after, more.Item?, stack);
        SkipsBoth(after + Separator(more.Item?), RenderItems(more), stack);
        SkipsValue(value, stack);
        SkipsBoth(Render(value), after + Separator(more.Item?) + RenderItems(more), stack);
        SkipsWs(before, stack);
        SkipsBoth(before, Render(value) + (after + Separator(more.Item?) + RenderItems(more)), stack);
    }
  }

  lemma SkipsHead(m: Members, stack: seq<byte>)
    requires m.Member? && WellFormedMembers(m) && stack != []
    ensures Skips(Head(m), stack)
  {
    hide Skips;
    var middle := m.afterKey + [COLON] + m.beforeValue;
    assert AllPlain(middle) by {
      forall i | 0 <= i < |middle| ensures IsPlain(middle[i]) { assert IsWs(middle[i]) || middle[i] == COLON; }
    }
    SkipsPlain(middle, stack);
    SkipsText(m.key, stack);
    SkipsBoth(Quoted(m.key), middle, stack);
    SkipsWs(m.before, stack);
    SkipsBoth(m.before, Quoted(m.key) + middle, stack);
  }

  lemma {:induction false} SkipsMembers(ms: Members, stack: seq<byte>)
    requires WellFormedMembers(ms) && stack != []
    ensures Skips(RenderMembers(ms), stack)
    decreases ms
  {
    hide Skips, Render, WellFormed, Head;
    match ms {
      case NoMembers => SkipsPlain([], stack);
      case Member(_, _, _, _, value, after, more) =>
        SkipsMembers(more, stack);
        SkipsAfter(after, more.Member?, stack);
        SkipsBoth(after + Separator(more.Member?), RenderMembers(more), stack);
        SkipsValue(value, stack);
        SkipsBoth(Render(value), after + Separator(more.Member?) + RenderMembers(more), stack);
        SkipsHead(ms, stack);
        SkipsBoth(Head(ms), Render(value) + (after + Separator(more.Member?) + RenderMembers(more)), stack);
    }
  }

  lemma CompoundEnds(v: Json, rest: seq<byte>)
    requires WellFormed(v) && (v.Array? || v.Object?)
    ensures ValueEnd(Render(v) + rest) == Ok(|Render(v)|)
  {
    hide CompoundFrom, Inside, Render;
    SkipsInside(v, [Opening(v)]);
    assert [] + [Opening(v)] == [Opening(v)];
    SkipsBracketed(Opening(v), Inside(v), Closing(v), rest, []);
    RenderBracketed(v);
    assert (Render(v) + rest)[1..] == Inside(v) + [Closing(v)] + rest;
  }

  /** `json_value_end` returns exactly the end of any rendered value; a number must not run on into more of its characters. */
  lemma ValueEndsExactly(v: Json, rest: seq<byte>)
    requires WellFormed(v)
    requires v.Number? && rest != [] ==> !IsScalarByte(rest[0])
    ensures ValueEnd(Render(v) + rest) == Ok(|Render(v)|)
  {
    hide CompoundFrom, StringEnd;
    var input := Render(v) + rest;
    match v {
      case Text(units) => EndOfQuoted(units, rest);
      case Number(_, _, _, _) =>
        NumberBytes(v);
        ScalarEndIs(Render(v), rest);
      case True =>
      case False =>
      case Null =>
      case _ =>
        CompoundEnds(v, rest);
    }
  }

  lemma {:induction false} ScalarEndIs(bs: seq<byte>, rest: seq<byte>)
    requires (forall i | 0 <= i < |bs| :: IsScalarByte(bs[i])) && (rest != [] ==> !IsScalarByte(rest[0]))
    ensures ScalarEnd(bs + rest) == |bs|
  {
    if bs == [] {
      assert bs + rest == rest;
    } else {
      assert (bs + rest)[1..] == bs[1..] + rest;
      ScalarEndIs(bs[1..], rest);
    }
  }
}
