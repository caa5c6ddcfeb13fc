/**
 The key-import scanner's lookup of a top-level member, in crates/avault-cli/src/main.rs: specification, the
 loops of the source proved against it, and its correctness on every well-formed object.
 */
module JsonLookup {
  import opened Bytes
  import opened JsonString
  import opened JsonValue
  import opened Wrappers

  // ----- the scanner

  datatype Header = Header(key: seq<byte>, value: nat)

  /** After a key: the colon and the white space around it, up to the value. */
  function AfterKey(input: seq<byte>): (r: Result<nat, JsonError>)
    ensures r.Ok? ==> r.value <= |input|
  {
    var colon := Ws(input);
    if colon == |input| || input[colon] != COLON then Err(BadObject)
    else Ok(colon + 1 + Ws(input[colon + 1..]))
  }

  /** One key, its colon and the white space around them: the decoded key and where the value starts. */
  function ReadHeader(input: seq<byte>): (r: Result<Header, JsonError>)
    ensures r.Ok? ==> r.value.value <= |input|
  {
    var at := Ws(input);
    if at < |input| && input[at] == CLOSE_BRACE then Err(MissingField)
    else if at == |input| || input[at] != QUOTE then Err(KeyExpected)
    else
      match Decode(input[at..])
      case Err(e) => Err(e)
      case Ok(key) =>
        match StringEnd(input[at..])
        case Err(e) => Err(e)
        case Ok(n) =>
          StringEndBounds(input[at..]);
          var value := AfterKey(input[at + n..]);
          if value.Err? then Err(value.error) else Ok(Header(key, at + n + value.value))
  }

  /** From the start of a value to the start of the next member. */
  function NextMember(input: seq<byte>): Result<nat, JsonError> {
    match ValueEnd(input)
    case Err(e) => Err(e)
    case Ok(n) =>
      ValueEndBounds(input);
      var at := n + Ws(input[n..]);
      if at < |input| && input[at] == COMMA then Ok(at + 1)
      else if at < |input| && input[at] == CLOSE_BRACE then Err(MissingField)
      else Err(BadObject)
  }

  lemma {:induction false} CompoundBounds(input: seq<byte>, stack: seq<byte>)
    requires stack != [] && CompoundFrom(input, stack).Ok?
    ensures CompoundFrom(input, stack).value <= |input|
    decreases |input|
  {
    if input[0] == QUOTE {
      StringEndBounds(input);
      CompoundBounds(input[StringEnd(input).value..], stack);
    } else if input[0] == OPEN_BRACE || input[0] == OPEN_BRACKET {
      CompoundBounds(input[1..], stack + [input[0]]);
    } else if input[0] == CLOSE_BRACE || input[0] == CLOSE_BRACKET {
      if |stack| > 1 {
        CompoundBounds(input[1..], stack[..|stack| - 1]);
      }
    } else {
      CompoundBounds(input[1..], stack);
    }
  }

  lemma ValueEndBounds(input: seq<byte>)
    requires ValueEnd(input).Ok?
    ensures ValueEnd(input).value <= |input|
  {
    if input[0] == QUOTE {
      StringEndBounds(input);
    } else if input[0] == OPEN_BRACE || input[0] == OPEN_BRACKET {
      CompoundBounds(input[1..], [input[0]]);
    }
  }

  lemma NextMemberBounds(input: seq<byte>)
    requires NextMember(input).Ok?
    ensures 1 <= NextMember(input).value <= |input|
  {
    ValueEndBounds(input);
  }

  /** `find_json_field_value` from the head of its loop: where the value of the first member called `field` starts. */
  function FindFrom(input: seq<byte>, field: seq<byte>): Result<nat, JsonError>
    decreases |input|
  {
    match ReadHeader(input)
    case Err(e) => Err(e)
    case Ok(header) =>
      if header.key == field then Ok(header.value)
      else
        match NextMember(input[header.value..])
        case Err(e) => Err(e)
        case Ok(n) =>
          NextMemberBounds(input[header.value..]);
          Plus(header.value + n, FindFrom(input[header.value + n..], field))
  }

  function Find(input: seq<byte>, field: seq<byte>): Result<nat, JsonError> {
    var at := Ws(input);
    if at == |input| || input[at] != OPEN_BRACE then Err(NotAnObject)
    else Plus(at + 1, FindFrom(input[at + 1..], field))
  }

  // ----- what a lookup should give

  /** The first member whose decoded key is `field`, unless a key before it is over the size cap. */
  datatype Outcome =
    | Found(offset: nat, value: Json)
    | Absent
    | Oversized

  function Shifted(n: nat, o: Outcome): Outcome {
    if o.Found? then o.(offset := n + o.offset) else o
  }

  function MemberText(m: Members): seq<byte>
    requires m.Member?
  {
    Head(m) + (Render(m.value) + (m.after + Separator(m.rest.Member?)))
  }

  function Lookup(ms: Members, field: seq<byte>): Outcome
    requires WellFormedMembers(ms)
  {
    match ms
    case NoMembers => Absent
    case Member(_, key, _, _, value, _, rest) =>
      if |MeaningAll(key)| > MAX_SECRET_BYTES then Oversized
      else if MeaningAll(key) == field then Found(|Head(ms)|, value)
      else Shifted(|MemberText(ms)|, Lookup(rest, field))
  }

  predicate Agrees(r: Result<nat, JsonError>, o: Outcome) {
    match o
    case Found(offset, _) => r == Ok(offset)
    case Absent => r == Err(MissingField)
    case Oversized => r == Err(TooLong)
  }

  lemma AfterKeyRead(afterKey: seq<byte>, beforeValue: seq<byte>, rest: seq<byte>)
    requires AllWs(afterKey) && AllWs(beforeValue) && (rest != [] ==> !IsWs(rest[0]))
    ensures AfterKey(afterKey + [COLON] + beforeValue + rest) == Ok(|afterKey + [COLON] + beforeValue|)
  {
    hide AllWs, Ws;
    var fromColon := [COLON] + (beforeValue + rest);
    var input := afterKey + fromColon;
    assert afterKey + [COLON] + beforeValue + rest == input;
    WsIs(afterKey, fromColon);
    assert input[|afterKey| + 1..] == beforeValue + rest;
    WsIs(beforeValue, rest);
  }

  lemma {:induction false} KeyRead(before: seq<byte>, key: seq<Unit>, rest: seq<byte>)
    requires AllWs(before) && AllLegal(key)
    ensures ReadHeader(before + (Quoted(key) + rest)) ==
            if |MeaningAll(key)| > MAX_SECRET_BYTES then Err(TooLong)
            else if AfterKey(rest).Err? then Err(AfterKey(rest).error)
            else Ok(Header(MeaningAll(key), |before| + |Quoted(key)| + AfterKey(rest).value))
  {
    hide Decode, StringEnd, Ws, MeaningAll, AllLegal, AfterKey, WrittenAll, AllWs;
    var fromKey := Quoted(key) + rest;
    WsIs(before, fromKey);
    DecodesQuoted(key, rest);
    EndOfQuoted(key, rest);
    assert (before + fromKey)[|before| + |Quoted(key)|..] == rest;
  }

  lemma HeadRead(m: Members, rest: seq<byte>)
    requires m.Member? && WellFormedMembers(m) && (rest != [] ==> !IsWs(rest[0]))
    ensures ReadHeader(Head(m) + rest) == if |MeaningAll(m.key)| > MAX_SECRET_BYTES then Err(TooLong) else Ok(Header(MeaningAll(m.key), |Head(m)|))
  {
    hide ReadHeader, AfterKey, AllWs, MeaningAll, AllLegal, WellFormed, Quoted;
    var middle := m.afterKey + [COLON] + m.beforeValue;
    assert Head(m) + rest == m.before + (Quoted(m.key) + (middle + rest));
    AfterKeyRead(m.afterKey, m.beforeValue, rest);
    KeyRead(m.before, m.key, middle + rest);
  }

  lemma NoHead(pad: seq<byte>, rest: seq<byte>)
    requires AllWs(pad)
    ensures ReadHeader(pad + ([CLOSE_BRACE] + rest)) == Err(MissingField)
  {
    WsIs(pad, [CLOSE_BRACE] + rest);
  }

  lemma RenderStarts(v: Json, rest: seq<byte>)
    requires WellFormed(v)
    ensures Render(v) != [] && !IsWs((Render(v) + rest)[0])
  {
    if v.Number? {
      NumberBytes(v);
    }
  }

  lemma AfterStarts(after: seq<byte>, rest: seq<byte>)
    requires AllWs(after) && rest != [] && (rest[0] == COMMA || rest[0] == CLOSE_BRACE)
    ensures !IsScalarByte((after + rest)[0])
  {
    if after != [] {
      assert IsWs(after[0]);
    }
  }

  lemma NextRead(m: Members, rest: seq<byte>)
    requires m.Member? && WellFormedMembers(m) && (!m.rest.Member? ==> rest != [] && rest[0] == CLOSE_BRACE)
    ensures NextMember(Render(m.value) + (m.after + Separator(m.rest.Member?) + rest)) ==
            if m.rest.Member? then Ok(|Render(m.value) + m.after| + 1) else Err(MissingField)
  {
    hide Render, WellFormed, ValueEnd, Ws;
    var following := Separator(m.rest.Member?) + rest;
    AfterStarts(m.after, following);
    ValueEndsExactly(m.value, m.after + following);
    var input := Render(m.value) + (m.after + following);
    assert Render(m.value) + (m.after + Separator(m.rest.Member?) + rest) == input;
    assert input[|Render(m.value)|..] == m.after + following;
    WsIs(m.after, following);
    assert input[|Render(m.value)| + |m.after|..] == following;
  }

  /** The input from a position on, which is past its end for a position that is. */
  function From(input: seq<byte>, at: nat): seq<byte> {
    if at <= |input| then input[at..] else []
  }

  lemma Suffix(a: seq<byte>, b: seq<byte>)
    ensures (a + b)[|a|..] == b
  {
  }

  /** One turn of the loop. */
  lemma {:induction false} FindTurn(head: seq<byte>, fromValue: seq<byte>, header: Header, field: seq<byte>)
    requires ReadHeader(head + fromValue) == Ok(header) && header.value == |head| && header.key != field
    ensures FindFrom(head + fromValue, field) ==
            if NextMember(fromValue).Err? then Err(NextMember(fromValue).error)
            else Plus(|head| + NextMember(fromValue).value, FindFrom(From(fromValue, NextMember(fromValue).value), field))
  {
    hide ReadHeader, NextMember;
    Suffix(head, fromValue);
    if NextMember(fromValue).Ok? {
      var n := NextMember(fromValue).value;
      NextMemberBounds(fromValue);
      assert (head + fromValue)[|head| + n..] == fromValue[n..];
    }
  }

  lemma MembersSplit(ms: Members, tail: seq<byte>)
    requires ms.Member?
    ensures RenderMembers(ms) + tail ==
            Head(ms) + (Render(ms.value) + (ms.after + Separator(ms.rest.Member?) + (RenderMembers(ms.rest) + tail)))
  {
    hide Head, Render;
  }

  /** One member: its key decides, or the scan goes on after it. */
  lemma FindsMember(m: Members, next: seq<byte>, field: seq<byte>)
    requires m.Member? && WellFormedMembers(m) && (!m.rest.Member? ==> next != [] && next[0] == CLOSE_BRACE)
    ensures FindFrom(Head(m) + (Render(m.value) + (m.after + Separator(m.rest.Member?) + next)), field) ==
            if |MeaningAll(m.key)| > MAX_SECRET_BYTES then Err(TooLong)
            else if MeaningAll(m.key) == field then Ok(|Head(m)|)
            else if m.rest.Member? then Plus(|MemberText(m)|, FindFrom(next, field))
            else Err(MissingField)
  {
    hide ReadHeader, NextMember, Head, Render, MeaningAll, WellFormed, AllWs, AllLegal;
    var fromValue := Render(m.value) + (m.after + Separator(m.rest.Member?) + next);
    RenderStarts(m.value, m.after + Separator(m.rest.Member?) + next);
    HeadRead(m, fromValue);
    if |MeaningAll(m.key)| <= MAX_SECRET_BYTES && MeaningAll(m.key) != field {
      FindTurn(Head(m), fromValue, Header(MeaningAll(m.key), |Head(m)|), field);
      NextRead(m, next);
      if m.rest.Member? {
        var passed := Render(m.value) + (m.after + Separator(m.rest.Member?));
        assert fromValue == passed + next;
        Suffix(passed, next);
      }
    }
  }

  /** On the members of an object, whatever stands in their values, the scan agrees with the lookup. */
  lemma {:induction false} FindsMembers(ms: Members, rest: seq<byte>, field: seq<byte>)
    requires WellFormedMembers(ms) && ms.Member?
    ensures Agrees(FindFrom(RenderMembers(ms) + ([CLOSE_BRACE] + rest), field), Lookup(ms, field))
    decreases ms
  {
    hide FindFrom, Head, Render, MeaningAll, WellFormed, AllWs, AllLegal, MemberText, RenderMembers;
    var tail := [CLOSE_BRACE] + rest;
    var next := RenderMembers(ms.rest) + tail;
    MembersSplit(ms, tail);
    if ms.rest.Member? {
      FindsMember(ms, next, field);
      FindsMembers(ms.rest, rest, field);
    } else {
      NoneRendered();
      FindsMember(ms, next, field);
    }
  }

  lemma NoneRendered()
    ensures RenderMembers(NoMembers) == []
  {
  }

  function Document(lead: seq<byte>, pad: seq<byte>, ms: Members, trail: seq<byte>): seq<byte> {
    lead + (Render(Object(pad, ms)) + trail)
  }

  lemma OpensObject(lead: seq<byte>, inside: seq<byte>, field: seq<byte>)
    requires AllWs(lead)
    ensures Find(lead + ([OPEN_BRACE] + inside), field) == Plus(|lead| + 1, FindFrom(inside, field))
  {
    hide FindFrom, AllWs, Ws;
    WsIs(lead, [OPEN_BRACE] + inside);
    assert (lead + ([OPEN_BRACE] + inside))[|lead| + 1..] == inside;
  }

  /**
   The lookup is right on every well-formed object: it returns where the value of the first top-level member with
   that decoded key starts, or reports that there is none, or that a key before it is over the size cap.
   */
  lemma FindsExactly(lead: seq<byte>, pad: seq<byte>, ms: Members, trail: seq<byte>, field: seq<byte>)
    requires AllWs(lead) && WellFormed(Object(pad, ms))
    ensures Agrees(Find(Document(lead, pad, ms, trail), field), Shifted(|lead| + 1 + |pad|, Lookup(ms, field)))
  {
    hide Find, FindFrom, Lookup, WellFormedMembers, RenderMembers, AllWs;
    var inside := pad + (RenderMembers(ms) + ([CLOSE_BRACE] + trail));
    assert Document(lead, pad, ms, trail) == lead + ([OPEN_BRACE] + inside);
    OpensObject(lead, inside, field);
    FindsPadded(pad, ms, trail, field);
  }

  /** White space before the first member belongs to it. */
  lemma {:induction false} FindsPadded(pad: seq<byte>, ms: Members, trail: seq<byte>, field: seq<byte>)
    requires AllWs(pad) && WellFormedMembers(ms)
    ensures Agrees(FindFrom(pad + (RenderMembers(ms) + ([CLOSE_BRACE] + trail)), field), Shifted(|pad|, Lookup(ms, field)))
  {
    hide FindFrom, RenderMembers, Lookup, AllWs, WellFormedMembers;
    if ms.NoMembers? {
      FindsNone(pad, trail, field);
    } else {
      var padded := ms.(before := pad + ms.before);
      PaddedLookup(pad, ms, field);
      FindsMembers(padded, trail, field);
      assert RenderMembers(padded) + ([CLOSE_BRACE] + trail) == pad + (RenderMembers(ms) + ([CLOSE_BRACE] + trail));
    }
  }

  lemma FindsNone(pad: seq<byte>, trail: seq<byte>, field: seq<byte>)
    requires AllWs(pad)
    ensures FindFrom(pad + (RenderMembers(NoMembers) + ([CLOSE_BRACE] + trail)), field) == Err(MissingField)
    ensures Lookup(NoMembers, field) == Absent
  {
    hide ReadHeader, NextMember, AllWs;
    NoHead(pad, trail);
    assert RenderMembers(NoMembers) + ([CLOSE_BRACE] + trail) == [CLOSE_BRACE] + trail;
  }

  lemma {:induction false} PaddedLookup(pad: seq<byte>, ms: Members, field: seq<byte>)
    requires AllWs(pad) && ms.Member? && WellFormedMembers(ms)
    ensures var padded := ms.(before := pad + ms.before);
            && WellFormedMembers(padded) && Lookup(padded, field) == Shifted(|pad|, Lookup(ms, field))
            && RenderMembers(padded) == pad + RenderMembers(ms)
  {
    hide Render, MeaningAll, WellFormed, AllLegal, Quoted;
    var padded := ms.(before := pad + ms.before);
    assert Head(padded) == pad + Head(ms);
    assert MemberText(padded) == pad + MemberText(ms);
  }

  // ----- what an import reads

  const BLOB: seq<byte> := [0x62, 0x6C, 0x6F, 0x62]
  const PASSPHRASE: seq<byte> := [0x70, 0x61, 0x73, 0x73, 0x70, 0x68, 0x72, 0x61, 0x73, 0x65]

  function ImportBlob(input: seq<byte>): Result<seq<byte>, JsonError> {
    var at := Find(input, BLOB);
    if at.Err? then Err(at.error)
    else
      var value := From(input, at.value);
      var n := ValueEnd(value);
      if n.Err? then Err(n.error) else ValueEndBounds(value); Ok(value[..n.value])
  }

  function ImportPassphrase(input: seq<byte>): Result<seq<byte>, JsonError> {
    var at := Find(input, PASSPHRASE);
    if at.Err? then Err(at.error) else Decode(From(input, at.value))
  }

  /** The text from a found offset on is the value, and what follows it cannot continue a number. */
  ghost predicate Stands(text: seq<byte>, offset: nat, v: Json) {
    exists rest: seq<byte> :: From(text, offset) == Render(v) + rest && rest != [] && !IsScalarByte(rest[0])
  }

  lemma {:induction false} FoundStands(ms: Members, tail: seq<byte>, field: seq<byte>)
    requires WellFormedMembers(ms) && Lookup(ms, field).Found?
    requires tail != [] && tail[0] == CLOSE_BRACE
    ensures WellFormed(Lookup(ms, field).value)
    ensures Stands(RenderMembers(ms) + tail, Lookup(ms, field).offset, Lookup(ms, field).value)
    decreases ms
  {
    hide Head, Render, MeaningAll, WellFormed, AllWs, AllLegal, Stands;
    var more := ms.rest.Member?;
    var next := RenderMembers(ms.rest) + tail;
    if MeaningAll(ms.key) == field {
      var rest := ms.after + (Separator(more) + next);
      AfterStarts(ms.after, Separator(more) + next);
      assert RenderMembers(ms) + tail == Head(ms) + (Render(ms.value) + rest);
      StandsAt(Head(ms), ms.value, rest);
    } else {
      FoundStands(ms.rest, tail, field);
      assert RenderMembers(ms) + tail == MemberText(ms) + next;
      StandsShifted(MemberText(ms), next, Lookup(ms.rest, field).offset, Lookup(ms.rest, field).value);
    }
  }

  lemma StandsAt(before: seq<byte>, v: Json, rest: seq<byte>)
    requires rest != [] && !IsScalarByte(rest[0])
    ensures Stands(before + (Render(v) + rest), |before|, v)
  {
    hide Render;
    Suffix(before, Render(v) + rest);
  }

  lemma StandsShifted(before: seq<byte>, text: seq<byte>, offset: nat, v: Json)
    requires Stands(text, offset, v)
    ensures Stands(before + text, |before| + offset, v)
  {
    hide Render;
    var rest: seq<byte> :| From(text, offset) == Render(v) + rest && rest != [] && !IsScalarByte(rest[0]);
    if offset <= |text| {
      assert (before + text)[|before| + offset..] == text[offset..];
    }
  }

  lemma {:induction false} DocumentFound(lead: seq<byte>, pad: seq<byte>, ms: Members, trail: seq<byte>, field: seq<byte>)
    requires AllWs(lead) && WellFormed(Object(pad, ms)) && Lookup(ms, field).Found?
    ensures Find(Document(lead, pad, ms, trail), field).Ok? && WellFormed(Lookup(ms, field).value)
    ensures Stands(Document(lead, pad, ms, trail), Find(Document(lead, pad, ms, trail), field).value, Lookup(ms, field).value)
  {
    hide Find, Stands, Lookup, WellFormedMembers, RenderMembers, AllWs;
    FindsExactly(lead, pad, ms, trail, field);
    FoundStands(ms, [CLOSE_BRACE] + trail, field);
    var before := lead + [OPEN_BRACE] + pad;
    StandsShifted(before, RenderMembers(ms) + ([CLOSE_BRACE] + trail), Lookup(ms, field).offset, Lookup(ms, field).value);
    assert Document(lead, pad, ms, trail) == before + (RenderMembers(ms) + ([CLOSE_BRACE] + trail));
  }

  /**
   An import of a well-formed object takes exactly the text of its first top-level `blob`, and the bytes its first
   top-level `passphrase` denotes; a passphrase that is not a string is refused.
   */
  lemma {:induction false} ImportsWhatIsWritten(lead: seq<byte>, pad: seq<byte>, ms: Members, trail: seq<byte>)
    requires AllWs(lead) && WellFormed(Object(pad, ms))
    ensures var input := Document(lead, pad, ms, trail);
            && (match Lookup(ms, BLOB)
                case Found(_, v) => ImportBlob(input) == Ok(Render(v))
                case Absent => ImportBlob(input) == Err(MissingField)
                case Oversized => ImportBlob(input) == Err(TooLong))
            && (match Lookup(ms, PASSPHRASE)
                case Found(_, Text(us)) =>
                  ImportPassphrase(input) == if AllLegal(us) && |MeaningAll(us)| <= MAX_SECRET_BYTES then Ok(MeaningAll(us)) else Err(TooLong)
                case Found(_, _) => ImportPassphrase(input) == Err(StringExpected)
                case Absent => ImportPassphrase(input) == Err(MissingField)
                case Oversized => ImportPassphrase(input) == Err(TooLong))
  {
    hide Find, Lookup, Document, AllWs, MeaningAll;
    var input := Document(lead, pad, ms, trail);
    FindsExactly(lead, pad, ms, trail, BLOB);
    FindsExactly(lead, pad, ms, trail, PASSPHRASE);
    if Lookup(ms, BLOB).Found? {
      DocumentFound(lead, pad, ms, trail, BLOB);
      BlobStands(input, Lookup(ms, BLOB).value);
    }
    if Lookup(ms, PASSPHRASE).Found? {
      DocumentFound(lead, pad, ms, trail, PASSPHRASE);
      PassphraseStands(input, Lookup(ms, PASSPHRASE).value);
    }
  }

  lemma {:induction false} BlobStands(input: seq<byte>, v: Json)
    requires WellFormed(v) && Find(input, BLOB).Ok? && Stands(input, Find(input, BLOB).value, v)
    ensures ImportBlob(input) == Ok(Render(v))
  {
    hide Find, Render, ValueEnd, WellFormed;
    var value := From(input, Find(input, BLOB).value);
    var rest: seq<byte> :| value == Render(v) + rest && rest != [] && !IsScalarByte(rest[0]);
    ValueEndsExactly(v, rest);
    assert value[..|Render(v)|] == Render(v);
  }

  lemma {:induction false} PassphraseStands(input: seq<byte>, v: Json)
    requires WellFormed(v) && Find(input, PASSPHRASE).Ok? && Stands(input, Find(input, PASSPHRASE).value, v)
    ensures v.Text? ==> AllLegal(v.units) && ImportPassphrase(input) == if |MeaningAll(v.units)| <= MAX_SECRET_BYTES then Ok(MeaningAll(v.units)) else Err(TooLong)
    ensures !v.Text? ==> ImportPassphrase(input) == Err(StringExpected)
  {
    hide Find, DecodeFrom, MeaningAll, AllLegal;
    var value := From(input, Find(input, PASSPHRASE).value);
    var rest: seq<byte> :| value == Render(v) + rest && rest != [] && !IsScalarByte(rest[0]);
    if v.Text? {
      DecodesQuoted(v.units, rest);
    } else if v.Number? {
      NumberBytes(v);
    }
  }
}
