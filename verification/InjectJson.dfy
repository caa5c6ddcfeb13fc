/**
 The JSON file that `deliver inject` writes (crates/avault-cli/src/main.rs), read back with the grammar and the
 lookup of `JsonValue` and `JsonLookup`.
 */
module InjectJson {
  import opened Bytes
  import opened JsonLookup
  import opened JsonString
  import opened JsonValue
  import opened ShellNames
  import opened Utf8
  import opened Wrappers
  import JsonText

  const OPENING: seq<byte> := [OPEN_BRACE, 0x0A]
  const INDENT: seq<byte> := [0x20, 0x20]
  const COLON_SPACE: seq<byte> := [COLON, 0x20]
  const NEWLINE: byte := 0x0A

  function Entry(secret: Secret, more: bool): seq<byte> {
    INDENT + JsonText.Encoded(secret.name) + COLON_SPACE + JsonText.Encoded(secret.value) + Separator(more) + [NEWLINE]
  }

  function Entries(secrets: seq<Secret>): seq<byte> {
    if secrets == [] then [] else Entry(secrets[0], |secrets| > 1) + Entries(secrets[1..])
  }

  function File(secrets: seq<Secret>): seq<byte> {
    OPENING + Entries(secrets) + [CLOSE_BRACE, NEWLINE]
  }

  function Rendered(secrets: seq<Secret>): Result<seq<byte>, ValueError> {
    match FirstValueError(secrets)
    case Some(e) => Err(e)
    case None => Ok(File(secrets))
  }

  // ----- the file is the text of an object

  /** Every member stands on its own line; the newline after the last one belongs to it. */
  function MembersOf(secrets: seq<Secret>): Members {
    if secrets == [] then NoMembers
    else
      Member([NEWLINE] + INDENT, JsonText.Units(secrets[0].name), [], [0x20], Text(JsonText.Units(secrets[0].value)),
             if |secrets| > 1 then [] else [NEWLINE], MembersOf(secrets[1..]))
  }

  lemma {:induction false} MembersWellFormed(secrets: seq<Secret>)
    ensures WellFormedMembers(MembersOf(secrets)) && (MembersOf(secrets).Member? <==> secrets != [])
  {
    hide JsonText.Units;
    if secrets != [] {
      MembersWellFormed(secrets[1..]);
    }
  }

  lemma EntryShape(name: seq<byte>, value: seq<byte>, separator: seq<byte>, after: seq<byte>, later: seq<byte>)
    ensures after == [] ==>
              [NEWLINE] + ((INDENT + name + COLON_SPACE + value + separator + [NEWLINE]) + later) ==
              ([NEWLINE] + INDENT + (name + ([] + [COLON] + [0x20]))) + (value + (after + separator + ([NEWLINE] + later)))
    ensures after == [NEWLINE] && separator == [] ==>
              [NEWLINE] + ((INDENT + name + COLON_SPACE + value + separator + [NEWLINE]) + later) ==
              ([NEWLINE] + INDENT + (name + ([] + [COLON] + [0x20]))) + (value + (after + separator + later))
  {
  }

  lemma MembersUnfold(secrets: seq<Secret>)
    requires secrets != []
    ensures var rest := MembersOf(secrets[1..]);
            RenderMembers(MembersOf(secrets)) ==
            ([NEWLINE] + INDENT + (JsonText.Encoded(secrets[0].name) + ([] + [COLON] + [0x20])))
            + (JsonText.Encoded(secrets[0].value)
               + ((if |secrets| > 1 then [] else [NEWLINE]) + Separator(rest.Member?) + RenderMembers(rest)))
  {
    hide JsonText.Units, Quoted;
  }

  lemma {:induction false} EntriesAreMembers(secrets: seq<Secret>)
    requires secrets != []
    ensures [NEWLINE] + Entries(secrets) == RenderMembers(MembersOf(secrets))
  {
    hide JsonText.Encoded, RenderMembers, MembersOf;
    var name, value := JsonText.Encoded(secrets[0].name), JsonText.Encoded(secrets[0].value);
    MembersUnfold(secrets);
    MembersWellFormed(secrets[1..]);
    if |secrets| > 1 {
      EntriesAreMembers(secrets[1..]);
      EntryShape(name, value, [COMMA], [], Entries(secrets[1..]));
    } else {
      NoMembersRendered(secrets[1..]);
      EntryShape(name, value, [], [NEWLINE], []);
    }
  }

  lemma NoMembersRendered(secrets: seq<Secret>)
    requires secrets == []
    ensures MembersOf(secrets).NoMembers? && RenderMembers(MembersOf(secrets)) == []
  {
  }

  lemma FileIsDocument(secrets: seq<Secret>)
    requires secrets != []
    ensures WellFormed(Object([], MembersOf(secrets)))
    ensures File(secrets) == Document([], [], MembersOf(secrets), [NEWLINE])
  {
    hide Entries, RenderMembers, WellFormedMembers, MembersOf;
    MembersWellFormed(secrets);
    EntriesAreMembers(secrets);
    assert File(secrets) == [OPEN_BRACE] + ([NEWLINE] + Entries(secrets)) + [CLOSE_BRACE] + [NEWLINE];
  }

  lemma {:induction false} FindsSecret(secrets: seq<Secret>, i: nat)
    requires i < |secrets| && forall j | 0 <= j < |secrets| :: |secrets[j].name| <= MAX_SECRET_BYTES
    requires forall j | 0 <= j < i :: secrets[j].name != secrets[i].name
    ensures WellFormedMembers(MembersOf(secrets))
    ensures var o := Lookup(MembersOf(secrets), secrets[i].name); o.Found? && o.value == Text(JsonText.Units(secrets[i].value))
  {
    hide JsonText.Units, WellFormedMembers, Render, Head;
    MembersWellFormed(secrets);
    JsonText.UnitsMean(secrets[0].name);
    if i > 0 {
      assert secrets[1..][i - 1] == secrets[i] && secrets[0].name != secrets[i].name;
      FindsSecret(secrets[1..], i - 1);
    }
  }

  /**
   The file is a JSON object, and looking up the name of any secret in it finds that secret's value: a string that
   decodes to exactly its bytes. (Target names are distinct, and secrets are within the size cap.)
   */
  lemma {:induction false} EverySecretFound(secrets: seq<Secret>, i: nat)
    requires i < |secrets| && forall j | 0 <= j < |secrets| :: |secrets[j].name| <= MAX_SECRET_BYTES
    requires forall j, k | 0 <= j < k < |secrets| :: secrets[j].name != secrets[k].name
    requires |secrets[i].value| <= MAX_SECRET_BYTES
    ensures var at := Find(File(secrets), secrets[i].name);
            at.Ok? && Decode(From(File(secrets), at.value)) == Ok(secrets[i].value)
  {
    hide Find, Lookup, Document, MembersOf, JsonText.Units, Decode, WellFormedMembers, File;
    FileIsDocument(secrets);
    FindsSecret(secrets, i);
    var name := secrets[i].name;
    DocumentFound([], [], MembersOf(secrets), [NEWLINE], name);
    StandsDecodes(File(secrets), Find(File(secrets), name).value, secrets[i].value);
  }

  lemma {:induction false} StandsDecodes(text: seq<byte>, at: nat, value: seq<byte>)
    requires Stands(text, at, Text(JsonText.Units(value))) && |value| <= MAX_SECRET_BYTES
    ensures Decode(From(text, at)) == Ok(value)
  {
    hide Decode, JsonText.Units, WrittenAll;
    var rest: seq<byte> :| From(text, at) == Render(Text(JsonText.Units(value))) + rest && rest != [] && !IsScalarByte(rest[0]);
    JsonText.DecodesEncoded(value, rest);
  }

  // ----- the loop of the source

  method RenderJson(secrets: seq<Secret>) returns (r: Result<seq<byte>, ValueError>)
    ensures r == Rendered(secrets)
  {
    hide JsonText.Encoded, Valid;
    var out := OPENING;
    var k := 0;
    assert secrets[0..] == secrets;
    while k < |secrets|
      invariant k <= |secrets|
      invariant FirstValueError(secrets) == FirstValueError(secrets[k..])
      invariant out + Entries(secrets[k..]) == OPENING + Entries(secrets)
    {
      var secret := secrets[k];
      ghost var later := Entries(secrets[k + 1..]);
      assert secrets[k..][1..] == secrets[k + 1..];
      var value := SecretUtf8(secret.value);
      if value.Err? {
        return Err(value.error);
      }
      ghost var before := out;
      out := out + INDENT;
      out := out + JsonText.Encoded(secret.name);
      out := out + COLON_SPACE;
      out := out + JsonText.Encoded(value.value);
      out := out + Separator(k + 1 != |secrets|);
      out := out + [NEWLINE];
      EntryWritten(before, secret, k + 1 != |secrets|, later);
      k := k + 1;
    }
    assert secrets[k..] == [];
    ghost var written := out;
    out := out + [CLOSE_BRACE];
    out := out + [NEWLINE];
    assert out == written + [CLOSE_BRACE, NEWLINE] && written + [] == written;
    r := Ok(out);
  }

  lemma EntryWritten(before: seq<byte>, secret: Secret, more: bool, later: seq<byte>)
    ensures before + INDENT + JsonText.Encoded(secret.name) + COLON_SPACE + JsonText.Encoded(secret.value) + Separator(more) + [NEWLINE] + later
            == before + (Entry(secret, more) + later)
  {
    hide JsonText.Encoded;
  }
}
