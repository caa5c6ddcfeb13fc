/**
 The dotenv file that `deliver inject` writes (crates/avault-cli/src/main.rs), and a reader of assignments after
 sections 2.2.1 (escape character) and 2.2.2 (single quotes) of the POSIX Shell Command Language.
 */
module Dotenv {
  import opened Bytes
  import opened ShellNames
  import opened Utf8
  import opened Wrappers

  const QUOTE: byte := 0x27
  const BACKSLASH: byte := 0x5C
  const EQUALS: byte := 0x3D
  const NEWLINE: byte := 0x0A
  const ESCAPED_QUOTE: seq<byte> := [QUOTE, BACKSLASH, QUOTE, QUOTE]

  // ----- writing

  function QuotedBody(value: seq<byte>): seq<byte> {
    if value == [] then []
    else (if value[0] == QUOTE then ESCAPED_QUOTE else [value[0]]) + QuotedBody(value[1..])
  }

  function ShellQuoted(value: seq<byte>): seq<byte> {
    [QUOTE] + QuotedBody(value) + [QUOTE]
  }

  function Line(secret: Secret): seq<byte> {
    secret.name + [EQUALS] + ShellQuoted(secret.value) + [NEWLINE]
  }

  function File(secrets: seq<Secret>): seq<byte> {
    if secrets == [] then [] else Line(secrets[0]) + File(secrets[1..])
  }

  function Render(secrets: seq<Secret>): Result<seq<byte>, ValueError> {
    match FirstValueError(secrets)
    case Some(e) => Err(e)
    case None => Ok(File(secrets))
  }

  // ----- reading

  datatype Word = Word(value: seq<byte>, rest: seq<byte>)

  /** An unquoted byte that stands for itself. */
  predicate IsPlain(b: byte) {
    IsNameByte(b) || b == 0x25 || 0x2B <= b <= 0x2F || b == 0x3A || b == 0x40
  }

  /** A word up to the newline that ends it; `None` for text that is not a word of quoted and plain characters. */
  function ReadWord(input: seq<byte>, quoted: bool, value: seq<byte>): (w: Option<Word>)
    ensures w.Some? ==> |w.value.rest| <= |input|
    decreases |input|
  {
    if input == [] then (if quoted then None else Some(Word(value, [])))
    else if input[0] == 0 then None
    else if input[0] == QUOTE then ReadWord(input[1..], !quoted, value)
    else if quoted then ReadWord(input[1..], true, value + [input[0]])
    else if input[0] == NEWLINE then Some(Word(value, input[1..]))
    else if input[0] == BACKSLASH then
      if |input| == 1 || input[1] == 0 then None
      else if input[1] == NEWLINE then ReadWord(input[2..], false, value)
      else ReadWord(input[2..], false, value + [input[1]])
    else if IsPlain(input[0]) then ReadWord(input[1..], false, value + [input[0]])
    else None
  }

  function NameLength(input: seq<byte>): (n: nat)
    ensures n <= |input|
  {
    if input == [] || !IsNameByte(input[0]) then 0 else 1 + NameLength(input[1..])
  }

  function ReadFile(input: seq<byte>): Option<seq<Secret>>
    decreases |input|
  {
    if input == [] then Some([])
    else
      var n := NameLength(input);
      if n == |input| || input[n] != EQUALS || !ValidName(input[..n]) then None
      else
        var word := ReadWord(input[n + 1..], false, []);
        if word.None? then None
        else
          var others := ReadFile(word.value.rest);
          if others.None? then None else Some([Secret(input[..n], word.value.value)] + others.value)
  }

  // ----- the round trip

  lemma ReadsByte(b: byte, rest: seq<byte>, value: seq<byte>)
    requires b != 0
    ensures ReadWord((if b == QUOTE then ESCAPED_QUOTE else [b]) + rest, true, value) == ReadWord(rest, true, value + [b])
  {
    var input := (if b == QUOTE then ESCAPED_QUOTE else [b]) + rest;
    if b == QUOTE {
      assert input[1..] == [BACKSLASH, QUOTE, QUOTE] + rest;
      assert input[1..][2..] == [QUOTE] + rest;
      assert ([QUOTE] + rest)[1..] == rest;
      assert ReadWord(input, true, value) == ReadWord(input[1..], false, value);
      assert ReadWord(input[1..], false, value) == ReadWord([QUOTE] + rest, false, value + [QUOTE]);
    } else {
      assert input[1..] == rest;
    }
  }

  lemma {:induction false} ReadsBody(value: seq<byte>, rest: seq<byte>, before: seq<byte>)
    requires 0 !in value
    ensures ReadWord(QuotedBody(value) + rest, true, before) == ReadWord(rest, true, before + value)
  {
    hide ReadWord;
    if value == [] {
      assert QuotedBody(value) + rest == rest && before + value == before;
    } else {
      var tail := QuotedBody(value[1..]) + rest;
      assert QuotedBody(value) + rest == (if value[0] == QUOTE then ESCAPED_QUOTE else [value[0]]) + tail;
      ReadsByte(value[0], tail, before);
      ReadsBody(value[1..], rest, before + [value[0]]);
      assert before + [value[0]] + value[1..] == before + value;
    }
  }

  lemma ReadsShellQuoted(value: seq<byte>, rest: seq<byte>)
    requires 0 !in value
    ensures ReadWord(ShellQuoted(value) + [NEWLINE] + rest, false, []) == Some(Word(value, rest))
  {
    var closing := [QUOTE, NEWLINE] + rest;
    assert (ShellQuoted(value) + [NEWLINE] + rest)[1..] == QuotedBody(value) + closing;
    ReadsBody(value, closing, []);
    assert closing[1..] == [NEWLINE] + rest;
    assert ([NEWLINE] + rest)[1..] == rest;
    assert [] + value == value;
  }

  lemma {:induction false} NameEnds(name: seq<byte>, rest: seq<byte>)
    requires forall i | 0 <= i < |name| :: IsNameByte(name[i])
    ensures NameLength(name + [EQUALS] + rest) == |name|
  {
    if name == [] {
      assert (name + [EQUALS] + rest)[0] == EQUALS;
    } else {
      assert (name + [EQUALS] + rest)[1..] == name[1..] + [EQUALS] + rest;
      NameEnds(name[1..], rest);
    }
  }

  lemma ReadsLine(secret: Secret, rest: seq<byte>)
    requires ValidName(secret.name) && 0 !in secret.value
    ensures ReadFile(Line(secret) + rest) == match ReadFile(rest) case None => None case Some(others) => Some([secret] + others)
  {
    hide ReadWord, ShellQuoted;
    var word := ShellQuoted(secret.value) + [NEWLINE] + rest;
    var input := Line(secret) + rest;
    assert input == secret.name + [EQUALS] + word;
    NameEnds(secret.name, word);
    ReadsShellQuoted(secret.value, rest);
    assert input[..|secret.name|] == secret.name && input[|secret.name| + 1..] == word;
  }

  /** A reader recovers exactly the list that was written: names, values and order, quotes and newlines included. */
  lemma {:induction false} RoundTrip(secrets: seq<Secret>)
    requires forall i | 0 <= i < |secrets| :: ValidName(secrets[i].name)
    requires Render(secrets).Ok?
    ensures ReadFile(Render(secrets).value) == Some(secrets)
  {
    hide ReadFile, Line, Valid;
    if secrets == [] {
      ReadsNothing();
    } else {
      RoundTrip(secrets[1..]);
      ReadsLine(secrets[0], File(secrets[1..]));
      assert secrets == [secrets[0]] + secrets[1..];
    }
  }

  lemma ReadsNothing()
    ensures ReadFile([]) == Some([])
  {
  }

  /** Writing fails exactly when some value has a NUL byte or is not UTF-8. */
  lemma RenderFailsExactly(secrets: seq<Secret>)
    ensures Render(secrets).Err? <==> exists i | 0 <= i < |secrets| :: !ValidValue(secrets[i].value)
  {
    hide ValidValue, FirstValueError;
    FailsExactly(secrets);
  }

  // ----- the loops of the source

  /** A character of several bytes has no quote in it. */
  lemma {:induction false} QuotedRaw(c: seq<byte>, rest: seq<byte>)
    requires QUOTE !in c
    ensures QuotedBody(c + rest) == c + QuotedBody(rest)
  {
    if c == [] {
      assert c + rest == rest;
    } else {
      assert (c + rest)[1..] == c[1..] + rest;
      QuotedRaw(c[1..], rest);
    }
  }

  lemma QuotedChar(text: seq<byte>)
    requires FirstLength(text) > 0
    ensures var n := FirstLength(text);
            QuotedBody(text) == (if text[..n] == [QUOTE] then ESCAPED_QUOTE else text[..n]) + QuotedBody(text[n..])
  {
    var n := FirstLength(text);
    var c := text[..n];
    assert text == c + text[n..];
    if c != [QUOTE] {
      assert QUOTE !in c by {
        if n == 1 {
          assert c == [text[0]];
        } else {
          assert forall i | 0 <= i < n :: text[i] >= 0x80;
        }
      }
      QuotedRaw(c, text[n..]);
    }
  }

  method WriteShellQuoted(out: seq<byte>, value: seq<byte>) returns (written: seq<byte>)
    requires Valid(value)
    ensures written == out + ShellQuoted(value)
  {
    hide FirstLength;
    written := out + [QUOTE];
    var index := 0;
    assert value[0..] == value;
    while index < |value|
      invariant index <= |value| && Valid(value[index..])
      invariant written + QuotedBody(value[index..]) == out + [QUOTE] + QuotedBody(value)
      decreases |value| - index
    {
      ghost var before := written;
      var n := FirstLength(value[index..]);
      var c := value[index..index + n];
      QuotedChar(value[index..]);
      DropTake(value, index, n);
      DropDrop(value, index, n);
      written := written + if c == [QUOTE] then ESCAPED_QUOTE else c;
      assert written + QuotedBody(value[index + n..]) == before + QuotedBody(value[index..]);
      index := index + n;
    }
    assert QuotedBody(value[index..]) == [];
    assert out + [QUOTE] + QuotedBody(value) + [QUOTE] == out + ShellQuoted(value);
    written := written + [QUOTE];
  }

  method RenderDotenv(secrets: seq<Secret>) returns (r: Result<seq<byte>, ValueError>)
    ensures r == Render(secrets)
  {
    hide ShellQuoted, Valid;
    var out: seq<byte> := [];
    var k := 0;
    assert secrets[0..] == secrets;
    while k < |secrets|
      invariant k <= |secrets|
      invariant FirstValueError(secrets) == FirstValueError(secrets[k..])
      invariant out + File(secrets[k..]) == File(secrets)
    {
      var secret := secrets[k];
      ghost var later := File(secrets[k + 1..]);
      assert secrets[k..][1..] == secrets[k + 1..];
      var value := SecretUtf8(secret.value);
      if value.Err? {
        return Err(value.error);
      }
      ghost var before := out;
      out := out + secret.name + [EQUALS];
      out := WriteShellQuoted(out, value.value);
      out := out + [NEWLINE];
      assert out + later == before + (Line(secret) + later);
      k := k + 1;
    }
    assert secrets[k..] == [] && out + [] == out;
    r := Ok(out);
  }
}
