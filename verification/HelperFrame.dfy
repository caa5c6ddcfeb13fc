/**
 The frame that hands opened secrets to the agent-run helper process (crates/avault-cli/src/main.rs): the reader
 accepts exactly what the writer emits for lists within the reader's limits.
 */
module HelperFrame {
  import opened BigEndian
  import opened Bytes
  import opened ShellNames
  import opened Utf8
  import opened Wrappers

  /** "avault-agent-run-env-v1" and a NUL. */
  const MAGIC: seq<byte> := [
    0x61, 0x76, 0x61, 0x75, 0x6C, 0x74, 0x2D, 0x61, 0x67, 0x65, 0x6E, 0x74,
    0x2D, 0x72, 0x75, 0x6E, 0x2D, 0x65, 0x6E, 0x76, 0x2D, 0x76, 0x31, 0x00
  ]
  const MAX_SECRETS: nat := 1024
  const MAX_NAME_BYTES: nat := 4096
  const MAX_VALUE_BYTES: nat := 1024 * 1024

  datatype FrameError = NoSecrets | TooManySecrets | BadName | BadValue | FieldTooLarge | Truncated | BadMagic | BadCount | ValueTooLarge

  // ----- the format

  predicate Fits(secret: Secret) {
    |secret.name| <= U32_MAX && |secret.value| <= U32_MAX
  }

  function SecretText(secret: Secret): seq<byte>
    requires Fits(secret)
  {
    Field(secret.name) + Field(secret.value)
  }

  predicate AllFit(secrets: seq<Secret>) {
    forall i | 0 <= i < |secrets| :: Fits(secrets[i])
  }

  function SecretsText(secrets: seq<Secret>): seq<byte>
    requires AllFit(secrets)
  {
    if secrets == [] then [] else SecretText(secrets[0]) + SecretsText(secrets[1..])
  }

  function Frame(secrets: seq<Secret>): seq<byte>
    requires |secrets| <= U32_MAX && AllFit(secrets)
  {
    MAGIC + Bytes32(|secrets|) + SecretsText(secrets)
  }

  // ----- writing

  /** What the writer checks of one secret, in its order. */
  function SecretError(secret: Secret): Option<FrameError> {
    if !ValidName(secret.name) then Some(BadName)
    else if !ValidValue(secret.value) then Some(BadValue)
    else if !Fits(secret) then Some(FieldTooLarge)
    else None
  }

  function FirstError(secrets: seq<Secret>): (e: Option<FrameError>)
    ensures e.None? <==> forall i | 0 <= i < |secrets| :: SecretError(secrets[i]).None?
  {
    if secrets == [] then None
    else if SecretError(secrets[0]).Some? then SecretError(secrets[0])
    else
      var later := FirstError(secrets[1..]);
      assert forall i | 1 <= i < |secrets| :: secrets[i] == secrets[1..][i - 1];
      later
  }

  function WriteError(secrets: seq<Secret>): Option<FrameError> {
    if secrets == [] then Some(NoSecrets)
    else if |secrets| > U32_MAX then Some(TooManySecrets)
    else FirstError(secrets)
  }

  // ----- reading

  datatype Read<+T> = Read(value: T, rest: seq<byte>)

  function ReadBytes(input: seq<byte>, n: nat): Result<Read<seq<byte>>, FrameError> {
    if |input| < n then Err(Truncated) else Ok(Read(input[..n], input[n..]))
  }

  function ReadU32(input: seq<byte>): Result<Read<nat>, FrameError> {
    if |input| < 4 then Err(Truncated) else Ok(Read(Value32(input[..4]), input[4..]))
  }

  function ReadName(input: seq<byte>): Result<Read<seq<byte>>, FrameError> {
    var length := ReadU32(input);
    if length.Err? then Err(length.error)
    else if length.value.value == 0 || length.value.value > MAX_NAME_BYTES then Err(BadName)
    else
      var name := ReadBytes(length.value.rest, length.value.value);
      if name.Err? then name
      else if !Valid(name.value.value) then Err(BadName)
      else if !ValidName(name.value.value) then Err(BadName)
      else name
  }

  function ReadValue(input: seq<byte>): Result<Read<seq<byte>>, FrameError> {
    var length := ReadU32(input);
    if length.Err? then Err(length.error)
    else if length.value.value > MAX_VALUE_BYTES then Err(ValueTooLarge)
    else
      var value := ReadBytes(length.value.rest, length.value.value);
      if value.Ok? && !ValidValue(value.value.value) then Err(BadValue) else value
  }

  function ReadSecret(input: seq<byte>): Result<Read<Secret>, FrameError> {
    var name := ReadName(input);
    if name.Err? then Err(name.error)
    else
      var value := ReadValue(name.value.rest);
      if value.Err? then Err(value.error) else Ok(Read(Secret(name.value.value, value.value.value), value.value.rest))
  }

  function ReadSecrets(input: seq<byte>, count: nat): Result<Read<seq<Secret>>, FrameError>
    decreases count
  {
    if count == 0 then Ok(Read([], input))
    else
      var first := ReadSecret(input);
      if first.Err? then Err(first.error)
      else
        var later := ReadSecrets(first.value.rest, count - 1);
        if later.Err? then later else Ok(Read([first.value.value] + later.value.value, later.value.rest))
  }

  function ReadFrame(input: seq<byte>): Result<Read<seq<Secret>>, FrameError> {
    var magic := ReadBytes(input, |MAGIC|);
    if magic.Err? then Err(magic.error)
    else if magic.value.value != MAGIC then Err(BadMagic)
    else
      var count := ReadU32(magic.value.rest);
      if count.Err? then Err(count.error)
      else if count.value.value == 0 || count.value.value > MAX_SECRETS then Err(BadCount)
      else ReadSecrets(count.value.rest, count.value.value)
  }

  // ----- the frame is the same on both sides

  /** What the reader lets through. */
  predicate WithinLimits(secrets: seq<Secret>) {
    1 <= |secrets| <= MAX_SECRETS && forall i | 0 <= i < |secrets| :: SecretWithin(secrets[i])
  }

  predicate SecretWithin(secret: Secret) {
    ValidName(secret.name) && |secret.name| <= MAX_NAME_BYTES && ValidValue(secret.value) && |secret.value| <= MAX_VALUE_BYTES
  }

  lemma WithinFits(secret: Secret)
    requires SecretWithin(secret)
    ensures Fits(secret) && SecretError(secret).None?
  {
  }

  lemma LimitsFit(secrets: seq<Secret>)
    requires forall i | 0 <= i < |secrets| :: SecretWithin(secrets[i])
    ensures AllFit(secrets) && FirstError(secrets).None?
  {
    hide SecretWithin, SecretError, Fits;
    forall i | 0 <= i < |secrets| ensures Fits(secrets[i]) && SecretError(secrets[i]).None? {
      WithinFits(secrets[i]);
    }
  }

  lemma U32Read(n: nat, rest: seq<byte>)
    requires n <= U32_MAX
    ensures ReadU32(Bytes32(n) + rest) == Ok(Read(n, rest))
  {
    hide Bytes32, Value32;
    ValueOfBytes(n);
    assert (Bytes32(n) + rest)[..4] == Bytes32(n) && (Bytes32(n) + rest)[4..] == rest;
  }

  lemma U32Back(input: seq<byte>)
    requires ReadU32(input).Ok?
    ensures var read := ReadU32(input).value; read.value <= U32_MAX && input == Bytes32(read.value) + read.rest
  {
    hide Bytes32, Value32;
    BytesOfValue(input[..4]);
  }

  lemma FieldRead(bs: seq<byte>, rest: seq<byte>)
    requires |bs| <= U32_MAX
    ensures ReadU32(Field(bs) + rest) == Ok(Read(|bs|, bs + rest)) && ReadBytes(bs + rest, |bs|) == Ok(Read(bs, rest))
  {
    hide Bytes32, ReadU32;
    assert Field(bs) + rest == Bytes32(|bs|) + (bs + rest);
    U32Read(|bs|, bs + rest);
    assert (bs + rest)[..|bs|] == bs && (bs + rest)[|bs|..] == rest;
  }

  lemma FieldBack(input: seq<byte>, afterLength: seq<byte>, bs: seq<byte>, rest: seq<byte>)
    requires ReadU32(input) == Ok(Read(|bs|, afterLength)) && ReadBytes(afterLength, |bs|) == Ok(Read(bs, rest))
    ensures |bs| <= U32_MAX && input == Field(bs) + rest
  {
    hide Bytes32, ReadU32;
    U32Back(input);
    assert afterLength == bs + rest;
  }

  lemma NameRead(name: seq<byte>, rest: seq<byte>)
    requires ValidName(name) && |name| <= MAX_NAME_BYTES
    ensures ReadName(Field(name) + rest) == Ok(Read(name, rest))
  {
    hide ReadU32, ReadBytes, Field;
    FieldRead(name, rest);
    NameIsText(name);
  }

  lemma NameBack(input: seq<byte>)
    requires ReadName(input).Ok?
    ensures var read := ReadName(input).value;
            ValidName(read.value) && |read.value| <= MAX_NAME_BYTES && input == Field(read.value) + read.rest
  {
    hide ReadU32, Field, ValidName, Valid;
    FieldBack(input, ReadU32(input).value.rest, ReadName(input).value.value, ReadName(input).value.rest);
  }

  lemma ValueRead(value: seq<byte>, rest: seq<byte>)
    requires ValidValue(value) && |value| <= MAX_VALUE_BYTES
    ensures ReadValue(Field(value) + rest) == Ok(Read(value, rest))
  {
    hide ReadU32, ReadBytes, Field, ValidValue;
    FieldRead(value, rest);
  }

  lemma ValueBack(input: seq<byte>)
    requires ReadValue(input).Ok?
    ensures var read := ReadValue(input).value;
            ValidValue(read.value) && |read.value| <= MAX_VALUE_BYTES && input == Field(read.value) + read.rest
  {
    hide ReadU32, Field, ValidValue;
    FieldBack(input, ReadU32(input).value.rest, ReadValue(input).value.value, ReadValue(input).value.rest);
  }

  lemma {:induction false} SecretRead(secret: Secret, rest: seq<byte>)
    requires SecretWithin(secret)
    ensures ReadSecret(SecretText(secret) + rest) == Ok(Read(secret, rest))
  {
    hide ReadName, ReadValue, Field, ValidName, ValidValue;
    var afterName := Field(secret.value) + rest;
    assert SecretText(secret) + rest == Field(secret.name) + afterName;
    NameRead(secret.name, afterName);
    ValueRead(secret.value, rest);
  }

  lemma {:induction false} SecretBack(input: seq<byte>)
    requires ReadSecret(input).Ok?
    ensures var read := ReadSecret(input).value; SecretWithin(read.value) && input == SecretText(read.value) + read.rest
  {
    hide ReadName, ReadValue, Field, ValidName, ValidValue;
    NameBack(input);
    ValueBack(ReadName(input).value.rest);
    var read := ReadSecret(input).value;
    assert input == Field(read.value.name) + (Field(read.value.value) + read.rest);
  }

  lemma {:induction false} SecretsRead(secrets: seq<Secret>, rest: seq<byte>)
    requires forall i | 0 <= i < |secrets| :: SecretWithin(secrets[i])
    ensures AllFit(secrets) && ReadSecrets(SecretsText(secrets) + rest, |secrets|) == Ok(Read(secrets, rest))
  {
    hide ReadSecret, SecretWithin, SecretText, Fits, SecretError;
    LimitsFit(secrets);
    if secrets == [] {
      assert SecretsText(secrets) + rest == rest;
    } else {
      var others := SecretsText(secrets[1..]) + rest;
      assert SecretsText(secrets) + rest == SecretText(secrets[0]) + others;
      SecretRead(secrets[0], others);
      SecretsRead(secrets[1..], rest);
      assert secrets == [secrets[0]] + secrets[1..];
    }
  }

  lemma {:induction false} SecretsBack(input: seq<byte>, count: nat)
    requires ReadSecrets(input, count).Ok?
    ensures var read := ReadSecrets(input, count).value;
            |read.value| == count && (forall i | 0 <= i < count :: SecretWithin(read.value[i]))
    ensures AllFit(ReadSecrets(input, count).value.value)
    ensures input == SecretsText(ReadSecrets(input, count).value.value) + ReadSecrets(input, count).value.rest
    decreases count
  {
    hide ReadSecret, SecretWithin, SecretText, Fits, SecretError;
    var read := ReadSecrets(input, count).value;
    if count > 0 {
      SecretBack(input);
      var first := ReadSecret(input).value;
      SecretsBack(first.rest, count - 1);
      assert read.value[1..] == ReadSecrets(first.rest, count - 1).value.value;
      LimitsFit(read.value);
      assert SecretsText(read.value) + read.rest == SecretText(first.value) + (SecretsText(read.value[1..]) + read.rest);
    }
  }

  /**
   The reader accepts exactly the frames of lists within its limits, each with one encoding, and stops at the end
   of the frame.
   */
  lemma {:induction false} ReadsExactly(input: seq<byte>, secrets: seq<Secret>, rest: seq<byte>)
    ensures ReadFrame(input) == Ok(Read(secrets, rest)) <==>
            WithinLimits(secrets) && AllFit(secrets) && input == Frame(secrets) + rest
  {
    hide ReadSecrets, SecretsText, SecretWithin, Fits, ReadU32, Bytes32;
    if ReadFrame(input) == Ok(Read(secrets, rest)) {
      var afterMagic := input[|MAGIC|..];
      U32Back(afterMagic);
      SecretsBack(ReadU32(afterMagic).value.rest, ReadU32(afterMagic).value.value);
      assert input == input[..|MAGIC|] + afterMagic;
      assert Frame(secrets) + rest == MAGIC + (Bytes32(|secrets|) + (SecretsText(secrets) + rest));
    } else if WithinLimits(secrets) && AllFit(secrets) && input == Frame(secrets) + rest {
      var afterMagic := Bytes32(|secrets|) + (SecretsText(secrets) + rest);
      assert input == MAGIC + afterMagic;
      assert input[..|MAGIC|] == MAGIC && input[|MAGIC|..] == afterMagic;
      U32Read(|secrets|, SecretsText(secrets) + rest);
      SecretsRead(secrets, rest);
    }
  }

  lemma WrittenFits(secrets: seq<Secret>)
    requires WriteError(secrets).None?
    ensures 1 <= |secrets| <= U32_MAX && AllFit(secrets)
  {
    forall i | 0 <= i < |secrets| ensures Fits(secrets[i]) {
      assert SecretError(secrets[i]).None?;
    }
  }

  /** What the writer makes of a list. */
  function Written(secrets: seq<Secret>): Result<seq<byte>, FrameError> {
    if WriteError(secrets).Some? then Err(WriteError(secrets).value)
    else
      WrittenFits(secrets);
      Ok(Frame(secrets))
  }

  /** The writer refuses nothing that the reader would accept. */
  lemma WriterAcceptsLimits(secrets: seq<Secret>)
    requires WithinLimits(secrets)
    ensures AllFit(secrets) && Written(secrets) == Ok(Frame(secrets))
  {
    LimitsFit(secrets);
  }

  /** A list passes from the writer to the reader, unchanged and to the end of its frame, exactly when it is within the reader's limits. */
  lemma RoundTripExactly(secrets: seq<Secret>, rest: seq<byte>)
    ensures (Written(secrets).Ok? && ReadFrame(Written(secrets).value + rest) == Ok(Read(secrets, rest))) <==> WithinLimits(secrets)
  {
    hide ReadFrame, Frame, WriteError, WithinLimits;
    if WithinLimits(secrets) {
      WriterAcceptsLimits(secrets);
    }
    if Written(secrets).Ok? {
      WrittenFits(secrets);
      ReadsExactly(Frame(secrets) + rest, secrets, rest);
    }
  }

  // ----- the two ends of the pipe

  class HelperPipe {
    var bytes: seq<byte>

    constructor ()
      ensures bytes == []
    {
      bytes := [];
    }

    method WriteAll(more: seq<byte>)
      modifies this
      ensures bytes == old(bytes) + more
    {
      bytes := bytes + more;
    }

    method WriteHelperBytes(field: seq<byte>) returns (e: Option<FrameError>)
      modifies this
      ensures if |field| > U32_MAX then e == Some(FieldTooLarge) && bytes == old(bytes)
              else e.None? && bytes == old(bytes) + Field(field)
    {
      if |field| > U32_MAX {
        return Some(FieldTooLarge);
      }
      WriteAll(Bytes32(|field|));
      WriteAll(field);
      e := None;
    }

    /** A frame is written whole or the writer reports why; what it wrote until then stays in the pipe. */
    method WriteHelperFrame(secrets: seq<Secret>) returns (e: Option<FrameError>)
      modifies this
      ensures match Written(secrets)
              case Ok(frame) => e.None? && bytes == old(bytes) + frame
              case Err(error) => e == Some(error) && old(bytes) <= bytes
    {
      hide SecretError, Fits, SecretText, SecretsText, FirstError, Bytes32;
      if secrets == [] {
        return Some(NoSecrets);
      }
      if |secrets| > U32_MAX {
        return Some(TooManySecrets);
      }
      WriteAll(MAGIC);
      WriteAll(Bytes32(|secrets|));
      ghost var header := bytes;
      var k := 0;
      assert secrets[0..] == secrets && secrets[..0] == [];
      NoText();
      while k < |secrets|
        invariant k <= |secrets| && header <= bytes
        invariant FirstError(secrets) == FirstError(secrets[k..])
        invariant AllFit(secrets[..k]) && bytes == header + SecretsText(secrets[..k])
        invariant header == old(bytes) + MAGIC + Bytes32(|secrets|)
      {
        ghost var before := bytes;
        ErrorTurn(secrets, k);
        e := WriteSecret(secrets[k]);
        if e.Some? {
          return;
        }
        AppendSecret(secrets, k);
        Grows(header, before, SecretsText(secrets[..k]), SecretText(secrets[k]));
        k := k + 1;
      }
      NoErrorLeft(secrets);
      assert secrets[..k] == secrets;
      e := None;
    }

    method WriteSecret(secret: Secret) returns (e: Option<FrameError>)
      modifies this
      ensures e == SecretError(secret) && old(bytes) <= bytes
      ensures e.None? ==> Fits(secret) && bytes == old(bytes) + SecretText(secret)
    {
      if !ValidName(secret.name) {
        return Some(BadName);
      }
      if !ValidValue(secret.value) {
        return Some(BadValue);
      }
      e := WriteHelperBytes(secret.name);
      if e.None? {
        e := WriteHelperBytes(secret.value);
      }
    }

    /** `read_exact`: everything asked for, or an error and an exhausted pipe. */
    method ReadExact(n: nat) returns (r: Result<seq<byte>, FrameError>)
      modifies this
      ensures var read := ReadBytes(old(bytes), n);
              if read.Ok? then r == Ok(read.value.value) && bytes == read.value.rest else r == Err(read.error)
    {
      if |bytes| < n {
        bytes := [];
        return Err(Truncated);
      }
      r := Ok(bytes[..n]);
      bytes := bytes[n..];
    }

    method ReadHelperU32() returns (r: Result<nat, FrameError>)
      modifies this
      ensures var read := ReadU32(old(bytes));
              if read.Ok? then r == Ok(read.value.value) && bytes == read.value.rest else r == Err(read.error)
    {
      var buffer := ReadExact(4);
      r := if buffer.Err? then Err(buffer.error) else Ok(Value32(buffer.value));
    }

    method ReadHelperSecret() returns (r: Result<Secret, FrameError>)
      modifies this
      ensures var read := ReadSecret(old(bytes));
              if read.Ok? then r == Ok(read.value.value) && bytes == read.value.rest else r == Err(read.error)
    {
      hide ReadU32, ReadBytes, Valid, ValidName, ValidValue;
      var nameLength := ReadHelperU32();
      if nameLength.Err? {
        return Err(nameLength.error);
      }
      if nameLength.value == 0 || nameLength.value > MAX_NAME_BYTES {
        return Err(BadName);
      }
      var name := ReadExact(nameLength.value);
      if name.Err? {
        return Err(name.error);
      }
      if !Valid(name.value) || !ValidName(name.value) {
        return Err(BadName);
      }
      var valueLength := ReadHelperU32();
      if valueLength.Err? {
        return Err(valueLength.error);
      }
      if valueLength.value > MAX_VALUE_BYTES {
        return Err(ValueTooLarge);
      }
      var value := ReadExact(valueLength.value);
      if value.Err? {
        return Err(value.error);
      }
      if !ValidValue(value.value) {
        return Err(BadValue);
      }
      r := Ok(Secret(name.value, value.value));
    }

    method ReadHelperFrame() returns (r: Result<seq<Secret>, FrameError>)
      modifies this
      ensures var read := ReadFrame(old(bytes));
              if read.Ok? then r == Ok(read.value.value) && bytes == read.value.rest else r == Err(read.error)
    {
      hide ReadU32, ReadBytes, ReadSecret;
      var magic := ReadExact(|MAGIC|);
      if magic.Err? {
        return Err(magic.error);
      }
      if magic.value != MAGIC {
        return Err(BadMagic);
      }
      var count := ReadHelperU32();
      if count.Err? {
        return Err(count.error);
      }
      if count.value == 0 || count.value > MAX_SECRETS {
        return Err(BadCount);
      }
      var secrets: seq<Secret> := [];
      ghost var whole := ReadSecrets(bytes, count.value);
      PrependsNothing(whole);
      var k := 0;
      while k < count.value
        invariant k <= count.value
        invariant whole == Prepended(secrets, ReadSecrets(bytes, count.value - k))
      {
        ghost var here := bytes;
        var secret := ReadHelperSecret();
        if secret.Err? {
          return Err(secret.error);
        }
        PrependedStep(secrets, here, count.value - k);
        secrets := secrets + [secret.value];
        k := k + 1;
      }
      assert secrets + [] == secrets && ReadSecrets(bytes, 0) == Ok(Read([], bytes));
      r := Ok(secrets);
    }
  }

  lemma NoText()
    ensures AllFit([]) && SecretsText([]) == []
  {
  }

  lemma Grows(header: seq<byte>, before: seq<byte>, text: seq<byte>, more: seq<byte>)
    requires before == header + text
    ensures before + more == header + (text + more) && header <= before + more
  {
  }

  lemma ErrorTurn(secrets: seq<Secret>, k: nat)
    requires k < |secrets|
    ensures FirstError(secrets[k..]) == if SecretError(secrets[k]).Some? then SecretError(secrets[k]) else FirstError(secrets[k + 1..])
  {
    hide SecretError;
    assert secrets[k..][0] == secrets[k] && secrets[k..][1..] == secrets[k + 1..];
  }

  lemma NoErrorLeft(secrets: seq<Secret>)
    ensures FirstError(secrets[|secrets|..]).None?
  {
  }

  function Prepended(before: seq<Secret>, r: Result<Read<seq<Secret>>, FrameError>): Result<Read<seq<Secret>>, FrameError> {
    if r.Ok? then Ok(Read(before + r.value.value, r.value.rest)) else r
  }

  lemma PrependsNothing(r: Result<Read<seq<Secret>>, FrameError>)
    ensures Prepended([], r) == r
  {
    if r.Ok? {
      assert [] + r.value.value == r.value.value;
    }
  }

  lemma {:induction false} PrependedStep(before: seq<Secret>, input: seq<byte>, count: nat)
    requires count > 0
    ensures var first := ReadSecret(input);
            Prepended(before, ReadSecrets(input, count)) ==
            if first.Err? then Err(first.error)
            else Prepended(before + [first.value.value], ReadSecrets(first.value.rest, count - 1))
  {
    hide ReadSecret;
    var first := ReadSecret(input);
    if first.Ok? {
      var later := ReadSecrets(first.value.rest, count - 1);
      if later.Ok? {
        assert before + ([first.value.value] + later.value.value) == before + [first.value.value] + later.value.value;
      }
    }
  }

  lemma {:induction false} TextAppends(secrets: seq<Secret>, last: Secret)
    requires AllFit(secrets) && Fits(last)
    ensures AllFit(secrets + [last]) && SecretsText(secrets + [last]) == SecretsText(secrets) + SecretText(last)
  {
    hide Fits, SecretText;
    if secrets == [] {
      assert [last][1..] == [] && secrets + [last] == [last];
      assert SecretText(last) + [] == SecretText(last);
    } else {
      TextAppends(secrets[1..], last);
      assert (secrets + [last])[1..] == secrets[1..] + [last];
    }
  }

  lemma AppendSecret(secrets: seq<Secret>, k: nat)
    requires k < |secrets| && AllFit(secrets[..k]) && Fits(secrets[k])
    ensures AllFit(secrets[..k + 1]) && SecretsText(secrets[..k + 1]) == SecretsText(secrets[..k]) + SecretText(secrets[k])
  {
    hide Fits, SecretText;
    TextAppends(secrets[..k], secrets[k]);
    assert secrets[..k + 1] == secrets[..k] + [secrets[k]];
  }
}
