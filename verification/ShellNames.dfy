/** Names and values that may become environment variables, as crates/avault-cli/src/main.rs checks them. */
module ShellNames {
  import opened Bytes
  import opened Utf8
  import opened Wrappers

  /** A secret opened for delivery under a target name. */
  datatype Secret = Secret(name: seq<byte>, value: seq<byte>)

  predicate IsLetter(b: byte) {
    b == 0x5F || 0x41 <= b <= 0x5A || 0x61 <= b <= 0x7A
  }

  predicate IsNameByte(b: byte) {
    IsLetter(b) || 0x30 <= b <= 0x39
  }

  predicate ValidName(name: seq<byte>) {
    name != [] && IsLetter(name[0]) && forall i | 0 <= i < |name| :: IsNameByte(name[i])
  }

  /** Text without a NUL byte. */
  predicate ValidValue(value: seq<byte>) {
    Valid(value) && 0 !in value
  }

  datatype ValueError = NulByte | NotUtf8

  /** `secret_utf8`: the value as text. */
  function SecretUtf8(value: seq<byte>): Result<seq<byte>, ValueError> {
    if 0 in value then Err(NulByte) else if !Valid(value) then Err(NotUtf8) else Ok(value)
  }

  /** The error of the first secret whose value is not text without NUL bytes. */
  function FirstValueError(secrets: seq<Secret>): Option<ValueError> {
    if secrets == [] then None
    else if SecretUtf8(secrets[0].value).Err? then Some(SecretUtf8(secrets[0].value).error)
    else FirstValueError(secrets[1..])
  }

  lemma {:induction false} FailsExactly(secrets: seq<Secret>)
    ensures FirstValueError(secrets).Some? <==> exists i | 0 <= i < |secrets| :: !ValidValue(secrets[i].value)
  {
    hide Valid;
    if secrets != [] {
      FailsExactly(secrets[1..]);
      if i :| 0 <= i < |secrets[1..]| && !ValidValue(secrets[1..][i].value) {
        assert !ValidValue(secrets[i + 1].value);
      }
    }
  }

  lemma {:induction false} AsciiIsValid(bs: seq<byte>)
    requires forall i | 0 <= i < |bs| :: bs[i] < 0x80
    ensures Valid(bs)
  {
    if bs != [] {
      AsciiIsValid(bs[1..]);
    }
  }

  lemma NameIsText(name: seq<byte>)
    requires ValidName(name)
    ensures ValidValue(name)
  {
    forall i | 0 <= i < |name| ensures 0 < name[i] < 0x80 {
      assert IsNameByte(name[i]);
    }
    AsciiIsValid(name);
  }
}
