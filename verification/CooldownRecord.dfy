/**
 The cooldown record inside the Keychain authorization gate file: `keychain_authorization_cooldown` and
 `record_keychain_authorization_cooldown` in crates/avault-store/src/lib.rs.
 */
module CooldownRecord {
  import opened Wrappers
  import Decimal

  const COOLDOWN_SECS: nat := 120
  const MAX_RECORD_BYTES: nat := 32

  /** What the file holds: text, or bytes that are not UTF-8. */
  datatype Record = Text(chars: string) | NotUtf8

  const EMPTY: Record := Text("")

  function CharBytes(c: char): nat {
    var code := c as int;
    if code < 0x80 then 1 else if code < 0x800 then 2 else if code < 0x1_0000 then 3 else 4
  }

  function ByteLength(s: string): nat {
    if s == [] then 0 else CharBytes(s[0]) + ByteLength(s[1..])
  }

  /** The Unicode property White_Space, which `str::trim` strips. */
  predicate IsWhiteSpace(c: char) {
    var code := c as int;
    0x9 <= code <= 0xD || code == 0x20 || code == 0x85 || code == 0xA0 || code == 0x1680 || 0x2000 <= code <= 0x200A
    || code == 0x2028 || code == 0x2029 || code == 0x202F || code == 0x205F || code == 0x3000
  }

  function TrimStart(s: string): string {
    if s != [] && IsWhiteSpace(s[0]) then TrimStart(s[1..]) else s
  }

  function Trim(s: string): string
    decreases |s|
  {
    if s != [] && IsWhiteSpace(s[|s| - 1]) then Trim(s[..|s| - 1]) else TrimStart(s)
  }

  /** The time the record says no prompt may start before, if it is readable. */
  function Until(r: Record): Option<nat> {
    match r
    case NotUtf8 => None
    case Text(s) => if ByteLength(s) <= MAX_RECORD_BYTES then Decimal.ParseU64(Trim(s)) else None
  }

  function SatAdd(a: nat, b: nat): nat {
    if a + b <= Decimal.U64_MAX then a + b else Decimal.U64_MAX
  }

  function RecordOf(until: nat): Record {
    Text(Decimal.Text(until))
  }

  /** What a caller that holds the gate and reads the clock at `now` makes of the record. */
  datatype Look =
    | Pass               // nothing recorded
    | Clear              // the recorded window is over: truncate and pass
    | Refuse(secs: nat)
    | Rewrite            // unreadable or too far ahead: rewrite to one window from now, and refuse

  function LookAt(r: Record, now: nat): Look {
    if r == EMPTY then Pass
    else
      match Until(r)
      case Some(until) =>
        if until <= now then Clear
        else if until - now <= COOLDOWN_SECS then Refuse(until - now)
        else Rewrite
      case None => Rewrite
  }

  lemma {:induction false} AsciiBytes(s: string)
    requires forall i | 0 <= i < |s| :: s[i] as int < 0x80
    ensures ByteLength(s) == |s|
  {
    if s != [] {
      AsciiBytes(s[1..]);
    }
  }

  /** A record that was written completely reads back as what was written. */
  lemma RecordReadsBack(until: nat)
    requires until <= Decimal.U64_MAX
    ensures Until(RecordOf(until)) == Some(until) && RecordOf(until) != EMPTY
  {
    var s := Decimal.Text(until);
    Decimal.ValueOfText(until);
    Decimal.ParsesBack(until);
    assert forall i | 0 <= i < |s| :: Decimal.IsDigit(s[i]);
    AsciiBytes(s);
    assert !IsWhiteSpace(s[0]) && !IsWhiteSpace(s[|s| - 1]);
  }

  /** How a truncation, and the write after it, go: a failed write may have put some characters into the file. */
  datatype WriteOutcome = Written | TruncateFailed | WriteFailed(written: nat)

  /** What a rewrite to `until` leaves in the file. */
  function Rewritten(r: Record, until: nat, outcome: WriteOutcome): Record {
    var text := Decimal.Text(until);
    match outcome
    case Written => Text(text)
    case TruncateFailed => r
    case WriteFailed(written) => if written < |text| then Text(text[..written]) else EMPTY
  }

  /** What looking at the record leaves in the file. */
  function Looked(r: Record, now: nat, outcome: WriteOutcome): Record {
    match LookAt(r, now)
    case Pass => r
    case Clear => if outcome.TruncateFailed? then r else EMPTY
    case Refuse(_) => r
    case Rewrite => Rewritten(r, SatAdd(now, COOLDOWN_SECS), outcome)
  }

  class GateFile {
    var record: Record

    /** Truncates and rewrites in place. A write that failed is a proper prefix of the record, or nothing. */
    method RecordCooldown(until: nat, outcome: WriteOutcome) returns (ok: bool)
      modifies this
      ensures ok == outcome.Written? && record == Rewritten(old(record), until, outcome)
    {
      if outcome.TruncateFailed? {
        return false;
      }
      record := EMPTY;
      var text := Decimal.Text(until);
      if outcome.WriteFailed? {
        if outcome.written < |text| {
          record := Text(text[..outcome.written]);
        }
        return false;
      }
      record := Text(text);
      ok := true;
    }

    /**
     The remaining seconds of the cooldown, or none. Whatever the file held, a reported remainder is within
     1 to 120 and is what the file now says, and no cooldown means an empty file.
     */
    method Cooldown(now: nat, outcome: WriteOutcome) returns (r: Result<Option<nat>, ()>)
      modifies this
      ensures r.Ok? && r.value.Some? ==> 1 <= r.value.value <= COOLDOWN_SECS && Until(record) == Some(SatAdd(now, r.value.value))
      ensures r.Ok? && r.value.None? ==> record == EMPTY
      ensures record == Looked(old(record), now, outcome)
      ensures r == match LookAt(old(record), now)
                   case Pass => Ok(None)
                   case Clear => if outcome.TruncateFailed? then Err(()) else Ok(None)
                   case Refuse(secs) => Ok(Some(secs))
                   case Rewrite => if outcome.Written? then Ok(Some(COOLDOWN_SECS)) else Err(())
    {
      hide Until;
      if record == EMPTY {
        return Ok(None);
      }
      var until := Until(record);
      if until.Some? && until.value <= now {
        if outcome.TruncateFailed? {
          return Err(());
        }
        record := EMPTY;
        return Ok(None);
      }
      if until.Some? && until.value - now <= COOLDOWN_SECS {
        UntilRange(record);
        return Ok(Some(until.value - now));
      }
      var recorded := RecordCooldown(SatAdd(now, COOLDOWN_SECS), outcome);
      if !recorded {
        return Err(());
      }
      RecordReadsBack(SatAdd(now, COOLDOWN_SECS));
      return Ok(Some(COOLDOWN_SECS));
    }
  }

  lemma UntilRange(r: Record)
    requires Until(r).Some?
    ensures Until(r).value <= Decimal.U64_MAX
  {
  }
}
