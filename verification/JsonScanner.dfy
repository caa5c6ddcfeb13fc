/** The scanner's loops in crates/avault-cli/src/main.rs, proved against the specifications of `JsonValue` and `JsonLookup`. */
module JsonScanner {
  import opened Bytes
  import opened JsonString
  import opened JsonValue
  import opened JsonLookup
  import opened Wrappers

  method SkipJsonWs(input: seq<byte>, start: nat) returns (index: nat)
    requires start <= |input|
    ensures start <= index <= |input| && index == start + Ws(input[start..])
  {
    index := start;
    while index < |input| && IsWs(input[index])
      invariant start <= index <= |input|
      invariant start + Ws(input[start..]) == index + Ws(input[index..])
    {
      assert input[index..][1..] == input[index + 1..];
      index := index + 1;
    }
  }

  method JsonScalarEnd(input: seq<byte>, start: nat) returns (index: nat)
    requires start <= |input|
    ensures index == start + ScalarEnd(input[start..])
  {
    index := start;
    while index < |input| && IsScalarByte(input[index])
      invariant start <= index <= |input|
      invariant start + ScalarEnd(input[start..]) == index + ScalarEnd(input[index..])
    {
      assert input[index..][1..] == input[index + 1..];
      index := index + 1;
    }
  }

  lemma CompoundUnterminated(stack: seq<byte>)
    requires stack != []
    ensures CompoundFrom([], stack) == Err(Unterminated)
  {
  }

  /** One turn of the loop of `json_compound_end`. */
  lemma CompoundTurn(input: seq<byte>, index: nat, stack: seq<byte>)
    requires index < |input| && stack != []
    ensures var b, here, top := input[index], CompoundFrom(input[index..], stack), stack[|stack| - 1];
            if b == QUOTE then
              && (StringEnd(input[index..]).Err? ==> here == Err(StringEnd(input[index..]).error))
              && (StringEnd(input[index..]).Ok? ==>
                    var n := StringEnd(input[index..]).value;
                    0 < n <= |input| - index && here == Plus(n, CompoundFrom(input[index + n..], stack)))
            else if b == OPEN_BRACE || b == OPEN_BRACKET then here == Plus(1, CompoundFrom(input[index + 1..], stack + [b]))
            else if b == CLOSE_BRACE || b == CLOSE_BRACKET then
              if top != (if b == CLOSE_BRACE then OPEN_BRACE else OPEN_BRACKET) then here == Err(BadBracket)
              else if |stack| == 1 then here == Ok(1)
              else here == Plus(1, CompoundFrom(input[index + 1..], stack[..|stack| - 1]))
            else here == Plus(1, CompoundFrom(input[index + 1..], stack))
  {
    hide StringEnd;
    var rest := input[index..];
    assert rest[1..] == input[index + 1..];
    if rest[0] == QUOTE && StringEnd(rest).Ok? {
      StringEndBounds(rest);
      assert rest[StringEnd(rest).value..] == input[index + StringEnd(rest).value..];
    }
  }

  method JsonCompoundEnd(input: seq<byte>, start: nat) returns (r: Result<nat, JsonError>)
    requires start < |input|
    ensures r == Plus(start + 1, CompoundFrom(input[start + 1..], [input[start]]))
  {
    hide CompoundFrom, StringEnd;
    var stack := [input[start]];
    var index := start + 1;
    while index < |input|
      invariant start < index <= |input| && stack != []
      invariant Plus(start + 1, CompoundFrom(input[start + 1..], [input[start]])) == Plus(index, CompoundFrom(input[index..], stack))
    {
      CompoundTurn(input, index, stack);
      if input[index] == QUOTE {
        var n := JsonStringEnd(input[index..]);
        if n.Err? {
          return Err(n.error);
        }
        index := index + n.value;
      } else if input[index] == OPEN_BRACE || input[index] == OPEN_BRACKET {
        stack := stack + [input[index]];
        index := index + 1;
      } else if input[index] == CLOSE_BRACE || input[index] == CLOSE_BRACKET {
        var top := stack[|stack| - 1];
        var popped := stack[..|stack| - 1];
        if top != (if input[index] == CLOSE_BRACE then OPEN_BRACE else OPEN_BRACKET) {
          return Err(BadBracket);
        }
        index := index + 1;
        if popped == [] {
          return Ok(index);
        }
        stack := popped;
      } else {
        index := index + 1;
      }
    }
    assert input[index..] == [];
    CompoundUnterminated(stack);
    r := Err(Unterminated);
  }

  method JsonValueEnd(input: seq<byte>, start: nat) returns (r: Result<nat, JsonError>)
    requires start <= |input|
    ensures r == Plus(start, ValueEnd(input[start..]))
  {
    if start == |input| {
      return Err(BadValue);
    }
    ghost var rest := input[start..];
    if input[start] == QUOTE {
      var n := JsonStringEnd(input[start..]);
      r := Plus(start, n);
    } else if input[start] == OPEN_BRACE || input[start] == OPEN_BRACKET {
      assert rest[1..] == input[start + 1..];
      r := JsonCompoundEnd(input, start);
    } else if input[start] == 0x2D || IsDigit(input[start]) {
      var end := JsonScalarEnd(input, start);
      r := Ok(end);
    } else if start + 4 <= |input| && input[start..start + 4] == TRUE {
      assert rest[..4] == TRUE;
      r := Ok(start + 4);
    } else if start + 5 <= |input| && input[start..start + 5] == FALSE {
      assert rest[..5] == FALSE;
      r := Ok(start + 5);
    } else if start + 4 <= |input| && input[start..start + 4] == NULL {
      assert rest[..4] == NULL;
      r := Ok(start + 4);
    } else {
      assert |rest| >= 4 ==> rest[..4] == input[start..start + 4];
      assert |rest| >= 5 ==> rest[..5] == input[start..start + 5];
      r := Err(BadValue);
    }
  }

  function Moved(start: nat, r: Result<Header, JsonError>): Result<Header, JsonError> {
    if r.Ok? then Ok(Header(r.value.key, start + r.value.value)) else r
  }

  /** The part of the loop of `find_json_field_value` that reads a key and its colon. */
  method ReadKey(input: seq<byte>, index: nat) returns (r: Result<Header, JsonError>)
    requires index <= |input|
    ensures r == Moved(index, ReadHeader(input[index..]))
  {
    hide Decode, StringEnd, Ws, AfterKey;
    ghost var turn := input[index..];
    var keyStart := SkipJsonWs(input, index);
    if keyStart < |input| && input[keyStart] == CLOSE_BRACE {
      return Err(MissingField);
    }
    if keyStart == |input| || input[keyStart] != QUOTE {
      return Err(KeyExpected);
    }
    assert turn[Ws(turn)..] == input[keyStart..];
    var key := DecodeJsonStringBytes(input[keyStart..]);
    if key.Err? {
      return Err(key.error);
    }
    var keyLength := JsonStringEnd(input[keyStart..]);
    if keyLength.Err? {
      return Err(keyLength.error);
    }
    StringEndBounds(input[keyStart..]);
    var afterKey := keyStart + keyLength.value;
    assert input[keyStart..][keyLength.value..] == input[afterKey..];
    var value := ReadColon(input, afterKey);
    r := if value.Err? then Err(value.error) else Ok(Header(key.value, value.value));
  }

  method ReadColon(input: seq<byte>, afterKey: nat) returns (r: Result<nat, JsonError>)
    requires afterKey <= |input|
    ensures r == Plus(afterKey, AfterKey(input[afterKey..]))
  {
    hide Ws;
    ghost var follows := input[afterKey..];
    var colon := SkipJsonWs(input, afterKey);
    if colon == |input| || input[colon] != COLON {
      return Err(BadObject);
    }
    assert follows[Ws(follows) + 1..] == input[colon + 1..];
    var value := SkipJsonWs(input, colon + 1);
    r := Ok(value);
  }

  /** The part of the loop that passes over a value and the comma after it. */
  method SkipMember(input: seq<byte>, value: nat) returns (r: Result<nat, JsonError>)
    requires value <= |input|
    ensures r == Plus(value, NextMember(input[value..]))
  {
    hide ValueEnd, Ws;
    var end := JsonValueEnd(input, value);
    if end.Err? {
      return Err(end.error);
    }
    ValueEndBounds(input[value..]);
    assert input[value..][end.value - value..] == input[end.value..];
    var next := SkipJsonWs(input, end.value);
    if next < |input| && input[next] == COMMA {
      r := Ok(next + 1);
    } else if next < |input| && input[next] == CLOSE_BRACE {
      r := Err(MissingField);
    } else {
      r := Err(BadObject);
    }
  }

  /** One turn of the loop of `find_json_field_value`. */
  lemma {:induction false} FindLoopTurn(input: seq<byte>, index: nat, field: seq<byte>)
    requires index <= |input|
    ensures var here, header := FindFrom(input[index..], field), ReadHeader(input[index..]);
            && (header.Err? ==> here == Err(header.error))
            && (header.Ok? ==>
                  var value := index + header.value.value;
                  var next := NextMember(input[value..]);
                  if header.value.key == field then here == Ok(header.value.value)
                  else if next.Err? then here == Err(next.error)
                  else 0 < next.value <= |input| - value
                       && here == Plus(header.value.value + next.value, FindFrom(input[value + next.value..], field)))
  {
    hide ReadHeader, NextMember;
    var turn := input[index..];
    if ReadHeader(turn).Ok? {
      var value := ReadHeader(turn).value.value;
      assert turn[value..] == input[index + value..];
      if NextMember(turn[value..]).Ok? {
        NextMemberBounds(turn[value..]);
        assert turn[value + NextMember(turn[value..]).value..] == input[index + value + NextMember(turn[value..]).value..];
      }
    }
  }

  method FindJsonFieldValue(input: seq<byte>, field: seq<byte>) returns (r: Result<nat, JsonError>)
    ensures r == Find(input, field)
  {
    hide FindFrom, ReadHeader, NextMember;
    var index := SkipJsonWs(input, 0);
    assert input[0..] == input;
    if index == |input| || input[index] != OPEN_BRACE {
      return Err(NotAnObject);
    }
    index := index + 1;
    while true
      invariant index <= |input|
      invariant Find(input, field) == Plus(index, FindFrom(input[index..], field))
      decreases |input| - index
    {
      FindLoopTurn(input, index, field);
      var header := ReadKey(input, index);
      if header.Err? {
        return Err(header.error);
      }
      var value := header.value.value;
      if header.value.key == field {
        return Ok(value);
      }
      var next := SkipMember(input, value);
      if next.Err? {
        return Err(next.error);
      }
      index := next.value;
    }
  }
}
