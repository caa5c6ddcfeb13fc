/**
 The two redaction passes for a credential that goes into a query (crates/avault-cli/src/main.rs): one for the
 credential and one for its encoding.
 */
module QueryRedaction {
  import opened Bytes
  import opened Redaction
  import opened Wrappers
  import QueryUrl

  const OPEN: byte := 0x5B
  const CLOSE: byte := 0x5D

  function Needles(secret: seq<byte>): seq<seq<byte>> {
    [secret, QueryUrl.Encoded(secret)]
  }

  // ----- encodings

  lemma {:induction false} EncodedSplits(a: seq<byte>, b: seq<byte>)
    ensures QueryUrl.Encoded(a + b) == QueryUrl.Encoded(a) + QueryUrl.Encoded(b)
  {
    hide QueryUrl.EncodedByte;
    if a == [] {
      assert a + b == b;
    } else {
      EncodedSplits(a[1..], b);
      var first, rest, other := QueryUrl.EncodedByte(a[0]), QueryUrl.Encoded(a[1..]), QueryUrl.Encoded(b);
      assert (a + b)[1..] == a[1..] + b;
      assert QueryUrl.Encoded(a + b) == first + (rest + other);
      assert QueryUrl.Encoded(a) == first + rest;
    }
  }

  lemma {:induction false} EncodedLonger(a: seq<byte>)
    ensures |a| <= |QueryUrl.Encoded(a)| <= 3 * |a|
  {
    if a != [] {
      EncodedLonger(a[1..]);
    }
  }

  /** A percent sign in an encoding begins the encoding of one of the bytes. */
  lemma {:induction false} PercentBegins(a: seq<byte>, r: nat) returns (k: nat)
    requires r < |QueryUrl.Encoded(a)| && QueryUrl.Encoded(a)[r] == QueryUrl.PERCENT
    ensures k < |a| && r + 2 < |QueryUrl.Encoded(a)|
    ensures HexValue(QueryUrl.Encoded(a)[r + 1]) == Some((a[k] / 16) as nat) && HexValue(QueryUrl.Encoded(a)[r + 2]) == Some((a[k] % 16) as nat)
  {
    var first := QueryUrl.EncodedByte(a[0]);
    if r < |first| {
      k := 0;
    } else {
      k := PercentBegins(a[1..], r - |first|);
      k := k + 1;
    }
  }

  lemma {:induction false} BracketsGone(a: seq<byte>)
    ensures OPEN !in QueryUrl.Encoded(a) && CLOSE !in QueryUrl.Encoded(a)
  {
    QueryUrl.EncodedBytes(a);
  }

  /** An encoding without percent and plus signs changed nothing. */
  lemma {:induction false} EncodesItself(a: seq<byte>)
    requires QueryUrl.PERCENT !in QueryUrl.Encoded(a) && QueryUrl.PLUS !in QueryUrl.Encoded(a)
    ensures QueryUrl.Encoded(a) == a
  {
    if a != [] {
      assert QueryUrl.EncodedByte(a[0])[0] in QueryUrl.Encoded(a);
      assert forall b | b in QueryUrl.Encoded(a[1..]) :: b in QueryUrl.Encoded(a);
      EncodesItself(a[1..]);
    }
  }

  /** A body of a few times the credential's length that stays so small in both passes. */
  ghost predicate Small(body: seq<byte>, secret: seq<byte>) {
    var most := 4 * |secret| + |MARKER| * (|MARKER| + 1);
    && |body| <= most && |Redacted(body, secret)| <= most
    && |Redacted(Redacted(body, secret), QueryUrl.Encoded(secret))| <= most
  }

  // ----- a credential that begins before a marker

  const OPEN_ENCODED: seq<byte> := [0x25, 0x35, 0x42]

  lemma EncodedAround(a: seq<byte>, u: seq<byte>, tail: seq<byte>)
    ensures QueryUrl.Encoded(a + u + [OPEN] + tail) ==
            QueryUrl.Encoded(a) + QueryUrl.Encoded(u) + OPEN_ENCODED + QueryUrl.Encoded(tail)
  {
    hide QueryUrl.Encoded;
    EncodedSplits(a, u);
    EncodedSplits(a + u, [OPEN]);
    EncodedSplits(a + u + [OPEN], tail);
    OpenEncoded();
  }

  lemma OpenEncoded()
    ensures QueryUrl.Encoded([OPEN]) == OPEN_ENCODED
  {
    var open: seq<byte> := [OPEN];
    assert open[1..] == [];
    assert QueryUrl.EncodedByte(OPEN) == OPEN_ENCODED;
  }

  /** An occurrence `p` bytes early would repeat the encoding of the bracket `p` bytes earlier, in that of the bytes before it. */
  lemma EarlierHasBracket(x: seq<byte>, tail: seq<byte>, j: nat)
    requires j < |x|
    ensures var e := QueryUrl.Encoded(x + [OPEN] + tail); OccursAt(x + e, e, j) ==> OPEN in e
  {
    hide QueryUrl.Encoded;
    var a, u, p := x[..j], x[j..], |x| - j;
    var e := QueryUrl.Encoded(x + [OPEN] + tail);
    var ea, eu := QueryUrl.Encoded(a), QueryUrl.Encoded(u);
    assert x == a + u;
    EncodedAround(a, u, tail);
    EncodedLonger(u);
    if OccursAt(x + e, e, j) {
      var q := |ea| + |eu|;
      RepeatsAt(x, e, j, q);
      RepeatsAt(x, e, j, q + 1);
      RepeatsAt(x, e, j, q + 2);
      assert e[q] == 0x25 && e[q + 1] == 0x35 && e[q + 2] == 0x42;
      var r := |eu| - p;
      assert eu[r] == e[q - p];
      var k := PercentBegins(u, r);
      assert eu[r + 1] == e[q + 1 - p] && eu[r + 2] == e[q + 2 - p];
      assert u[k] == OPEN;
      assert (x + e)[j..j + |e|][k] == x[j + k];
    }
  }

  /** An occurrence that begins inside `x` repeats itself with the distance to the end of `x`. */
  lemma RepeatsAt(x: seq<byte>, e: seq<byte>, j: nat, k: nat)
    requires j < |x| && OccursAt(x + e, e, j) && |x| - j <= k < |e|
    ensures e[k] == e[k - (|x| - j)]
  {
    assert (x + e)[j..j + |e|][k] == (x + e)[j + k];
  }

  /** The encoding of a credential first stands where it was put, after the bytes of the credential before a bracket. */
  lemma EncodingFirst(x: seq<byte>, tail: seq<byte>)
    ensures var e := QueryUrl.Encoded(x + [OPEN] + tail); FirstAt(x + e, e, |x|)
  {
    hide QueryUrl.Encoded;
    var e := QueryUrl.Encoded(x + [OPEN] + tail);
    BracketsGone(x + [OPEN] + tail);
    assert (x + e)[|x|..|x| + |e|] == e;
    forall j | 0 <= j < |x| ensures !OccursAt(x + e, e, j) {
      EarlierHasBracket(x, tail, j);
    }
  }

  /** Around its own encoding, a credential with a bracket has no room. */
  lemma NotAroundEncoding(x: seq<byte>, e: seq<byte>, y: seq<byte>, secret: seq<byte>)
    requires OPEN !in e && |x| + |y| < |secret| <= |e| && secret[|x|] == OPEN
    ensures !Occurs(x + e + y, secret)
  {
    var text := x + e + y;
    forall i | 0 <= i <= |text| ensures !OccursAt(text, secret, i) {
      if i + |secret| <= |text| {
        assert text[i + |x|] == e[i];
        assert text[i..i + |secret|][|x|] == text[i + |x|];
      }
    }
  }

  lemma SurvivesBefore(secret: seq<byte>, d: int) returns (body: seq<byte>)
    requires -|secret| < d < 0 && AgreesAt(secret, MARKER, d)
    ensures Occurs(RedactedAll(body, Needles(secret)), secret) && Small(body, secret)
  {
    hide AgreesAt, FirstAt, OccursAt, Occurs, Redacted, RedactedAll, QueryUrl.Encoded;
    var e := QueryUrl.Encoded(secret);
    var x, y := secret[..-d], if d + |secret| > |MARKER| then secret[|MARKER| - d..] else [];
    body := x + e + y;
    AgreesThere(secret, d, -d);
    BracketsGone(secret);
    EncodedLonger(secret);
    assert secret == x + [OPEN] + secret[1 - d..];
    NotAroundEncoding(x, e, y, secret);
    NothingToRedact(body, secret);
    EncodingFirst(x, secret[1 - d..]);
    RedactsOne(x, y, e);
    Completes(secret, d);
    OccursThere(x + MARKER + y, secret, 0);
    TwoPasses(body, secret, e);
  }

  lemma AgreesThere(needle: seq<byte>, d: int, k: nat)
    requires AgreesAt(needle, MARKER, d) && k < |needle| && 0 <= d + k < |MARKER|
    ensures needle[k] == MARKER[d + k]
  {
  }

  // ----- a credential that begins inside a marker

  /** Text without brackets that no marker has part of is nowhere in a marker, nor across its end. */
  lemma NotInMarker(e: seq<byte>, y: seq<byte>)
    requires CLOSE !in e && (QueryUrl.PERCENT in e || QueryUrl.PLUS in e) && |y| < |e|
    ensures !Occurs(MARKER + y, e)
  {
    var text := MARKER + y;
    assert QueryUrl.PERCENT !in MARKER && QueryUrl.PLUS !in MARKER;
    var k :| 0 <= k < |e| && (e[k] == QueryUrl.PERCENT || e[k] == QueryUrl.PLUS);
    forall i | 0 <= i <= |text| ensures !OccursAt(text, e, i) {
      if i + |e| <= |text| {
        assert text[i..i + |e|][k] == text[i + k];
        if i + |e| <= |MARKER| {
          assert text[i + k] == MARKER[i + k] && MARKER[i + k] in MARKER;
        } else if i < |MARKER| {
          assert text[|MARKER| - 1] == CLOSE && text[i..i + |e|][|MARKER| - 1 - i] == text[|MARKER| - 1];
        }
      }
    }
  }

  lemma InMarkerStays(text: seq<byte>, needle: seq<byte>, d: nat)
    requires needle != [] && OccursAt(MARKER, needle, d) && Occurs(text, needle)
    ensures Occurs(Redacted(text, needle), needle)
  {
    hide Redacted, Matches, FindSubslice;
    RedactedStep(text, needle);
    SomeFound(text, needle);
    var at := FindSubslice(text, needle).value;
    var out := Redacted(text, needle);
    assert out[at..at + |MARKER|] == MARKER;
    assert out[at + d..at + d + |needle|] == MARKER[d..d + |needle|];
    assert OccursAt(out, needle, at + d);
  }

  lemma SomeFound(text: seq<byte>, needle: seq<byte>)
    requires needle != [] && Occurs(text, needle)
    ensures FindSubslice(text, needle).Some? && FindSubslice(text, needle).value + |needle| <= |text|
  {
    hide FindSubslice;
  }

  /** A credential of plain characters that a marker touches is inside it. */
  lemma PlainInMarker(secret: seq<byte>, d: nat)
    requires secret != [] && d < |MARKER| && AgreesAt(secret, MARKER, d) && CLOSE !in secret
    ensures OccursAt(MARKER, secret, d)
  {
    AgreesToTheEnd(secret, d);
    assert MARKER[d..d + |secret|] == secret;
  }

  lemma AgreesToTheEnd(secret: seq<byte>, d: nat)
    requires d < |MARKER| && AgreesAt(secret, MARKER, d)
    ensures d + |secret| > |MARKER| ==> CLOSE in secret
  {
    assert d + |secret| > |MARKER| ==> secret[|MARKER| - 1 - d] == MARKER[|MARKER| - 1];
  }

  lemma MarkerStaysSmall(needle: seq<byte>)
    requires needle != []
    ensures |Redacted(MARKER, needle)| <= |MARKER| * (|MARKER| + 1)
  {
    hide Redacted, Matches;
    RedactedLength(MARKER, needle);
    AtMost(Matches(MARKER, needle), |needle|, |MARKER|);
  }

  lemma AtMost(m: nat, n: nat, k: nat)
    requires n > 0 && m * n <= k
    ensures m <= k && m * k <= k * k
  {
    assert m * n >= m by {
      assert m * (n - 1) >= 0;
    }
  }

  lemma SurvivesPlain(secret: seq<byte>, d: nat) returns (body: seq<byte>)
    requires secret != [] && d < |MARKER| && AgreesAt(secret, MARKER, d) && QueryUrl.Encoded(secret) == secret
    ensures Occurs(RedactedAll(body, Needles(secret)), secret) && Small(body, secret)
  {
    hide AgreesAt, FirstAt, OccursAt, Occurs, Redacted, RedactedAll, QueryUrl.Encoded;
    BracketsGone(secret);
    PlainInMarker(secret, d);
    body := secret;
    FirstOfItself(secret);
    RedactsOne([], [], secret);
    assert [] + secret + [] == secret && [] + MARKER + [] == MARKER;
    OccursThere(MARKER, secret, d);
    InMarkerStays(MARKER, secret, d);
    MarkerStaysSmall(secret);
    TwoPasses(body, secret, secret);
  }

  lemma SurvivesInside(secret: seq<byte>, d: nat) returns (body: seq<byte>)
    requires secret != [] && d < |MARKER| && AgreesAt(secret, MARKER, d) && QueryUrl.Encoded(secret) != secret
    ensures Occurs(RedactedAll(body, Needles(secret)), secret) && Small(body, secret)
  {
    hide AgreesAt, FirstAt, OccursAt, Occurs, Redacted, RedactedAll, QueryUrl.Encoded;
    var e := QueryUrl.Encoded(secret);
    var y := if d + |secret| > |MARKER| then secret[|MARKER| - d..] else [];
    body := [] + secret + y;
    FirstOfItself(secret);
    RedactsOne([], y, secret);
    assert [] + MARKER + y == MARKER + y;
    Completes(secret, d);
    OccursThere(MARKER + y, secret, d);
    BracketsGone(secret);
    EncodedLonger(secret);
    SomeSign(secret);
    NotInMarker(e, y);
    NothingToRedact(MARKER + y, e);
    TwoPasses(body, secret, e);
  }

  lemma SomeSign(secret: seq<byte>)
    ensures QueryUrl.Encoded(secret) != secret ==> QueryUrl.PERCENT in QueryUrl.Encoded(secret) || QueryUrl.PLUS in QueryUrl.Encoded(secret)
  {
    hide QueryUrl.Encoded;
    if QueryUrl.PERCENT !in QueryUrl.Encoded(secret) && QueryUrl.PLUS !in QueryUrl.Encoded(secret) {
      EncodesItself(secret);
    }
  }

  // ----- both passes

  lemma SurvivesBoth(secret: seq<byte>) returns (body: seq<byte>)
    requires secret != [] && !Untouched(secret)
    ensures Occurs(RedactedAll(body, Needles(secret)), secret) && Small(body, secret)
  {
    hide AgreesAt, Occurs, RedactedAll, QueryUrl.Encoded;
    var d :| -|secret| < d < |MARKER| && AgreesAt(secret, MARKER, d);
    if d < 0 {
      body := SurvivesBefore(secret, d);
    } else if QueryUrl.Encoded(secret) == secret {
      body := SurvivesPlain(secret, d);
    } else {
      body := SurvivesInside(secret, d);
    }
  }

  /**
   The two passes for a credential in a query remove it from every body exactly when no overlap with the marker
   agrees with it.
   */
  lemma QueryRemovedExactly(secret: seq<byte>)
    requires secret != []
    ensures (forall body :: !Occurs(RedactedAll(body, Needles(secret)), secret)) <==> Untouched(secret)
  {
    hide Occurs, Untouched, RedactedAll, QueryUrl.Encoded;
    if Untouched(secret) {
      forall body ensures !Occurs(RedactedAll(body, Needles(secret)), secret) {
        NoneSurvives(body, Needles(secret), 0);
      }
    } else {
      var body := SurvivesBoth(secret);
    }
  }

  const MAX_SECRET_BYTES: nat := 1024 * 1024

  /** The same of what the source does return: of bodies within the size limit that no pass is refused for. */
  lemma QueryReturnsWithoutExactly(secret: seq<byte>)
    requires secret != [] && |secret| <= MAX_SECRET_BYTES
    ensures (forall body | |body| <= MAX_FETCH_BODY_BYTES && Passes(body, Needles(secret)).Ok? ::
               !Occurs(Passes(body, Needles(secret)).value, secret))
            <==> Untouched(secret)
  {
    hide Occurs, Untouched, RedactedAll, QueryUrl.Encoded, Redacted, Passes;
    if Untouched(secret) {
      forall body | |body| <= MAX_FETCH_BODY_BYTES && Passes(body, Needles(secret)).Ok?
        ensures !Occurs(Passes(body, Needles(secret)).value, secret)
      {
        PassesRedact(body, Needles(secret));
        NoneSurvives(body, Needles(secret), 0);
      }
    } else {
      var body := SurvivesBoth(secret);
      TwoPassesWithin(body, secret, QueryUrl.Encoded(secret));
      TwoPasses(body, secret, QueryUrl.Encoded(secret));
    }
  }

  /** Its encoding, where that is something else, they always remove. */
  lemma EncodingAlwaysRemoved(secret: seq<byte>, body: seq<byte>)
    requires QueryUrl.Encoded(secret) != secret
    ensures !Occurs(RedactedAll(body, Needles(secret)), QueryUrl.Encoded(secret))
  {
    hide Occurs, Untouched, RedactedAll, QueryUrl.Encoded;
    var e := QueryUrl.Encoded(secret);
    BracketsGone(secret);
    SomeSign(secret);
    SignUntouched(e);
    NoneSurvives(body, Needles(secret), 1);
  }

  lemma SignUntouched(e: seq<byte>)
    requires OPEN !in e && CLOSE !in e && (QueryUrl.PERCENT in e || QueryUrl.PLUS in e)
    ensures Untouched(e)
  {
    assert QueryUrl.PERCENT !in MARKER && QueryUrl.PLUS !in MARKER;
    var k :| 0 <= k < |e| && (e[k] == QueryUrl.PERCENT || e[k] == QueryUrl.PLUS);
    forall d | -|e| < d < |MARKER| ensures !AgreesAt(e, MARKER, d) {
      if d < 0 {
        assert e[-d] != MARKER[0];
      } else if d + |e| > |MARKER| - 1 {
        assert e[|MARKER| - 1 - d] != MARKER[|MARKER| - 1];
      } else {
        assert MARKER[d + k] in MARKER;
      }
    }
  }

  lemma BracketsDoNotLeak()
    ensures !Leaks([OPEN, OPEN])
  {
    var n: seq<byte> := [OPEN, OPEN];
    forall d | -2 < d < |MARKER| ensures !(AgreesAt(n, MARKER, d) && (d >= 0 || FirstAt(n[..-d] + n, n, -d))) {
      if d == -1 {
        assert (n[..1] + n)[0..2] == n;
        assert OccursAt(n[..1] + n, n, 0);
      } else {
        var k := if d == 0 then 1 else 0;
        assert n[k] != MARKER[d + k];
      }
    }
  }

  lemma BracketsEncoded()
    ensures QueryUrl.Encoded([OPEN, OPEN]) == OPEN_ENCODED + OPEN_ENCODED
  {
    hide QueryUrl.Encoded;
    OpenEncoded();
    EncodedSplits([OPEN], [OPEN]);
    assert [OPEN] + [OPEN] == [OPEN, OPEN];
  }

  /**
   One pass removes the credential "[[" from every body, but the two passes made for a credential in a query, for it
   and for its encoding, leave it: the marker put for the encoding completes it.
   */
  lemma QueryNeedlesLeave()
    ensures var secret := [OPEN, OPEN];
            var encoded := QueryUrl.Encoded(secret);
            && !Leaks(secret)
            && Passes([OPEN] + encoded, [secret, encoded]) == Ok([OPEN] + MARKER)
            && Occurs([OPEN] + MARKER, secret)
  {
    hide Redacted, Passes, Leaks, QueryUrl.Encoded;
    var secret := [OPEN, OPEN];
    var encoded := QueryUrl.Encoded(secret);
    BracketsEncoded();
    BracketsDoNotLeak();
    var body := [OPEN] + encoded;
    forall i | 0 <= i <= |body| ensures !OccursAt(body, secret, i) {
      OccurrenceEnds(body, secret, i);
    }
    NothingToRedact(body, secret);
    FirstFiller([OPEN], encoded);
    RedactsOne([OPEN], [], encoded);
    assert body + [] == body && [OPEN] + MARKER + [] == [OPEN] + MARKER;
    TwoPassesWithin(body, secret, encoded);
    assert ([OPEN] + MARKER)[0..2] == secret;
    assert OccursAt([OPEN] + MARKER, secret, 0);
  }
}
