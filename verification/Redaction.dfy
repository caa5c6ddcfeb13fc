/**
 Redaction of credentials in a fetched body (crates/avault-cli/src/main.rs): the leftmost non-overlapping
 replacement, its exact length, and exactly which needles it removes for good.
 */
module Redaction {
  import opened Bytes
  import opened Wrappers

  /** The text put in the place of a credential, "[avault-redacted]". */
  const MARKER: seq<byte> := [0x5B, 0x61, 0x76, 0x61, 0x75, 0x6C, 0x74, 0x2D, 0x72, 0x65, 0x64, 0x61, 0x63, 0x74, 0x65, 0x64, 0x5D]
  const MAX_FETCH_BODY_BYTES: nat := 8 * 1024 * 1024
  const USIZE_MAX: nat := 0xFFFF_FFFF_FFFF_FFFF

  // ----- finding

  predicate OccursAt(text: seq<byte>, needle: seq<byte>, i: nat) {
    i + |needle| <= |text| && text[i..i + |needle|] == needle
  }

  predicate Occurs(text: seq<byte>, needle: seq<byte>) {
    exists i | 0 <= i <= |text| :: OccursAt(text, needle, i)
  }

  predicate FirstAt(text: seq<byte>, needle: seq<byte>, i: nat) {
    OccursAt(text, needle, i) && forall j | 0 <= j < i :: !OccursAt(text, needle, j)
  }

  function FindSubslice(text: seq<byte>, needle: seq<byte>): (at: Option<nat>)
    requires needle != []
    ensures at.Some? ==> at.value + |needle| <= |text| && FirstAt(text, needle, at.value)
    ensures at.None? ==> !Occurs(text, needle)
  {
    if |text| < |needle| then None
    else if text[..|needle|] == needle then Some(0)
    else
      FirstInTail(text, needle);
      var later := FindSubslice(text[1..], needle);
      if later.None? then None else Some(later.value + 1)
  }

  lemma OccursInTail(text: seq<byte>, needle: seq<byte>, i: nat)
    requires text != []
    ensures OccursAt(text, needle, i + 1) <==> OccursAt(text[1..], needle, i)
  {
    if i + 1 + |needle| <= |text| {
      assert text[i + 1..i + 1 + |needle|] == text[1..][i..i + |needle|];
    }
  }

  lemma FirstInTail(text: seq<byte>, needle: seq<byte>)
    requires text != [] && !OccursAt(text, needle, 0)
    ensures forall i: nat :: FirstAt(text[1..], needle, i) ==> FirstAt(text, needle, i + 1)
    ensures !Occurs(text[1..], needle) ==> !Occurs(text, needle)
  {
    forall i: nat | FirstAt(text[1..], needle, i) ensures FirstAt(text, needle, i + 1) {
      OccursInTail(text, needle, i);
      forall j | 0 <= j < i + 1 ensures !OccursAt(text, needle, j) {
        if j > 0 {
          OccursInTail(text, needle, j - 1);
        }
      }
    }
    if !Occurs(text[1..], needle) {
      forall j | 0 <= j <= |text| ensures !OccursAt(text, needle, j) {
        if j > 0 {
          OccursInTail(text, needle, j - 1);
        }
      }
    }
  }

  // ----- the replacement, as a specification

  function Join(pieces: seq<seq<byte>>, separator: seq<byte>): seq<byte>
    requires pieces != []
  {
    if |pieces| == 1 then pieces[0] else pieces[0] + separator + Join(pieces[1..], separator)
  }

  /**
   The pieces between the matches that a scan from the left takes: in each but the last, the needle that follows
   the piece is the first one from its start on, and the last piece has none.
   */
  predicate Leftmost(pieces: seq<seq<byte>>, needle: seq<byte>) {
    && pieces != []
    && (forall k | 0 <= k < |pieces| - 1 :: FirstAt(pieces[k] + needle, needle, |pieces[k]|))
    && !Occurs(pieces[|pieces| - 1], needle)
  }

  function Pieces(body: seq<byte>, needle: seq<byte>): (pieces: seq<seq<byte>>)
    requires needle != []
    ensures pieces != []
    decreases |body|
  {
    var at := FindSubslice(body, needle);
    if at.None? then [body] else [body[..at.value]] + Pieces(body[at.value + |needle|..], needle)
  }

  function Redacted(body: seq<byte>, needle: seq<byte>): seq<byte> {
    if needle == [] then body else Join(Pieces(body, needle), MARKER)
  }

  function Matches(body: seq<byte>, needle: seq<byte>): nat
    requires needle != []
  {
    |Pieces(body, needle)| - 1
  }

  /** An occurrence that ends within the first part of a text does not depend on the rest. */
  lemma OccursBefore(a: seq<byte>, b: seq<byte>, needle: seq<byte>, i: nat)
    requires i + |needle| <= |a|
    ensures OccursAt(a + b, needle, i) <==> OccursAt(a, needle, i)
  {
    assert (a + b)[i..i + |needle|] == a[i..i + |needle|];
  }

  lemma FirstInPrefix(a: seq<byte>, needle: seq<byte>, b: seq<byte>)
    ensures FirstAt(a + needle + b, needle, |a|) <==> FirstAt(a + needle, needle, |a|)
  {
    forall j | 0 <= j <= |a| ensures OccursAt(a + needle + b, needle, j) <==> OccursAt(a + needle, needle, j) {
      OccursBefore(a + needle, b, needle, j);
    }
  }

  lemma SplitsAt(body: seq<byte>, needle: seq<byte>, i: nat)
    requires FirstAt(body, needle, i)
    ensures body == body[..i] + needle + body[i + |needle|..]
  {
  }

  /** The scan cuts the body into leftmost pieces, and loses nothing. */
  lemma {:induction false} PiecesAreLeftmost(body: seq<byte>, needle: seq<byte>)
    requires needle != []
    ensures Leftmost(Pieces(body, needle), needle) && Join(Pieces(body, needle), needle) == body
    decreases |body|
  {
    hide FindSubslice, Occurs, FirstAt, Leftmost, Join;
    var at := FindSubslice(body, needle);
    OnePiece(body, needle);
    if at.Some? {
      var first, rest := body[..at.value], body[at.value + |needle|..];
      PiecesAreLeftmost(rest, needle);
      SplitsAt(body, needle, at.value);
      FirstInPrefix(first, needle, rest);
      LeftmostCons(first, Pieces(rest, needle), needle);
      JoinCons(first, Pieces(rest, needle), needle);
    }
  }

  lemma OnePiece(body: seq<byte>, needle: seq<byte>)
    requires needle != []
    ensures Join([body], needle) == body
    ensures FindSubslice(body, needle).None? ==> Leftmost([body], needle)
  {
    hide FindSubslice;
  }

  lemma LeftmostCons(first: seq<byte>, pieces: seq<seq<byte>>, needle: seq<byte>)
    requires FirstAt(first + needle, needle, |first|) && Leftmost(pieces, needle)
    ensures Leftmost([first] + pieces, needle)
  {
    hide FirstAt, Occurs;
    var all := [first] + pieces;
    assert all[|all| - 1] == pieces[|pieces| - 1];
    forall k | 0 <= k < |all| - 1 ensures FirstAt(all[k] + needle, needle, |all[k]|) {
      if k > 0 {
        assert all[k] == pieces[k - 1];
      }
    }
  }

  lemma JoinCons(first: seq<byte>, pieces: seq<seq<byte>>, separator: seq<byte>)
    requires pieces != []
    ensures Join([first] + pieces, separator) == first + separator + Join(pieces, separator)
  {
    assert ([first] + pieces)[1..] == pieces;
  }

  lemma TailIsLeftmost(pieces: seq<seq<byte>>, needle: seq<byte>)
    requires Leftmost(pieces, needle) && |pieces| > 1
    ensures Leftmost(pieces[1..], needle)
  {
    forall k | 0 <= k < |pieces| - 2 ensures FirstAt(pieces[1..][k] + needle, needle, |pieces[1..][k]|) {
      assert pieces[1..][k] == pieces[k + 1];
    }
  }

  /** And there is only one way to cut a body into leftmost pieces. */
  lemma {:induction false} LeftmostUnique(pieces: seq<seq<byte>>, needle: seq<byte>)
    requires needle != [] && Leftmost(pieces, needle)
    ensures Pieces(Join(pieces, needle), needle) == pieces
  {
    var body := Join(pieces, needle);
    if |pieces| > 1 {
      var rest := Join(pieces[1..], needle);
      FirstInPrefix(pieces[0], needle, rest);
      TailIsLeftmost(pieces, needle);
      FirstIsUnique(body, needle, FindSubslice(body, needle), |pieces[0]|);
      assert body[|pieces[0]| + |needle|..] == rest && body[..|pieces[0]|] == pieces[0];
      LeftmostUnique(pieces[1..], needle);
    }
  }

  lemma FirstIsUnique(body: seq<byte>, needle: seq<byte>, at: Option<nat>, i: nat)
    requires needle != [] && FirstAt(body, needle, i) && at == FindSubslice(body, needle)
    ensures at == Some(i)
  {
    assert at.Some?;
  }

  lemma RedactedStep(body: seq<byte>, needle: seq<byte>)
    requires needle != []
    ensures FindSubslice(body, needle).None? ==> Matches(body, needle) == 0 && Redacted(body, needle) == body
    ensures FindSubslice(body, needle).Some? ==>
              var at := FindSubslice(body, needle).value;
              var rest := body[at + |needle|..];
              Matches(body, needle) == Matches(rest, needle) + 1 && Redacted(body, needle) == body[..at] + MARKER + Redacted(rest, needle)
  {
    hide FindSubslice, FirstAt, Occurs, OccursAt;
    var at := FindSubslice(body, needle);
    if at.Some? {
      assert Pieces(body, needle)[1..] == Pieces(body[at.value + |needle|..], needle);
    }
  }

  /** The predicted length is exact, and its subtraction never goes below zero. */
  lemma {:induction false} RedactedLength(body: seq<byte>, needle: seq<byte>)
    requires needle != []
    ensures Matches(body, needle) * |needle| <= |body|
    ensures |Redacted(body, needle)| == |body| + Matches(body, needle) * |MARKER| - Matches(body, needle) * |needle|
    decreases |body|
  {
    hide Matches, Redacted;
    RedactedStep(body, needle);
    var at := FindSubslice(body, needle);
    if at.Some? {
      var rest := body[at.value + |needle|..];
      RedactedLength(rest, needle);
      OneMore(Matches(rest, needle), |needle|);
      OneMore(Matches(rest, needle), |MARKER|);
    }
  }

  lemma OneMore(k: nat, n: nat)
    ensures (k + 1) * n == k * n + n
  {
  }

  // ----- which needles are removed for good

  /** With the needle placed `d` after the start of the marker (before it, when negative), the bytes that overlap agree. */
  predicate AgreesAt(needle: seq<byte>, marker: seq<byte>, d: int) {
    forall k | 0 <= k < |needle| && 0 <= d + k < |marker| :: needle[k] == marker[d + k]
  }

  /**
   A needle that markers can complete: it agrees with the marker at some overlap, and, when it starts before the
   marker, the bytes it has there can stand before a match without making an earlier one.
   */
  predicate Leaks(needle: seq<byte>) {
    exists d | -|needle| < d < |MARKER| ::
      AgreesAt(needle, MARKER, d) && (d >= 0 || FirstAt(needle[..-d] + needle, needle, -d))
  }

  /** Where the needle occurs across the marker after `before`, they agree on the overlap. */
  lemma OverlapAgrees(before: seq<byte>, after: seq<byte>, needle: seq<byte>, i: nat)
    requires OccursAt(before + MARKER + after, needle, i)
    ensures AgreesAt(needle, MARKER, i - |before|)
  {
    var text, d := before + MARKER + after, i - |before|;
    forall k | 0 <= k < |needle| && 0 <= d + k < |MARKER| ensures needle[k] == MARKER[d + k] {
      assert text[i..i + |needle|][k] == text[i + k];
      assert (before + MARKER)[|before| + (d + k)] == MARKER[d + k];
    }
  }

  lemma FirstAfterSuffix(piece: seq<byte>, needle: seq<byte>, i: nat)
    requires FirstAt(piece + needle, needle, |piece|) && i <= |piece| && |piece| - i <= |needle|
    requires piece[i..] == needle[..|piece| - i]
    ensures FirstAt(needle[..|piece| - i] + needle, needle, |piece| - i)
  {
    var x := piece[i..];
    forall j | 0 <= j <= |x| ensures OccursAt(x + needle, needle, j) <==> OccursAt(piece + needle, needle, i + j) {
      assert (piece + needle)[i + j..i + j + |needle|] == (x + needle)[j..j + |needle|];
    }
    forall j | 0 <= j < |x| ensures !OccursAt(x + needle, needle, j) {
      assert OccursAt(x + needle, needle, j) <==> OccursAt(piece + needle, needle, i + j);
    }
    assert OccursAt(x + needle, needle, |x|) <==> OccursAt(piece + needle, needle, i + |x|);
  }

  lemma PieceHasNone(piece: seq<byte>, needle: seq<byte>, i: nat)
    requires needle != [] && FirstAt(piece + needle, needle, |piece|)
    ensures !OccursAt(piece, needle, i)
  {
    if i + |needle| <= |piece| {
      OccursBefore(piece, needle, needle, i);
    }
  }

  /** A needle that markers cannot complete is in no output. */
  lemma {:induction false} NoneLeft(pieces: seq<seq<byte>>, needle: seq<byte>, i: nat)
    requires needle != [] && Leftmost(pieces, needle) && !Leaks(needle)
    ensures !OccursAt(Join(pieces, MARKER), needle, i)
  {
    if |pieces| == 1 {
      assert OccursAt(pieces[0], needle, i) ==> Occurs(pieces[0], needle);
    } else {
      var rest := Join(pieces[1..], MARKER);
      var text := pieces[0] + MARKER + rest;
      TailIsLeftmost(pieces, needle);
      var skipped := |pieces[0]| + |MARKER|;
      if i + |needle| <= |pieces[0]| {
        PieceHasNone(pieces[0], needle, i);
        OccursBefore(pieces[0], MARKER + rest, needle, i);
        assert text == pieces[0] + (MARKER + rest);
      } else if i >= skipped {
        NoneLeft(pieces[1..], needle, i - skipped);
        assert i + |needle| <= |text| ==> text[i..i + |needle|] == rest[i - skipped..i - skipped + |needle|];
      } else {
        NoneAcross(pieces[0], rest, needle, i);
      }
    }
  }

  lemma SuffixMatches(piece: seq<byte>, after: seq<byte>, needle: seq<byte>, i: nat)
    requires OccursAt(piece + after, needle, i) && i <= |piece| <= i + |needle|
    ensures piece[i..] == needle[..|piece| - i]
  {
    var text := piece + after;
    forall k | 0 <= k < |piece| - i ensures piece[i..][k] == needle[k] {
      assert text[i..i + |needle|][k] == text[i + k];
    }
  }

  lemma NoneAcross(piece: seq<byte>, rest: seq<byte>, needle: seq<byte>, i: nat)
    requires needle != [] && FirstAt(piece + needle, needle, |piece|) && !Leaks(needle)
    requires |piece| < i + |needle| && i < |piece| + |MARKER|
    ensures !OccursAt(piece + MARKER + rest, needle, i)
  {
    var text := piece + MARKER + rest;
    if OccursAt(text, needle, i) {
      OverlapAgrees(piece, rest, needle, i);
      if i < |piece| {
        assert text == piece + (MARKER + rest);
        SuffixMatches(piece, MARKER + rest, needle, i);
        FirstAfterSuffix(piece, needle, i);
      }
    }
  }

  lemma TwoPieces(x: seq<byte>, y: seq<byte>, separator: seq<byte>)
    ensures Join([x, y], separator) == x + separator + y
  {
    assert [x, y][1..] == [y];
  }

  /** A body with one match, cut in front of it and behind it. */
  lemma RedactsOne(x: seq<byte>, y: seq<byte>, needle: seq<byte>)
    requires needle != [] && FirstAt(x + needle, needle, |x|) && |y| < |needle|
    ensures Redacted(x + needle + y, needle) == x + MARKER + y
  {
    hide Redacted, Join, Pieces;
    LeftmostUnique([x, y], needle);
    TwoPieces(x, y, needle);
    TwoPieces(x, y, MARKER);
    RedactedIs(x + needle + y, needle);
  }

  lemma RedactedIs(body: seq<byte>, needle: seq<byte>)
    requires needle != []
    ensures Redacted(body, needle) == Join(Pieces(body, needle), MARKER)
  {
  }

  lemma CompletesByte(needle: seq<byte>, d: int, k: nat)
    requires -|needle| < d < |MARKER| && AgreesAt(needle, MARKER, d) && k < |needle|
    ensures var x, y := if d < 0 then needle[..-d] else [], if d + |needle| > |MARKER| then needle[|MARKER| - d..] else [];
            var i := if d < 0 then 0 else d;
            i + k < |x + MARKER + y| && (x + MARKER + y)[i + k] == needle[k]
  {
  }

  /** The parts of the needle on either side of a marker it agrees with make it whole. */
  lemma Completes(needle: seq<byte>, d: int)
    requires -|needle| < d < |MARKER| && AgreesAt(needle, MARKER, d)
    ensures var x, y := if d < 0 then needle[..-d] else [], if d + |needle| > |MARKER| then needle[|MARKER| - d..] else [];
            OccursAt(x + MARKER + y, needle, if d < 0 then 0 else d)
  {
    var x, y := if d < 0 then needle[..-d] else [], if d + |needle| > |MARKER| then needle[|MARKER| - d..] else [];
    hide AgreesAt;
    var out, i := x + MARKER + y, if d < 0 then 0 else d;
    assert i + |needle| <= |out|;
    forall k | 0 <= k < |needle| ensures out[i + k] == needle[k] {
      CompletesByte(needle, d, k);
    }
    assert out[i..i + |needle|] == needle;
  }

  lemma FirstOfItself(needle: seq<byte>)
    ensures FirstAt([] + needle, needle, 0)
  {
    assert [] + needle == needle;
  }

  lemma OccursThere(text: seq<byte>, needle: seq<byte>, i: nat)
    requires OccursAt(text, needle, i)
    ensures Occurs(text, needle)
  {
  }

  /** A body in which redaction leaves the needle, for a needle that the markers can complete. */
  lemma LeakingBody(needle: seq<byte>) returns (body: seq<byte>)
    requires needle != [] && Leaks(needle)
    ensures Occurs(Redacted(body, needle), needle)
  {
    hide AgreesAt, Redacted, FirstAt, OccursAt, Occurs;
    var d :| -|needle| < d < |MARKER| && AgreesAt(needle, MARKER, d) && (d >= 0 || FirstAt(needle[..-d] + needle, needle, -d));
    var x, y := if d < 0 then needle[..-d] else [], if d + |needle| > |MARKER| then needle[|MARKER| - d..] else [];
    body := x + needle + y;
    if d >= 0 {
      FirstOfItself(needle);
    }
    RedactsOne(x, y, needle);
    Completes(needle, d);
    OccursThere(x + MARKER + y, needle, if d < 0 then 0 else d);
  }

  /** One pass removes its needle from every body exactly when the markers it puts cannot complete it. */
  lemma RemovedForGoodExactly(needle: seq<byte>)
    requires needle != []
    ensures (forall body :: !Occurs(Redacted(body, needle), needle)) <==> !Leaks(needle)
  {
    if Leaks(needle) {
      var body := LeakingBody(needle);
    } else {
      forall body ensures !Occurs(Redacted(body, needle), needle) {
        PiecesAreLeftmost(body, needle);
        forall i | 0 <= i <= |Redacted(body, needle)| ensures !OccursAt(Redacted(body, needle), needle, i) {
          NoneLeft(Pieces(body, needle), needle, i);
        }
      }
    }
  }

  /** In particular a needle that has no byte in common with the marker never survives. */
  lemma NoCommonByte(needle: seq<byte>)
    requires needle != [] && forall b :: b in needle ==> b !in MARKER
    ensures !Leaks(needle)
  {
    forall d | -|needle| < d < |MARKER| ensures !AgreesAt(needle, MARKER, d) {
      var k := if d < 0 then -d else 0;
      assert needle[k] in needle && MARKER[d + k] in MARKER;
    }
  }

  /** "red" is in the marker itself; "]-" is completed by what follows one. Neither is removed. */
  lemma SomeLeak()
    ensures Leaks([0x72, 0x65, 0x64]) && Leaks([0x5D, 0x2D])
  {
    assert AgreesAt([0x72, 0x65, 0x64], MARKER, 8);
    assert AgreesAt([0x5D, 0x2D], MARKER, 16);
  }

  // ----- several needles, one after another

  /** A needle that no overlap with the marker agrees with. */
  predicate Untouched(needle: seq<byte>) {
    forall d | -|needle| < d < |MARKER| :: !AgreesAt(needle, MARKER, d)
  }

  function RedactedAll(body: seq<byte>, needles: seq<seq<byte>>): seq<byte>
    decreases |needles|
  {
    if needles == [] then body else RedactedAll(Redacted(body, needles[0]), needles[1..])
  }

  lemma AbsentInPart(before: seq<byte>, part: seq<byte>, after: seq<byte>, needle: seq<byte>)
    requires !Occurs(before + part + after, needle)
    ensures !Occurs(part, needle)
  {
    forall i | 0 <= i <= |part| ensures !OccursAt(part, needle, i) {
      if i + |needle| <= |part| {
        assert (before + part + after)[|before| + i..|before| + i + |needle|] == part[i..i + |needle|];
        assert !OccursAt(before + part + after, needle, |before| + i);
      }
    }
  }

  lemma AbsentAroundMarker(before: seq<byte>, after: seq<byte>, needle: seq<byte>)
    requires Untouched(needle) && !Occurs(before, needle) && !Occurs(after, needle)
    ensures !Occurs(before + MARKER + after, needle)
  {
    var text, skipped := before + MARKER + after, |before| + |MARKER|;
    forall i | 0 <= i <= |text| ensures !OccursAt(text, needle, i) {
      if i + |needle| <= |before| {
        assert text == before + (MARKER + after);
        OccursBefore(before, MARKER + after, needle, i);
      } else if i >= skipped {
        assert i + |needle| <= |text| ==> text[i..i + |needle|] == after[i - skipped..i - skipped + |needle|];
        assert !OccursAt(after, needle, i - skipped);
      } else if OccursAt(text, needle, i) {
        OverlapAgrees(before, after, needle, i);
      }
    }
  }

  /** Redacting another needle does not bring back one that is absent and that no marker touches. */
  lemma {:induction false} KeepsAbsent(body: seq<byte>, needle: seq<byte>, absent: seq<byte>)
    requires Untouched(absent) && !Occurs(body, absent)
    ensures !Occurs(Redacted(body, needle), absent)
    decreases |body|
  {
    hide Occurs, Untouched, Redacted, Matches, FindSubslice, FirstAt;
    if needle != [] {
      RedactedStep(body, needle);
      var at := FindSubslice(body, needle);
      if at.Some? {
        var first, rest := body[..at.value], body[at.value + |needle|..];
        SplitsAt(body, needle, at.value);
        AbsentOnBothSides(first, needle, rest, absent);
        KeepsAbsent(rest, needle, absent);
        AbsentAroundMarker(first, Redacted(rest, needle), absent);
      }
    } else {
      RedactsNothing(body);
    }
  }

  lemma RedactsNothing(body: seq<byte>)
    ensures Redacted(body, []) == body
  {
  }

  lemma AbsentOnBothSides(first: seq<byte>, middle: seq<byte>, rest: seq<byte>, absent: seq<byte>)
    requires !Occurs(first + middle + rest, absent)
    ensures !Occurs(first, absent) && !Occurs(rest, absent)
  {
    hide Occurs;
    assert first + middle + rest == [] + first + (middle + rest);
    assert first + middle + rest == (first + middle) + rest + [];
    AbsentInPart([], first, middle + rest, absent);
    AbsentInPart(first + middle, rest, [], absent);
  }

  lemma UntouchedRemoved(body: seq<byte>, needle: seq<byte>)
    requires needle != [] && Untouched(needle)
    ensures !Occurs(Redacted(body, needle), needle)
  {
    assert !Leaks(needle);
    RemovedForGoodExactly(needle);
  }

  lemma {:induction false} StaysAbsent(body: seq<byte>, needles: seq<seq<byte>>, absent: seq<byte>)
    requires Untouched(absent) && !Occurs(body, absent)
    ensures !Occurs(RedactedAll(body, needles), absent)
    decreases |needles|
  {
    if needles != [] {
      KeepsAbsent(body, needles[0], absent);
      StaysAbsent(Redacted(body, needles[0]), needles[1..], absent);
    }
  }

  /** After all passes, no needle that markers do not touch is left, whatever the other needles are. */
  lemma {:induction false} NoneSurvives(body: seq<byte>, needles: seq<seq<byte>>, k: nat)
    requires k < |needles| && needles[k] != [] && Untouched(needles[k])
    ensures !Occurs(RedactedAll(body, needles), needles[k])
    decreases |needles|
  {
    if k == 0 {
      UntouchedRemoved(body, needles[0]);
      StaysAbsent(Redacted(body, needles[0]), needles[1..], needles[0]);
    } else {
      NoneSurvives(Redacted(body, needles[0]), needles[1..], k - 1);
    }
  }

  /** No list of needles that has this one leaves it in any body. */
  ghost predicate AlwaysRemoved(needle: seq<byte>) {
    forall body, needles | needle in needles :: !Occurs(RedactedAll(body, needles), needle)
  }

  /** A byte that stands neither at an end of the needle nor at the end of `x`. */
  function Filler(needle: seq<byte>, x: seq<byte>): (b: byte)
    requires needle != []
    ensures b != needle[0] && b != needle[|needle| - 1] && (x != [] ==> b != x[|x| - 1])
  {
    var used := {needle[0], needle[|needle| - 1]} + if x == [] then {} else {x[|x| - 1]};
    if 0 !in used then 0 else if 1 !in used then 1 else if 2 !in used then 2 else 3
  }

  function Repeated(b: byte, n: nat): (bs: seq<byte>)
    ensures |bs| == n && forall i | 0 <= i < n :: bs[i] == b
  {
    seq(n, i => b)
  }

  /** Text of filler, longer than the needle, between parts shorter than it: the needle is nowhere. */
  lemma NotAroundFiller(x: seq<byte>, z: seq<byte>, y: seq<byte>, needle: seq<byte>, i: nat)
    requires |x| < |needle| && |y| < |needle| < |z|
    requires forall k | 0 <= k < |z| :: z[k] != needle[0] && z[k] != needle[|needle| - 1]
    ensures !OccursAt(x + z + y, needle, i)
  {
    var text, last := x + z + y, i + |needle| - 1;
    OccurrenceEnds(text, needle, i);
    if last < |text| {
      if |x| <= i < |x| + |z| {
        assert text[i] == z[i - |x|];
      } else if i < |x| {
        assert text[last] == z[last - |x|];
      }
    }
  }

  lemma OccurrenceEnds(text: seq<byte>, needle: seq<byte>, i: nat)
    requires needle != []
    ensures OccursAt(text, needle, i) ==>
              i + |needle| <= |text| && text[i] == needle[0] && text[i + |needle| - 1] == needle[|needle| - 1]
  {
    if i + |needle| <= |text| {
      var part := text[i..i + |needle|];
      assert part[0] == text[i] && part[|needle| - 1] == text[i + |needle| - 1];
    }
  }

  lemma NothingToRedact(body: seq<byte>, needle: seq<byte>)
    requires needle != [] && !Occurs(body, needle)
    ensures Redacted(body, needle) == body
  {
    hide Occurs, Redacted, Matches, FindSubslice;
    FoundOccurs(body, needle);
    RedactedStep(body, needle);
  }

  lemma FoundOccurs(body: seq<byte>, needle: seq<byte>)
    requires needle != []
    ensures FindSubslice(body, needle).Some? ==> Occurs(body, needle)
  {
    hide FindSubslice;
  }

  lemma FirstFiller(x: seq<byte>, z: seq<byte>)
    requires z != [] && |x| <= |z| && (x != [] ==> forall k | 0 <= k < |z| :: z[k] != x[|x| - 1])
    ensures FirstAt(x + z, z, |x|)
  {
    assert (x + z)[|x|..|x| + |z|] == z;
    forall j | 0 <= j < |x| ensures !OccursAt(x + z, z, j) {
      assert (x + z)[j..j + |z|][|x| - 1 - j] == x[|x| - 1];
    }
  }

  /**
   For a needle that a marker touches, a body that it does not occur in, and another needle, longer than it, whose
   marker completes it.
   */
  lemma CompletedByAnother(needle: seq<byte>) returns (body: seq<byte>, other: seq<byte>)
    requires needle != [] && !Untouched(needle)
    ensures !Occurs(body, needle) && Occurs(RedactedAll(body, [needle, other]), needle)
  {
    hide AgreesAt, FirstAt, OccursAt, Occurs, Redacted;
    var d :| -|needle| < d < |MARKER| && AgreesAt(needle, MARKER, d);
    var x, y := if d < 0 then needle[..-d] else [], if d + |needle| > |MARKER| then needle[|MARKER| - d..] else [];
    other := Repeated(Filler(needle, x), |needle| + 1);
    body := x + other + y;
    NowhereAroundFiller(x, other, y, needle);
    NothingToRedact(body, needle);
    FirstFiller(x, other);
    RedactsOne(x, y, other);
    Completes(needle, d);
    OccursThere(x + MARKER + y, needle, if d < 0 then 0 else d);
    TwoPasses(body, needle, other);
  }

  lemma NowhereAroundFiller(x: seq<byte>, z: seq<byte>, y: seq<byte>, needle: seq<byte>)
    requires |x| < |needle| && |y| < |needle| < |z|
    requires forall k | 0 <= k < |z| :: z[k] != needle[0] && z[k] != needle[|needle| - 1]
    ensures !Occurs(x + z + y, needle)
  {
    hide OccursAt;
    forall i | 0 <= i <= |x + z + y| ensures !OccursAt(x + z + y, needle, i) {
      NotAroundFiller(x, z, y, needle, i);
    }
  }

  lemma TwoPasses(body: seq<byte>, a: seq<byte>, b: seq<byte>)
    ensures RedactedAll(body, [a, b]) == Redacted(Redacted(body, a), b)
  {
    hide Redacted;
    assert [a, b][1..] == [b];
    assert RedactedAll(body, [a, b]) == RedactedAll(Redacted(body, a), [b]);
    assert [b][1..] == [];
    assert RedactedAll(Redacted(body, a), [b]) == RedactedAll(Redacted(Redacted(body, a), b), []);
  }

  /**
   Over lists of needles, as the source runs them, a needle is removed for good exactly when no overlap with the
   marker agrees with it; that a single pass removes it is not enough.
   */
  lemma AlwaysRemovedExactly(needle: seq<byte>)
    requires needle != []
    ensures AlwaysRemoved(needle) <==> Untouched(needle)
  {
    hide Occurs, Untouched, RedactedAll;
    if Untouched(needle) {
      forall body, needles | needle in needles ensures !Occurs(RedactedAll(body, needles), needle) {
        var k :| 0 <= k < |needles| && needles[k] == needle;
        NoneSurvives(body, needles, k);
      }
    } else {
      var body, other := CompletedByAnother(needle);
      assert needle in [needle, other];
    }
  }

  // ----- the loops of the source

  datatype RedactionError = SizeLimit

  /**
   `redacted_body_len`: both growth steps are checked; the subtraction is not, so the caller's matches must fit in
   the body.
   */
  function RedactedBodyLen(bodyLen: nat, matches: nat, needleLen: nat, markerLen: nat): (r: Result<nat, RedactionError>)
    requires matches * needleLen <= bodyLen <= USIZE_MAX
    ensures var exact := bodyLen + matches * markerLen - matches * needleLen;
            r == if exact <= USIZE_MAX then Ok(exact) else Err(SizeLimit)
  {
    if markerLen >= needleLen then
      var growth := matches * (markerLen - needleLen);
      Distributes(matches, markerLen, needleLen);
      if growth > USIZE_MAX then Err(SizeLimit)
      else if bodyLen + growth > USIZE_MAX then Err(SizeLimit)
      else Ok(bodyLen + growth)
    else
      var shrink := matches * (needleLen - markerLen);
      Distributes(matches, needleLen, markerLen);
      Ok(bodyLen - shrink)
  }

  lemma Distributes(m: nat, a: nat, b: nat)
    requires a >= b
    ensures m * a - m * b == m * (a - b) && m * (a - b) >= 0 && m * b >= 0
  {
    if m > 0 {
      Distributes(m - 1, a, b);
    }
  }

  /** One pass is refused when it would leave a body over the size limit; a pass without a match never is. */
  function Pass(body: seq<byte>, needle: seq<byte>): Result<seq<byte>, RedactionError> {
    if needle != [] && Matches(body, needle) > 0 && |Redacted(body, needle)| > MAX_FETCH_BODY_BYTES then Err(SizeLimit)
    else Ok(Redacted(body, needle))
  }

  function Passes(body: seq<byte>, needles: seq<seq<byte>>): Result<seq<byte>, RedactionError>
    decreases |needles|
  {
    if needles == [] then Ok(body)
    else
      match Pass(body, needles[0])
      case Err(e) => Err(e)
      case Ok(after) => Passes(after, needles[1..])
  }

  /** Passes that are not refused are the replacements one after another, within the size limit. */
  lemma {:induction false} PassesRedact(body: seq<byte>, needles: seq<seq<byte>>)
    requires Passes(body, needles).Ok?
    ensures Passes(body, needles).value == RedactedAll(body, needles)
    ensures |body| <= MAX_FETCH_BODY_BYTES ==> |Passes(body, needles).value| <= MAX_FETCH_BODY_BYTES
    decreases |needles|
  {
    hide Redacted, Matches;
    if needles != [] {
      PassWithin(body, needles[0]);
      PassesRedact(Redacted(body, needles[0]), needles[1..]);
    }
  }

  lemma PassWithin(body: seq<byte>, needle: seq<byte>)
    requires Pass(body, needle).Ok?
    ensures |Redacted(body, needle)| <= MAX_FETCH_BODY_BYTES || Redacted(body, needle) == body
  {
    hide Redacted, Matches;
    if needle == [] {
      RedactsNothing(body);
    } else {
      RedactedStep(body, needle);
    }
  }

  lemma TwoPassesWithin(body: seq<byte>, a: seq<byte>, b: seq<byte>)
    requires |Redacted(body, a)| <= MAX_FETCH_BODY_BYTES && |Redacted(Redacted(body, a), b)| <= MAX_FETCH_BODY_BYTES
    ensures Passes(body, [a, b]) == Ok(Redacted(Redacted(body, a), b))
  {
    hide Redacted, Matches;
    assert [a, b][1..] == [b];
    assert Passes(body, [a, b]) == Passes(Redacted(body, a), [b]);
    assert [b][1..] == [];
    assert Passes(Redacted(body, a), [b]) == Passes(Redacted(Redacted(body, a), b), []);
  }

  /** The body that the redaction passes rewrite in place. */
  class FetchBody {
    var bytes: seq<byte>

    constructor (response: seq<byte>)
      ensures bytes == response
    {
      bytes := response;
    }

    method RedactVerbatimBytes(needle: seq<byte>) returns (r: Result<(), RedactionError>)
      requires |bytes| <= USIZE_MAX
      modifies this
      ensures var pass := Pass(old(bytes), needle);
              if pass.Ok? then r.Ok? && bytes == pass.value else r == Err(pass.error) && bytes == old(bytes)
    {
      hide Redacted, Matches;
      if needle == [] {
        RedactsNothing(bytes);
        return Ok(());
      }
      var matches := Counted(needle);
      RedactedLength(bytes, needle);
      if matches == 0 {
        RedactedStep(bytes, needle);
        return Ok(());
      }
      var outputLen := RedactedBodyLen(|bytes|, matches, |needle|, |MARKER|);
      if outputLen.Err? || outputLen.value > MAX_FETCH_BODY_BYTES {
        return Err(SizeLimit);
      }
      var redacted := Rebuilt(needle);
      assert |redacted| == outputLen.value;
      bytes := redacted;
      r := Ok(());
    }

    /** The first pass. */
    method Counted(needle: seq<byte>) returns (matches: nat)
      requires needle != []
      ensures matches == Matches(bytes, needle)
    {
      hide Matches, Redacted, Pieces, Join, FindSubslice, FirstAt, Occurs, OccursAt;
      var index := 0;
      matches := 0;
      assert bytes[0..] == bytes;
      var relative := FindSubslice(bytes[index..], needle);
      while relative.Some?
        invariant index <= |bytes| && relative == FindSubslice(bytes[index..], needle)
        invariant matches + Matches(bytes[index..], needle) == Matches(bytes, needle)
        decreases |bytes| - index
      {
        RedactedStep(bytes[index..], needle);
        DropDrop(bytes, index, relative.value + |needle|);
        matches := matches + 1;
        index := index + relative.value + |needle|;
        relative := FindSubslice(bytes[index..], needle);
      }
      RedactedStep(bytes[index..], needle);
    }

    /** The second pass: it finds the same matches as the first and fills exactly the predicted length. */
    method Rebuilt(needle: seq<byte>) returns (redacted: seq<byte>)
      requires needle != []
      ensures redacted == Redacted(bytes, needle)
    {
      hide Redacted, Matches, Pieces, Join, FindSubslice, FirstAt, Occurs, OccursAt;
      var index := 0;
      redacted := [];
      assert bytes[0..] == bytes;
      var relative := FindSubslice(bytes[index..], needle);
      while relative.Some?
        invariant index <= |bytes| && relative == FindSubslice(bytes[index..], needle)
        invariant redacted + Redacted(bytes[index..], needle) == Redacted(bytes, needle)
        decreases |bytes| - index
      {
        var found := index + relative.value;
        RedactedStep(bytes[index..], needle);
        DropTake(bytes, index, relative.value);
        DropDrop(bytes, index, relative.value + |needle|);
        ghost var before, later := redacted, Redacted(bytes[found + |needle|..], needle);
        redacted := redacted + bytes[index..found] + MARKER;
        assert redacted + later == before + (bytes[index..found] + MARKER + later);
        index := found + |needle|;
        relative := FindSubslice(bytes[index..], needle);
      }
      RedactedStep(bytes[index..], needle);
      redacted := redacted + bytes[index..];
    }

    method RedactFetchBody(needles: seq<seq<byte>>) returns (r: Result<(), RedactionError>)
      requires |bytes| <= MAX_FETCH_BODY_BYTES
      modifies this
      ensures var passes := Passes(old(bytes), needles);
              if passes.Ok? then r.Ok? && bytes == passes.value && |bytes| <= MAX_FETCH_BODY_BYTES else r == Err(passes.error)
    {
      hide Pass;
      var k := 0;
      assert needles[0..] == needles;
      while k < |needles|
        invariant k <= |needles| && |bytes| <= MAX_FETCH_BODY_BYTES
        invariant Passes(bytes, needles[k..]) == Passes(old(bytes), needles)
      {
        assert needles[k..][1..] == needles[k + 1..];
        ghost var before := bytes;
        r := RedactVerbatimBytes(needles[k]);
        if r.Err? {
          return;
        }
        PassIs(before, needles[k]);
        k := k + 1;
      }
      r := Ok(());
    }
  }

  lemma PassIs(body: seq<byte>, needle: seq<byte>)
    requires Pass(body, needle).Ok? && |body| <= MAX_FETCH_BODY_BYTES
    ensures |Pass(body, needle).value| <= MAX_FETCH_BODY_BYTES
  {
    hide Redacted, Matches;
    PassWithin(body, needle);
  }
}
