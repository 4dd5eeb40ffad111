/**
 Capturing a child's stream and deciding whether it is text (`src/host.rs`, `capture` and `decode`).
 What the loop observes on each turn is a parameter: interrupts, stops, deadlines and reads may come
 in any order.
 */
module Capture {
  import opened Wrappers
  import opened Utf8

  /** 2 MiB. */
  const CAP: nat := 2097152

  datatype Got = Data(bytes: seq<Byte>) | End | WouldBlock | Again | Aborted | Broken

  /** One turn of the loop: what ends it before it reads, whether a read may be attempted, whether the
      protocol allows it, and what it returns. */
  datatype Turn = Turn(interrupted: bool, stopped: bool, pastDeadline: bool, readable: bool, allowed: bool, got: Got)

  datatype Captured = Captured(bytes: seq<Byte>, truncated: bool, cutShort: bool, unreadable: bool)

  datatype Ending = Running | AtEnd | CutShort | Unreadable

  // --- What a run of turns means ------------------------------------------------------------

  predicate Ends(t: Turn) { t.interrupted || t.stopped || t.pastDeadline }

  /** Whether the turn gets as far as its read. */
  predicate Attempts(t: Turn) { !Ends(t) && t.readable && t.allowed }

  /** How one turn ends the capture, if it does. */
  function EndingOf(t: Turn): Ending {
    if Ends(t) || (t.readable && !t.allowed) then CutShort
    else if !t.readable then Running
    else match t.got
      case End => AtEnd
      case Aborted => CutShort
      case Broken => Unreadable
      case _ => Running
  }

  /** The bytes the turns read in all, before any is discarded. */
  function BytesRead(turns: seq<Turn>): seq<Byte> {
    if turns == [] || EndingOf(turns[0]) != Running then []
    else (if Attempts(turns[0]) && turns[0].got.Data? then turns[0].got.bytes else []) + BytesRead(turns[1..])
  }

  function EndingOfAll(turns: seq<Turn>): Ending {
    if turns == [] then Running
    else if EndingOf(turns[0]) != Running then EndingOf(turns[0])
    else EndingOfAll(turns[1..])
  }

  function Capped(bytes: seq<Byte>): seq<Byte> {
    if |bytes| > CAP then bytes[..CAP] else bytes
  }

  /** Whatever the turns are, the capture is the first 2 MiB of what they read, it is marked truncated
      exactly when they read more, and the other two marks say how it ended. */
  method Capture(prepared: bool, turns: seq<Turn>) returns (got: Captured, ending: Ending)
    ensures ending == (if prepared then EndingOfAll(turns) else Unreadable)
    ensures got.bytes == (if prepared then Capped(BytesRead(turns)) else [])
    ensures got.truncated <==> prepared && |BytesRead(turns)| > CAP
    ensures got.cutShort <==> ending == CutShort
    ensures got.unreadable <==> ending == Unreadable
  {
    hide BytesRead, EndingOfAll, Capped;
    got := Captured([], false, false, false);
    if !prepared { return got.(unreadable := true), Unreadable; }
    NothingRead(turns);
    ghost var all: seq<Byte> := [];
    for i := 0 to |turns|
      invariant EndingOfAll(turns) == EndingOfAll(turns[i..])
      invariant BytesRead(turns) == all + BytesRead(turns[i..])
      invariant got == Captured(Capped(all), |all| > CAP, false, false)
    {
      var turn := turns[i];
      NextTurn(turns, i, all);
      if turn.interrupted || turn.stopped || turn.pastDeadline { return got.(cutShort := true), CutShort; }
      if !turn.readable { continue; }
      if !turn.allowed { return got.(cutShort := true), CutShort; }
      match turn.got {
        case End => return got, AtEnd;
        case Data(bytes) =>
          var keep := Min(|bytes|, Saturating(CAP, |got.bytes|));
          KeepIsCapped(all, bytes);
          all := all + bytes;
          got := got.(bytes := got.bytes + bytes[..keep], truncated := got.truncated || keep < |bytes|);
        case WouldBlock =>
        case Again =>
        case Aborted => return got.(cutShort := true), CutShort;
        case Broken => return got.(unreadable := true), Unreadable;
      }
    }
    assert BytesRead(turns) == all;
    return got, Running;
  }

  lemma NothingRead(turns: seq<Turn>)
    ensures Capped([]) == [] && turns[0..] == turns
    ensures BytesRead(turns[|turns|..]) == [] && EndingOfAll(turns[|turns|..]) == Running
  {
  }

  lemma NextTurn(turns: seq<Turn>, i: nat, all: seq<Byte>)
    requires i < |turns|
    ensures EndingOf(turns[i]) != Running ==>
      all + BytesRead(turns[i..]) == all && EndingOfAll(turns[i..]) == EndingOf(turns[i])
    ensures EndingOf(turns[i]) == Running ==>
      && EndingOfAll(turns[i..]) == EndingOfAll(turns[i + 1..])
      && all + BytesRead(turns[i..]) ==
           all + (if Attempts(turns[i]) && turns[i].got.Data? then turns[i].got.bytes else [])
           + BytesRead(turns[i + 1..])
      && all + [] == all
  {
    assert turns[i..][0] == turns[i] && turns[i..][1..] == turns[i + 1..];
  }

  function Min(a: nat, b: nat): nat { if a <= b then a else b }

  function Saturating(a: nat, b: nat): nat { if a >= b then a - b else 0 }

  lemma KeepIsCapped(all: seq<Byte>, bytes: seq<Byte>)
    ensures var keep := Min(|bytes|, Saturating(CAP, |Capped(all)|));
      && Capped(all + bytes) == Capped(all) + bytes[..keep]
      && (|all + bytes| > CAP <==> |all| > CAP || keep < |bytes|)
  {
  }

  // --- How a capture ends ---------------------------------------------------------------------

  /** The loop goes round again: nothing stops it, and there is no read yet, or one that leaves the stream open. */
  predicate GoesOn(t: Turn) {
    && !t.interrupted && !t.stopped && !t.pastDeadline
    && (t.readable ==> t.allowed && (t.got.Data? || t.got == WouldBlock || t.got == Again))
  }

  /** Everything the reads of these turns return. */
  function AllData(turns: seq<Turn>): seq<Byte> {
    if turns == [] then []
    else
      var last := turns[|turns| - 1];
      AllData(turns[..|turns| - 1]) + if last.readable && last.got.Data? then last.got.bytes else []
  }

  /** The turn makes the call stop the capture: it was told to, its time is up, or its read was refused or aborted. */
  predicate CutsShort(t: Turn) {
    t.interrupted || t.stopped || t.pastDeadline || (t.readable && (!t.allowed || t.got == Aborted))
  }

  /** The first turn that does not go on ends the capture: cut short by the call, at the end of the stream, or
      unreadable when the read fails on its own. Everything read before it is kept and nothing after. */
  lemma {:induction false} EndsExactly(turns: seq<Turn>, n: nat)
    requires n <= |turns| && forall i :: 0 <= i < n ==> GoesOn(turns[i])
    requires n < |turns| ==> !GoesOn(turns[n])
    ensures BytesRead(turns) == AllData(turns[..n])
    ensures n == |turns| ==> EndingOfAll(turns) == Running
    ensures n < |turns| ==>
      && (EndingOfAll(turns) == CutShort <==> CutsShort(turns[n]))
      && (EndingOfAll(turns) == Unreadable <==> !CutsShort(turns[n]) && turns[n].got == Broken)
      && (EndingOfAll(turns) == AtEnd <==> !CutsShort(turns[n]) && turns[n].got == End)
    decreases |turns|
  {
    if n == 0 {
      assert turns[..0] == [];
    } else {
      var rest := turns[1..];
      assert forall i :: 0 <= i < |rest| ==> rest[i] == turns[i + 1];
      EndsExactly(rest, n - 1);
      DataInTurn(turns, n);
    }
  }

  lemma {:induction false} DataInTurn(turns: seq<Turn>, n: nat)
    requires 0 < n <= |turns|
    ensures AllData(turns[..n]) ==
      (if turns[0].readable && turns[0].got.Data? then turns[0].got.bytes else []) + AllData(turns[1..][..n - 1])
  {
    if n == 1 {
      assert turns[..1][..0] == [] && turns[1..][..0] == [] && AllData([]) == [];
    } else {
      DataInTurn(turns, n - 1);
      assert turns[..n][..n - 1] == turns[..n - 1] && turns[1..][..n - 1][..n - 2] == turns[1..][..n - 2];
    }
  }

  // --- The capture and the stream ------------------------------------------------------------

  /** The reads deliver `stream` in order, and its end only when all of it has been delivered. */
  predicate Delivers(turns: seq<Turn>, stream: seq<Byte>) {
    turns == [] ||
    var t := turns[0];
    if EndingOf(t) == AtEnd then stream == []
    else if EndingOf(t) != Running then true
    else if Attempts(t) && t.got.Data? then t.got.bytes <= stream && Delivers(turns[1..], stream[|t.got.bytes|..])
    else Delivers(turns[1..], stream)
  }

  lemma {:induction false} ReadsAPrefix(turns: seq<Turn>, stream: seq<Byte>)
    requires Delivers(turns, stream)
    ensures BytesRead(turns) <= stream
    ensures EndingOfAll(turns) == AtEnd ==> BytesRead(turns) == stream
  {
    if turns != [] && EndingOf(turns[0]) == Running {
      if Attempts(turns[0]) && turns[0].got.Data? {
        var bytes := turns[0].got.bytes;
        ReadsAPrefix(turns[1..], stream[|bytes|..]);
        assert stream == bytes + stream[|bytes|..];
      } else {
        ReadsAPrefix(turns[1..], stream);
        assert [] + BytesRead(turns[1..]) == BytesRead(turns[1..]);
      }
    }
  }

  /** What `Capture` returns, as a value. */
  ghost predicate IsCapture(got: Captured, turns: seq<Turn>) {
    && got.bytes == Capped(BytesRead(turns))
    && (got.truncated <==> |BytesRead(turns)| > CAP)
    && (got.cutShort <==> EndingOfAll(turns) == CutShort)
    && (got.unreadable <==> EndingOfAll(turns) == Unreadable)
  }

  /** A finished capture is always a prefix of the stream, and with no mark set it is the whole stream. */
  lemma UnmarkedIsWhole(got: Captured, turns: seq<Turn>, stream: seq<Byte>)
    requires IsCapture(got, turns) && Delivers(turns, stream) && EndingOfAll(turns) != Running
    ensures got.bytes <= stream
    ensures !got.truncated && !got.cutShort && !got.unreadable ==> got.bytes == stream
    ensures got.truncated ==> |stream| > CAP && got.bytes == stream[..CAP]
  {
    ReadsAPrefix(turns, stream);
  }

  // --- Text ---------------------------------------------------------------------------------

  predicate StoppedByUs(got: Captured) { (got.truncated || got.cutShort) && !got.unreadable }

  /** The text of a capture, or the offset at which it is not text. */
  function Decode(got: Captured): Result<seq<Byte>, nat> {
    var upTo := ValidUpTo(got.bytes);
    if Valid(got.bytes) then Ok(got.bytes)
    else if StoppedByUs(got) && Incomplete(got.bytes[upTo..]) then Ok(got.bytes[..upTo])
    else Err(upTo)
  }

  /** Decoding keeps every byte, or drops one incomplete final character of at most three bytes, and that
      only from a capture that was stopped rather than broken or finished. Nothing else decodes. */
  lemma DecodeExactly(got: Captured)
    ensures Decode(got).Ok? ==>
      && Decode(got).value <= got.bytes && WellFormed(Decode(got).value)
      && |got.bytes| - |Decode(got).value| <= 3
      && (Decode(got).value != got.bytes ==>
            && (got.truncated || got.cutShort) && !got.unreadable
            && BeginsAChar(got.bytes[|Decode(got).value|..]))
    ensures Decode(got).Ok? <==>
      || WellFormed(got.bytes)
      || ((got.truncated || got.cutShort) && !got.unreadable &&
          exists n :: 0 <= n < |got.bytes| && WellFormed(got.bytes[..n]) && BeginsAChar(got.bytes[n..]))
    ensures Decode(got).Err? ==>
      && Decode(got).error < |got.bytes| && WellFormed(got.bytes[..Decode(got).error])
      && forall n :: Decode(got).error < n <= |got.bytes| ==> !WellFormed(got.bytes[..n])
  {
    if Decode(got).Err? { ErrorIsWhereTextEnds(got.bytes); }
    var upTo := ValidUpTo(got.bytes);
    ValidUpToIsAPrefix(got.bytes);
    ValidIsWellFormed(got.bytes);
    ValidIsWellFormed(got.bytes[..upTo]);
    if upTo < |got.bytes| { IncompleteBeginsAChar(got.bytes[upTo..]); }
    if n :| 0 <= n < |got.bytes| && WellFormed(got.bytes[..n]) && BeginsAChar(got.bytes[n..]) {
      ValidIsWellFormed(got.bytes[..n]);
      IncompleteBeginsAChar(got.bytes[n..]);
      StopsThere(got.bytes, n);
    }
  }

  /** The offset of an error is the length of the longest prefix that is text. */
  lemma ErrorIsWhereTextEnds(bytes: seq<Byte>)
    requires !Valid(bytes)
    ensures var n := ValidUpTo(bytes);
      n < |bytes| && WellFormed(bytes[..n]) && forall m :: n < m <= |bytes| ==> !WellFormed(bytes[..m])
  {
    var n := ValidUpTo(bytes);
    ValidUpToIsAPrefix(bytes);
    ValidIsWellFormed(bytes[..n]);
    assert bytes[..|bytes|] == bytes;
    forall m | n < m <= |bytes| ensures !WellFormed(bytes[..m]) {
      ValidIsWellFormed(bytes[..m]);
      if Valid(bytes[..m]) { ValidUpToIsLongest(bytes, m); }
    }
  }

  /** A valid prefix followed by an incomplete character is the longest valid prefix. */
  lemma {:induction false} StopsThere(bs: seq<Byte>, n: nat)
    requires n < |bs| && Valid(bs[..n]) && Incomplete(bs[n..])
    ensures ValidUpTo(bs) == n
  {
    if n == 0 {
      assert bs[0..] == bs;
    } else {
      var k := Announced(bs[0]);
      assert bs[..n][0] == bs[0] && bs[..n][..k] == bs[..k];
      assert bs[..n][k..] == bs[k..][..n - k] && bs[k..][n - k..] == bs[n..];
      StopsThere(bs[k..], n - k);
    }
  }

  /** A part of a character is incomplete, and nothing of it is valid. */
  lemma CutCharacter(c: seq<Byte>, n: nat)
    requires IsChar(c) && 0 < n < |c|
    ensures Incomplete(c[..n]) && ValidUpTo(c[..n]) == 0
  {
    hide Valid;
    var p := c[..n];
    assert p[0] == c[0] && (n > 1 ==> p[1] == c[1]) && (n > 2 ==> p[2] == c[2]);
  }

  lemma CharacterFirst(c: seq<Byte>, rest: seq<Byte>)
    requires IsChar(c)
    ensures Valid(c + rest) <==> Valid(rest)
    ensures ValidUpTo(c + rest) == |c| + ValidUpTo(rest)
    ensures (c + rest)[ValidUpTo(c + rest)..] == rest[ValidUpTo(rest)..]
  {
    hide IsChar;
    CharIsAnnounced(c);
    var (s, k) := (c + rest, |c|);
    assert s[0] == c[0] && s[..k] == c && s[k..] == rest;
    assert s[k + ValidUpTo(rest)..] == rest[ValidUpTo(rest)..];
  }

  lemma CharIsAnnounced(c: seq<Byte>)
    requires IsChar(c)
    ensures |c| > 0 && |c| == Announced(c[0])
  {
  }

  /** Cutting text anywhere leaves text, or text and the beginning of one character. */
  lemma {:induction false} PrefixOfText(s: seq<Byte>, n: nat)
    requires Valid(s) && n <= |s|
    ensures Valid(s[..n]) || Incomplete(s[..n][ValidUpTo(s[..n])..])
  {
    hide IsChar, Incomplete, Announced, ValidUpTo;
    if n > 0 {
      var k := Announced(s[0]);
      var (c, rest) := (s[..k], s[k..]);
      if n < k {
        CutCharacter(c, n);
        assert c[..n] == s[..n] && s[..n][0..] == s[..n];
      } else {
        PrefixOfText(rest, n - k);
        CharacterFirst(c, rest[..n - k]);
        assert s[..n] == c + rest[..n - k];
      }
    }
  }

  /** A child that writes text is never told that it did not, unless reading it failed: every other capture
      of its stream decodes, to a prefix of the stream. */
  lemma TextStreamsDecode(got: Captured, turns: seq<Turn>, stream: seq<Byte>)
    requires IsCapture(got, turns) && Delivers(turns, stream) && EndingOfAll(turns) != Running
    requires WellFormed(stream) && !got.unreadable
    ensures Decode(got).Ok? && Decode(got).value <= stream
  {
    hide IsCapture, Delivers, EndingOfAll, WellFormed, Valid, ValidUpTo, Incomplete, BeginsAChar, Decode;
    UnmarkedIsWhole(got, turns, stream);
    assert stream[..|got.bytes|] == got.bytes;
    CutTextDecodes(got, stream);
  }

  lemma CutTextDecodes(got: Captured, stream: seq<Byte>)
    requires got.bytes <= stream && WellFormed(stream) && !got.unreadable
    requires got.truncated || got.cutShort || got.bytes == stream
    ensures Decode(got).Ok? && Decode(got).value <= stream
  {
    hide WellFormed, Valid, Incomplete, BeginsAChar;
    ValidIsWellFormed(stream);
    PrefixOfText(stream, |got.bytes|);
    assert stream[..|got.bytes|] == got.bytes;
  }
}
