/**
 The incremental reader of the transition protocol (`src/dep_transition.rs`, `Helper::receive`):
 frames put together from whatever pieces a socket delivers.
 */
module Framing {
  import opened Wrappers
  import opened Utf8
  import opened Wire

  const BUFFER: nat := LIMIT + 4

  /** What one read of the socket gives. */
  datatype Piece = Bytes(data: seq<Byte>) | WouldBlock | EndOfFile | Failed

  /** One turn of the loop: whether an interrupt or a deadline stops it, and its read if it gets that far. */
  datatype Turn = Turn(stop: bool, read: Piece)

  datatype Refusal = Stopped | BadLength | BadBody(error: WireError) | Closed | Overfull | SocketFailed

  datatype Outcome = Message(kind: Byte, fields: Fields) | Refused(why: Refusal) | NeedsMore

  /** The frame's size, once its length has arrived. */
  function Size(frame: seq<Byte>): nat
    requires |frame| >= 4
  {
    FromBe32(frame[..4])
  }

  /** The buffer holds enough to answer without another read. */
  predicate Decided(frame: seq<Byte>) {
    |frame| >= 4 && (!(2 <= Size(frame) <= LIMIT) || |frame| >= Size(frame) + 4)
  }

  function Answer(frame: seq<Byte>): (Outcome, seq<Byte>)
    requires Decided(frame)
  {
    if !(2 <= Size(frame) <= LIMIT) then (Refused(BadLength), frame)
    else match DecodeBody(frame[4..Size(frame) + 4])
      case Err(e) => (Refused(BadBody(e)), frame)
      case Ok(m) => (Message(m.0, m.1), frame[Size(frame) + 4..])
  }

  /** The outcome, the buffer left behind and the number of reads used. */
  function Receive(frame: seq<Byte>, turns: seq<Turn>): (r: (Outcome, seq<Byte>, nat))
    ensures r.2 <= |turns|
    decreases |turns|
  {
    if turns == [] then (NeedsMore, frame, 0)
    else if turns[0].stop then (Refused(Stopped), frame, 0)
    else if Decided(frame) then (Answer(frame).0, Answer(frame).1, 0)
    else match turns[0].read
      case EndOfFile => (Refused(Closed), frame, 1)
      case Failed => (Refused(SocketFailed), frame, 1)
      case WouldBlock => Later(Receive(frame, turns[1..]))
      case Bytes(data) =>
        if |frame| + |data| > BUFFER then (Refused(Overfull), frame, 1)
        else Later(Receive(frame + data, turns[1..]))
  }

  function Later(r: (Outcome, seq<Byte>, nat)): (Outcome, seq<Byte>, nat) { (r.0, r.1, r.2 + 1) }

  predicate Reads(turn: Turn) { !turn.stop && (turn.read.Bytes? || turn.read.WouldBlock?) }

  /** Turn `i` only takes in bytes: nothing stops it, what was there is not yet enough, and what it reads fits. */
  predicate Absorbs(frame: seq<Byte>, turns: seq<Turn>, i: nat)
    requires i < |turns|
  {
    Reads(turns[i]) && !Decided(frame + Data(turns[..i])) && |frame + Data(turns[..i + 1])| <= BUFFER
  }

  /** What the loop answers at the first turn where it does anything but take in bytes: it is stopped, it has enough,
      the stream ends or fails, or what it reads does not fit. Without such a turn it has no answer yet. */
  lemma {:induction false} ReceivesExactly(frame: seq<Byte>, turns: seq<Turn>, i: nat)
    requires |frame| <= BUFFER && i <= |turns| && forall j :: 0 <= j < i ==> Absorbs(frame, turns, j)
    ensures var (outcome, before) := (Receive(frame, turns).0, frame + Data(turns[..i]));
      if i == |turns| then outcome == NeedsMore
      else if turns[i].stop then outcome == Refused(Stopped)
      else if Decided(before) then outcome == Answer(before).0
      else if turns[i].read.EndOfFile? then outcome == Refused(Closed)
      else if turns[i].read.Failed? then outcome == Refused(SocketFailed)
      else |before| + |DataOf(turns[i].read)| > BUFFER ==> outcome == Refused(Overfull)
    decreases |turns|
  {
    hide Decided, Answer, Absorbs;
    if i == 0 {
      assert frame + Data(turns[..0]) == frame;
    } else {
      var (data, rest) := (DataOf(turns[0].read), turns[1..]);
      AbsorbsFirst(frame, turns);
      forall j | 0 <= j < i - 1 ensures Absorbs(frame + data, rest, j) { AbsorbsLater(frame, turns, j); }
      DataStep(frame, turns, i);
      ReceivesExactly(frame + data, rest, i - 1);
      assert frame + [] == frame;
      assert Receive(frame, turns).0 == Receive(frame + data, rest).0;
    }
  }

  lemma AbsorbsFirst(frame: seq<Byte>, turns: seq<Turn>)
    requires turns != [] && Absorbs(frame, turns, 0)
    ensures Reads(turns[0]) && !Decided(frame) && |frame + DataOf(turns[0].read)| <= BUFFER
  {
    hide Decided;
    assert frame + Data(turns[..0]) == frame;
    DataStep(frame, turns, 1);
  }

  lemma AbsorbsLater(frame: seq<Byte>, turns: seq<Turn>, j: nat)
    requires j + 1 < |turns| && Absorbs(frame, turns, j + 1)
    ensures Absorbs(frame + DataOf(turns[0].read), turns[1..], j)
  {
    hide Decided;
    DataStep(frame, turns, j + 1);
    DataStep(frame, turns, j + 2);
  }

  // --- Agreement with a sequential read ---------------------------------------------------

  function DataOf(p: Piece): seq<Byte> { if p.Bytes? then p.data else [] }

  /** Everything the turns read, as one stream. */
  function Data(turns: seq<Turn>): seq<Byte> {
    if turns == [] then [] else DataOf(turns[0].read) + Data(turns[1..])
  }

  lemma AnswerAgrees(frame: seq<Byte>, rest: seq<Byte>)
    requires Decided(frame)
    ensures match Answer(frame).0
            case Message(kind, fields) => Read(frame + rest) == Ok(((kind, fields), Answer(frame).1 + rest))
            case Refused(BadLength) => Read(frame + rest) == Err(LengthRefused)
            case Refused(BadBody(e)) => Read(frame + rest) == Err(e)
            case _ => false
  {
    hide DecodeBody, FromBe32;
    assert (frame + rest)[..4] == frame[..4];
    var size := Size(frame);
    if 2 <= size <= LIMIT {
      assert (frame + rest)[4..size + 4] == frame[4..size + 4];
      assert (frame + rest)[size + 4..] == frame[size + 4..] + rest;
    }
  }

  lemma NoData()
    ensures Data([]) == []
  {
  }

  lemma DataInTurn(frame: seq<Byte>, turns: seq<Turn>)
    requires turns != []
    ensures frame + Data(turns) == frame + DataOf(turns[0].read) + Data(turns[1..])
  {
  }

  /** However the stream is cut up, an answer is the one a sequential read of the whole stream gives, and the
      buffer with what is still unread is exactly what that read leaves. The buffer never outgrows its bound. */
  lemma {:induction false} ReceiveAgreesWithRead(frame: seq<Byte>, turns: seq<Turn>)
    requires |frame| <= BUFFER
    ensures var (outcome, left, used) := Receive(frame, turns);
      && |left| <= BUFFER
      && var stream := frame + Data(turns);
      && match outcome
         case Message(kind, fields) => Read(stream) == Ok(((kind, fields), left + Data(turns[used..])))
         case Refused(BadLength) => Read(stream) == Err(LengthRefused)
         case Refused(BadBody(e)) => Read(stream) == Err(e)
         case NeedsMore => left == stream
         case _ => true
    decreases |turns|
  {
    hide Read, Answer, Decided, Data;
    if turns == [] {
      assert frame + Data([]) == frame by { NoData(); }
    } else if !turns[0].stop {
      if Decided(frame) {
        AnswerAgrees(frame, Data(turns));
        assert turns[0..] == turns;
        AnswerFits(frame);
      } else {
        var data := DataOf(turns[0].read);
        DataInTurn(frame, turns);
        assert frame + [] == frame;
        if (turns[0].read.Bytes? || turns[0].read.WouldBlock?) && |frame + data| <= BUFFER {
          ReceiveAgreesWithRead(frame + data, turns[1..]);
          var used := Receive(frame + data, turns[1..]).2;
          assert turns[used + 1..] == turns[1..][used..];
        }
      }
    }
  }

  lemma AnswerFits(frame: seq<Byte>)
    requires Decided(frame)
    ensures |Answer(frame).1| <= |frame|
    ensures Answer(frame).0 != NeedsMore && Answer(frame).0 != Refused(Overfull) && Answer(frame).0 != Refused(Closed)
  {
  }

  /** The end of the stream is reported only when what was read is not a whole frame. */
  lemma {:induction false} ClosedMeansIncomplete(frame: seq<Byte>, turns: seq<Turn>)
    requires Receive(frame, turns).0 == Refused(Closed)
    ensures Read(frame + Data(turns[..Receive(frame, turns).2])) == Err(EndOfStream)
    decreases |turns|
  {
    hide DecodeBody, FromBe32, Answer;
    var used := Receive(frame, turns).2;
    if Decided(frame) { AnswerFits(frame); }
    if turns[0].read.EndOfFile? {
      EndsHere(frame, turns);
    } else {
      hide Read, Decided;
      var data := DataOf(turns[0].read);
      assert frame + [] == frame;
      ClosedMeansIncomplete(frame + data, turns[1..]);
      DataStep(frame, turns, used);
    }
  }

  lemma EndsHere(frame: seq<Byte>, turns: seq<Turn>)
    requires turns != [] && turns[0].read.EndOfFile? && !Decided(frame)
    ensures Read(frame + Data(turns[..1])) == Err(EndOfStream)
  {
    hide DecodeBody, FromBe32;
    assert turns[..1] == [turns[0]] && Data(turns[..1]) == [] + Data([]);
    assert frame + Data(turns[..1]) == frame;
  }

  lemma DataStep(frame: seq<Byte>, turns: seq<Turn>, n: nat)
    requires 0 < n <= |turns|
    ensures frame + Data(turns[..n]) == frame + DataOf(turns[0].read) + Data(turns[1..][..n - 1])
  {
    assert turns[..n][0] == turns[0] && turns[..n][1..] == turns[1..][..n - 1];
  }

  // --- When the buffer refuses --------------------------------------------------------------

  /** The loop gets to turn `i`: nothing stops it and every read before brought bytes or would have blocked. */
  predicate Reaches(turns: seq<Turn>, i: nat)
    requires i < |turns|
  {
    !turns[i].stop && forall j :: 0 <= j < i ==> Reads(turns[j])
  }

  /** Turn `i` is reached and brings more than fits while the frame is still incomplete. */
  ghost predicate Overfills(frame: seq<Byte>, turns: seq<Turn>, i: nat)
    requires i < |turns|
  {
    var before := frame + Data(turns[..i]);
    Reaches(turns, i) && !Decided(before) && |before| + |DataOf(turns[i].read)| > BUFFER
  }

  lemma DecidedStaysDecided(frame: seq<Byte>, more: seq<Byte>)
    requires Decided(frame)
    ensures Decided(frame + more)
  {
    assert (frame + more)[..4] == frame[..4];
  }

  lemma ReachesLater(turns: seq<Turn>, i: nat)
    requires i + 1 < |turns|
    ensures Reaches(turns, i + 1) <==> Reads(turns[0]) && Reaches(turns[1..], i)
  {
    hide Reads;
    assert forall j :: 0 <= j <= i ==> turns[1..][j] == turns[j + 1];
    if Reaches(turns, i + 1) {
      forall j | 0 <= j < i ensures Reads(turns[1..][j]) { assert Reads(turns[j + 1]); }
    }
    if Reads(turns[0]) && Reaches(turns[1..], i) {
      forall j | 0 <= j < i + 1 ensures Reads(turns[j]) {
        if j > 0 { assert Reads(turns[1..][j - 1]); }
      }
    }
  }

  lemma OverfillsLater(frame: seq<Byte>, turns: seq<Turn>, i: nat)
    requires i + 1 < |turns|
    ensures Overfills(frame, turns, i + 1) <==>
      Reads(turns[0]) && Overfills(frame + DataOf(turns[0].read), turns[1..], i)
  {
    hide Decided, Reads;
    ReachesLater(turns, i);
    assert turns[..i + 1][0] == turns[0] && turns[..i + 1][1..] == turns[1..][..i];
    assert frame + Data(turns[..i + 1]) == frame + DataOf(turns[0].read) + Data(turns[1..][..i]);
  }

  lemma OverfillsNow(frame: seq<Byte>, turns: seq<Turn>)
    requires turns != []
    ensures Overfills(frame, turns, 0) <==>
      !turns[0].stop && !Decided(frame) && |frame| + |DataOf(turns[0].read)| > BUFFER
  {
    assert frame + Data(turns[..0]) == frame;
  }

  /** The one way in which cutting up the stream matters: the reader gives up on its buffer exactly when the
      piece that should complete the frame carries more than the buffer has room for, and the loop gets to it. */
  lemma {:induction false} OverfullExactly(frame: seq<Byte>, turns: seq<Turn>)
    requires |frame| <= BUFFER
    ensures Receive(frame, turns).0 == Refused(Overfull) <==>
      exists i :: 0 <= i < |turns| && Overfills(frame, turns, i)
    decreases |turns|
  {
    hide Overfills, Answer;
    if turns != [] {
      var data := DataOf(turns[0].read);
      OverfillsNow(frame, turns);
      forall i | 0 <= i < |turns[1..]|
        ensures Overfills(frame, turns, i + 1) <==> Reads(turns[0]) && Overfills(frame + data, turns[1..], i)
      {
        OverfillsLater(frame, turns, i);
      }
      if Decided(frame) {
        AnswerFits(frame);
        forall i | 0 <= i < |turns| ensures !Overfills(frame, turns, i) {
          NeverOverfills(frame, turns, i);
        }
      } else if Reads(turns[0]) && |frame| + |data| <= BUFFER {
        assert frame + [] == frame;
        OverfullExactly(frame + data, turns[1..]);
        assert Receive(frame, turns).0 == Receive(frame + data, turns[1..]).0;
        OverfillsShift(frame, turns);
      } else if !Reads(turns[0]) {
        forall i | 0 <= i < |turns| ensures !Overfills(frame, turns, i) {
          if i > 0 { OverfillsLater(frame, turns, i - 1); }
        }
      }
    }
  }

  lemma OverfillsShift(frame: seq<Byte>, turns: seq<Turn>)
    requires turns != [] && Reads(turns[0]) && !Overfills(frame, turns, 0)
    ensures var later := frame + DataOf(turns[0].read);
      (exists i :: 0 <= i < |turns| && Overfills(frame, turns, i)) <==>
        exists i :: 0 <= i < |turns[1..]| && Overfills(later, turns[1..], i)
  {
    hide Overfills, Reads;
    var later := frame + DataOf(turns[0].read);
    if i :| 0 <= i < |turns| && Overfills(frame, turns, i) {
      OverfillsLater(frame, turns, i - 1);
      assert Overfills(later, turns[1..], i - 1);
    }
    if i :| 0 <= i < |turns[1..]| && Overfills(later, turns[1..], i) {
      OverfillsLater(frame, turns, i);
      assert Overfills(frame, turns, i + 1);
    }
  }

  lemma NeverOverfills(frame: seq<Byte>, turns: seq<Turn>, i: nat)
    requires Decided(frame) && i < |turns|
    ensures !Overfills(frame, turns, i)
  {
    DecidedStaysDecided(frame, Data(turns[..i]));
  }

  // --- Streams read in chunks -----------------------------------------------------------------

  /** The most that one read of the socket asks for. */
  const CHUNK: nat := 4096

  predicate Chunked(turns: seq<Turn>) {
    forall i :: 0 <= i < |turns| ==> |DataOf(turns[i].read)| <= CHUNK
  }

  /** Read in chunks, the buffer can only be overfilled by a frame that announces almost the limit. */
  lemma {:induction false} OverfullNeedsALongFrame(frame: seq<Byte>, turns: seq<Turn>)
    requires |frame| <= BUFFER && Chunked(turns) && Receive(frame, turns).0 == Refused(Overfull)
    ensures var stream := frame + Data(turns); |stream| >= 4 && LIMIT + 2 - CHUNK <= Size(stream) <= LIMIT
    decreases |turns|
  {
    hide FromBe32, Answer;
    if Decided(frame) { AnswerFits(frame); }
    var data := DataOf(turns[0].read);
    assert frame + Data(turns) == frame + data + Data(turns[1..]);
    assert frame + [] == frame;
    if |frame| + |data| <= BUFFER {
      assert forall i :: 0 <= i < |turns[1..]| ==> turns[1..][i] == turns[i + 1];
      OverfullNeedsALongFrame(frame + data, turns[1..]);
    } else {
      assert (frame + Data(turns))[..4] == frame[..4];
    }
  }

  /** A stream cut into full chunks and what is left over. */
  function Chop(bs: seq<Byte>): seq<Turn> {
    if bs == [] then [] else [Turn(false, Bytes(bs[..ChunkOf(bs)]))] + Chop(bs[ChunkOf(bs)..])
  }

  function ChunkOf(bs: seq<Byte>): nat { if |bs| < CHUNK then |bs| else CHUNK }

  lemma {:induction false} ChopIsAll(bs: seq<Byte>)
    ensures Data(Chop(bs)) == bs && Chunked(Chop(bs))
  {
    if bs != [] {
      var rest := bs[ChunkOf(bs)..];
      ChopIsAll(rest);
      assert Chop(bs)[1..] == Chop(rest) && bs[..ChunkOf(bs)] + rest == bs;
    }
  }

  lemma {:induction false} DataInTwo(a: seq<Turn>, b: seq<Turn>)
    ensures Data(a + b) == Data(a) + Data(b)
  {
    if a == [] {
      assert a + b == b;
    } else {
      DataInTwo(a[1..], b);
      var first := DataOf(a[0].read);
      assert (a + b)[1..] == a[1..] + b && (a + b)[0] == a[0];
      assert first + (Data(a[1..]) + Data(b)) == first + Data(a[1..]) + Data(b);
    }
  }

  lemma TakesOne(frame: seq<Byte>, data: seq<Byte>, rest: seq<Turn>)
    requires !Decided(frame) && |frame| + |data| <= BUFFER
    ensures Receive(frame, [Turn(false, Bytes(data))] + rest).0 == Receive(frame + data, rest).0
  {
    hide Decided, Answer;
    assert ([Turn(false, Bytes(data))] + rest)[1..] == rest;
  }

  /** Bytes that fit and decide nothing on the way are simply taken in. */
  lemma {:induction false} TakesIn(frame: seq<Byte>, bs: seq<Byte>, rest: seq<Turn>)
    requires |frame| + |bs| <= BUFFER && forall k :: 0 <= k < |bs| ==> !Decided(frame + bs[..k])
    ensures Receive(frame, Chop(bs) + rest).0 == Receive(frame + bs, rest).0
    decreases |bs|
  {
    hide Decided, Receive;
    if bs == [] {
      assert frame + bs == frame && Chop(bs) + rest == rest;
    } else {
      var n := ChunkOf(bs);
      var (head, tail) := (bs[..n], bs[n..]);
      assert !Decided(frame + bs[..0]) && frame + bs[..0] == frame;
      forall k | 0 <= k < |tail| ensures !Decided(frame + head + tail[..k]) {
        assert frame + head + tail[..k] == frame + bs[..n + k];
      }
      TakesIn(frame + head, tail, rest);
      TakesOne(frame, head, Chop(tail) + rest);
      assert [Turn(false, Bytes(head))] + Chop(tail) + rest == [Turn(false, Bytes(head))] + (Chop(tail) + rest);
      assert frame + head + tail == frame + bs;
    }
  }

  /** A frame decides nothing before it is whole. */
  lemma UndecidedInside(stream: seq<Byte>, k: nat)
    requires |stream| >= 4 && 2 <= Size(stream) <= LIMIT && k < Size(stream) + 4 && k <= |stream|
    ensures !Decided(stream[..k])
  {
    hide FromBe32;
    if k >= 4 { assert stream[..k][..4] == stream[..4]; }
  }

  /** Two ways to cut one stream: where the first leaves the last chunk no room, and at the end of the frame. */
  function CutEarly(stream: seq<Byte>): seq<Turn>
    requires |stream| > BUFFER
  {
    Chop(stream[..BUFFER + 1 - CHUNK]) + Chop(stream[BUFFER + 1 - CHUNK..])
  }

  function CutAtFrame(stream: seq<Byte>): seq<Turn>
    requires |stream| > BUFFER && Size(stream) <= LIMIT
  {
    Chop(stream[..Size(stream) + 4]) + Chop(stream[Size(stream) + 4..])
  }

  /** For every frame that long, with enough after it, the cut decides: in chunks of at most 4096 bytes one way to cut
      the same stream is refused and the other gets the frame's own answer. */
  lemma CuttingMatters(stream: seq<Byte>)
    requires |stream| > BUFFER && LIMIT + 2 - CHUNK <= Size(stream) <= LIMIT
    ensures Data(CutEarly(stream)) == stream == Data(CutAtFrame(stream))
    ensures Chunked(CutEarly(stream)) && Chunked(CutAtFrame(stream))
    ensures Receive([], CutEarly(stream)).0 == Refused(Overfull)
    ensures Receive([], CutAtFrame(stream)).0 == Answer(stream[..Size(stream) + 4]).0 != Refused(Overfull)
  {
    hide FromBe32, Answer;
    var (early, whole) := (BUFFER + 1 - CHUNK, Size(stream) + 4);
    CutIsAll(stream, early);
    CutIsAll(stream, whole);
    TakesPrefix(stream, early);
    TakesPrefix(stream, whole);
    UndecidedInside(stream, early);
    var (a, b) := (Chop(stream[early..]), Chop(stream[whole..]));
    assert |DataOf(a[0].read)| == CHUNK;
    assert stream[..whole][..4] == stream[..4];
    assert Decided(stream[..whole]) && b != [] && !b[0].stop;
    AnswerFits(stream[..whole]);
  }

  lemma CutIsAll(stream: seq<Byte>, n: nat)
    requires n <= |stream|
    ensures var turns := Chop(stream[..n]) + Chop(stream[n..]);
      Data(turns) == stream && Chunked(turns)
  {
    hide Chop, Data;
    ChopIsAll(stream[..n]);
    ChopIsAll(stream[n..]);
    DataInTwo(Chop(stream[..n]), Chop(stream[n..]));
    assert stream[..n] + stream[n..] == stream;
  }

  lemma TakesPrefix(stream: seq<Byte>, n: nat)
    requires |stream| > BUFFER && 2 <= Size(stream) <= LIMIT && n <= Size(stream) + 4
    ensures Receive([], Chop(stream[..n]) + Chop(stream[n..])).0 == Receive(stream[..n], Chop(stream[n..])).0
  {
    hide FromBe32, Receive;
    var bs := stream[..n];
    forall k | 0 <= k < |bs| ensures !Decided([] + bs[..k]) {
      assert [] + bs[..k] == stream[..k];
      UndecidedInside(stream, k);
    }
    TakesIn([], bs, Chop(stream[n..]));
    assert [] + bs == bs;
  }

  function Zeros(n: nat): (bs: seq<Byte>)
    ensures |bs| == n && forall i :: 0 <= i < n ==> bs[i] == 0
  {
    seq(n, _ => 0)
  }

  lemma {:induction false} ZerosAreText(n: nat)
    ensures Valid(Zeros(n))
  {
    if n > 0 {
      ZerosAreText(n - 1);
      assert Zeros(n)[1..] == Zeros(n - 1);
    }
  }

  /** A full-sized message followed by one more byte: cut one way it is refused, cut the other way it is delivered. */
  lemma RefusalDependsOnTheCut()
    ensures exists stream, kind, fields, one, other ::
      && Data(one) == stream == Data(other) && Chunked(one) && Chunked(other)
      && Read(stream) == Ok(((kind, fields), [0]))
      && Receive([], one).0 == Refused(Overfull) && Receive([], other).0 == Message(kind, fields)
  {
    hide DecodeBody, FromBe32, Valid, Receive, CutEarly, CutAtFrame;
    ZerosAreText(LIMIT - 7);
    var text: Text := Zeros(LIMIT - 7);
    var fields: Fields := map[1 := text];
    FullSize(text);
    var stream := Frame(1, fields) + [0];
    ReadUndoesFrame(1, fields, [0]);
    Be32RoundTrip(LIMIT);
    assert stream[..4] == Be32(LIMIT);
    CuttingMatters(stream);
    AnswerAgrees(stream[..LIMIT + 4], stream[LIMIT + 4..]);
    assert stream[..LIMIT + 4] + stream[LIMIT + 4..] == stream;
  }

  lemma FullSize(text: Text)
    requires |text| == LIMIT - 7
    ensures Encodable(map[1 := text]) && |Body(1, map[1 := text])| == LIMIT
  {
    hide FieldsFrom;
    var none: Fields := map[];
    EmptySize(0);
    SizeWithField(none, 1, text, 0);
    assert none[1 := text] == map[1 := text];
    SizeIsLength(map[1 := text], 0);
  }
}

/** The reader as an object that keeps the bytes it has not yet returned. */
module FrameReader {
  import opened Wrappers
  import opened Utf8
  import opened Wire
  import opened Framing
  import Protocol = Framing

  class Helper {
    var frame: seq<Byte>

    constructor ()
      ensures frame == []
    {
      frame := [];
    }

    /** The loop, over the turns it is given. */
    method Receive(turns: seq<Turn>) returns (outcome: Outcome, used: nat)
      modifies this
      ensures (outcome, frame, used) == Protocol.Receive(old(frame), turns)
    {
      used := 0;
      while used < |turns|
        invariant used <= |turns|
        invariant var rest := Protocol.Receive(frame, turns[used..]);
          Protocol.Receive(old(frame), turns) == (rest.0, rest.1, rest.2 + used)
      {
        assert turns[used..][1..] == turns[used + 1..];
        var turn := turns[used];
        if turn.stop { return Refused(Stopped), used; }
        if |frame| >= 4 {
          var size := FromBe32(frame[..4]);
          if !(2 <= size <= LIMIT) { return Refused(BadLength), used; }
          if |frame| >= size + 4 {
            var result := Wire.Decode(frame[4..size + 4]);
            if result.Err? { return Refused(BadBody(result.error)), used; }
            frame := frame[size + 4..];
            return Message(result.value.0, result.value.1), used;
          }
        }
        match turn.read {
          case EndOfFile => return Refused(Closed), used + 1;
          case Failed => return Refused(SocketFailed), used + 1;
          case WouldBlock =>
          case Bytes(data) =>
            if |frame| + |data| > BUFFER { return Refused(Overfull), used + 1; }
            frame := frame + data;
        }
        used := used + 1;
      }
      return NeedsMore, used;
    }
  }
}
