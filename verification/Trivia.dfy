/**
 What stands between two tokens (`src/source_fmt.rs`, `comments`): white space, line comments and nested block
 comments, described by what is written there, and that the scanner of `Layout` reads exactly that.
 */
module Trivia {
  import opened Wrappers
  import opened Search
  import opened TokenFidelity
  import opened Layout
  import S = SourceMaps

  // --- Block comments -----------------------------------------------------------------------------------

  datatype Mark = Opens | Closes | Plain(c: char)

  function Written(m: Mark): string {
    match m
    case Opens => "/*"
    case Closes => "*/"
    case Plain(c) => [c]
  }

  function AllWritten(marks: seq<Mark>): string {
    if marks == [] then "" else Written(marks[0]) + AllWritten(marks[1..])
  }

  predicate StartsMark(s: string) { "/*" <= s || "*/" <= s }

  /** Read from the left: no other character begins a mark with what follows it. */
  predicate Lexed(marks: seq<Mark>, rest: string) {
    marks == [] ||
    ((marks[0].Plain? ==> !StartsMark(AllWritten(marks) + rest)) && Lexed(marks[1..], rest))
  }

  function DepthAfter(m: Mark, depth: nat): nat
    requires depth > 0
  {
    match m
    case Opens => depth + 1
    case Closes => depth - 1
    case Plain(_) => depth
  }

  /** The comment is open before every mark and closed after the last. */
  predicate ClosesLast(marks: seq<Mark>, depth: nat) {
    if marks == [] then depth == 0
    else depth > 0 && ClosesLast(marks[1..], DepthAfter(marks[0], depth))
  }

  lemma WrittenFirst(marks: seq<Mark>, rest: string)
    requires marks != []
    ensures var (first, all) := (Written(marks[0]), AllWritten(marks) + rest);
      first <= all && all[|first|..] == AllWritten(marks[1..]) + rest
  {
    assert AllWritten(marks) + rest == Written(marks[0]) + (AllWritten(marks[1..]) + rest);
  }

  /** The mark the text starts with. */
  function MarkAt(s: string): Mark
    requires s != ""
  {
    if "/*" <= s then Opens else if "*/" <= s then Closes else Plain(s[0])
  }

  lemma MarkIsWritten(s: string)
    requires s != ""
    ensures Written(MarkAt(s)) <= s && (MarkAt(s).Plain? ==> !StartsMark(s))
  {
  }

  lemma BlockStep(source: string, at: nat, next: nat, depth: nat)
    requires at < next <= |source| && depth > 0
    ensures var first := MarkAt(source[at..next]); var to := at + |Written(first)|;
      to <= next && BlockEnd(source, at, next, depth) == BlockEnd(source, to, next, DepthAfter(first, depth))
  {
    MarkIsWritten(source[at..next]);
  }

  lemma BlockStops(source: string, at: nat, next: nat, depth: nat)
    requires at <= next <= |source|
    ensures depth == 0 ==> BlockEnd(source, at, next, depth) == Some(at)
    ensures depth > 0 && at == next ==> BlockEnd(source, at, next, depth) == None
  {
  }

  /** A comment ends where its marks end. */
  lemma {:induction false} MarksAreRead(source: string, at: nat, end: nat, next: nat, depth: nat, marks: seq<Mark>)
    requires at <= end <= next <= |source| && source[at..end] == AllWritten(marks)
    requires Lexed(marks, source[end..next]) && ClosesLast(marks, depth)
    ensures BlockEnd(source, at, next, depth) == Some(end)
    decreases |marks|
  {
    hide Lexed, BlockEnd, AllWritten, Written, StartsMark, DepthAfter, MarkAt;
    if marks == [] {
      NothingWritten();
      BlockStops(source, at, next, depth);
    } else {
      var rest := source[end..next];
      assert source[at..next] == AllWritten(marks) + rest by { assert source[at..next] == source[at..end] + rest; }
      LexedLater(marks, rest);
      MarkIsFirst(marks, rest);
      var to := at + |Written(marks[0])|;
      WrittenFirst(marks, rest);
      OtherWritten(marks);
      assert source[to..end] == AllWritten(marks[1..]) by { assert source[to..end] == source[at..end][to - at..]; }
      BlockStep(source, at, next, depth);
      MarksAreRead(source, to, end, next, DepthAfter(marks[0], depth), marks[1..]);
    }
  }

  lemma NothingWritten()
    ensures AllWritten([]) == ""
  {
  }

  lemma OtherWritten(marks: seq<Mark>)
    requires marks != []
    ensures 0 < |Written(marks[0])| <= |AllWritten(marks)|
    ensures AllWritten(marks)[|Written(marks[0])|..] == AllWritten(marks[1..])
  {
  }

  lemma MarkIsFirst(marks: seq<Mark>, rest: string)
    requires marks != [] && (marks[0].Plain? ==> !StartsMark(AllWritten(marks) + rest))
    ensures AllWritten(marks) + rest != "" && MarkAt(AllWritten(marks) + rest) == marks[0]
  {
    hide AllWritten;
    OtherWritten(marks);
    WrittenFirst(marks, rest);
    OneMark(AllWritten(marks) + rest, marks[0]);
  }

  lemma LexedLater(marks: seq<Mark>, rest: string)
    requires marks != [] && Lexed(marks, rest)
    ensures Lexed(marks[1..], rest) && (marks[0].Plain? ==> !StartsMark(AllWritten(marks) + rest))
  {
  }

  lemma OneMark(s: string, first: Mark)
    requires Written(first) <= s && (first.Plain? ==> !StartsMark(s))
    ensures first.Opens? <==> "/*" <= s
    ensures first.Closes? <==> "*/" <= s
  {
    if first.Opens? { assert s[0] == '/'; }
    if first.Closes? { assert s[0] == '*'; }
  }

  lemma {:induction false} EndsAfterMarks(source: string, at: nat, next: nat, depth: nat) returns (marks: seq<Mark>)
    requires at <= next <= |source| && BlockEnd(source, at, next, depth).Some?
    ensures var end := BlockEnd(source, at, next, depth).value;
      source[at..end] == AllWritten(marks) && Lexed(marks, source[end..next]) && ClosesLast(marks, depth)
    decreases next - at
  {
    hide Lexed, BlockEnd, AllWritten, Written, StartsMark, DepthAfter, MarkAt;
    BlockStops(source, at, next, depth);
    var end := BlockEnd(source, at, next, depth).value;
    if depth == 0 {
      marks := [];
      NothingWritten();
      NothingLexed(source[end..next]);
    } else {
      var rest := source[at..next];
      var first := MarkAt(rest);
      var to := at + |Written(first)|;
      BlockStep(source, at, next, depth);
      MarkIsWritten(rest);
      SomeWritten(first);
      var later := EndsAfterMarks(source, to, next, DepthAfter(first, depth));
      marks := [first] + later;
      FirstWritten(first, later);
      assert Written(first) == source[at..to] by { assert rest[..to - at] == source[at..to]; }
      assert source[at..end] == source[at..to] + source[to..end];
      assert rest == source[at..end] + source[end..next];
      LexedMore(marks, source[end..next]);
    }
  }

  lemma SomeWritten(m: Mark)
    ensures |Written(m)| > 0
  {
  }

  lemma FirstWritten(first: Mark, later: seq<Mark>)
    ensures ([first] + later)[1..] == later && AllWritten([first] + later) == Written(first) + AllWritten(later)
  {
    assert ([first] + later)[1..] == later;
  }

  lemma NothingLexed(rest: string)
    ensures Lexed([], rest)
  {
  }

  lemma LexedMore(marks: seq<Mark>, rest: string)
    requires marks != [] && Lexed(marks[1..], rest) && (marks[0].Plain? ==> !StartsMark(AllWritten(marks) + rest))
    ensures Lexed(marks, rest)
  {
  }

  /** A block comment stands at `at` and ends at `end`: its marks, read from the left, first close it there. */
  ghost predicate IsBlock(source: string, at: nat, end: nat, next: nat)
    requires next <= |source|
  {
    && at + 2 <= end <= next && source[at..at + 2] == "/*"
    && exists marks ::
         source[at + 2..end] == AllWritten(marks) && Lexed(marks, source[end..next]) && ClosesLast(marks, 1)
  }

  lemma BlockIsRead(source: string, at: nat, end: nat, next: nat)
    requires at + 2 <= next <= |source| && source[at..at + 2] == "/*"
    ensures IsBlock(source, at, end, next) <==> BlockEnd(source, at + 2, next, 1) == Some(end)
  {
    hide BlockEnd, AllWritten, Lexed, ClosesLast;
    if IsBlock(source, at, end, next) {
      var marks :| source[at + 2..end] == AllWritten(marks) && Lexed(marks, source[end..next]) && ClosesLast(marks, 1);
      MarksAreRead(source, at + 2, end, next, 1, marks);
    }
    if BlockEnd(source, at + 2, next, 1) == Some(end) {
      var marks := EndsAfterMarks(source, at + 2, next, 1);
    }
  }

  // --- One piece of a gap ---------------------------------------------------------------------------------

  predicate StartsLine(s: string) { "//" <= s || "#!" <= s }

  /** A line comment runs to the end of its line, without a carriage return there. */
  predicate IsLine(source: string, at: nat, next: nat, span: Span, to: nat)
    requires next <= |source|
  {
    && at < to <= next && '\n' !in source[at..to] && (to == next || source[to] == '\n')
    && span == Span(at, if source[to - 1] == '\r' then to - 1 else to)
  }

  /** What stands at a position, up to `to`: a line comment, a block comment or a white-space character. */
  ghost predicate IsPiece(source: string, at: nat, next: nat, spans: seq<Span>, to: nat)
    requires at < next <= |source|
  {
    var rest := source[at..next];
    if StartsLine(rest) then |spans| == 1 && IsLine(source, at, next, spans[0], to)
    else if "/*" <= rest then spans == [Span(at, to)] && IsBlock(source, at, to, next)
    else spans == [] && S.Space(source[at]) && to == at + 1
  }

  lemma LineEndIsFirst(rest: string, n: nat)
    requires n <= |rest| && '\n' !in rest[..n] && (n == |rest| || rest[n] == '\n')
    ensures IndexOf(rest, '\n') == n
  {
    var m := IndexOf(rest, '\n');
    assert forall p :: 0 <= p < n ==> rest[..n][p] == rest[p];
    assert forall p :: 0 <= p < m ==> rest[..m][p] == rest[p];
  }

  lemma LineIsRead(source: string, at: nat, next: nat, span: Span, to: nat)
    requires at < next <= |source| && StartsLine(source[at..next])
    ensures IsLine(source, at, next, span, to) <==> LineComment(source, at, next) == (span, to)
  {
    hide IndexOf;
    var rest := source[at..next];
    var n := IndexOf(rest, '\n');
    assert rest[0] != '\n' && n > 0;
    assert source[at + n - 1] == rest[n - 1] && source[at..at + n] == rest[..n];
    assert n < |rest| ==> source[at + n] == rest[n];
    if IsLine(source, at, next, span, to) {
      assert source[at..to] == rest[..to - at];
      LineEndIsFirst(rest, to - at);
    }
  }

  /** The scanner reads the piece that stands there, and refuses when none does. */
  lemma PieceIsRead(source: string, at: nat, next: nat, spans: seq<Span>, to: nat)
    requires at < next <= |source|
    ensures IsPiece(source, at, next, spans, to) <==> Item(source, at, next) == Ok((spans, to))
  {
    hide LineComment, IsLine, IsBlock, BlockEnd, S.Space;
    var rest := source[at..next];
    assert rest[0] == source[at];
    if StartsLine(rest) {
      var (span, end) := LineComment(source, at, next);
      LineIsRead(source, at, next, span, end);
      if |spans| == 1 {
        LineIsRead(source, at, next, spans[0], to);
        assert spans == [spans[0]];
      }
    } else if "/*" <= rest {
      assert rest[..2] == source[at..at + 2];
      BlockIsRead(source, at, to, next);
    }
  }

  // --- A whole gap ------------------------------------------------------------------------------------------

  /** The pieces fill the gap up to `stop`. */
  ghost predicate Fills(source: string, at: nat, stop: nat, next: nat, pieces: seq<(seq<Span>, nat)>)
    requires at <= next <= |source|
    decreases |pieces|
  {
    if pieces == [] then at == stop
    else
      && at < next && pieces[0].1 <= next && IsPiece(source, at, next, pieces[0].0, pieces[0].1)
      && Fills(source, pieces[0].1, stop, next, pieces[1..])
  }

  /** The comments among the pieces. */
  function Found(pieces: seq<(seq<Span>, nat)>): seq<Span> {
    if pieces == [] then [] else pieces[0].0 + Found(pieces[1..])
  }

  /** A gap filled with comments and white space is accepted, and those comments are what is found. */
  lemma {:induction false} FilledIsRead(source: string, at: nat, next: nat, pieces: seq<(seq<Span>, nat)>)
    requires at <= next <= |source| && Fills(source, at, next, next, pieces)
    ensures GapSpans(source, at, next) == Ok(Found(pieces))
    decreases |pieces|
  {
    hide IsPiece, Item;
    if pieces != [] {
      PieceIsRead(source, at, next, pieces[0].0, pieces[0].1);
      FilledIsRead(source, pieces[0].1, next, pieces[1..]);
    }
  }

  /** Nothing that stands at `stop` can be read. */
  ghost predicate Stuck(source: string, stop: nat, next: nat)
    requires next <= |source|
  {
    stop < next && forall spans, to :: !IsPiece(source, stop, next, spans, to)
  }

  /** Every gap is filled up to its end, or up to the first place where neither a comment nor white space stands; a
      comment that is not closed is told apart from anything else. */
  lemma {:induction false} GapReadTill(source: string, at: nat, next: nat)
    returns (pieces: seq<(seq<Span>, nat)>, stop: nat)
    requires at <= next <= |source|
    ensures stop <= next && Fills(source, at, stop, next, pieces)
    ensures match GapSpans(source, at, next)
            case Ok(spans) => stop == next && spans == Found(pieces)
            case Err(why) =>
              && Stuck(source, stop, next)
              && why == if "/*" <= source[stop..next] then "unterminated comment" else "unrecognized source trivia"
    decreases next - at
  {
    hide IsPiece, Item;
    if at == next {
      pieces, stop := [], at;
    } else {
      GapStep(source, at, next);
      var item := Item(source, at, next);
      if item.Ok? {
        var (spans, to) := item.value;
        PieceIsRead(source, at, next, spans, to);
        pieces, stop := GapReadTill(source, to, next);
        pieces := [(spans, to)] + pieces;
      } else {
        pieces, stop := [], at;
        RefusedPiece(source, at, next);
      }
    }
  }

  lemma RefusedPiece(source: string, at: nat, next: nat)
    requires at < next <= |source| && Item(source, at, next).Err?
    ensures Stuck(source, at, next)
    ensures Item(source, at, next).error ==
      if "/*" <= source[at..next] then "unterminated comment" else "unrecognized source trivia"
  {
    forall spans, to ensures !IsPiece(source, at, next, spans, to) {
      PieceIsRead(source, at, next, spans, to);
    }
  }

  // --- All gaps ---------------------------------------------------------------------------------------------

  /** Where the gap before token `i` starts and ends; the last gap runs to the end of the text. */
  function GapStart(tokens: seq<Span>, end: nat, i: nat): nat
    requires i <= |tokens|
  {
    if i == 0 then end else tokens[i - 1].end
  }

  function GapEnd(tokens: seq<Span>, limit: nat, i: nat): nat
    requires i <= |tokens|
  {
    if i == |tokens| then limit else tokens[i].start
  }

  /** The gap is one, and it holds only comments and white space. */
  predicate GoodGap(source: string, tokens: seq<Span>, end: nat, i: nat)
    requires i <= |tokens| && end <= |source| && AllFit(tokens, |source|)
  {
    var (from, to) := (GapStart(tokens, end, i), GapEnd(tokens, |source|, i));
    assert i < |tokens| ==> Fits(tokens[i], |source|);
    from <= to && GapSpans(source, from, to).Ok?
  }

  predicate FoundIn(source: string, tokens: seq<Span>, end: nat, i: nat, c: Span)
    requires i <= |tokens| && end <= |source| && AllFit(tokens, |source|)
  {
    && GoodGap(source, tokens, end, i)
    && c in GapSpans(source, GapStart(tokens, end, i), GapEnd(tokens, |source|, i)).value
  }

  lemma LaterGap(source: string, tokens: seq<Span>, end: nat, i: nat, c: Span)
    requires 0 < i <= |tokens| && end <= |source| && AllFit(tokens, |source|)
    ensures AllFit(tokens[1..], |source|) && tokens[0].end <= |source|
    ensures GoodGap(source, tokens, end, i) <==> GoodGap(source, tokens[1..], tokens[0].end, i - 1)
    ensures FoundIn(source, tokens, end, i, c) <==> FoundIn(source, tokens[1..], tokens[0].end, i - 1, c)
  {
    hide GapSpans;
    assert Fits(tokens[0], |source|);
  }

  /** The scan succeeds exactly when the tokens are in order and every gap holds only comments and white space, and then
      it finds exactly the comments of the gaps. */
  lemma {:induction false} CommentsExactly(source: string, tokens: seq<Span>, end: nat, c: Span)
    requires end <= |source| && AllFit(tokens, |source|)
    ensures var r := CommentsOf(source, tokens, end);
      && (r.Ok? <==> forall i :: 0 <= i <= |tokens| ==> GoodGap(source, tokens, end, i))
      && (r.Ok? ==> (c in r.value <==> exists i :: 0 <= i <= |tokens| && FoundIn(source, tokens, end, i, c)))
    decreases |tokens|
  {
    hide GapSpans;
    var r := CommentsOf(source, tokens, end);
    if tokens == [] {
      assert FoundIn(source, tokens, end, 0, c) <==> r.Ok? && c in r.value;
      assert GoodGap(source, tokens, end, 0) <==> r.Ok?;
    } else {
      var rest := tokens[1..];
      assert Fits(tokens[0], |source|);
      forall i | 0 < i <= |tokens|
        ensures GoodGap(source, tokens, end, i) <==> GoodGap(source, rest, tokens[0].end, i - 1)
        ensures FoundIn(source, tokens, end, i, c) <==> FoundIn(source, rest, tokens[0].end, i - 1, c)
      {
        LaterGap(source, tokens, end, i, c);
      }
      CommentsExactly(source, rest, tokens[0].end, c);
      GapsShift(source, tokens, end, c);
    }
  }

  lemma GapsShift(source: string, tokens: seq<Span>, end: nat, c: Span)
    requires tokens != [] && end <= |source| && AllFit(tokens, |source|)
    ensures AllFit(tokens[1..], |source|) && tokens[0].end <= |source|
    ensures (forall i :: 0 <= i <= |tokens| ==> GoodGap(source, tokens, end, i)) <==>
      && GoodGap(source, tokens, end, 0)
      && forall i :: 0 <= i <= |tokens[1..]| ==> GoodGap(source, tokens[1..], tokens[0].end, i)
    ensures (exists i :: 0 <= i <= |tokens| && FoundIn(source, tokens, end, i, c)) <==>
      || FoundIn(source, tokens, end, 0, c)
      || exists i :: 0 <= i <= |tokens[1..]| && FoundIn(source, tokens[1..], tokens[0].end, i, c)
  {
    hide GoodGap, FoundIn;
    var rest := tokens[1..];
    assert Fits(tokens[0], |source|);
    if forall i :: 0 <= i <= |tokens| ==> GoodGap(source, tokens, end, i) {
      forall i | 0 <= i <= |rest| ensures GoodGap(source, rest, tokens[0].end, i) {
        LaterGap(source, tokens, end, i + 1, c);
      }
    }
    if forall i :: 0 <= i <= |rest| ==> GoodGap(source, rest, tokens[0].end, i) {
      forall i | 0 < i <= |tokens| ensures GoodGap(source, tokens, end, i) { LaterGap(source, tokens, end, i, c); }
    }
    if i :| 0 <= i <= |tokens| && FoundIn(source, tokens, end, i, c) {
      if i > 0 { LaterGap(source, tokens, end, i, c); }
    }
    if i :| 0 <= i <= |rest| && FoundIn(source, rest, tokens[0].end, i, c) {
      LaterGap(source, tokens, end, i + 1, c);
    }
  }
}
