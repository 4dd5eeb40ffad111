/**
 The formatter's layout pass (`src/source_fmt.rs`, `comments` and the edit loops of `once`): comments are found
 between the tokens, and indentation and the gaps between functions are rewritten by white-space edits. Offsets
 count characters.
 */
module Layout {
  import opened Wrappers
  import opened TokenFidelity
  import opened Search
  import opened Sorting
  import S = SourceMaps

  function SpansOf(tokens: seq<Token>): seq<Span> { seq(|tokens|, i requires 0 <= i < |tokens| => tokens[i].span) }

  predicate AllSpace(s: string) { forall i :: 0 <= i < |s| ==> S.Space(s[i]) }

  // --- Comments between the tokens -----------------------------------------------------------------

  predicate Fits(span: Span, limit: nat) { span.start <= span.end <= limit }

  /** Where a block comment ends that is `depth` levels deep at a position, if it does before `next`. */
  function BlockEnd(source: string, at: nat, next: nat, depth: nat): (end: Option<nat>)
    requires at <= next <= |source|
    ensures end.Some? ==> at <= end.value <= next
    decreases next - at
  {
    if depth == 0 then Some(at)
    else if at == next then None
    else if "/*" <= source[at..next] then BlockEnd(source, at + 2, next, depth + 1)
    else if "*/" <= source[at..next] then BlockEnd(source, at + 2, next, depth - 1)
    else BlockEnd(source, at + 1, next, depth)
  }

  /** A comment ends with its closing mark. */
  lemma {:induction false} BlockEndCloses(source: string, at: nat, next: nat, depth: nat)
    requires at <= next <= |source| && depth > 0 && BlockEnd(source, at, next, depth).Some?
    ensures var end := BlockEnd(source, at, next, depth).value; at + 2 <= end && source[end - 2..end] == "*/"
    decreases next - at
  {
    if "/*" <= source[at..next] {
      BlockEndCloses(source, at + 2, next, depth + 1);
    } else if "*/" <= source[at..next] {
      if depth > 1 {
        BlockEndCloses(source, at + 2, next, depth - 1);
      } else {
        var rest := source[at..next];
        assert rest[0] == '*' && rest[1] == '/' && source[at] == rest[0] && source[at + 1] == rest[1];
      }
    } else {
      BlockEndCloses(source, at + 1, next, depth);
    }
  }

  method BlockComment(source: string, start: nat, next: nat) returns (end: Option<nat>)
    requires start + 2 <= next <= |source|
    ensures end == BlockEnd(source, start + 2, next, 1)
  {
    var at := start + 2;
    var depth: nat := 1;
    while at < next && depth != 0
      invariant start + 2 <= at <= next
      invariant BlockEnd(source, start + 2, next, 1) == BlockEnd(source, at, next, depth)
      decreases next - at
    {
      if "/*" <= source[at..next] {
        depth := depth + 1;
        at := at + 2;
      } else if "*/" <= source[at..next] {
        depth := depth - 1;
        at := at + 2;
      } else {
        at := at + 1;
      }
    }
    return if depth == 0 then Some(at) else None;
  }

  /** A line comment without its line end, and where the line ends. */
  function LineComment(source: string, at: nat, next: nat): (r: (Span, nat))
    requires at <= next <= |source|
    ensures r.0.start == at <= r.0.end <= r.1 <= next
  {
    var rest := source[at..next];
    var n := IndexOf(rest, '\n');
    (Span(at, at + if n > 0 && rest[n - 1] == '\r' then n - 1 else n), at + n)
  }

  lemma LineCommentEnds(source: string, at: nat, next: nat)
    requires at + 2 <= next <= |source| && ("//" <= source[at..next] || "#!" <= source[at..next])
    ensures var (span, to) := LineComment(source, at, next);
      at < to && at < span.end && forall p :: span.end <= p < to ==> S.Space(source[p])
  {
    var rest := source[at..next];
    assert rest[0] != '\n' && rest[1] != '\n';
    var n := IndexOf(rest, '\n');
    assert n > 0 && source[at + n - 1] == rest[n - 1];
  }

  /** What stands at a position between tokens: a comment or a blank, and where the next thing starts. */
  function Item(source: string, at: nat, next: nat): (r: Result<(seq<Span>, nat), string>)
    requires at < next <= |source|
    ensures r.Ok? ==> at < r.value.1 <= next
  {
    var rest := source[at..next];
    if "//" <= rest || "#!" <= rest then
      LineCommentEnds(source, at, next);
      var (span, to) := LineComment(source, at, next);
      Ok(([span], to))
    else if "/*" <= rest then
      var end := BlockEnd(source, at + 2, next, 1);
      if end.None? then Err("unterminated comment") else Ok(([Span(at, end.value)], end.value))
    else if S.Space(rest[0]) then Ok(([], at + 1))
    else Err("unrecognized source trivia")
  }

  function Prepend(first: seq<Span>, r: Result<seq<Span>, string>): Result<seq<Span>, string> {
    if r.Err? then r else Ok(first + r.value)
  }

  lemma PrependTwice(a: seq<Span>, b: seq<Span>, r: Result<seq<Span>, string>)
    ensures Prepend(a, Prepend(b, r)) == Prepend(a + b, r) && Prepend([], r) == r
  {
    if r.Ok? { assert a + (b + r.value) == a + b + r.value && [] + r.value == r.value; }
  }

  /** The comments of one gap between tokens, or the error when it holds anything else. */
  function GapSpans(source: string, at: nat, next: nat): Result<seq<Span>, string>
    requires at <= next <= |source|
    decreases next - at
  {
    if at == next then Ok([])
    else
      var item := Item(source, at, next);
      if item.Err? then Err(item.error) else Prepend(item.value.0, GapSpans(source, item.value.1, next))
  }

  method GapComments(source: string, from: nat, next: nat) returns (r: Result<seq<Span>, string>)
    requires from <= next <= |source|
    ensures r == GapSpans(source, from, next)
  {
    hide BlockEnd, LineComment, GapSpans, S.Space;
    var spans: seq<Span> := [];
    var at := from;
    PrependTwice([], [], GapSpans(source, from, next));
    while at < next
      invariant from <= at <= next
      invariant GapSpans(source, from, next) == Prepend(spans, GapSpans(source, at, next))
      decreases next - at
    {
      GapStep(source, at, next);
      var rest := source[at..next];
      var span: seq<Span>, to := [], at + 1;
      if "//" <= rest || "#!" <= rest {
        LineCommentEnds(source, at, next);
        var line := LineComment(source, at, next);
        span, to := [line.0], line.1;
      } else if "/*" <= rest {
        var end := BlockComment(source, at, next);
        if end.None? { return Err("unterminated comment"); }
        span, to := [Span(at, end.value)], end.value;
      } else if !S.Space(rest[0]) {
        return Err("unrecognized source trivia");
      }
      PrependTwice(spans, span, GapSpans(source, to, next));
      spans := spans + span;
      at := to;
    }
    assert spans + [] == spans;
    EmptyGap(source, next);
    return Ok(spans);
  }

  lemma GapStep(source: string, at: nat, next: nat)
    requires at < next <= |source|
    ensures var item := Item(source, at, next);
      GapSpans(source, at, next) ==
        if item.Err? then Err(item.error) else Prepend(item.value.0, GapSpans(source, item.value.1, next))
  {
  }

  lemma EmptyGap(source: string, at: nat)
    requires at <= |source|
    ensures GapSpans(source, at, at) == Ok([])
  {
  }

  /** The comments between all tokens, from token `i` on, after a position. */
  function CommentsOf(source: string, tokens: seq<Span>, end: nat): Result<seq<Span>, string>
    requires end <= |source| && forall i :: 0 <= i < |tokens| ==> Fits(tokens[i], |source|)
    decreases |tokens|
  {
    if tokens == [] then GapSpans(source, end, |source|)
    else
      assert Fits(tokens[0], |source|);
      if tokens[0].start < end then Err("overlapping source token spans")
      else
        var gap := GapSpans(source, end, tokens[0].start);
        if gap.Err? then gap else Prepend(gap.value, CommentsOf(source, tokens[1..], tokens[0].end))
  }

  /** Finds the comments between the tokens, and refuses anything there that is neither comment nor white space. */
  method Comments(source: string, tokens: seq<Span>) returns (r: Result<seq<Span>, string>)
    requires forall i :: 0 <= i < |tokens| ==> Fits(tokens[i], |source|)
    ensures r == CommentsOf(source, tokens, 0)
  {
    hide GapSpans;
    var spans: seq<Span> := [];
    var end: nat := 0;
    var i := 0;
    assert tokens[0..] == tokens;
    PrependTwice([], [], CommentsOf(source, tokens, 0));
    while i < |tokens|
      invariant 0 <= i <= |tokens| && end <= |source|
      invariant CommentsOf(source, tokens, 0) == Prepend(spans, CommentsOf(source, tokens[i..], end))
    {
      assert tokens[i..][0] == tokens[i] && tokens[i..][1..] == tokens[i + 1..];
      if tokens[i].start < end { return Err("overlapping source token spans"); }
      var gap := GapComments(source, end, tokens[i].start);
      if gap.Err? { return gap; }
      PrependTwice(spans, gap.value, CommentsOf(source, tokens[i + 1..], tokens[i].end));
      spans := spans + gap.value;
      end := tokens[i].end;
      i := i + 1;
    }
    assert tokens[i..] == [];
    var gap := GapComments(source, end, |source|);
    return Prepend(spans, gap);
  }

  /** A token or a comment starts with something other than white space. */
  predicate Solid(output: string, span: Span) { span.start < span.end <= |output| && !S.Space(output[span.start]) }

  predicate AllSolid(output: string, spans: seq<Span>) { forall i :: 0 <= i < |spans| ==> Solid(output, spans[i]) }

  // --- What the comments account for ------------------------------------------------------------------

  predicate Inside(spans: seq<Span>, at: nat) { exists i :: 0 <= i < |spans| && spans[i].start <= at < spans[i].end }

  predicate Apart(a: Span, b: Span) { a.end <= b.start || b.end <= a.start }

  predicate AllApart(a: seq<Span>, b: seq<Span>) {
    forall i, j :: 0 <= i < |a| && 0 <= j < |b| ==> Apart(a[i], b[j])
  }

  /** Every character from a position on belongs to a token or a comment, or is white space. */
  predicate Accounted(source: string, tokens: seq<Span>, comments: seq<Span>, from: nat, to: nat) {
    forall at :: from <= at < to && at < |source| ==> S.Space(source[at]) || Inside(tokens, at) || Inside(comments, at)
  }

  lemma InsideMore(a: seq<Span>, b: seq<Span>, at: nat)
    ensures Inside(a, at) || Inside(b, at) ==> Inside(a + b, at)
  {
    if i :| 0 <= i < |a| && a[i].start <= at < a[i].end { assert (a + b)[i] == a[i]; }
    if i :| 0 <= i < |b| && b[i].start <= at < b[i].end { assert (a + b)[|a| + i] == b[i]; }
  }

  lemma AccountedInTwo(source: string, a: seq<Span>, b: seq<Span>, c: seq<Span>, d: seq<Span>, from: nat, mid: nat,
      to: nat)
    requires Accounted(source, a, b, from, mid) && Accounted(source, c, d, mid, to)
    ensures Accounted(source, a + c, b + d, from, to)
  {
    forall at | from <= at < to && at < |source|
      ensures S.Space(source[at]) || Inside(a + c, at) || Inside(b + d, at)
    {
      InsideMore(a, c, at);
      InsideMore(b, d, at);
    }
  }

  lemma {:induction false} JoinInOrder(a: seq<Span>, b: seq<Span>, from: nat, at: nat, to: nat)
    requires InOrder(a, from, at) && InOrder(b, at, to)
    ensures InOrder(a + b, from, to)
  {
    if a == [] {
      assert a + b == b;
    } else {
      JoinInOrder(a[1..], b, a[0].end, at, to);
      EndsBefore(a, from, at);
      EndsBefore(b, at, to);
      assert (a + b)[1..] == a[1..] + b;
    }
  }

  lemma {:induction false} EndsBefore(spans: seq<Span>, from: nat, to: nat)
    requires InOrder(spans, from, to)
    ensures from <= to && forall i :: 0 <= i < |spans| ==> from <= spans[i].start <= spans[i].end <= to
  {
    if spans != [] { EndsBefore(spans[1..], spans[0].end, to); }
  }

  lemma ItemAccounts(source: string, at: nat, next: nat)
    requires at < next <= |source| && Item(source, at, next).Ok?
    ensures var (span, to) := Item(source, at, next).value;
      InOrder(span, at, to) && Accounted(source, [], span, at, to) && AllSolid(source, span)
  {
    var (span, to) := Item(source, at, next).value;
    var rest := source[at..next];
    assert source[at] == rest[0];
    if "//" <= rest || "#!" <= rest {
      LineCommentEnds(source, at, next);
      forall p | at <= p < to ensures S.Space(source[p]) || Inside(span, p) {
        if p < span[0].end { assert span[0].start <= p < span[0].end; }
      }
    } else if "/*" <= rest {
      forall p | at <= p < to ensures Inside(span, p) { assert span[0].start <= p < span[0].end; }
    }
  }

  lemma {:induction false} GapAccounts(source: string, at: nat, next: nat)
    requires at <= next <= |source| && GapSpans(source, at, next).Ok?
    ensures var spans := GapSpans(source, at, next).value;
      InOrder(spans, at, next) && Accounted(source, [], spans, at, next) && AllSolid(source, spans)
    decreases next - at
  {
    hide Item, InOrder, Accounted, Solid;
    if at == next {
      NothingThere(source, at);
    } else {
      var (span, to) := Item(source, at, next).value;
      var rest := GapSpans(source, to, next).value;
      ItemAccounts(source, at, next);
      GapAccounts(source, to, next);
      JoinInOrder(span, rest, at, to, next);
      var none: seq<Span> := [];
      AccountedInTwo(source, none, span, none, rest, at, to, next);
      assert none + none == none;
    }
  }

  lemma NothingThere(source: string, at: nat)
    ensures InOrder([], at, at) && Accounted(source, [], [], at, at)
  {
  }

  lemma TokenAccounts(source: string, token: Span)
    requires token.start <= token.end
    ensures InOrder([token], token.start, token.end) && Accounted(source, [token], [], token.start, token.end)
  {
    forall at | token.start <= at < token.end ensures Inside([token], at) { assert [token][0] == token; }
  }

  lemma ApartFromGap(token: Span, tokens: seq<Span>, gap: seq<Span>, comments: seq<Span>, end: nat, limit: nat)
    requires token.start <= token.end && InOrder(gap, end, token.start)
    requires InOrder(tokens, token.end, limit) && InOrder(comments, token.end, limit) && AllApart(tokens, comments)
    ensures AllApart([token] + tokens, gap + comments)
  {
    EndsBefore(gap, end, token.start);
    EndsBefore(tokens, token.end, limit);
    EndsBefore(comments, token.end, limit);
  }

  /** When the scan succeeds, tokens and comments are in order and apart, and everything else is white space. */
  lemma {:induction false} CommentsAccount(source: string, tokens: seq<Span>, end: nat)
    requires end <= |source| && forall i :: 0 <= i < |tokens| ==> Fits(tokens[i], |source|)
    requires CommentsOf(source, tokens, end).Ok?
    ensures var comments := CommentsOf(source, tokens, end).value;
      && InOrder(tokens, end, |source|) && InOrder(comments, end, |source|) && AllApart(tokens, comments)
      && Accounted(source, tokens, comments, end, |source|) && AllSolid(source, comments)
    decreases |tokens|
  {
    hide GapSpans, InOrder, Accounted, AllApart, Solid;
    if tokens == [] {
      GapAccounts(source, end, |source|);
      NoTokens(CommentsOf(source, tokens, end).value, end, |source|);
    } else {
      var (token, rest) := (tokens[0], tokens[1..]);
      var (gap, later) := (GapSpans(source, end, token.start).value, CommentsOf(source, rest, token.end).value);
      GapAccounts(source, end, token.start);
      CommentsAccount(source, rest, token.end);
      TokenAccounts(source, token);
      WithToken(source, token, rest, gap, later, end);
      assert tokens == [token] + rest;
    }
  }

  lemma NoTokens(comments: seq<Span>, end: nat, limit: nat)
    requires end <= limit
    ensures InOrder([], end, limit) && AllApart([], comments)
  {
  }

  lemma WithToken(source: string, token: Span, tokens: seq<Span>, gap: seq<Span>, comments: seq<Span>, end: nat)
    requires token.start <= token.end && InOrder(gap, end, token.start) && Accounted(source, [], gap, end, token.start)
    requires InOrder([token], token.start, token.end) && Accounted(source, [token], [], token.start, token.end)
    requires InOrder(tokens, token.end, |source|) && InOrder(comments, token.end, |source|)
    requires AllApart(tokens, comments)
    requires Accounted(source, tokens, comments, token.end, |source|)
    ensures InOrder([token] + tokens, end, |source|) && InOrder(gap + comments, end, |source|)
    ensures AllApart([token] + tokens, gap + comments)
    ensures Accounted(source, [token] + tokens, gap + comments, end, |source|)
  {
    hide InOrder, Accounted, AllApart;
    JoinInOrder([token], tokens, token.start, token.end, |source|);
    FromLower([token] + tokens, gap, token.start, end, |source|);
    Later(comments, token.end, token.start, |source|);
    JoinInOrder(gap, comments, end, token.start, |source|);
    ApartFromGap(token, tokens, gap, comments, end, |source|);
    AccountedInTwo(source, [], gap, [token], [], end, token.start, token.end);
    assert [] + [token] == [token] && gap + [] == gap;
    AccountedInTwo(source, [token], gap, tokens, comments, end, token.end, |source|);
  }

  lemma FromLower(spans: seq<Span>, gap: seq<Span>, from: nat, lower: nat, to: nat)
    requires InOrder(spans, from, to) && InOrder(gap, lower, from)
    ensures InOrder(spans, lower, to)
  {
    EndsBefore(gap, lower, from);
  }

  lemma Later(spans: seq<Span>, from: nat, lower: nat, to: nat)
    requires InOrder(spans, from, to) && lower <= from
    ensures InOrder(spans, lower, to)
  {
  }

  // --- Indentation -----------------------------------------------------------------------------------

  datatype Edit = Edit(span: Span, text: string)

  function Run(c: char, n: nat): (s: string)
    ensures |s| == n && forall i :: 0 <= i < n ==> s[i] == c
  {
    seq(n, _ => c)
  }

  /** Columns taken by white space, at four to a tab. */
  function Width(s: string): nat {
    if s == "" then 0 else (if s[0] == '\t' then 4 else 1) + Width(s[1..])
  }

  lemma {:induction false} WidthOfRun(c: char, n: nat)
    ensures Width(Run(c, n)) == if c == '\t' then 4 * n else n
  {
    if n > 0 {
      WidthOfRun(c, n - 1);
      assert Run(c, n)[1..] == Run(c, n - 1);
    }
  }

  lemma {:induction false} WidthOfTwo(a: string, b: string)
    ensures Width(a + b) == Width(a) + Width(b)
  {
    if a == "" {
      assert a + b == b;
    } else {
      WidthOfTwo(a[1..], b);
      assert (a + b)[1..] == a[1..] + b;
    }
  }

  function Indent(spaces: nat): string { Run('\t', spaces / 4) + Run(' ', spaces % 4) }

  /** Tabs for spaces keep the width of the indentation, with as many tabs as it holds and then at most three spaces. */
  lemma IndentKeepsWidth(spaces: nat)
    ensures Width(Indent(spaces)) == spaces == Width(Run(' ', spaces)) && AllSpace(Indent(spaces))
    ensures spaces / 4 <= |Indent(spaces)| < spaces / 4 + 4
    ensures forall i :: 0 <= i < |Indent(spaces)| ==> Indent(spaces)[i] == if i < spaces / 4 then '\t' else ' '
  {
    WidthOfRun('\t', spaces / 4);
    WidthOfRun(' ', spaces % 4);
    WidthOfRun(' ', spaces);
    WidthOfTwo(Run('\t', spaces / 4), Run(' ', spaces % 4));
  }

  function Leading(s: string): (n: nat)
    ensures n <= |s| && (n < |s| ==> s[n] != ' ') && forall i :: 0 <= i < n ==> s[i] == ' '
  {
    if s == "" || s[0] != ' ' then 0 else 1 + Leading(s[1..])
  }

  predicate LineStart(output: string, at: nat) { at < |output| && (at == 0 || output[at - 1] == '\n') }

  /** Whether a range begins before a position and ends after it. */
  predicate Crossed(protected: seq<Span>, at: nat) {
    exists i :: 0 <= i < |protected| && protected[i].start < at < protected[i].end
  }

  /** How many ranges, which are sorted, start before a position. */
  function Before(protected: seq<Span>, at: nat): (n: nat)
    ensures n <= |protected|
  {
    if protected == [] || protected[0].start >= at then 0 else 1 + Before(protected[1..], at)
  }

  /** Looking at the last range that starts before a position is enough. */
  lemma {:induction false} LastIsEnough(protected: seq<Span>, at: nat, from: nat, limit: nat)
    requires InOrder(protected, from, limit)
    ensures var n := Before(protected, at); Crossed(protected, at) <==> n > 0 && at < protected[n - 1].end
  {
    if protected != [] && protected[0].start < at {
      var rest := protected[1..];
      LastIsEnough(rest, at, protected[0].end, limit);
      EndsBefore(rest, protected[0].end, limit);
      BeforeIsBefore(rest, at);
      var n := Before(protected, at);
      if n > 1 { assert protected[n - 1] == rest[n - 2]; }
      if i :| 0 <= i < |protected| && protected[i].start < at < protected[i].end {
        if i > 0 { assert rest[i - 1] == protected[i]; }
      }
      if Crossed(rest, at) {
        var i :| 0 <= i < |rest| && rest[i].start < at < rest[i].end;
        assert protected[i + 1] == rest[i];
      }
      if n == 1 && at < protected[0].end { assert Crossed(protected, at); }
    } else {
      FirstIsLeast(protected, from, limit);
    }
  }

  lemma {:induction false} BeforeIsBefore(protected: seq<Span>, at: nat)
    ensures forall i :: 0 <= i < Before(protected, at) ==> protected[i].start < at
  {
    if protected != [] && protected[0].start < at {
      BeforeIsBefore(protected[1..], at);
      forall i | 0 <= i < Before(protected, at) ensures protected[i].start < at {
        if i > 0 { assert protected[i] == protected[1..][i - 1]; }
      }
    }
  }

  lemma FirstIsLeast(spans: seq<Span>, from: nat, limit: nat)
    requires InOrder(spans, from, limit)
    ensures forall i :: 0 <= i < |spans| ==> spans[0].start <= spans[i].start
  {
    if spans != [] {
      EndsBefore(spans[1..], spans[0].end, limit);
      forall i | 0 < i < |spans| ensures spans[0].start <= spans[i].start { assert spans[i] == spans[1..][i - 1]; }
    }
  }

  /** An edit that rewrites the indentation of the line at its start. */
  predicate Indents(output: string, protected: seq<Span>, e: Edit) {
    && LineStart(output, e.span.start) && !Crossed(protected, e.span.start)
    && var n := Leading(output[e.span.start..]);
       n >= 4 && e == Edit(Span(e.span.start, e.span.start + n), Indent(n))
  }

  /** The length of the line at a position, its newline included. */
  function LineLength(output: string, offset: nat): (length: nat)
    requires offset < |output|
    ensures 0 < length <= |output| - offset
    ensures offset + length < |output| ==> output[offset + length - 1] == '\n'
    ensures forall p :: offset <= p < offset + length - 1 ==> output[p] != '\n'
  {
    var n := IndexOf(output[offset..], '\n');
    assert forall p :: offset <= p < |output| ==> output[p] == output[offset..][p - offset];
    if n < |output[offset..]| then n + 1 else n
  }

  /** The edit of one line, if it has enough indentation and does not start inside a token or comment. */
  function LineEdit(output: string, protected: seq<Span>, offset: nat): seq<Edit>
    requires offset < |output|
  {
    var (spaces, n) := (Leading(output[offset..]), Before(protected, offset));
    if spaces >= 4 && !(n > 0 && offset < protected[n - 1].end) then
      [Edit(Span(offset, offset + spaces), Indent(spaces))]
    else []
  }

  function IndentsFrom(output: string, protected: seq<Span>, offset: nat): seq<Edit>
    requires offset <= |output|
    decreases |output| - offset
  {
    if offset == |output| then []
    else LineEdit(output, protected, offset) + IndentsFrom(output, protected, offset + LineLength(output, offset))
  }

  lemma IndentsStep(output: string, protected: seq<Span>, offset: nat, edits: seq<Edit>)
    requires offset < |output|
    ensures var next := offset + LineLength(output, offset);
      edits + IndentsFrom(output, protected, offset)
        == edits + LineEdit(output, protected, offset) + IndentsFrom(output, protected, next)
  {
    hide LineEdit, LineLength;
  }

  method IndentationEdits(output: string, protected: seq<Span>) returns (edits: seq<Edit>)
    ensures edits == IndentsFrom(output, protected, 0)
  {
    hide Leading, Before, Indent, LineLength, IndentsFrom;
    edits := [];
    var offset := 0;
    while offset < |output|
      invariant 0 <= offset <= |output|
      invariant IndentsFrom(output, protected, 0) == edits + IndentsFrom(output, protected, offset)
      decreases |output| - offset
    {
      IndentsStep(output, protected, offset, edits);
      ghost var next := edits + LineEdit(output, protected, offset);
      var spaces := Leading(output[offset..]);
      var n := Before(protected, offset);
      if spaces >= 4 && !(n > 0 && offset < protected[n - 1].end) {
        edits := edits + [Edit(Span(offset, offset + spaces), Indent(spaces))];
      } else {
        assert edits + [] == edits;
      }
      assert edits == next;
      offset := offset + LineLength(output, offset);
    }
    NoIndentsLeft(output, protected);
  }

  lemma NoIndentsLeft(output: string, protected: seq<Span>)
    ensures IndentsFrom(output, protected, |output|) == []
  {
  }

  lemma LineEditExactly(output: string, protected: seq<Span>, offset: nat, e: Edit)
    requires InOrder(protected, 0, |output|) && LineStart(output, offset)
    ensures e in LineEdit(output, protected, offset) <==> Indents(output, protected, e) && e.span.start == offset
  {
    hide Leading, Before, Indent, InOrder, Crossed;
    LastIsEnough(protected, offset, 0, |output|);
  }

  lemma OneLineStart(output: string, offset: nat, at: nat)
    requires offset < |output| && offset < at < offset + LineLength(output, offset)
    ensures !LineStart(output, at)
  {
    hide LineLength;
    assert output[at - 1] != '\n';
  }

  /** Exactly the lines that have enough indentation and do not start inside a token or comment are rewritten. */
  lemma {:induction false} IndentsExactly(output: string, protected: seq<Span>, offset: nat, e: Edit)
    requires InOrder(protected, 0, |output|) && offset <= |output| && (offset < |output| ==> LineStart(output, offset))
    ensures e in IndentsFrom(output, protected, offset) <==> Indents(output, protected, e) && offset <= e.span.start
    decreases |output| - offset
  {
    hide Leading, LineLength, InOrder, Crossed, LineEdit, Indent;
    if offset < |output| {
      var next := offset + LineLength(output, offset);
      IndentsExactly(output, protected, next, e);
      LineEditExactly(output, protected, offset, e);
      if offset < e.span.start < next { OneLineStart(output, offset, e.span.start); }
    }
  }

  // --- Gaps between functions -----------------------------------------------------------------------

  /** The start of the line a position is in. */
  function LineOf(output: string, at: nat): (line: nat)
    requires at <= |output|
    ensures line <= at && (line == 0 || output[line - 1] == '\n')
    ensures forall p :: line <= p < at ==> output[p] != '\n'
  {
    if at == 0 || output[at - 1] == '\n' then at else LineOf(output, at - 1)
  }

  predicate AllFit(spans: seq<Span>, limit: nat) { forall i :: 0 <= i < |spans| ==> Fits(spans[i], limit) }

  /** The first comment of a gap that is not on the line the gap starts in, or the end of the gap. */
  function FirstComment(output: string, comments: seq<Span>, end: nat, start: nat): (item: nat)
    requires end <= start <= |output| && AllFit(comments, |output|)
    ensures end <= item <= start
  {
    if comments == [] then start
    else
      var c := comments[0];
      assert Fits(c, |output|);
      if c.start >= end && c.end <= start && '\n' in output[end..c.start] then c.start
      else FirstComment(output, comments[1..], end, start)
  }

  /** The edit that leaves one blank line in a gap, if only white space is in the way. */
  function GapEdit(output: string, comments: seq<Span>, end: nat, start: nat): seq<Edit>
    requires end <= start <= |output| && AllFit(comments, |output|)
  {
    var line := LineOf(output, FirstComment(output, comments, end, start));
    var to := if line < end then start else line;
    if AllSpace(output[end..to]) then [Edit(Span(end, to), "\n\n")] else []
  }

  predicate AllGaps(gaps: seq<(nat, nat)>, limit: nat) {
    forall i :: 0 <= i < |gaps| ==> gaps[i].0 <= gaps[i].1 <= limit
  }

  function GapEditsOf(output: string, gaps: seq<(nat, nat)>, comments: seq<Span>): seq<Edit>
    requires AllGaps(gaps, |output|) && AllFit(comments, |output|)
  {
    if gaps == [] then []
    else
      var (end, start) := gaps[|gaps| - 1];
      GapEditsOf(output, gaps[..|gaps| - 1], comments) + GapEdit(output, comments, end, start)
  }

  method GapEdits(output: string, gaps: seq<(nat, nat)>, comments: seq<Span>) returns (edits: seq<Edit>)
    requires AllGaps(gaps, |output|) && AllFit(comments, |output|)
    ensures edits == GapEditsOf(output, gaps, comments)
  {
    hide AllSpace;
    edits := [];
    for i := 0 to |gaps|
      invariant edits == GapEditsOf(output, gaps[..i], comments)
    {
      var (end, start) := gaps[i];
      assert gaps[..i + 1][..i] == gaps[..i];
      var item := start;
      var j := 0;
      while j < |comments|
        invariant 0 <= j <= |comments| && item == start
        invariant FirstComment(output, comments, end, start) == FirstComment(output, comments[j..], end, start)
      {
        var c := comments[j];
        assert Fits(c, |output|) && comments[j..][0] == c && comments[j..][1..] == comments[j + 1..];
        if c.start >= end && c.end <= start && '\n' in output[end..c.start] {
          item := c.start;
          break;
        }
        j := j + 1;
      }
      assert item == FirstComment(output, comments, end, start);
      var line := LineOf(output, item);
      var to := if line < end then start else line;
      if AllSpace(output[end..to]) { edits := edits + [Edit(Span(end, to), "\n\n")]; }
    }
    assert gaps[..|gaps|] == gaps;
  }

  /** An edit that replaces white space after a gap's end by one blank line. */
  predicate Blanks(output: string, gaps: seq<(nat, nat)>, e: Edit) {
    && e.text == "\n\n" && Fits(e.span, |output|) && AllSpace(output[e.span.start..e.span.end])
    && exists i :: 0 <= i < |gaps| && gaps[i].0 == e.span.start && e.span.end <= gaps[i].1
  }

  /** Every gap edit replaces white space only. */
  lemma {:induction false} GapEditsBlank(output: string, gaps: seq<(nat, nat)>, comments: seq<Span>)
    requires AllGaps(gaps, |output|) && AllFit(comments, |output|)
    ensures forall e :: e in GapEditsOf(output, gaps, comments) ==> Blanks(output, gaps, e)
  {
    hide AllSpace;
    if gaps != [] {
      var before := gaps[..|gaps| - 1];
      GapEditsBlank(output, before, comments);
      forall e | e in GapEditsOf(output, gaps, comments) ensures Blanks(output, gaps, e) {
        if e in GapEditsOf(output, before, comments) {
          var i :| 0 <= i < |before| && before[i].0 == e.span.start && e.span.end <= before[i].1;
          assert gaps[i] == before[i];
        } else {
          assert gaps[|gaps| - 1].0 == e.span.start;
        }
      }
    }
  }

  /** The comment is in the gap, and not on the line the gap starts in. */
  predicate Qualifies(output: string, c: Span, end: nat, start: nat)
    requires end <= start <= |output|
  {
    end <= c.start <= c.end <= start && '\n' in output[end..c.start]
  }

  predicate FirstQualifies(output: string, comments: seq<Span>, end: nat, start: nat, i: nat)
    requires end <= start <= |output| && i < |comments|
  {
    Qualifies(output, comments[i], end, start) && forall j :: 0 <= j < i ==> !Qualifies(output, comments[j], end, start)
  }

  /** The first thing on a line of its own: the first comment that qualifies, or what comes after the gap. */
  ghost predicate IsItem(output: string, comments: seq<Span>, end: nat, start: nat, item: nat)
    requires end <= start <= |output|
  {
    || (exists i :: 0 <= i < |comments| && FirstQualifies(output, comments, end, start, i) && item == comments[i].start)
    || (item == start && forall j :: 0 <= j < |comments| ==> !Qualifies(output, comments[j], end, start))
  }

  predicate IsLineOf(output: string, line: nat, at: nat) {
    line <= at <= |output| && (line == 0 || output[line - 1] == '\n') && '\n' !in output[line..at]
  }

  /** What an edit blanks: the white space from the end of a function to the line of the item that follows, or, when
      that is on the same line, to the end of the gap. */
  ghost predicate BlanksGap(output: string, comments: seq<Span>, gap: (nat, nat), e: Edit)
    requires gap.0 <= gap.1 <= |output|
  {
    && e.text == "\n\n" && e.span.start == gap.0 <= e.span.end <= |output|
    && AllSpace(output[e.span.start..e.span.end])
    && exists item: nat, line: nat ::
         && IsItem(output, comments, gap.0, gap.1, item) && IsLineOf(output, line, item)
         && e.span.end == if line < gap.0 then gap.1 else line
  }

  lemma {:induction false} FirstCommentIsItem(output: string, comments: seq<Span>, end: nat, start: nat, item: nat)
    requires end <= start <= |output| && AllFit(comments, |output|)
    ensures IsItem(output, comments, end, start, item) <==> item == FirstComment(output, comments, end, start)
  {
    if comments != [] {
      var (c, rest) := (comments[0], comments[1..]);
      assert Fits(c, |output|);
      if !Qualifies(output, c, end, start) {
        FirstCommentIsItem(output, rest, end, start, item);
        ItemLater(output, comments, end, start, item);
      } else {
        assert FirstQualifies(output, comments, end, start, 0);
        assert IsItem(output, comments, end, start, c.start);
      }
    }
  }

  lemma ItemLater(output: string, comments: seq<Span>, end: nat, start: nat, item: nat)
    requires end <= start <= |output| && comments != [] && !Qualifies(output, comments[0], end, start)
    ensures IsItem(output, comments, end, start, item) <==> IsItem(output, comments[1..], end, start, item)
  {
    var rest := comments[1..];
    hide Qualifies;
    assert forall j :: 0 <= j < |rest| ==> rest[j] == comments[j + 1];
    if i :| 0 <= i < |comments| && FirstQualifies(output, comments, end, start, i) && item == comments[i].start {
      assert rest[i - 1] == comments[i] && FirstQualifies(output, rest, end, start, i - 1);
    }
    if i :| 0 <= i < |rest| && FirstQualifies(output, rest, end, start, i) && item == rest[i].start {
      forall j | 0 <= j < i + 1 ensures !Qualifies(output, comments[j], end, start) {
        if j > 0 { assert comments[j] == rest[j - 1]; }
      }
      assert comments[i + 1] == rest[i] && FirstQualifies(output, comments, end, start, i + 1);
    }
    if forall j :: 0 <= j < |rest| ==> !Qualifies(output, rest[j], end, start) {
      forall j | 0 <= j < |comments| ensures !Qualifies(output, comments[j], end, start) {
        if j > 0 { assert comments[j] == rest[j - 1]; }
      }
    }
  }

  lemma LineIsUnique(output: string, line: nat, at: nat)
    requires at <= |output|
    ensures IsLineOf(output, line, at) <==> line == LineOf(output, at)
  {
    var found := LineOf(output, at);
    assert forall p :: found <= p < at ==> output[found..at][p - found] == output[p];
    if IsLineOf(output, line, at) {
      assert forall p :: line <= p < at ==> output[line..at][p - line] == output[p];
    }
  }

  /** A gap is blanked by exactly the edit it calls for, or by none when something else is in the way. */
  lemma GapEditExactly(output: string, comments: seq<Span>, end: nat, start: nat, e: Edit)
    requires end <= start <= |output| && AllFit(comments, |output|)
    ensures e in GapEdit(output, comments, end, start) <==> BlanksGap(output, comments, (end, start), e)
  {
    hide AllSpace, IsItem, IsLineOf, AllFit;
    var item := FirstComment(output, comments, end, start);
    FirstCommentIsItem(output, comments, end, start, item);
    LineIsUnique(output, LineOf(output, item), item);
    assert IsItem(output, comments, end, start, item) && IsLineOf(output, LineOf(output, item), item);
    forall other: nat, line: nat | IsItem(output, comments, end, start, other) && IsLineOf(output, line, other)
      ensures other == item && line == LineOf(output, item)
    {
      FirstCommentIsItem(output, comments, end, start, other);
      LineIsUnique(output, line, other);
    }
  }

  /** The gaps are blanked by exactly the edits they call for. */
  lemma {:induction false} GapEditsExactly(output: string, gaps: seq<(nat, nat)>, comments: seq<Span>, e: Edit)
    requires AllGaps(gaps, |output|) && AllFit(comments, |output|)
    ensures e in GapEditsOf(output, gaps, comments) <==>
      exists i :: 0 <= i < |gaps| && BlanksGap(output, comments, gaps[i], e)
  {
    hide BlanksGap, GapEdit;
    if gaps != [] {
      var (before, last) := (gaps[..|gaps| - 1], |gaps| - 1);
      GapEditsExactly(output, before, comments, e);
      GapEditExactly(output, comments, gaps[last].0, gaps[last].1, e);
      if i :| 0 <= i < |before| && BlanksGap(output, comments, before[i], e) {
        assert BlanksGap(output, comments, gaps[i], e);
      }
      if i :| 0 <= i < |gaps| && BlanksGap(output, comments, gaps[i], e) {
        if i < last { assert before[i] == gaps[i]; }
      }
    }
  }

  // --- Applying the edits -------------------------------------------------------------------------------

  function EditStart(e: Edit): nat { e.span.start }

  function EditSpans(edits: seq<Edit>): seq<Span> {
    if edits == [] then [] else [edits[0].span] + EditSpans(edits[1..])
  }

  predicate Disjoint(edits: seq<Edit>, from: nat, limit: nat) { InOrder(EditSpans(edits), from, limit) }

  /** The text from a position on, with the edits made. */
  function Applied(output: string, edits: seq<Edit>, from: nat): string
    requires Disjoint(edits, from, |output|)
  {
    if edits == [] then output[from..]
    else
      EditStep(edits, from, |output|);
      output[from..edits[0].span.start] + edits[0].text + Applied(output, edits[1..], edits[0].span.end)
  }

  lemma EditStep(edits: seq<Edit>, from: nat, limit: nat)
    requires edits != []
    ensures Disjoint(edits, from, limit) <==>
      from <= edits[0].span.start <= edits[0].span.end <= limit && Disjoint(edits[1..], edits[0].span.end, limit)
  {
    assert EditSpans(edits)[1..] == EditSpans(edits[1..]);
  }

  lemma NoEdits(output: string, from: nat)
    requires from <= |output|
    ensures Disjoint([], from, |output|) && Applied(output, [], from) == output[from..]
  {
  }

  /** Makes the edits in order of their start, and fails exactly when two overlap. */
  method Apply(output: string, edits: seq<Edit>) returns (r: Result<string, string>)
    requires forall e :: e in edits ==> Fits(e.span, |output|)
    ensures r.Ok? <==> Disjoint(Sorted(edits, EditStart), 0, |output|)
    ensures r.Ok? ==> r.value == Applied(output, Sorted(edits, EditStart), 0)
  {
    hide Disjoint, Applied, Sorted, EditSpans;
    var sorted := Sorted(edits, EditStart);
    SortedHas(edits, EditStart);
    var laidOut := "";
    var cursor: nat := 0;
    var i := 0;
    assert sorted[0..] == sorted;
    assert Disjoint(sorted, 0, |output|) ==> "" + Applied(output, sorted, 0) == Applied(output, sorted, 0);
    while i < |sorted|
      invariant 0 <= i <= |sorted| && cursor <= |output|
      invariant Disjoint(sorted, 0, |output|) <==> Disjoint(sorted[i..], cursor, |output|)
      invariant Disjoint(sorted, 0, |output|) ==>
        Applied(output, sorted, 0) == laidOut + Applied(output, sorted[i..], cursor)
    {
      var e := sorted[i];
      assert e in edits;
      assert sorted[i..][0] == e && sorted[i..][1..] == sorted[i + 1..];
      EditStep(sorted[i..], cursor, |output|);
      if e.span.start < cursor { return Err("overlapping layout edits"); }
      if Disjoint(sorted[i..], cursor, |output|) { AppliedStep(output, sorted[i..], cursor, laidOut); }
      laidOut := laidOut + output[cursor..e.span.start];
      laidOut := laidOut + e.text;
      cursor := e.span.end;
      i := i + 1;
    }
    assert sorted[i..] == [];
    NoEdits(output, cursor);
    return Ok(laidOut + output[cursor..]);
  }

  lemma AppliedStep(output: string, edits: seq<Edit>, from: nat, done: string)
    requires edits != [] && Disjoint(edits, from, |output|)
    ensures var span := edits[0].span;
      && from <= span.start <= span.end <= |output| && Disjoint(edits[1..], span.end, |output|)
      && done + Applied(output, edits, from) ==
         done + output[from..span.start] + edits[0].text + Applied(output, edits[1..], span.end)
  {
    EditStep(edits, from, |output|);
  }

  // --- Where everything is afterwards ---------------------------------------------------------------------

  /** By how much the first `k` edits move what comes after them. */
  function Moved(edits: seq<Edit>, k: nat): int
    requires k <= |edits|
  {
    if k == 0 then 0
    else |edits[0].text| - (edits[0].span.end - edits[0].span.start) + Moved(edits[1..], k - 1)
  }

  lemma MovedFirst(edits: seq<Edit>, k: nat)
    requires 0 < k <= |edits|
    ensures Moved(edits, k) ==
      |edits[0].text| - (edits[0].span.end - edits[0].span.start) + Moved(edits[1..], k - 1)
  {
  }

  lemma NothingMoved(edits: seq<Edit>)
    ensures Moved(edits, 0) == 0
  {
  }

  lemma {:induction false} AppliedLength(output: string, edits: seq<Edit>, from: nat)
    requires from <= |output| && Disjoint(edits, from, |output|)
    ensures |Applied(output, edits, from)| == |output| - from + Moved(edits, |edits|)
    decreases |edits|
  {
    hide Disjoint, Applied;
    if edits == [] {
      NoEdits(output, from);
    } else {
      AppliedStep(output, edits, from, "");
      assert "" + Applied(output, edits, from) == Applied(output, edits, from);
      AppliedLength(output, edits[1..], edits[0].span.end);
    }
  }

  /** The new text of an edit stands where the edits before it have moved its place. */
  lemma {:induction false} AppliedWrites(output: string, edits: seq<Edit>, from: nat, k: nat)
    requires from <= |output| && Disjoint(edits, from, |output|) && k < |edits|
    ensures var (result, at) := (Applied(output, edits, from), edits[k].span.start - from + Moved(edits, k));
      0 <= at <= at + |edits[k].text| <= |result| && result[at..at + |edits[k].text|] == edits[k].text
    decreases |edits|
  {
    hide Disjoint, Applied;
    AppliedStep(output, edits, from, "");
    var (span, result) := (edits[0].span, Applied(output, edits, from));
    var (head, rest) := (output[from..span.start] + edits[0].text, Applied(output, edits[1..], span.end));
    assert "" + result == result;
    assert result == head + rest;
    if k > 0 {
      AppliedWrites(output, edits[1..], span.end, k - 1);
      var at := edits[k].span.start - from + Moved(edits, k);
      var there := edits[k].span.start - span.end + Moved(edits[1..], k - 1);
      assert at == there + |head|;
      assert result[at..at + |edits[k].text|] == rest[there..there + |edits[k].text|];
    }
  }

  lemma AppliedHead(output: string, edits: seq<Edit>, from: nat)
    requires edits != [] && Disjoint(edits, from, |output|)
    ensures var span := edits[0].span;
      && from <= span.start <= span.end <= |output| && Disjoint(edits[1..], span.end, |output|)
      && Applied(output, edits, from) ==
         output[from..span.start] + edits[0].text + Applied(output, edits[1..], span.end)
  {
    EditStep(edits, from, |output|);
  }

  lemma Shifted(head: string, rest: string, j: nat)
    requires j < |rest|
    ensures j + |head| < |head + rest| && (head + rest)[j + |head|] == rest[j]
  {
  }

  lemma BeforeTheFirst(output: string, from: nat, start: nat, later: string, i: nat)
    requires from <= i < start <= |output|
    ensures i - from < |output[from..start] + later| && (output[from..start] + later)[i - from] == output[i]
  {
  }

  /** A character that no edit replaces stands where the edits before it have moved its place. */
  lemma {:induction false} AppliedKeeps(output: string, edits: seq<Edit>, from: nat, k: nat, i: nat)
    requires from <= i < |output| && Disjoint(edits, from, |output|) && k <= |edits|
    requires (k > 0 ==> edits[k - 1].span.end <= i) && (k < |edits| ==> i < edits[k].span.start)
    ensures var (result, at) := (Applied(output, edits, from), i - from + Moved(edits, k));
      0 <= at < |result| && result[at] == output[i]
    decreases |edits|
  {
    hide Disjoint, Applied, Moved;
    NothingMoved(edits);
    if edits == [] {
      NoEdits(output, from);
    } else {
      AppliedHead(output, edits, from);
      var span := edits[0].span;
      var (head, rest) := (output[from..span.start] + edits[0].text, Applied(output, edits[1..], span.end));
      if k == 0 {
        BeforeTheFirst(output, from, span.start, edits[0].text + rest, i);
        assert output[from..span.start] + (edits[0].text + rest) == head + rest;
      } else {
        EditsAscend(edits[1..], span.end, |output|, k - 1);
        AppliedKeeps(output, edits[1..], span.end, k - 1, i);
        MovedFirst(edits, k);
        Shifted(head, rest, i - span.end + Moved(edits[1..], k - 1));
      }
    }
  }

  lemma {:induction false} EditsAscend(edits: seq<Edit>, from: nat, limit: nat, k: nat)
    requires Disjoint(edits, from, limit) && k <= |edits|
    ensures k > 0 ==> from <= edits[k - 1].span.end
  {
    hide Disjoint;
    if k > 0 {
      EditStep(edits, from, limit);
      EditsAscend(edits[1..], edits[0].span.end, limit, k - 1);
    }
  }

  // --- What the edits leave alone -----------------------------------------------------------------------

  function NonSpace(s: string): string {
    if s == "" then "" else (if S.Space(s[0]) then "" else [s[0]]) + NonSpace(s[1..])
  }

  lemma {:induction false} NonSpaceOfTwo(a: string, b: string)
    ensures NonSpace(a + b) == NonSpace(a) + NonSpace(b)
  {
    hide S.Space, NonSpace;
    if a == "" {
      assert a + b == b;
      NonSpaceOfNone(b);
    } else {
      var first := if S.Space(a[0]) then "" else [a[0]];
      NonSpaceOfTwo(a[1..], b);
      NonSpaceStep(a);
      NonSpaceStep(a + b);
      assert (a + b)[1..] == a[1..] + b && (a + b)[0] == a[0];
      assert first + (NonSpace(a[1..]) + NonSpace(b)) == first + NonSpace(a[1..]) + NonSpace(b);
    }
  }

  lemma NonSpaceOfNone(b: string)
    ensures NonSpace("") + NonSpace(b) == NonSpace(b)
  {
  }

  lemma NonSpaceStep(s: string)
    requires s != ""
    ensures NonSpace(s) == (if S.Space(s[0]) then "" else [s[0]]) + NonSpace(s[1..])
  {
    hide S.Space;
  }

  lemma {:induction false} NoNonSpace(s: string)
    requires AllSpace(s)
    ensures NonSpace(s) == ""
  {
    if s != "" { NoNonSpace(s[1..]); }
  }

  /** White space for white space. */
  predicate Harmless(output: string, e: Edit) {
    Fits(e.span, |output|) && AllSpace(output[e.span.start..e.span.end]) && AllSpace(e.text)
  }

  /** Harmless edits keep every character that is not white space, in order. */
  lemma {:induction false} EditsKeepNonSpace(output: string, edits: seq<Edit>, from: nat)
    requires from <= |output| && Disjoint(edits, from, |output|)
    requires forall i :: 0 <= i < |edits| ==> Harmless(output, edits[i])
    ensures NonSpace(Applied(output, edits, from)) == NonSpace(output[from..])
    decreases |edits|
  {
    hide Disjoint, NonSpace, AllSpace;
    if edits == [] {
      NoEdits(output, from);
    } else {
      AppliedStep(output, edits, from, "");
      var span := edits[0].span;
      EditsKeepNonSpace(output, edits[1..], span.end);
      var (kept, gone, rest) := (output[from..span.start], output[span.start..span.end], output[span.end..]);
      assert output[from..] == kept + gone + rest;
      NonSpaceOfTwo(kept + gone, rest);
      NonSpaceOfTwo(kept, gone);
      NonSpaceOfTwo(kept + edits[0].text, Applied(output, edits[1..], span.end));
      NonSpaceOfTwo(kept, edits[0].text);
      NoNonSpace(gone);
      NoNonSpace(edits[0].text);
    }
  }

  predicate Clear(tokens: seq<Token>, edits: seq<Edit>) {
    forall i, j :: 0 <= i < |tokens| && 0 <= j < |edits| ==> Apart(tokens[i].span, edits[j].span)
  }

  lemma AppliedStarts(output: string, edits: seq<Edit>, at: nat, p: nat)
    requires Disjoint(edits, at, |output|) && at <= p <= |output| && (edits != [] ==> p <= edits[0].span.start)
    ensures |Applied(output, edits, at)| >= p - at && Applied(output, edits, at)[..p - at] == output[at..p]
  {
    if edits == [] {
      NoEdits(output, at);
    } else {
      AppliedStep(output, edits, at, "");
    }
  }

  lemma SliceKept(output: string, rest: string, at: nat, span: Span, done: string)
    requires at <= span.start <= span.end <= |output| && |rest| >= span.end - at
    requires rest[..span.end - at] == output[at..span.end]
    ensures (done + rest)[|done| + (span.start - at)..|done| + (span.end - at)] == output[span.start..span.end]
  {
    forall k | span.start <= k < span.end ensures (done + rest)[|done| + (k - at)] == output[k] {
      assert rest[..span.end - at][k - at] == output[at..span.end][k - at];
    }
  }

  lemma LaterTokens(tokens: seq<Token>, text: string, from: nat, to: nat)
    requires StandIn(tokens, text, from) && to <= |text| && (tokens != [] ==> to <= tokens[0].span.start)
    ensures StandIn(tokens, text, to)
  {
  }

  lemma StandFirst(t: Token, rest: seq<Token>, text: string, from: nat)
    requires from <= t.span.start <= t.span.end <= |text| && text[t.span.start..t.span.end] == t.text
    requires StandIn(rest, text, t.span.end)
    ensures StandIn([t] + rest, text, from)
  {
    assert ([t] + rest)[1..] == rest;
  }

  /** Tokens and comments that the edits stay clear of stand in the result, in order and unchanged. `done` is what
      the text before `at` has become. */
  lemma {:induction false} EditsKeepTokens(tokens: seq<Token>, output: string, edits: seq<Edit>, from: nat, at: nat,
      done: string)
      returns (moved: seq<Token>)
    requires StandIn(tokens, output, from) && at <= from && Disjoint(edits, at, |output|) && Clear(tokens, edits)
    requires edits != [] ==> from <= edits[0].span.start || at == from
    ensures SameAll(tokens, moved)
    ensures StandIn(moved, done + Applied(output, edits, at), |done| + (from - at))
    decreases |tokens| + |edits|
  {
    hide StandIn, Disjoint, Applied;
    var result := done + Applied(output, edits, at);
    if edits != [] && (tokens == [] || edits[0].span.end <= tokens[0].span.start) {
      AppliedStep(output, edits, at, done);
      var span := edits[0].span;
      var before := done + output[at..span.start] + edits[0].text;
      LaterTokens(tokens, output, from, span.end);
      moved := EditsKeepTokens(tokens, output, edits[1..], span.end, span.end, before);
      StandLower(moved, result, |before|, |done| + (from - at));
    } else if tokens != [] {
      StandStep(tokens, output, from);
      var (t, span) := (tokens[0], tokens[0].span);
      assert edits != [] ==> Apart(t.span, edits[0].span);
      AppliedStarts(output, edits, at, span.end);
      SliceKept(output, Applied(output, edits, at), at, span, done);
      var rest := EditsKeepTokens(tokens[1..], output, edits, span.end, at, done);
      var first := t.(span := Span(|done| + (span.start - at), |done| + (span.end - at)));
      moved := [first] + rest;
      StandFirst(first, rest, result, |done| + (from - at));
    } else {
      NoneLeft(output, from, at, done);
      moved := [];
    }
  }

  lemma NoneLeft(output: string, from: nat, at: nat, done: string)
    requires StandIn([], output, from) && at <= from
    ensures Disjoint([], at, |output|) && StandIn([], done + Applied(output, [], at), |done| + (from - at))
  {
  }

  // --- The whole pass ---------------------------------------------------------------------------------

  /** White space that does not start inside a token is clear of it. */
  lemma SpaceIsApart(output: string, span: Span, e: Edit)
    requires Solid(output, span) && Harmless(output, e) && !(span.start < e.span.start < span.end)
    ensures Apart(span, e.span)
  {
    var replaced := output[e.span.start..e.span.end];
    forall k | e.span.start <= k < e.span.end ensures S.Space(output[k]) {
      assert replaced[k - e.span.start] == output[k];
    }
  }

  lemma IndentIsHarmless(output: string, protected: seq<Span>, e: Edit)
    requires Indents(output, protected, e)
    ensures Harmless(output, e) && !Crossed(protected, e.span.start)
    ensures Width(e.text) == Width(output[e.span.start..e.span.end])
  {
    var n := Leading(output[e.span.start..]);
    IndentKeepsWidth(n);
    assert output[e.span.start..e.span.end] == output[e.span.start..][..n];
    assert output[e.span.start..e.span.end] == Run(' ', n);
  }

  lemma BlankIsHarmless(output: string, gaps: seq<(nat, nat)>, e: Edit)
    requires Blanks(output, gaps, e)
    ensures Harmless(output, e)
  {
  }

  /** All edits of a layout pass. */
  function LayoutEdits(output: string, protected: seq<Span>, comments: seq<Span>, gaps: seq<(nat, nat)>): seq<Edit>
    requires AllGaps(gaps, |output|) && AllFit(comments, |output|)
  {
    GapEditsOf(output, gaps, comments) + IndentsFrom(output, protected, 0)
  }

  lemma EditsAreFine(output: string, protected: seq<Span>, comments: seq<Span>, gaps: seq<(nat, nat)>, e: Edit)
    requires AllGaps(gaps, |output|) && AllFit(comments, |output|) && InOrder(protected, 0, |output|)
    requires forall i :: 0 <= i < |gaps| ==> !Crossed(protected, gaps[i].0)
    requires e in LayoutEdits(output, protected, comments, gaps)
    ensures Fine(output, protected, e)
  {
    hide Crossed, Harmless, Indents, Blanks;
    if e in GapEditsOf(output, gaps, comments) {
      GapEditsBlank(output, gaps, comments);
      BlankIsFine(output, gaps, protected, e);
    } else {
      IndentsExactly(output, protected, 0, e);
      IndentIsHarmless(output, protected, e);
    }
  }

  /** Rewrites the gaps and the indentation. It succeeds exactly when no two edits overlap, and then every token and
      comment stands in the result, in order and unchanged, and nothing but white space was exchanged. `protected`
      are the tokens and comments together, by start; no gap starts inside one. */
  method LayOut(output: string, protected: seq<Token>, comments: seq<Span>, gaps: seq<(nat, nat)>)
    returns (r: Result<string, string>)
    requires StandIn(protected, output, 0) && InOrder(SpansOf(protected), 0, |output|)
    requires forall i :: 0 <= i < |protected| ==> Solid(output, protected[i].span)
    requires AllFit(comments, |output|) && AllGaps(gaps, |output|)
    requires forall i :: 0 <= i < |gaps| ==> !Crossed(SpansOf(protected), gaps[i].0)
    ensures var edits := Sorted(LayoutEdits(output, SpansOf(protected), comments, gaps), EditStart);
      && (r.Ok? <==> Disjoint(edits, 0, |output|))
      && (r.Ok? ==> r.value == Applied(output, edits, 0))
    ensures r.Ok? ==> NonSpace(r.value) == NonSpace(output)
    ensures r.Ok? ==> exists moved :: SameAll(protected, moved) && StandIn(moved, r.value, 0)
  {
    hide StandIn, InOrder, NonSpace, Applied, Disjoint, Sorted, SameAll, Harmless, GapEditsOf, IndentsFrom, Crossed;
    hide AllGaps, AllFit, Solid;
    var spans := SpansOf(protected);
    var blanks := GapEdits(output, gaps, comments);
    var indents := IndentationEdits(output, spans);
    var edits := blanks + indents;
    forall e | e in edits ensures Fine(output, spans, e) { EditsAreFine(output, spans, comments, gaps, e); }
    ghost var sorted := Sorted(edits, EditStart);
    SortedHas(edits, EditStart);
    AllFine(output, protected, sorted);
    r := Apply(output, edits);
    if r.Ok? {
      EditsKeepNonSpace(output, sorted, 0);
      assert output[0..] == output;
      ghost var moved := EditsKeepTokens(protected, output, sorted, 0, 0, "");
      assert "" + Applied(output, sorted, 0) == Applied(output, sorted, 0);
      assert SameAll(protected, moved) && StandIn(moved, r.value, 0);
    }
  }

  predicate Fine(output: string, spans: seq<Span>, e: Edit) {
    Fits(e.span, |output|) && Harmless(output, e) && !Crossed(spans, e.span.start)
  }

  lemma BlankIsFine(output: string, gaps: seq<(nat, nat)>, spans: seq<Span>, e: Edit)
    requires Blanks(output, gaps, e) && forall i :: 0 <= i < |gaps| ==> !Crossed(spans, gaps[i].0)
    ensures Fine(output, spans, e)
  {
    hide Crossed;
    BlankIsHarmless(output, gaps, e);
  }

  lemma AllFine(output: string, protected: seq<Token>, edits: seq<Edit>)
    requires forall e :: e in edits ==> Fine(output, SpansOf(protected), e)
    requires forall i :: 0 <= i < |protected| ==> Solid(output, protected[i].span)
    ensures Clear(protected, edits) && forall i :: 0 <= i < |edits| ==> Harmless(output, edits[i])
  {
    hide Solid, Harmless;
    forall i | 0 <= i < |edits| ensures Fine(output, SpansOf(protected), edits[i]) {
      assert edits[i] in edits;
    }
    forall i, j | 0 <= i < |protected| && 0 <= j < |edits| ensures Apart(protected[i].span, edits[j].span) {
      var (span, e) := (protected[i].span, edits[j]);
      assert SpansOf(protected)[i] == span;
      SpaceIsApart(output, span, e);
    }
  }
}
