/**
 The layout pass put together (`src/source_fmt.rs`, `once`): the ranges that must not change are the tokens and the
 comments found between them, and the pass succeeds or fails by what stands in the gaps between functions.
 */
module LayoutPass {
  import opened Wrappers
  import opened TokenFidelity
  import opened Sorting
  import opened Layout
  import S = SourceMaps

  // --- Ranges in order -----------------------------------------------------------------------------

  lemma {:induction false} InOrderPairs(spans: seq<Span>, from: nat, limit: nat)
    requires InOrder(spans, from, limit)
    ensures forall i, j :: 0 <= i < j < |spans| ==> spans[i].end <= spans[j].start
  {
    if spans != [] {
      var rest := spans[1..];
      InOrderPairs(rest, spans[0].end, limit);
      EndsBefore(rest, spans[0].end, limit);
      assert forall j :: 0 < j < |spans| ==> spans[j] == rest[j - 1];
    }
  }

  /** Ranges with ascending starts are in order exactly when each ends before the next starts. */
  lemma {:induction false} InOrderExactly(spans: seq<Span>, from: nat, limit: nat)
    requires AllFit(spans, limit) && from <= limit && (spans != [] ==> from <= spans[0].start)
    requires forall i, j :: 0 <= i < j < |spans| ==> spans[i].start < spans[j].start
    ensures InOrder(spans, from, limit) <==> forall i, j :: 0 <= i < j < |spans| ==> spans[i].end <= spans[j].start
  {
    if InOrder(spans, from, limit) { InOrderPairs(spans, from, limit); }
    if forall i, j :: 0 <= i < j < |spans| ==> spans[i].end <= spans[j].start {
      if spans != [] {
        var rest := spans[1..];
        assert Fits(spans[0], limit) && AllFit(rest, limit);
        InOrderExactly(rest, spans[0].end, limit);
      }
    }
  }

  // --- What is protected ------------------------------------------------------------------------------

  /** The kind given to a comment among the protected ranges; nothing reads it. */
  const REMARK: nat := 1

  function Remarks(output: string, comments: seq<Span>): seq<Token>
    requires AllFit(comments, |output|)
  {
    if comments == [] then []
    else
      assert Fits(comments[0], |output|);
      [Token(REMARK, output[comments[0].start..comments[0].end], comments[0])] + Remarks(output, comments[1..])
  }

  function TokenStart(t: Token): nat { t.span.start }

  /** Tokens and comments together, by where they start. */
  function Protected(output: string, tokens: seq<Token>, comments: seq<Span>): seq<Token>
    requires AllFit(comments, |output|)
  {
    Sorted(tokens + Remarks(output, comments), TokenStart)
  }

  /** A token has the text at its place, which starts with something other than white space. */
  predicate Placed(output: string, t: Token) {
    Solid(output, t.span) && t.text == output[t.span.start..t.span.end]
  }

  predicate AllPlaced(output: string, tokens: seq<Token>) {
    forall i :: 0 <= i < |tokens| ==> Placed(output, tokens[i])
  }

  /** Of any two, the one that starts first ends before the other starts, and no two start together. */
  ghost predicate Separate(tokens: seq<Token>) {
    && AllDiffer(tokens, TokenStart)
    && forall x, y :: x in tokens && y in tokens && x.span.start < y.span.start ==> x.span.end <= y.span.start
  }

  lemma {:induction false} RemarksAre(output: string, comments: seq<Span>)
    requires AllFit(comments, |output|)
    ensures |Remarks(output, comments)| == |comments| && SpansOf(Remarks(output, comments)) == comments
    ensures AllSolid(output, comments) ==> AllPlaced(output, Remarks(output, comments))
  {
    if comments != [] {
      assert Fits(comments[0], |output|);
      RemarksAre(output, comments[1..]);
      var (all, rest) := (Remarks(output, comments), Remarks(output, comments[1..]));
      assert all[1..] == rest;
      forall i | 0 <= i < |all| ensures SpansOf(all)[i] == comments[i] {
        if i > 0 { assert all[i] == rest[i - 1] && SpansOf(rest)[i - 1] == comments[1..][i - 1]; }
      }
      if AllSolid(output, comments) {
        assert AllSolid(output, comments[1..]);
        forall i | 0 <= i < |all| ensures Placed(output, all[i]) {
          if i > 0 { assert Placed(output, rest[i - 1]); }
        }
      }
    }
  }

  lemma OnePairApart(output: string, tokens: seq<Token>, remarks: seq<Token>, i: nat, j: nat)
    requires InOrder(SpansOf(tokens), 0, |output|) && InOrder(SpansOf(remarks), 0, |output|)
    requires AllApart(SpansOf(tokens), SpansOf(remarks)) && i < j < |tokens| + |remarks|
    ensures Apart((tokens + remarks)[i].span, (tokens + remarks)[j].span)
  {
    hide InOrder;
    if j < |tokens| {
      InOrderPairs(SpansOf(tokens), 0, |output|);
      assert SpansOf(tokens)[i].end <= SpansOf(tokens)[j].start;
    } else if i >= |tokens| {
      InOrderPairs(SpansOf(remarks), 0, |output|);
      assert SpansOf(remarks)[i - |tokens|].end <= SpansOf(remarks)[j - |tokens|].start;
    } else {
      assert Apart(SpansOf(tokens)[i], SpansOf(remarks)[j - |tokens|]);
    }
  }

  /** Solid tokens that are pairwise apart are separate. */
  lemma ApartIsSeparate(all: seq<Token>)
    requires forall i :: 0 <= i < |all| ==> all[i].span.start < all[i].span.end
    requires forall i, j :: 0 <= i < j < |all| ==> Apart(all[i].span, all[j].span)
    ensures Separate(all)
  {
    forall i, j | 0 <= i < j < |all| ensures TokenStart(all[i]) != TokenStart(all[j]) {
      assert Apart(all[i].span, all[j].span);
    }
    forall x, y | x in all && y in all && x.span.start < y.span.start ensures x.span.end <= y.span.start {
      var i :| 0 <= i < |all| && all[i] == x;
      var j :| 0 <= j < |all| && all[j] == y;
      assert i < j ==> Apart(all[i].span, all[j].span);
      assert j < i ==> Apart(all[j].span, all[i].span);
    }
  }

  lemma TogetherSeparate(output: string, tokens: seq<Token>, remarks: seq<Token>)
    requires AllPlaced(output, tokens) && AllPlaced(output, remarks)
    requires InOrder(SpansOf(tokens), 0, |output|) && InOrder(SpansOf(remarks), 0, |output|)
    requires AllApart(SpansOf(tokens), SpansOf(remarks))
    ensures Separate(tokens + remarks) && AllPlaced(output, tokens + remarks)
  {
    hide InOrder, S.Space, Separate, AllApart, Apart;
    var all := tokens + remarks;
    forall i | 0 <= i < |all| ensures Placed(output, all[i]) {
      assert i < |tokens| ==> Placed(output, tokens[i]);
      assert i >= |tokens| ==> Placed(output, remarks[i - |tokens|]);
    }
    forall i, j | 0 <= i < j < |all| ensures Apart(all[i].span, all[j].span) {
      OnePairApart(output, tokens, remarks, i, j);
    }
    ApartIsSeparate(all);
  }

  lemma SortedStands(output: string, all: seq<Token>)
    requires Separate(all) && AllPlaced(output, all)
    ensures var sorted := Sorted(all, TokenStart);
      && InOrder(SpansOf(sorted), 0, |output|) && AllPlaced(output, sorted) && StandIn(sorted, output, 0)
      && forall t :: t in sorted <==> t in all
  {
    hide InOrder, StandIn, Sorted, S.Space;
    var sorted := Sorted(all, TokenStart);
    SortedHas(all, TokenStart);
    SortedSorts(all, TokenStart);
    SortedDiffers(all, TokenStart);
    var spans := SpansOf(sorted);
    forall i | 0 <= i < |sorted| ensures Placed(output, sorted[i]) && spans[i] == sorted[i].span {
      assert sorted[i] in all;
      var k :| 0 <= k < |all| && all[k] == sorted[i];
      assert Placed(output, all[k]);
    }
    forall i, j | 0 <= i < j < |spans| ensures spans[i].start < spans[j].start && spans[i].end <= spans[j].start {
      assert TokenStart(sorted[i]) <= TokenStart(sorted[j]) && TokenStart(sorted[i]) != TokenStart(sorted[j]);
      assert sorted[i] in all && sorted[j] in all;
    }
    InOrderExactly(spans, 0, |output|);
    PlacedStand(output, sorted, 0);
  }

  lemma {:induction false} PlacedStand(output: string, tokens: seq<Token>, from: nat)
    requires AllPlaced(output, tokens) && InOrder(SpansOf(tokens), from, |output|)
    ensures StandIn(tokens, output, from)
  {
    if tokens != [] {
      var rest := tokens[1..];
      assert Placed(output, tokens[0]) && SpansOf(tokens)[0] == tokens[0].span;
      assert SpansOf(tokens)[1..] == SpansOf(rest);
      assert forall i :: 0 <= i < |rest| ==> rest[i] == tokens[i + 1];
      PlacedStand(output, rest, tokens[0].span.end);
    }
  }

  // --- Gaps -----------------------------------------------------------------------------------------------

  /** A gap starts where a token ends, and that token does not end in white space. */
  ghost predicate EndsToken(output: string, tokens: seq<Token>, at: nat) {
    exists i :: 0 <= i < |tokens| && tokens[i].span.end == at && 0 < at <= |output| && !S.Space(output[at - 1])
  }

  /** Gaps start at the ends of functions, and between any two there is a function. */
  ghost predicate FunctionGaps(output: string, tokens: seq<Token>, gaps: seq<(nat, nat)>) {
    && AllGaps(gaps, |output|)
    && (forall i :: 0 <= i < |gaps| ==> EndsToken(output, tokens, gaps[i].0))
    && (forall i, j :: 0 <= i < j < |gaps| ==> gaps[i].1 < gaps[j].0 || gaps[j].1 < gaps[i].0)
  }

  /** No range starts before the end of a token and ends after it. */
  lemma TokenEndIsClear(output: string, all: seq<Token>, at: nat)
    requires Separate(all) && AllPlaced(output, all) && EndsToken(output, all, at)
    ensures forall t :: t in all ==> !(t.span.start < at < t.span.end)
  {
    var i :| 0 <= i < |all| && all[i].span.end == at && 0 < at <= |output| && !S.Space(output[at - 1]);
    assert Placed(output, all[i]) && all[i] in all;
    forall t | t in all ensures !(t.span.start < at < t.span.end) {
      var k :| 0 <= k < |all| && all[k] == t;
      assert k < i ==> TokenStart(all[k]) != TokenStart(all[i]);
      assert i < k ==> TokenStart(all[i]) != TokenStart(all[k]);
    }
  }

  /** A gap that will be blanked has a line in it with indentation of its own. */
  ghost predicate Tangled(output: string, comments: seq<Span>, gaps: seq<(nat, nat)>)
    requires AllGaps(gaps, |output|) && AllFit(comments, |output|)
  {
    exists g, at: nat ::
      g in GapEditsOf(output, gaps, comments) && g.span.start < at < g.span.end && Indented(output, at)
  }

  predicate Indented(output: string, at: nat) { LineStart(output, at) && Leading(output[at..]) >= 4 }

  lemma LeadingStops(output: string, at: nat, p: nat)
    requires at <= p < |output| && output[p] != ' '
    ensures at + Leading(output[at..]) <= p
  {
    var s := output[at..];
    assert s[p - at] == output[p];
  }

  /** In the white space of a gap no line starts inside a token or comment. */
  lemma NotCrossedInAGap(output: string, protected: seq<Span>, g: Edit, at: nat)
    requires AllSolid(output, protected) && Harmless(output, g) && g.span.start < at < g.span.end
    requires !Crossed(protected, g.span.start)
    ensures !Crossed(protected, at)
  {
    hide S.Space;
    var gone := output[g.span.start..g.span.end];
    forall k | g.span.start <= k < g.span.end ensures S.Space(output[k]) { assert gone[k - g.span.start] == output[k]; }
    forall i | 0 <= i < |protected| ensures !(protected[i].start < at < protected[i].end) {
      assert Solid(output, protected[i]);
      assert !(protected[i].start < g.span.start < protected[i].end);
    }
  }

  // --- When two edits overlap --------------------------------------------------------------------------------

  /** An edit of the earlier gaps does not start at the last one. */
  lemma StartsElsewhere(output: string, tokens: seq<Token>, gaps: seq<(nat, nat)>, comments: seq<Span>, e: Edit)
    requires gaps != [] && FunctionGaps(output, tokens, gaps) && AllFit(comments, |output|)
    requires AllGaps(gaps[..|gaps| - 1], |output|) && e in GapEditsOf(output, gaps[..|gaps| - 1], comments)
    ensures EditStart(e) != gaps[|gaps| - 1].0
  {
    hide GapEditsOf, AllSpace, EndsToken;
    var before := gaps[..|gaps| - 1];
    GapEditsBlank(output, before, comments);
    assert Blanks(output, before, e);
    var i :| 0 <= i < |before| && before[i].0 == e.span.start && e.span.end <= before[i].1;
    assert gaps[i] == before[i];
  }

  lemma AppendDiffers(edits: seq<Edit>, more: seq<Edit>, at: nat)
    requires AllDiffer(edits, EditStart) && |more| <= 1 && (more != [] ==> EditStart(more[0]) == at)
    requires forall i :: 0 <= i < |edits| ==> EditStart(edits[i]) != at
    ensures AllDiffer(edits + more, EditStart)
  {
  }

  /** The edits of the gaps start at the gaps, each once. */
  lemma {:induction false} GapEditsDiffer(output: string, tokens: seq<Token>, gaps: seq<(nat, nat)>,
      comments: seq<Span>)
    requires FunctionGaps(output, tokens, gaps) && AllFit(comments, |output|)
    ensures AllDiffer(GapEditsOf(output, gaps, comments), EditStart)
  {
    hide GapEdit, EndsToken, AllDiffer, EditStart;
    if gaps == [] {
      NothingDiffers();
    } else {
      var (before, last) := (gaps[..|gaps| - 1], gaps[|gaps| - 1]);
      assert FunctionGaps(output, tokens, before);
      GapEditsDiffer(output, tokens, before, comments);
      var some := GapEditsOf(output, before, comments);
      forall i | 0 <= i < |some| ensures EditStart(some[i]) != last.0 {
        StartsElsewhere(output, tokens, gaps, comments, some[i]);
      }
      GapEditStarts(output, comments, last.0, last.1);
      AppendDiffers(some, GapEdit(output, comments, last.0, last.1), last.0);
    }
  }

  lemma NothingDiffers()
    ensures AllDiffer([], EditStart)
  {
  }

  lemma GapEditStarts(output: string, comments: seq<Span>, end: nat, start: nat)
    requires end <= start <= |output| && AllFit(comments, |output|)
    ensures var e := GapEdit(output, comments, end, start); |e| <= 1 && (e != [] ==> EditStart(e[0]) == end)
  {
    hide AllSpace;
  }

  lemma PrependDiffers(more: seq<Edit>, edits: seq<Edit>, at: nat)
    requires AllDiffer(edits, EditStart) && |more| <= 1 && (more != [] ==> EditStart(more[0]) == at)
    requires forall i :: 0 <= i < |edits| ==> EditStart(edits[i]) != at
    ensures AllDiffer(more + edits, EditStart)
  {
  }

  lemma LineEditStarts(output: string, protected: seq<Span>, offset: nat)
    requires offset < |output|
    ensures var e := LineEdit(output, protected, offset); |e| <= 1 && (e != [] ==> EditStart(e[0]) == offset)
  {
  }

  lemma {:induction false} IndentsDiffer(output: string, protected: seq<Span>, offset: nat)
    requires InOrder(protected, 0, |output|) && offset <= |output| && (offset < |output| ==> LineStart(output, offset))
    ensures AllDiffer(IndentsFrom(output, protected, offset), EditStart)
    decreases |output| - offset
  {
    hide InOrder, LineEdit, LineLength, AllDiffer;
    if offset == |output| {
      NothingDiffers();
    } else {
      var next := offset + LineLength(output, offset);
      var rest := IndentsFrom(output, protected, next);
      IndentsDiffer(output, protected, next);
      forall i | 0 <= i < |rest| ensures EditStart(rest[i]) != offset {
        IndentsExactly(output, protected, next, rest[i]);
        assert EditStart(rest[i]) == rest[i].span.start;
      }
      LineEditStarts(output, protected, offset);
      PrependDiffers(LineEdit(output, protected, offset), rest, offset);
    }
  }

  /** A line never starts where a token has just ended. */
  lemma GapIsNoLineStart(output: string, tokens: seq<Token>, at: nat)
    requires EndsToken(output, tokens, at)
    ensures !LineStart(output, at)
  {
  }

  lemma LayoutEditsDiffer(output: string, tokens: seq<Token>, protected: seq<Span>, comments: seq<Span>,
      gaps: seq<(nat, nat)>)
    requires FunctionGaps(output, tokens, gaps) && AllFit(comments, |output|) && InOrder(protected, 0, |output|)
    ensures AllDiffer(LayoutEdits(output, protected, comments, gaps), EditStart)
  {
    hide InOrder, IndentsFrom, GapEditsOf, EndsToken, LineStart, Leading, Indent, Crossed, AllSpace;
    var (blanks, indents) := (GapEditsOf(output, gaps, comments), IndentsFrom(output, protected, 0));
    GapEditsDiffer(output, tokens, gaps, comments);
    StartsALine(output);
    IndentsDiffer(output, protected, 0);
    GapEditsBlank(output, gaps, comments);
    forall i, j | 0 <= i < |blanks| && 0 <= j < |indents| ensures EditStart(blanks[i]) != EditStart(indents[j]) {
      assert blanks[i] in blanks && indents[j] in indents;
      assert Blanks(output, gaps, blanks[i]);
      var k :| 0 <= k < |gaps| && gaps[k].0 == blanks[i].span.start && blanks[i].span.end <= gaps[k].1;
      GapIsNoLineStart(output, tokens, gaps[k].0);
      IndentsExactly(output, protected, 0, indents[j]);
    }
  }

  lemma StartsALine(output: string)
    ensures 0 < |output| ==> LineStart(output, 0)
  {
  }

  /** Two edits clash when the one that starts first ends after the other starts. */
  predicate Clash(e: Edit, f: Edit) { e.span.start < f.span.start < e.span.end }

  /** The sorted edits are disjoint exactly when no two clash. */
  lemma DisjointExactly(output: string, edits: seq<Edit>)
    requires AllDiffer(edits, EditStart) && forall e :: e in edits ==> Fits(e.span, |output|)
    ensures Disjoint(Sorted(edits, EditStart), 0, |output|) <==>
      forall e, f :: e in edits && f in edits ==> !Clash(e, f)
  {
    hide InOrder, Sorted;
    var sorted := Sorted(edits, EditStart);
    var spans := EditSpans(sorted);
    SortedHas(edits, EditStart);
    SortedSorts(edits, EditStart);
    SortedDiffers(edits, EditStart);
    EditSpansAre(sorted);
    forall i | 0 <= i < |spans| ensures Fits(spans[i], |output|) { assert sorted[i] in edits; }
    forall i, j | 0 <= i < j < |spans| ensures spans[i].start < spans[j].start {
      assert EditStart(sorted[i]) <= EditStart(sorted[j]) && EditStart(sorted[i]) != EditStart(sorted[j]);
    }
    InOrderExactly(spans, 0, |output|);
    if forall e, f :: e in edits && f in edits ==> !Clash(e, f) {
      forall i, j | 0 <= i < j < |spans| ensures spans[i].end <= spans[j].start {
        assert sorted[i] in edits && sorted[j] in edits && !Clash(sorted[i], sorted[j]);
      }
    }
    if InOrder(spans, 0, |output|) {
      forall e, f | e in edits && f in edits ensures !Clash(e, f) {
        var i :| 0 <= i < |sorted| && sorted[i] == e;
        var j :| 0 <= j < |sorted| && sorted[j] == f;
        assert i < j ==> spans[i].end <= spans[j].start;
        assert j < i ==> spans[j].start < spans[i].start;
      }
    }
  }

  lemma {:induction false} EditSpansAre(edits: seq<Edit>)
    ensures |EditSpans(edits)| == |edits| && forall i :: 0 <= i < |edits| ==> EditSpans(edits)[i] == edits[i].span
  {
    if edits != [] { EditSpansAre(edits[1..]); }
  }

  /** A position that an edit of a gap starts at. */
  lemma GapOf(output: string, gaps: seq<(nat, nat)>, comments: seq<Span>, e: Edit) returns (i: nat)
    requires AllGaps(gaps, |output|) && AllFit(comments, |output|) && e in GapEditsOf(output, gaps, comments)
    ensures i < |gaps| && gaps[i].0 == e.span.start && e.span.start <= e.span.end <= gaps[i].1 && Harmless(output, e)
  {
    hide GapEditsOf, AllSpace;
    GapEditsBlank(output, gaps, comments);
    assert Blanks(output, gaps, e);
    BlankIsHarmless(output, gaps, e);
    i :| 0 <= i < |gaps| && gaps[i].0 == e.span.start && e.span.end <= gaps[i].1;
  }

  /** Gaps never clash with each other. */
  lemma GapsNeverClash(output: string, tokens: seq<Token>, gaps: seq<(nat, nat)>, comments: seq<Span>, e: Edit, f: Edit)
    requires FunctionGaps(output, tokens, gaps) && AllFit(comments, |output|)
    requires e in GapEditsOf(output, gaps, comments) && f in GapEditsOf(output, gaps, comments)
    ensures !Clash(e, f)
  {
    hide GapEditsOf, Harmless, EndsToken;
    var i := GapOf(output, gaps, comments, e);
    var j := GapOf(output, gaps, comments, f);
    assert i < j ==> gaps[i].1 < gaps[j].0 || gaps[j].1 < gaps[i].0;
    assert j < i ==> gaps[j].1 < gaps[i].0 || gaps[i].1 < gaps[j].0;
  }

  /** An indentation ends before anything else on its line, so it clashes with nothing after it. */
  lemma IndentNeverClashes(output: string, protected: seq<Span>, e: Edit, at: nat)
    requires Indents(output, protected, e) && e.span.start < at <= |output|
    requires output[at - 1] != ' '
    ensures e.span.end <= at
  {
    hide Crossed, Indent, Leading;
    LeadingStops(output, e.span.start, at - 1);
  }

  /** Two edits of the pass clash only when one blanks a gap that holds the indented line of the other. */
  lemma ClashTangles(output: string, tokens: seq<Token>, protected: seq<Span>, comments: seq<Span>,
      gaps: seq<(nat, nat)>, e: Edit, f: Edit)
    requires FunctionGaps(output, tokens, gaps) && AllFit(comments, |output|) && InOrder(protected, 0, |output|)
    requires e in LayoutEdits(output, protected, comments, gaps) && f in LayoutEdits(output, protected, comments, gaps)
    requires Clash(e, f)
    ensures e in GapEditsOf(output, gaps, comments) && Indented(output, f.span.start)
  {
    hide InOrder, GapEditsOf, IndentsFrom, Harmless, Crossed, Indent, Leading;
    StartsALine(output);
    if f in GapEditsOf(output, gaps, comments) {
      var j := GapOf(output, gaps, comments, f);
      assert EndsToken(output, tokens, gaps[j].0);
      if e in GapEditsOf(output, gaps, comments) {
        GapsNeverClash(output, tokens, gaps, comments, e, f);
      } else {
        IndentsExactly(output, protected, 0, e);
        IndentNeverClashes(output, protected, e, f.span.start);
      }
    } else {
      IndentsExactly(output, protected, 0, f);
      if e !in GapEditsOf(output, gaps, comments) {
        IndentsExactly(output, protected, 0, e);
        IndentNeverClashes(output, protected, e, f.span.start);
      }
    }
  }

  /** The edits of a pass are disjoint exactly when no gap that it blanks holds an indented line. */
  lemma DisjointUnlessTangled(output: string, tokens: seq<Token>, protected: seq<Span>, comments: seq<Span>,
      gaps: seq<(nat, nat)>)
    requires FunctionGaps(output, tokens, gaps) && AllFit(comments, |output|)
    requires InOrder(protected, 0, |output|) && AllSolid(output, protected)
    requires forall i :: 0 <= i < |gaps| ==> !Crossed(protected, gaps[i].0)
    ensures Disjoint(Sorted(LayoutEdits(output, protected, comments, gaps), EditStart), 0, |output|) <==>
      !Tangled(output, comments, gaps)
  {
    hide InOrder, GapEditsOf, IndentsFrom, Harmless, Crossed, Indent, Leading, Disjoint, Sorted, Solid;
    hide EndsToken, Clash;
    var edits := LayoutEdits(output, protected, comments, gaps);
    LayoutEditsDiffer(output, tokens, protected, comments, gaps);
    forall e | e in edits ensures Fits(e.span, |output|) { EditsAreFine(output, protected, comments, gaps, e); }
    DisjointExactly(output, edits);
    if e, f :| e in edits && f in edits && Clash(e, f) {
      ClashTangles(output, tokens, protected, comments, gaps, e, f);
      ClashPlace(e, f);
      assert Tangled(output, comments, gaps);
    }
    if Tangled(output, comments, gaps) {
      var g, at: nat :|
        g in GapEditsOf(output, gaps, comments) && g.span.start < at < g.span.end && Indented(output, at);
      var i := GapOf(output, gaps, comments, g);
      NotCrossedInAGap(output, protected, g, at);
      var e := TheIndent(output, protected, at);
      StartsALine(output);
      IndentsExactly(output, protected, 0, e);
      ClashPlace(g, e);
    }
  }

  lemma ClashPlace(e: Edit, f: Edit)
    ensures Clash(e, f) <==> e.span.start < f.span.start < e.span.end
  {
  }

  lemma TheIndent(output: string, protected: seq<Span>, at: nat) returns (e: Edit)
    requires Indented(output, at) && !Crossed(protected, at)
    ensures Indents(output, protected, e) && e.span.start == at
  {
    hide Crossed;
    var n := Leading(output[at..]);
    e := Edit(Span(at, at + n), Indent(n));
  }

  // --- The pass ------------------------------------------------------------------------------------------------

  /** What the comment scan promises is what the edits need: tokens and comments together stand in the text. */
  lemma ProtectedStands(output: string, tokens: seq<Token>, comments: seq<Span>)
    requires AllPlaced(output, tokens) && AllFit(comments, |output|) && AllSolid(output, comments)
    requires InOrder(SpansOf(tokens), 0, |output|) && InOrder(comments, 0, |output|)
    requires AllApart(SpansOf(tokens), comments)
    ensures var protected := Protected(output, tokens, comments);
      && InOrder(SpansOf(protected), 0, |output|) && AllPlaced(output, protected) && StandIn(protected, output, 0)
      && (forall t :: t in protected <==> t in tokens + Remarks(output, comments))
    ensures Separate(tokens + Remarks(output, comments)) && AllPlaced(output, tokens + Remarks(output, comments))
  {
    hide InOrder, StandIn, Placed, Sorted, Solid, AllApart, Separate;
    var remarks := Remarks(output, comments);
    RemarksAre(output, comments);
    TogetherSeparate(output, tokens, remarks);
    SortedStands(output, tokens + remarks);
  }

  /** No protected range goes on across the start of a gap. */
  lemma GapsAreClear(output: string, tokens: seq<Token>, comments: seq<Span>, gaps: seq<(nat, nat)>)
    requires AllFit(comments, |output|) && FunctionGaps(output, tokens, gaps)
    requires Separate(tokens + Remarks(output, comments)) && AllPlaced(output, tokens + Remarks(output, comments))
    requires var all := tokens + Remarks(output, comments);
      forall t :: t in Protected(output, tokens, comments) <==> t in all
    ensures forall i :: 0 <= i < |gaps| ==> !Crossed(SpansOf(Protected(output, tokens, comments)), gaps[i].0)
  {
    hide Separate, Placed, Sorted, Remarks, S.Space;
    var (all, protected) := (tokens + Remarks(output, comments), Protected(output, tokens, comments));
    forall i | 0 <= i < |gaps| ensures !Crossed(SpansOf(protected), gaps[i].0) {
      var at := gaps[i].0;
      assert EndsToken(output, tokens, at);
      var k :| 0 <= k < |tokens| && tokens[k].span.end == at && 0 < at <= |output| && !S.Space(output[at - 1]);
      assert all[k] == tokens[k];
      assert EndsToken(output, all, at);
      TokenEndIsClear(output, all, at);
      forall j | 0 <= j < |protected| ensures !(SpansOf(protected)[j].start < at < SpansOf(protected)[j].end) {
        assert protected[j] in protected;
      }
    }
  }

  lemma SpansFit(output: string, tokens: seq<Token>)
    requires AllPlaced(output, tokens)
    ensures AllFit(SpansOf(tokens), |output|) && AllSolid(output, SpansOf(tokens))
    ensures forall i :: 0 <= i < |tokens| ==> Solid(output, tokens[i].span)
  {
    forall i | 0 <= i < |tokens| ensures Fits(SpansOf(tokens)[i], |output|) && Solid(output, SpansOf(tokens)[i]) {
      assert Placed(output, tokens[i]);
    }
  }

  /** A pass edits exactly the gaps it can blank and the indentation that does not start inside a token or comment. */
  lemma PassEditsExactly(output: string, protected: seq<Span>, comments: seq<Span>, gaps: seq<(nat, nat)>, e: Edit)
    requires AllGaps(gaps, |output|) && AllFit(comments, |output|) && InOrder(protected, 0, |output|)
    ensures e in LayoutEdits(output, protected, comments, gaps) <==>
      || (exists i :: 0 <= i < |gaps| && BlanksGap(output, comments, gaps[i], e))
      || Indents(output, protected, e)
  {
    hide BlanksGap, Indents, GapEditsOf, IndentsFrom, InOrder;
    GapEditsExactly(output, gaps, comments, e);
    StartsALine(output);
    IndentsExactly(output, protected, 0, e);
  }

  /** The text with the edits of the pass made, in order of where they start. */
  function LaidOut(output: string, tokens: seq<Token>, comments: seq<Span>, gaps: seq<(nat, nat)>): string
    requires AllGaps(gaps, |output|) && AllFit(comments, |output|)
  {
    var edits := Sorted(LayoutEdits(output, SpansOf(Protected(output, tokens, comments)), comments, gaps), EditStart);
    if Disjoint(edits, 0, |output|) then Applied(output, edits, 0) else output
  }

  /** Finds the comments, protects them and the tokens, and lays the text out. It succeeds exactly when there is nothing
      but comments and white space between the tokens and no gap that it blanks holds an indented line; then every
      token and comment stands in the result, in order and unchanged, and only white space was exchanged. */
  method LayOutAll(output: string, tokens: seq<Token>, gaps: seq<(nat, nat)>) returns (r: Result<string, string>)
    requires AllPlaced(output, tokens) && FunctionGaps(output, tokens, gaps)
    ensures AllFit(SpansOf(tokens), |output|)
    ensures var comments := CommentsOf(output, SpansOf(tokens), 0);
      && (comments.Ok? ==> AllFit(comments.value, |output|))
      && (r.Ok? <==> comments.Ok? && !Tangled(output, comments.value, gaps))
    ensures r.Ok? ==> r.value == LaidOut(output, tokens, CommentsOf(output, SpansOf(tokens), 0).value, gaps)
    ensures r.Ok? ==> NonSpace(r.value) == NonSpace(output)
    ensures r.Ok? ==>
      exists moved ::
        && SameAll(Protected(output, tokens, CommentsOf(output, SpansOf(tokens), 0).value), moved)
        && StandIn(moved, r.value, 0)
  {
    hide InOrder, StandIn, Placed, Sorted, Solid, AllApart, Separate, NonSpace, Applied, Disjoint, Crossed, Tangled;
    hide Accounted, CommentsOf, SameAll, GapEditsOf, IndentsFrom, EndsToken;
    SpansFit(output, tokens);
    var found := Comments(output, SpansOf(tokens));
    if found.Err? { return Err(found.error); }
    var comments := found.value;
    CommentsAccount(output, SpansOf(tokens), 0);
    EndsBefore(comments, 0, |output|);
    ProtectedStands(output, tokens, comments);
    GapsAreClear(output, tokens, comments, gaps);
    var protected := Protected(output, tokens, comments);
    SpansFit(output, protected);
    DisjointUnlessTangled(output, tokens, SpansOf(protected), comments, gaps);
    r := LayOut(output, protected, comments, gaps);
  }
}
