/**
 Source maps from the generated text of an input to what the user typed (`src/session.rs`, `SourceMap`, `Generated`
 and the registration of units), over whole sessions. Offsets count characters.
 */
module SourceMaps {
  import opened Wrappers

  // --- Generated text and its map -------------------------------------------------------------

  datatype Segment = Segment(start: nat, end: nat, input: nat, offset: nat)

  predicate Covers(s: Segment, at: nat) { s.start <= at < s.end }

  /** Where a generated position comes from: the first segment that covers it. */
  function Locate(segments: seq<Segment>, at: nat): Option<(nat, nat)> {
    if segments == [] then None
    else if Covers(segments[0], at) then Some((segments[0].input, segments[0].offset + (at - segments[0].start)))
    else Locate(segments[1..], at)
  }

  datatype Piece = Raw(text: string) | User(text: string, input: nat, offset: nat)

  function TextOf(pieces: seq<Piece>): string {
    if pieces == [] then "" else TextOf(pieces[..|pieces| - 1]) + pieces[|pieces| - 1].text
  }

  function MapOf(pieces: seq<Piece>): seq<Segment> {
    if pieces == [] then []
    else
      var (before, last) := (pieces[..|pieces| - 1], pieces[|pieces| - 1]);
      MapOf(before) + match last
        case Raw(_) => []
        case User(_, input, offset) => [Segment(|TextOf(before)|, |TextOf(pieces)|, input, offset)]
  }

  predicate Ordered(segments: seq<Segment>, limit: nat) {
    && (forall i :: 0 <= i < |segments| ==> segments[i].start <= segments[i].end <= limit)
    && (forall i, j :: 0 <= i < j < |segments| ==> segments[i].end <= segments[j].start)
  }

  /** Segments are in order and never overlap. */
  lemma {:induction false} MapIsOrdered(pieces: seq<Piece>)
    ensures Ordered(MapOf(pieces), |TextOf(pieces)|)
  {
    if pieces != [] { MapIsOrdered(pieces[..|pieces| - 1]); }
  }

  lemma {:induction false} LocateInTwo(a: seq<Segment>, b: seq<Segment>, at: nat)
    ensures Locate(a + b, at) == if Locate(a, at).Some? then Locate(a, at) else Locate(b, at)
  {
    if a == [] {
      assert a + b == b;
    } else {
      assert (a + b)[1..] == a[1..] + b;
      LocateInTwo(a[1..], b, at);
    }
  }

  lemma {:induction false} NothingPastTheEnd(segments: seq<Segment>, limit: nat, at: nat)
    requires Ordered(segments, limit) && limit <= at
    ensures Locate(segments, at).None?
  {
    if segments != [] { NothingPastTheEnd(segments[1..], limit, at); }
  }

  function LastSegment(pieces: seq<Piece>): seq<Segment>
    requires pieces != []
  {
    var (before, last) := (pieces[..|pieces| - 1], pieces[|pieces| - 1]);
    match last
    case Raw(_) => []
    case User(text, input, offset) => [Segment(|TextOf(before)|, |TextOf(before)| + |text|, input, offset)]
  }

  lemma TextStep(pieces: seq<Piece>)
    requires pieces != []
    ensures TextOf(pieces) == TextOf(pieces[..|pieces| - 1]) + pieces[|pieces| - 1].text
  {
  }

  lemma LocateStep(pieces: seq<Piece>, at: nat)
    requires pieces != []
    ensures var before := pieces[..|pieces| - 1];
      Locate(MapOf(pieces), at) ==
        if Locate(MapOf(before), at).Some? then Locate(MapOf(before), at) else Locate(LastSegment(pieces), at)
    ensures var before := pieces[..|pieces| - 1]; |TextOf(before)| <= at ==> Locate(MapOf(before), at).None?
  {
    hide Locate;
    var before := pieces[..|pieces| - 1];
    LocateInTwo(MapOf(before), LastSegment(pieces), at);
    MapIsOrdered(before);
    if |TextOf(before)| <= at { NothingPastTheEnd(MapOf(before), |TextOf(before)|, at); }
  }

  lemma LastSegmentEnds(pieces: seq<Piece>, at: nat)
    requires pieces != [] && at < |TextOf(pieces[..|pieces| - 1])|
    ensures Locate(LastSegment(pieces), at).None?
  {
    hide TextOf;
  }

  lemma LastSegmentIsExact(pieces: seq<Piece>, k: nat)
    requires pieces != [] && k < |pieces[|pieces| - 1].text|
    ensures var last := pieces[|pieces| - 1];
      Locate(LastSegment(pieces), |TextOf(pieces[..|pieces| - 1])| + k) ==
        if last.User? then Some((last.input, last.offset + k)) else None
  {
    hide TextOf;
  }

  /** Every character of a piece is located exactly: at the user's character it came from, or nowhere. */
  lemma {:induction false} LocateIsExact(pieces: seq<Piece>, i: nat, k: nat)
    requires i < |pieces| && k < |pieces[i].text|
    ensures var at := |TextOf(pieces[..i])| + k;
      && at < |TextOf(pieces)| && TextOf(pieces)[at] == pieces[i].text[k]
      && Locate(MapOf(pieces), at) ==
         if pieces[i].User? then Some((pieces[i].input, pieces[i].offset + k)) else None
  {
    hide Locate, MapOf, LastSegment, TextOf;
    var last := |pieces| - 1;
    var (before, at) := (pieces[..last], |TextOf(pieces[..i])| + k);
    LocateStep(pieces, at);
    TextStep(pieces);
    assert before[..i] == pieces[..i];
    if i == last {
      LastSegmentIsExact(pieces, k);
    } else {
      LocateIsExact(before, i, k);
      LastSegmentEnds(pieces, at);
    }
  }

  /** A generated source under construction. */
  class Generated {
    var text: string
    var segments: seq<Segment>
    ghost var pieces: seq<Piece>

    ghost predicate Valid()
      reads this
    {
      text == TextOf(pieces) && segments == MapOf(pieces)
    }

    constructor ()
      ensures Valid() && pieces == []
    {
      text, segments, pieces := "", [], [];
    }

    method AddRaw(s: string)
      requires Valid()
      modifies this
      ensures Valid() && pieces == old(pieces) + [Raw(s)]
    {
      text := text + s;
      pieces := pieces + [Raw(s)];
      assert pieces[..|pieces| - 1] == old(pieces);
    }

    method AddUser(s: string, input: nat, offset: nat)
      requires Valid()
      modifies this
      ensures Valid() && pieces == old(pieces) + [User(s, input, offset)]
    {
      var start := |text|;
      text := text + s;
      segments := segments + [Segment(start, |text|, input, offset)];
      pieces := pieces + [User(s, input, offset)];
      assert pieces[..|pieces| - 1] == old(pieces);
    }
  }

  // --- Copied text ------------------------------------------------------------------------------

  /** A copy of a retained input, followed by nothing, by the added semicolon, or, at the input's end, by the
      newline of the wrapper. */
  predicate Copied(s: string, inputs: seq<string>, input: nat, offset: nat) {
    && 1 <= input <= |inputs|
    && var (t, n) := (inputs[input - 1], |s| - 1);
       || (offset + |s| <= |t| && s == t[offset..offset + |s|])
       || (0 <= n && offset + n <= |t| && s[..n] == t[offset..offset + n]
           && (s[n] == ';' || (s[n] == '\n' && offset + n == |t|)))
  }

  predicate AllCopied(pieces: seq<Piece>, inputs: seq<string>) {
    forall i :: 0 <= i < |pieces| && pieces[i].User? ==>
      Copied(pieces[i].text, inputs, pieces[i].input, pieces[i].offset)
  }

  /** A segment of a text is a copy of what it points to. */
  predicate Faithful(text: string, segments: seq<Segment>, inputs: seq<string>) {
    && Ordered(segments, |text|)
    && forall i :: 0 <= i < |segments| ==>
         Copied(text[segments[i].start..segments[i].end], inputs, segments[i].input, segments[i].offset)
  }

  lemma {:induction false} CopiesAreFaithful(pieces: seq<Piece>, inputs: seq<string>)
    requires AllCopied(pieces, inputs)
    ensures Faithful(TextOf(pieces), MapOf(pieces), inputs)
  {
    MapIsOrdered(pieces);
    if pieces != [] {
      var (before, last) := (pieces[..|pieces| - 1], pieces[|pieces| - 1]);
      CopiesAreFaithful(before, inputs);
      var (was, text) := (TextOf(before), TextOf(pieces));
      forall i | 0 <= i < |MapOf(pieces)|
        ensures var s := MapOf(pieces)[i]; Copied(text[s.start..s.end], inputs, s.input, s.offset)
      {
        var s := MapOf(pieces)[i];
        if i < |MapOf(before)| {
          assert s == MapOf(before)[i] && text[s.start..s.end] == was[s.start..s.end];
        } else {
          assert text[s.start..s.end] == last.text;
        }
      }
    }
  }

  lemma {:induction false} LocateFindsASegment(segments: seq<Segment>, at: nat) returns (i: nat)
    requires Locate(segments, at).Some?
    ensures i < |segments| && Covers(segments[i], at)
    ensures Locate(segments, at) == Some((segments[i].input, segments[i].offset + (at - segments[i].start)))
  {
    if Covers(segments[0], at) {
      i := 0;
    } else {
      i := LocateFindsASegment(segments[1..], at);
      i := i + 1;
    }
  }

  lemma CopiedCharacter(s: string, inputs: seq<string>, input: nat, offset: nat, k: nat)
    requires Copied(s, inputs, input, offset) && k < |s|
    ensures 1 <= input <= |inputs|
    ensures var t := inputs[input - 1];
      || (offset + k < |t| && s[k] == t[offset + k])
      || (s[k] == ';' && k == |s| - 1)
      || (s[k] == '\n' && offset + k == |t|)
  {
    var (t, n) := (inputs[input - 1], |s| - 1);
    if k < n && s[..n] == t[offset..offset + n] { assert s[..n][k] == s[k]; }
  }

  /** A located character is the very character it is said to come from. The only others are an added semicolon
      at the end of its segment, and the wrapper's newline just past the end of the input. */
  lemma LocatedIsTheSame(text: string, segments: seq<Segment>, inputs: seq<string>, at: nat)
    requires Faithful(text, segments, inputs) && at < |text| && Locate(segments, at).Some?
    ensures var (input, offset) := Locate(segments, at).value;
      && 1 <= input <= |inputs|
      && ((offset < |inputs[input - 1]| && text[at] == inputs[input - 1][offset])
          || (text[at] == ';' && exists i :: 0 <= i < |segments| && segments[i].end == at + 1)
          || (text[at] == '\n' && offset == |inputs[input - 1]|))
  {
    hide Copied, Locate;
    var i := LocateFindsASegment(segments, at);
    var s := segments[i];
    assert text[s.start..s.end][at - s.start] == text[at];
    CopiedCharacter(text[s.start..s.end], inputs, s.input, s.offset, at - s.start);
  }

  /** Retained inputs are only added to, so a copy stays a copy. */
  lemma MoreInputsKeepCopies(text: string, segments: seq<Segment>, inputs: seq<string>, more: seq<string>)
    requires Faithful(text, segments, inputs)
    ensures Faithful(text, segments, inputs + more)
  {
    forall i | 0 <= i < |segments|
      ensures Copied(text[segments[i].start..segments[i].end], inputs + more, segments[i].input, segments[i].offset)
    {
      assert (inputs + more)[segments[i].input - 1] == inputs[segments[i].input - 1];
    }
  }

  // --- The statements of an input ------------------------------------------------------------------

  datatype Kind = Item(name: string) | Local | Expr(end: nat) | Semi | Unsupported

  /** A parsed statement and where it starts in the wrapped input; an expression also has its own end. */
  datatype Statement = Statement(kind: Kind, start: nat)

  function Wrapped(input: string): string { "{" + input + "\n}" }

  /** A statement's text runs to the next statement, or to the closing brace of the wrapper. */
  function EndOf(input: string, stmts: seq<Statement>, i: nat): nat
    requires i < |stmts|
  {
    if i + 1 < |stmts| then stmts[i + 1].start else |Wrapped(input)| - 1
  }

  /** White space as `char::is_whitespace` has it. */
  predicate Space(c: char) {
    || c == ' ' || '\t' <= c <= '\r' || c == '\U{85}' || c == '\U{A0}' || c == '\U{1680}'
    || '\U{2000}' <= c <= '\U{200A}' || c == '\U{2028}' || c == '\U{2029}' || c == '\U{202F}' || c == '\U{205F}'
    || c == '\U{3000}'
  }

  /** What the parser promises: statements start at tokens of the input, in order, and an expression lies in
      its statement and in the input. */
  predicate WellParsed(input: string, stmts: seq<Statement>) {
    && (forall i :: 0 <= i < |stmts| ==> 1 <= stmts[i].start <= |input| && !Space(Wrapped(input)[stmts[i].start]))
    && (forall i, j :: 0 <= i < j < |stmts| ==> stmts[i].start < stmts[j].start)
    && (forall i :: 0 <= i < |stmts| && stmts[i].kind.Expr? ==>
          stmts[i].start <= stmts[i].kind.end <= |input| + 1)
  }

  function SourceOf(input: string, stmts: seq<Statement>, i: nat): string
    requires WellParsed(input, stmts) && i < |stmts|
  {
    Wrapped(input)[stmts[i].start..EndOf(input, stmts, i)]
  }

  /** A statement's text is a copy of the input, except for the newline of the wrapper after the last one. */
  lemma SourceIsCopied(input: string, stmts: seq<Statement>, i: nat)
    requires WellParsed(input, stmts) && i < |stmts|
    ensures var (s, offset) := (SourceOf(input, stmts, i), stmts[i].start - 1);
      && |s| > 0 && s[0] == input[offset]
      && (if i + 1 < |stmts| then offset + |s| == stmts[i + 1].start - 1 <= |input| && s == input[offset..offset + |s|]
          else s == input[offset..] + "\n")
  {
    var (w, start) := (Wrapped(input), stmts[i].start);
    assert forall k :: 0 <= k < |input| ==> w[k + 1] == input[k];
    assert w[|input| + 1] == '\n';
  }

  function TrimEnd(s: string): string {
    if s == "" || !Space(s[|s| - 1]) then s else TrimEnd(s[..|s| - 1])
  }

  function TrimStart(s: string): string {
    if s == "" || !Space(s[0]) then s else TrimStart(s[1..])
  }

  datatype Declaration = Declaration(source: string, input: nat, offset: nat)

  /** What an input contributes: declarations, statements with their offsets, and its last expression. */
  datatype Analysis = Analysis(declarations: map<string, Declaration>, statements: seq<(string, nat)>,
                               result: Option<(string, nat)>)

  function Analysed(input: string, number: nat, stmts: seq<Statement>, n: nat, declarations: map<string, Declaration>)
    : Option<Analysis>
    requires WellParsed(input, stmts) && n <= |stmts|
  {
    if n == 0 then Some(Analysis(declarations, [], None))
    else
      var before := Analysed(input, number, stmts, n - 1, declarations);
      if before.None? then None else Analyse(before.value, input, number, stmts, n - 1)
  }

  /** One statement more. */
  function Analyse(a: Analysis, input: string, number: nat, stmts: seq<Statement>, i: nat): Option<Analysis>
    requires WellParsed(input, stmts) && i < |stmts|
  {
    var (start, source) := (stmts[i].start, SourceOf(input, stmts, i));
    match stmts[i].kind
    case Unsupported => None
    case Item(name) =>
      var leading := |source| - |TrimStart(source)|;
      var declaration := Declaration(TrimStart(TrimEnd(source)), number, start + leading - 1);
      Some(a.(declarations := a.declarations[name := declaration]))
    case Local => Some(a.(statements := a.statements + [(source, start - 1)]))
    case Semi => Some(a.(statements := a.statements + [(source, start - 1)]))
    case Expr(end) =>
      if i + 1 == |stmts| then Some(a.(result := Some((Wrapped(input)[start..end], start - 1))))
      else Some(a.(statements := a.statements + [(source + ";", start - 1)]))
  }

  /** A declaration is a copy of the input it was last entered in, with nothing added. */
  predicate Exact(d: Declaration, inputs: seq<string>) {
    && 1 <= d.input <= |inputs|
    && var t := inputs[d.input - 1];
       d.offset + |d.source| <= |t| && d.source == t[d.offset..d.offset + |d.source|]
  }

  predicate AllExact(declarations: map<string, Declaration>, inputs: seq<string>) {
    forall x :: x in declarations ==> Exact(declarations[x], inputs)
  }

  predicate FaithfulAnalysis(a: Analysis, inputs: seq<string>, number: nat) {
    && AllExact(a.declarations, inputs)
    && (forall i :: 0 <= i < |a.statements| ==> Copied(a.statements[i].0, inputs, number, a.statements[i].1))
    && (a.result.Some? ==> Copied(a.result.value.0, inputs, number, a.result.value.1))
  }

  lemma PrefixIsCopied(t: string, source: string, input: string, offset: nat)
    requires t <= source && offset + |source| <= |input| && source == input[offset..offset + |source|]
    ensures offset + |t| <= |input| && t == input[offset..offset + |t|]
  {
    assert t == source[..|t|];
  }

  lemma {:induction false} TrimKeepsTheStart(source: string)
    requires source != "" && !Space(source[0])
    ensures TrimEnd(source) != "" && TrimEnd(source) <= source
    ensures TrimStart(source) == source && TrimStart(TrimEnd(source)) == TrimEnd(source)
  {
    if Space(source[|source| - 1]) { TrimKeepsTheStart(source[..|source| - 1]); }
  }

  lemma TrimDropsANewline(text: string)
    requires text != "" && !Space(text[0])
    ensures TrimEnd(text + "\n") <= text
  {
    assert (text + "\n")[..|text|] == text;
    TrimKeepsTheStart(text);
  }

  lemma TrimmedIsCopied(source: string, input: string, offset: nat)
    requires source != "" && !Space(source[0]) && offset <= |input|
    requires || (offset + |source| <= |input| && source == input[offset..offset + |source|])
             || source == input[offset..] + "\n"
    ensures TrimStart(source) == source
    ensures var t := TrimStart(TrimEnd(source)); offset + |t| <= |input| && t == input[offset..offset + |t|]
  {
    hide TrimStart, TrimEnd;
    TrimKeepsTheStart(source);
    if source == input[offset..] + "\n" {
      var text := input[offset..];
      assert source[0] == if text == "" then '\n' else text[0];
      TrimDropsANewline(text);
      PrefixIsCopied(TrimEnd(source), text, input, offset);
    } else {
      PrefixIsCopied(TrimEnd(source), source, input, offset);
    }
  }

  lemma ItemIsExact(inputs: seq<string>, stmts: seq<Statement>, i: nat)
    requires inputs != [] && WellParsed(inputs[|inputs| - 1], stmts) && i < |stmts|
    ensures var (source, start) := (SourceOf(inputs[|inputs| - 1], stmts, i), stmts[i].start);
      Exact(Declaration(TrimStart(TrimEnd(source)), |inputs|, start + (|source| - |TrimStart(source)|) - 1), inputs)
  {
    hide TrimStart, TrimEnd, SourceOf, Space;
    var input := inputs[|inputs| - 1];
    SourceIsCopied(input, stmts, i);
    assert Wrapped(input)[stmts[i].start] == input[stmts[i].start - 1];
    TrimmedIsCopied(SourceOf(input, stmts, i), input, stmts[i].start - 1);
  }

  lemma StatementIsCopied(inputs: seq<string>, stmts: seq<Statement>, i: nat)
    requires inputs != [] && WellParsed(inputs[|inputs| - 1], stmts) && i < |stmts|
    ensures var (source, start) := (SourceOf(inputs[|inputs| - 1], stmts, i), stmts[i].start);
      && Copied(source, inputs, |inputs|, start - 1)
      && (i + 1 < |stmts| ==> Copied(source + ";", inputs, |inputs|, start - 1))
    ensures var (w, k) := (Wrapped(inputs[|inputs| - 1]), stmts[i].kind);
      k.Expr? ==> Copied(w[stmts[i].start..k.end], inputs, |inputs|, stmts[i].start - 1)
  {
    var input := inputs[|inputs| - 1];
    SourceIsCopied(input, stmts, i);
    var (source, offset) := (SourceOf(input, stmts, i), stmts[i].start - 1);
    if i + 1 < |stmts| {
      assert (source + ";")[..|source|] == source;
    } else {
      assert source[..|source| - 1] == input[offset..];
    }
    if stmts[i].kind.Expr? {
      var own := Wrapped(input)[stmts[i].start..stmts[i].kind.end];
      assert own == input[offset..offset + |own|];
    }
  }

  lemma StepIsFaithful(a: Analysis, inputs: seq<string>, stmts: seq<Statement>, i: nat)
    requires inputs != [] && WellParsed(inputs[|inputs| - 1], stmts) && i < |stmts|
    requires FaithfulAnalysis(a, inputs, |inputs|)
    ensures var b := Analyse(a, inputs[|inputs| - 1], |inputs|, stmts, i);
      b.Some? ==> FaithfulAnalysis(b.value, inputs, |inputs|)
  {
    hide Copied, Exact, WellParsed, SourceOf, TrimStart, TrimEnd;
    StatementIsCopied(inputs, stmts, i);
    ItemIsExact(inputs, stmts, i);
  }

  lemma {:induction false} AnalysisIsFaithful(inputs: seq<string>, stmts: seq<Statement>, n: nat,
      declarations: map<string, Declaration>)
    requires inputs != [] && WellParsed(inputs[|inputs| - 1], stmts) && n <= |stmts| && AllExact(declarations, inputs)
    ensures var a := Analysed(inputs[|inputs| - 1], |inputs|, stmts, n, declarations);
      a.Some? ==> FaithfulAnalysis(a.value, inputs, |inputs|)
  {
    hide WellParsed, Analyse, AllExact;
    if n > 0 {
      AnalysisIsFaithful(inputs, stmts, n - 1, declarations);
      var before := Analysed(inputs[|inputs| - 1], |inputs|, stmts, n - 1, declarations);
      if before.Some? { StepIsFaithful(before.value, inputs, stmts, n - 1); }
    }
  }

  // --- What an input contributes -----------------------------------------------------------------------

  /** A statement that the generated source repeats: every one but items and a final expression. */
  predicate Kept(stmts: seq<Statement>, i: nat)
    requires i < |stmts|
  {
    stmts[i].kind.Local? || stmts[i].kind.Semi? || (stmts[i].kind.Expr? && i + 1 < |stmts|)
  }

  function KeptText(input: string, stmts: seq<Statement>, i: nat): string
    requires WellParsed(input, stmts) && i < |stmts|
  {
    SourceOf(input, stmts, i) + if stmts[i].kind.Expr? then ";" else ""
  }

  /** `places` are the kept statements among the first `n`, in order and each once, and `kept` are their texts. */
  ghost predicate KeepsExactly(input: string, stmts: seq<Statement>, n: nat, kept: seq<(string, nat)>,
      places: seq<nat>)
    requires WellParsed(input, stmts) && n <= |stmts|
  {
    && |places| == |kept|
    && (forall k :: 0 <= k < |places| ==>
          && places[k] < n && Kept(stmts, places[k])
          && kept[k] == (KeptText(input, stmts, places[k]), stmts[places[k]].start - 1))
    && (forall k, l :: 0 <= k < l < |places| ==> places[k] < places[l])
    && (forall i :: 0 <= i < n && Kept(stmts, i) ==> i in places)
  }

  /** `t` is all of `s` but the white space it ends in. */
  predicate Trimmed(s: string, t: string) {
    t <= s && t != "" && !Space(t[|t| - 1]) && forall k :: |t| <= k < |s| ==> Space(s[k])
  }

  /** Of the first `n` statements, `j` is the last item named `x`. */
  ghost predicate LastItem(stmts: seq<Statement>, n: nat, x: string, j: nat)
    requires n <= |stmts|
  {
    j < n && stmts[j].kind == Item(x) && forall k :: j < k < n ==> stmts[k].kind != Item(x)
  }

  predicate DeclaredBy(input: string, number: nat, stmts: seq<Statement>, j: nat, d: Declaration)
    requires WellParsed(input, stmts) && j < |stmts|
  {
    d.input == number && d.offset == stmts[j].start - 1 && Trimmed(SourceOf(input, stmts, j), d.source)
  }

  /** What stands under a name: its last item, or what stood there before. */
  ghost predicate StandsFor(input: string, number: nat, stmts: seq<Statement>, n: nat,
      before: map<string, Declaration>, x: string, d: Declaration)
    requires WellParsed(input, stmts) && n <= |stmts|
  {
    || (exists j: nat :: LastItem(stmts, n, x, j) && DeclaredBy(input, number, stmts, j, d))
    || ((forall j :: 0 <= j < n ==> stmts[j].kind != Item(x)) && x in before && before[x] == d)
  }

  ghost predicate DeclaresLast(input: string, number: nat, stmts: seq<Statement>, n: nat,
      before: map<string, Declaration>, after: map<string, Declaration>)
    requires WellParsed(input, stmts) && n <= |stmts|
  {
    forall x, d :: (x in after && after[x] == d) <==> StandsFor(input, number, stmts, n, before, x, d)
  }

  function FinalExpression(input: string, stmts: seq<Statement>, n: nat): Option<(string, nat)>
    requires WellParsed(input, stmts) && n <= |stmts|
  {
    if n == |stmts| && n > 0 && stmts[n - 1].kind.Expr? then
      var (start, end) := (stmts[n - 1].start, stmts[n - 1].kind.end);
      Some((Wrapped(input)[start..end], start - 1))
    else None
  }

  lemma {:induction false} TrimEndIsExact(s: string)
    requires s != "" && !Space(s[0])
    ensures Trimmed(s, TrimEnd(s))
  {
    if Space(s[|s| - 1]) {
      TrimEndIsExact(s[..|s| - 1]);
    }
  }

  lemma TrimmedIsUnique(s: string, t: string, u: string)
    requires Trimmed(s, t) && Trimmed(s, u)
    ensures t == u
  {
  }

  /** The entry that an item makes is the one its statement calls for, and only that. */
  lemma ItemDeclares(a: Analysis, input: string, number: nat, stmts: seq<Statement>, i: nat)
    returns (d: Declaration)
    requires WellParsed(input, stmts) && i < |stmts| && stmts[i].kind.Item?
    ensures var b := Analyse(a, input, number, stmts, i);
      && b.Some? && b.value.statements == a.statements && b.value.result == a.result
      && b.value.declarations == a.declarations[stmts[i].kind.name := d]
    ensures forall e :: DeclaredBy(input, number, stmts, i, e) <==> e == d
  {
    hide TrimEnd, TrimStart, Trimmed, Space;
    var (source, start) := (SourceOf(input, stmts, i), stmts[i].start);
    SourceIsCopied(input, stmts, i);
    assert !Space(source[0]);
    TrimKeepsTheStart(source);
    TrimEndIsExact(source);
    d := Declaration(TrimEnd(source), number, start - 1);
    forall e ensures DeclaredBy(input, number, stmts, i, e) <==> e == d {
      if DeclaredBy(input, number, stmts, i, e) { TrimmedIsUnique(source, e.source, d.source); }
    }
    assert Analyse(a, input, number, stmts, i).value.declarations == a.declarations[stmts[i].kind.name := d];
  }

  lemma DeclaresNext(input: string, number: nat, stmts: seq<Statement>, n: nat,
      before: map<string, Declaration>, mid: map<string, Declaration>, d: Declaration)
    requires WellParsed(input, stmts) && n < |stmts| && DeclaresLast(input, number, stmts, n, before, mid)
    requires stmts[n].kind.Item? && forall e :: DeclaredBy(input, number, stmts, n, e) <==> e == d
    ensures DeclaresLast(input, number, stmts, n + 1, before, mid[stmts[n].kind.name := d])
  {
    hide DeclaredBy, WellParsed;
    var (name, after, m) := (stmts[n].kind.name, mid[stmts[n].kind.name := d], n + 1);
    forall x, e ensures (x in after && after[x] == e) <==> StandsFor(input, number, stmts, m, before, x, e) {
      if x == name {
        assert LastItem(stmts, m, x, n);
        assert forall j :: LastItem(stmts, m, x, j) ==> j == n;
      } else {
        StandsOn(input, number, stmts, n, before, x, e);
      }
    }
  }

  /** A statement that is no item of that name leaves what stands under it. */
  lemma StandsOn(input: string, number: nat, stmts: seq<Statement>, n: nat, before: map<string, Declaration>,
      x: string, d: Declaration)
    requires WellParsed(input, stmts) && n < |stmts| && stmts[n].kind != Item(x)
    ensures StandsFor(input, number, stmts, n + 1, before, x, d) <==>
      StandsFor(input, number, stmts, n, before, x, d)
  {
    hide DeclaredBy, WellParsed;
    if j: nat :| LastItem(stmts, n, x, j) && DeclaredBy(input, number, stmts, j, d) {
      assert LastItem(stmts, n + 1, x, j);
    }
    if j: nat :| LastItem(stmts, n + 1, x, j) && DeclaredBy(input, number, stmts, j, d) {
      assert LastItem(stmts, n, x, j);
    }
  }

  /** A statement that is no item leaves every declaration, and joins the kept ones if it is one of them. */
  lemma OtherKeeps(a: Analysis, input: string, number: nat, stmts: seq<Statement>, i: nat)
    requires WellParsed(input, stmts) && i < |stmts| && !stmts[i].kind.Item? && !stmts[i].kind.Unsupported?
    requires a.result.None?
    ensures var b := Analyse(a, input, number, stmts, i);
      && b.Some? && b.value.declarations == a.declarations
      && b.value.statements == a.statements + (if Kept(stmts, i)
                                               then [(KeptText(input, stmts, i), stmts[i].start - 1)] else [])
      && b.value.result == FinalExpression(input, stmts, i + 1)
  {
    hide SourceOf, WellParsed;
    assert a.statements + [] == a.statements;
    assert SourceOf(input, stmts, i) + "" == SourceOf(input, stmts, i);
  }

  lemma DeclaresOn(input: string, number: nat, stmts: seq<Statement>, n: nat,
      before: map<string, Declaration>, after: map<string, Declaration>)
    requires WellParsed(input, stmts) && n < |stmts| && DeclaresLast(input, number, stmts, n, before, after)
    requires !stmts[n].kind.Item?
    ensures DeclaresLast(input, number, stmts, n + 1, before, after)
  {
    hide StandsFor, WellParsed;
    var m := n + 1;
    forall x, d ensures (x in after && after[x] == d) <==> StandsFor(input, number, stmts, m, before, x, d) {
      StandsOn(input, number, stmts, n, before, x, d);
    }
  }

  lemma KeepsNext(input: string, stmts: seq<Statement>, n: nat, kept: seq<(string, nat)>, places: seq<nat>)
    requires WellParsed(input, stmts) && n < |stmts| && KeepsExactly(input, stmts, n, kept, places)
    ensures KeepsExactly(input, stmts, n + 1,
                         kept + (if Kept(stmts, n) then [(KeptText(input, stmts, n), stmts[n].start - 1)] else []),
                         places + if Kept(stmts, n) then [n] else [])
  {
    hide KeptText, WellParsed, Kept;
    if !Kept(stmts, n) { assert kept + [] == kept && places + [] == places; }
  }

  /** An input is accepted exactly when every statement is supported. Then exactly the kept statements are repeated, in
      order, a final expression is the result, and each name stands for its last item. */
  lemma {:induction false} AnalysedExactly(input: string, number: nat, stmts: seq<Statement>, n: nat,
      declarations: map<string, Declaration>) returns (places: seq<nat>)
    requires WellParsed(input, stmts) && n <= |stmts|
    ensures var a := Analysed(input, number, stmts, n, declarations);
      && (a.Some? <==> forall i :: 0 <= i < n ==> !stmts[i].kind.Unsupported?)
      && (a.Some? ==>
            && KeepsExactly(input, stmts, n, a.value.statements, places)
            && DeclaresLast(input, number, stmts, n, declarations, a.value.declarations)
            && a.value.result == FinalExpression(input, stmts, n))
  {
    hide WellParsed, Analyse, KeepsExactly, DeclaresLast, Kept, KeptText;
    if n == 0 {
      places := [];
      NothingAnalysed(input, number, stmts, declarations);
    } else {
      var i := n - 1;
      places := AnalysedExactly(input, number, stmts, i, declarations);
      var before := Analysed(input, number, stmts, i, declarations);
      if before.Some? {
        var a := before.value;
        if stmts[i].kind.Unsupported? {
          UnsupportedIsRefused(a, input, number, stmts, i);
        } else if stmts[i].kind.Item? {
          var d := ItemDeclares(a, input, number, stmts, i);
          DeclaresNext(input, number, stmts, i, declarations, a.declarations, d);
          KeepsNext(input, stmts, i, a.statements, places);
          ItemIsNotKept(stmts, i);
          assert a.statements + [] == a.statements && places + [] == places;
        } else {
          OtherKeeps(a, input, number, stmts, i);
          DeclaresOn(input, number, stmts, i, declarations, a.declarations);
          KeepsNext(input, stmts, i, a.statements, places);
          places := places + if Kept(stmts, i) then [i] else [];
        }
      }
    }
  }

  lemma ItemIsNotKept(stmts: seq<Statement>, i: nat)
    requires i < |stmts| && stmts[i].kind.Item?
    ensures !Kept(stmts, i)
  {
  }

  lemma UnsupportedIsRefused(a: Analysis, input: string, number: nat, stmts: seq<Statement>, i: nat)
    requires WellParsed(input, stmts) && i < |stmts| && stmts[i].kind.Unsupported?
    ensures Analyse(a, input, number, stmts, i).None?
  {
  }

  lemma NothingAnalysed(input: string, number: nat, stmts: seq<Statement>, declarations: map<string, Declaration>)
    requires WellParsed(input, stmts)
    ensures KeepsExactly(input, stmts, 0, [], [])
    ensures DeclaresLast(input, number, stmts, 0, declarations, declarations)
  {
  }

  // --- Building the source ---------------------------------------------------------------------------

  function DeclarationPieces(order: seq<string>, declarations: map<string, Declaration>): seq<Piece>
    requires forall x :: x in order ==> x in declarations
  {
    if order == [] then []
    else
      var (before, d) := (order[..|order| - 1], declarations[order[|order| - 1]]);
      DeclarationPieces(before, declarations) + [User(d.source, d.input, d.offset), Raw("\n")]
  }

  function PreludePieces(referenced: seq<string>): seq<Piece> {
    if referenced == [] then []
    else
      var name := referenced[|referenced| - 1];
      PreludePieces(referenced[..|referenced| - 1]) + [Raw("let " + name + " = __rnx_state[\"" + name + "\"];\n")]
  }

  function StatementPieces(statements: seq<(string, nat)>, number: nat): seq<Piece> {
    if statements == [] then []
    else
      var (text, offset) := statements[|statements| - 1];
      StatementPieces(statements[..|statements| - 1], number) + [User(text, number, offset), Raw("\n")]
  }

  function ResultPieces(result: Option<(string, nat)>, number: nat, delta: string): seq<Piece> {
    [Raw("let __rnx_result = (")]
    + [if result.Some? then User(result.value.0, number, result.value.1) else Raw("()")]
    + [Raw(");\n(#{")] + [Raw(delta)] + [Raw("}, __rnx_result)\n}")]
  }

  function Header(awaits: bool): string {
    if awaits then "pub async fn main(__rnx_state) {\n" else "pub fn main(__rnx_state) {\n"
  }

  function BuildPieces(a: Analysis, order: seq<string>, awaits: bool, referenced: seq<string>, number: nat,
      delta: string)
    : seq<Piece>
    requires forall x :: x in order ==> x in a.declarations
  {
    DeclarationPieces(order, a.declarations) + [Raw(Header(awaits))] + PreludePieces(referenced)
    + StatementPieces(a.statements, number) + ResultPieces(a.result, number, delta)
  }

  method AddDeclarations(g: Generated, order: seq<string>, declarations: map<string, Declaration>)
    requires g.Valid() && forall x :: x in order ==> x in declarations
    modifies g
    ensures g.Valid() && g.pieces == old(g.pieces) + DeclarationPieces(order, declarations)
  {
    hide TextOf, MapOf;
    var i := 0;
    while i < |order|
      invariant 0 <= i <= |order| && g.Valid()
      invariant g.pieces == old(g.pieces) + DeclarationPieces(order[..i], declarations)
    {
      var d := declarations[order[i]];
      assert order[..i + 1][..i] == order[..i];
      g.AddUser(d.source, d.input, d.offset);
      g.AddRaw("\n");
      i := i + 1;
    }
    assert order[..i] == order;
  }

  method AddPrelude(g: Generated, referenced: seq<string>)
    requires g.Valid()
    modifies g
    ensures g.Valid() && g.pieces == old(g.pieces) + PreludePieces(referenced)
  {
    hide TextOf, MapOf;
    var i := 0;
    while i < |referenced|
      invariant 0 <= i <= |referenced| && g.Valid()
      invariant g.pieces == old(g.pieces) + PreludePieces(referenced[..i])
    {
      assert referenced[..i + 1][..i] == referenced[..i];
      g.AddRaw("let " + referenced[i] + " = __rnx_state[\"" + referenced[i] + "\"];\n");
      i := i + 1;
    }
    assert referenced[..i] == referenced;
  }

  method AddStatements(g: Generated, statements: seq<(string, nat)>, number: nat)
    requires g.Valid()
    modifies g
    ensures g.Valid() && g.pieces == old(g.pieces) + StatementPieces(statements, number)
  {
    hide TextOf, MapOf;
    var i := 0;
    while i < |statements|
      invariant 0 <= i <= |statements| && g.Valid()
      invariant g.pieces == old(g.pieces) + StatementPieces(statements[..i], number)
    {
      assert statements[..i + 1][..i] == statements[..i];
      g.AddUser(statements[i].0, number, statements[i].1);
      g.AddRaw("\n");
      i := i + 1;
    }
    assert statements[..i] == statements;
  }

  method Build(a: Analysis, order: seq<string>, awaits: bool, referenced: seq<string>, number: nat, delta: string)
    returns (g: Generated)
    requires forall x :: x in order ==> x in a.declarations
    ensures fresh(g) && g.Valid() && g.pieces == BuildPieces(a, order, awaits, referenced, number, delta)
  {
    hide TextOf, MapOf, DeclarationPieces, PreludePieces, StatementPieces, ResultPieces;
    g := new Generated();
    AddDeclarations(g, order, a.declarations);
    g.AddRaw(Header(awaits));
    AddPrelude(g, referenced);
    AddStatements(g, a.statements, number);
    Finish(g, a.result, number, delta);
    assert [] + DeclarationPieces(order, a.declarations) == DeclarationPieces(order, a.declarations);
  }

  method Finish(g: Generated, result: Option<(string, nat)>, number: nat, delta: string)
    requires g.Valid()
    modifies g
    ensures g.Valid() && g.pieces == old(g.pieces) + ResultPieces(result, number, delta)
  {
    hide TextOf, MapOf;
    g.AddRaw("let __rnx_result = (");
    if result.Some? {
      g.AddUser(result.value.0, number, result.value.1);
    } else {
      g.AddRaw("()");
    }
    g.AddRaw(");\n(#{");
    g.AddRaw(delta);
    g.AddRaw("}, __rnx_result)\n}");
  }

  lemma CopiedInTwo(a: seq<Piece>, b: seq<Piece>, inputs: seq<string>)
    requires AllCopied(a, inputs) && AllCopied(b, inputs)
    ensures AllCopied(a + b, inputs)
  {
    hide Copied;
  }

  lemma {:induction false} DeclarationsAreCopied(order: seq<string>, declarations: map<string, Declaration>,
      inputs: seq<string>)
    requires (forall x :: x in order ==> x in declarations) && AllExact(declarations, inputs)
    ensures AllCopied(DeclarationPieces(order, declarations), inputs)
  {
    if order != [] {
      DeclarationsAreCopied(order[..|order| - 1], declarations, inputs);
      var d := declarations[order[|order| - 1]];
      assert Exact(d, inputs);
      var before := DeclarationPieces(order[..|order| - 1], declarations);
      CopiedInTwo(before, [User(d.source, d.input, d.offset), Raw("\n")], inputs);
    }
  }

  lemma {:induction false} PreludeIsCopied(referenced: seq<string>, inputs: seq<string>)
    ensures AllCopied(PreludePieces(referenced), inputs)
  {
    if referenced != [] { PreludeIsCopied(referenced[..|referenced| - 1], inputs); }
  }

  lemma {:induction false} StatementsAreCopied(statements: seq<(string, nat)>, number: nat, inputs: seq<string>)
    requires forall i :: 0 <= i < |statements| ==> Copied(statements[i].0, inputs, number, statements[i].1)
    ensures AllCopied(StatementPieces(statements, number), inputs)
  {
    hide Copied;
    if statements != [] { StatementsAreCopied(statements[..|statements| - 1], number, inputs); }
  }

  /** Everything a generated source copies is a copy of a retained input. */
  lemma BuildIsFaithful(a: Analysis, order: seq<string>, awaits: bool, referenced: seq<string>, delta: string,
      inputs: seq<string>)
    requires (forall x :: x in order ==> x in a.declarations) && FaithfulAnalysis(a, inputs, |inputs|)
    ensures var pieces := BuildPieces(a, order, awaits, referenced, |inputs|, delta);
      AllCopied(pieces, inputs) && Faithful(TextOf(pieces), MapOf(pieces), inputs)
  {
    hide Copied, Faithful, TextOf, MapOf;
    var number := |inputs|;
    DeclarationsAreCopied(order, a.declarations, inputs);
    PreludeIsCopied(referenced, inputs);
    StatementsAreCopied(a.statements, number, inputs);
    var (one, two) := (DeclarationPieces(order, a.declarations), PreludePieces(referenced));
    var (three, four) := (StatementPieces(a.statements, number), ResultPieces(a.result, number, delta));
    CopiedInTwo(one, [Raw(Header(awaits))], inputs);
    CopiedInTwo(one + [Raw(Header(awaits))], two, inputs);
    CopiedInTwo(one + [Raw(Header(awaits))] + two, three, inputs);
    CopiedInTwo(one + [Raw(Header(awaits))] + two + three, four, inputs);
    CopiesAreFaithful(BuildPieces(a, order, awaits, referenced, number, delta), inputs);
  }

  // --- What the generated text holds -----------------------------------------------------------------

  function Lines(lines: seq<string>): string {
    if lines == [] then "" else Lines(lines[..|lines| - 1]) + lines[|lines| - 1] + "\n"
  }

  /** Every line stands in the text, in order. */
  lemma {:induction false} LineStands(lines: seq<string>, k: nat)
    requires k < |lines|
    ensures Lines(lines) == Lines(lines[..k]) + lines[k] + "\n" + Lines(lines[k + 1..])
  {
    var last := |lines| - 1;
    if k == last {
      assert lines[k + 1..] == [];
    } else {
      var before := lines[..last];
      LineStands(before, k);
      assert before[..k] == lines[..k];
      assert lines[k + 1..][..last - (k + 1)] == before[k + 1..];
      assert Lines(lines[k + 1..]) == Lines(before[k + 1..]) + lines[last] + "\n";
    }
  }

  lemma {:induction false} TextInTwo(a: seq<Piece>, b: seq<Piece>)
    ensures TextOf(a + b) == TextOf(a) + TextOf(b)
  {
    if b == [] {
      assert a + b == a;
    } else {
      assert (a + b)[..|a + b| - 1] == a + b[..|b| - 1];
      TextInTwo(a, b[..|b| - 1]);
    }
  }

  lemma TextOfTwo(a: Piece, b: Piece)
    ensures TextOf([a]) == a.text && TextOf([a, b]) == a.text + b.text
  {
    assert [a, b][..1] == [a] && [a][..0] == [];
  }

  function Sources(order: seq<string>, declarations: map<string, Declaration>): seq<string>
    requires forall x :: x in order ==> x in declarations
  {
    if order == [] then []
    else Sources(order[..|order| - 1], declarations) + [declarations[order[|order| - 1]].source]
  }

  lemma {:induction false} DeclarationText(order: seq<string>, declarations: map<string, Declaration>)
    requires forall x :: x in order ==> x in declarations
    ensures TextOf(DeclarationPieces(order, declarations)) == Lines(Sources(order, declarations))
  {
    hide Lines, TextOf;
    if order == [] {
      NoText();
      NoLines();
    } else {
      var (before, d) := (order[..|order| - 1], declarations[order[|order| - 1]]);
      DeclarationText(before, declarations);
      TextInTwo(DeclarationPieces(before, declarations), [User(d.source, d.input, d.offset), Raw("\n")]);
      TextOfTwo(User(d.source, d.input, d.offset), Raw("\n"));
      LinesAppend(Sources(before, declarations), d.source);
    }
  }

  lemma LinesAppend(lines: seq<string>, line: string)
    ensures Lines(lines + [line]) == Lines(lines) + line + "\n"
  {
    assert (lines + [line])[..|lines|] == lines;
  }

  lemma NoLines()
    ensures Lines([]) == ""
  {
  }

  lemma NoText()
    ensures TextOf([]) == ""
  {
  }

  /** One restored binding. */
  function Restores(name: string): string { "let " + name + " = __rnx_state[\"" + name + "\"];" }

  function AllRestores(names: seq<string>): seq<string> {
    if names == [] then [] else AllRestores(names[..|names| - 1]) + [Restores(names[|names| - 1])]
  }

  lemma {:induction false} PreludeText(referenced: seq<string>)
    ensures TextOf(PreludePieces(referenced)) == Lines(AllRestores(referenced))
  {
    hide Lines, TextOf;
    if referenced == [] {
      NoText();
      NoLines();
    } else {
      var (before, name) := (referenced[..|referenced| - 1], referenced[|referenced| - 1]);
      PreludeText(before);
      var line := Raw("let " + name + " = __rnx_state[\"" + name + "\"];\n");
      TextInTwo(PreludePieces(before), [line]);
      TextOfTwo(line, line);
      assert line.text == Restores(name) + "\n";
      LinesAppend(AllRestores(before), Restores(name));
    }
  }

  function KeptTexts(input: string, stmts: seq<Statement>, places: seq<nat>): seq<string>
    requires WellParsed(input, stmts) && forall k :: 0 <= k < |places| ==> places[k] < |stmts|
  {
    if places == [] then []
    else KeptTexts(input, stmts, places[..|places| - 1]) + [KeptText(input, stmts, places[|places| - 1])]
  }

  lemma {:induction false} StatementText(input: string, number: nat, stmts: seq<Statement>, kept: seq<(string, nat)>,
      places: seq<nat>)
    requires WellParsed(input, stmts) && |places| == |kept|
    requires forall k :: 0 <= k < |places| ==> places[k] < |stmts| && kept[k].0 == KeptText(input, stmts, places[k])
    ensures TextOf(StatementPieces(kept, number)) == Lines(KeptTexts(input, stmts, places))
  {
    hide Lines, TextOf, WellParsed, KeptText;
    if kept == [] {
      NoText();
      NoLines();
    } else {
      var (before, last) := (kept[..|kept| - 1], kept[|kept| - 1]);
      StatementText(input, number, stmts, before, places[..|places| - 1]);
      TextInTwo(StatementPieces(before, number), [User(last.0, number, last.1), Raw("\n")]);
      TextOfTwo(User(last.0, number, last.1), Raw("\n"));
      LinesAppend(KeptTexts(input, stmts, places[..|places| - 1]), last.0);
    }
  }

  function ResultText(result: Option<(string, nat)>, delta: string): string {
    "let __rnx_result = (" + (if result.Some? then result.value.0 else "()") + ");\n(#{" + delta + "}, __rnx_result)\n}"
  }

  lemma ResultIsText(result: Option<(string, nat)>, number: nat, delta: string)
    ensures TextOf(ResultPieces(result, number, delta)) == ResultText(result, delta)
  {
    hide TextOf;
    var one := [Raw("let __rnx_result = (")];
    var two := [if result.Some? then User(result.value.0, number, result.value.1) else Raw("()")];
    var (three, four, five) := ([Raw(");\n(#{")], [Raw(delta)], [Raw("}, __rnx_result)\n}")]);
    TextInTwo(one + two + three + four, five);
    TextInTwo(one + two + three, four);
    TextInTwo(one + two, three);
    TextInTwo(one, two);
    TextOfTwo(one[0], two[0]);
    TextOfTwo(two[0], three[0]);
    TextOfTwo(three[0], four[0]);
    TextOfTwo(four[0], five[0]);
    TextOfTwo(five[0], one[0]);
  }

  lemma BuildText(a: Analysis, order: seq<string>, awaits: bool, referenced: seq<string>, number: nat, delta: string)
    requires forall x :: x in order ==> x in a.declarations
    ensures TextOf(BuildPieces(a, order, awaits, referenced, number, delta)) ==
      TextOf(DeclarationPieces(order, a.declarations)) + Header(awaits) + TextOf(PreludePieces(referenced))
      + TextOf(StatementPieces(a.statements, number)) + TextOf(ResultPieces(a.result, number, delta))
  {
    hide TextOf, DeclarationPieces, PreludePieces, StatementPieces, ResultPieces, Header;
    var (one, header) := (DeclarationPieces(order, a.declarations), [Raw(Header(awaits))]);
    var (two, three) := (PreludePieces(referenced), StatementPieces(a.statements, number));
    TextInTwo(one + header + two + three, ResultPieces(a.result, number, delta));
    TextInTwo(one + header + two, three);
    TextInTwo(one + header, two);
    TextInTwo(one, header);
    TextOfTwo(header[0], header[0]);
  }

  /** The text generated for an accepted input: the declarations, each name standing for its last item; the header; the
      restored bindings; exactly the kept statements, in order; and the final expression as the result. */
  lemma GeneratedText(input: string, number: nat, stmts: seq<Statement>, declarations: map<string, Declaration>,
      order: seq<string>, awaits: bool, referenced: seq<string>, delta: string) returns (places: seq<nat>)
    requires WellParsed(input, stmts) && forall i :: 0 <= i < |stmts| ==> !stmts[i].kind.Unsupported?
    requires var a := Analysed(input, number, stmts, |stmts|, declarations);
      a.Some? ==> forall x :: x in order ==> x in a.value.declarations
    ensures Analysed(input, number, stmts, |stmts|, declarations).Some?
    ensures var a := Analysed(input, number, stmts, |stmts|, declarations).value;
      && DeclaresLast(input, number, stmts, |stmts|, declarations, a.declarations)
      && KeepsExactly(input, stmts, |stmts|, a.statements, places)
      && TextOf(BuildPieces(a, order, awaits, referenced, number, delta)) ==
         Lines(Sources(order, a.declarations)) + Header(awaits) + Lines(AllRestores(referenced))
         + Lines(KeptTexts(input, stmts, places)) + ResultText(FinalExpression(input, stmts, |stmts|), delta)
  {
    hide WellParsed, Analysed, DeclaresLast, KeptText, FinalExpression, Kept;
    hide TextOf, BuildPieces, DeclarationPieces, PreludePieces, StatementPieces, ResultPieces;
    hide Lines, Sources, AllRestores, KeptTexts, ResultText, Header;
    places := AnalysedExactly(input, number, stmts, |stmts|, declarations);
    var a := Analysed(input, number, stmts, |stmts|, declarations).value;
    BuildText(a, order, awaits, referenced, number, delta);
    DeclarationText(order, a.declarations);
    PreludeText(referenced);
    StatementText(input, number, stmts, a.statements, places);
    ResultIsText(a.result, number, delta);
  }

  // --- Retained units ----------------------------------------------------------------------------------

  datatype Retained = Retained(unit: nat, segments: seq<Segment>)

  /** The entries whose unit something can still call. */
  function Alive(units: seq<Retained>, alive: set<nat>): seq<Retained> {
    if units == [] then []
    else
      var last := units[|units| - 1];
      Alive(units[..|units| - 1], alive) + if last.unit in alive then [last] else []
  }

  /** The map of the unit that raised an error, found by identity. */
  function MapOfUnit(units: seq<Retained>, alive: set<nat>, unit: nat): Option<seq<Segment>> {
    if units == [] then None
    else if units[0].unit in alive && units[0].unit == unit then Some(units[0].segments)
    else MapOfUnit(units[1..], alive, unit)
  }

  datatype Event = Registered(alive: set<nat>, unit: nat, segments: seq<Segment>) | Cleared

  function After(events: seq<Event>): seq<Retained> {
    if events == [] then []
    else
      match events[|events| - 1]
      case Cleared => []
      case Registered(alive, unit, segments) => Alive(After(events[..|events| - 1]), alive) + [Retained(unit, segments)]
  }

  /** Units are objects of their own: no two registrations are of the same one. */
  predicate Distinct(events: seq<Event>) {
    forall i, j :: 0 <= i < j < |events| && events[i].Registered? && events[j].Registered? ==>
      events[i].unit != events[j].unit
  }

  lemma {:induction false} AliveIsExact(units: seq<Retained>, alive: set<nat>, r: Retained)
    ensures r in Alive(units, alive) <==> r in units && r.unit in alive
  {
    if units != [] {
      AliveIsExact(units[..|units| - 1], alive, r);
      assert units == units[..|units| - 1] + [units[|units| - 1]];
    }
  }

  predicate NoneFrom(events: seq<Event>, j: nat) { forall k :: j <= k < |events| ==> !events[k].Cleared? }

  predicate Survives(events: seq<Event>, j: nat, unit: nat) {
    forall k :: j < k < |events| && events[k].Registered? ==> unit in events[k].alive
  }

  /** One event later an entry is retained if it was and its unit is alive, or if it is the one just registered. */
  lemma RetainedStep(before: seq<Event>, last: Event, r: Retained)
    ensures (exists j :: IsRetained(before + [last], j, r)) <==>
      && last.Registered?
      && (r == Retained(last.unit, last.segments) || (r.unit in last.alive && exists j :: IsRetained(before, j, r)))
  {
    var events := before + [last];
    if j: nat :| IsRetained(events, j, r) {
      assert !events[|before|].Cleared?;
      if j < |before| { Shorter(before, last, j, r); }
    }
    if last.Registered? && r == Retained(last.unit, last.segments) { assert IsRetained(events, |before|, r); }
    if last.Registered? && r.unit in last.alive {
      if j: nat :| IsRetained(before, j, r) { assert IsRetained(events, j, r); }
    }
  }

  lemma Shorter(before: seq<Event>, last: Event, j: nat, r: Retained)
    requires j < |before| && IsRetained(before + [last], j, r)
    ensures IsRetained(before, j, r) && (last.Registered? ==> r.unit in last.alive)
  {
    var events := before + [last];
    assert forall k :: 0 <= k < |before| ==> events[k] == before[k];
    assert events[|before|] == last;
  }

  /** Exactly the units registered since the last reset and alive at every registration since are retained, each
      with its own map. */
  lemma {:induction false} RetainedExactly(events: seq<Event>, r: Retained)
    ensures r in After(events) <==> exists j :: IsRetained(events, j, r)
  {
    hide IsRetained;
    if events == [] {
      NoneRetained(r);
    } else {
      var (before, last) := (events[..|events| - 1], events[|events| - 1]);
      assert events == before + [last];
      RetainedExactly(before, r);
      RetainedStep(before, last, r);
      if last.Registered? { AliveIsExact(After(before), last.alive, r); }
    }
  }

  lemma NoneRetained(r: Retained)
    ensures !exists j :: IsRetained([], j, r)
  {
  }

  ghost predicate IsRetained(events: seq<Event>, j: nat, r: Retained) {
    && j < |events| && events[j].Registered? && r == Retained(events[j].unit, events[j].segments)
    && NoneFrom(events, j) && Survives(events, j, r.unit)
  }

  lemma {:induction false} MapOfUnitIsFirst(units: seq<Retained>, alive: set<nat>, r: Retained)
    requires r in units && r.unit in alive
    requires forall o :: o in units && o.unit == r.unit ==> o == r
    ensures MapOfUnit(units, alive, r.unit) == Some(r.segments)
  {
    if units[0] != r { MapOfUnitIsFirst(units[1..], alive, r); }
  }

  lemma {:induction false} MapOfUnitIsThere(units: seq<Retained>, alive: set<nat>, unit: nat)
    requires MapOfUnit(units, alive, unit).Some?
    ensures unit in alive && Retained(unit, MapOfUnit(units, alive, unit).value) in units
  {
    if !(units[0].unit in alive && units[0].unit == unit) { MapOfUnitIsThere(units[1..], alive, unit); }
  }

  /** A unit that nothing can call is never called again: once dead at a registration, it is dead at every later one
      and at the end. */
  predicate DeadStaysDead(events: seq<Event>, alive: set<nat>) {
    forall j, i :: 0 <= j < i < |events| && events[j].Registered? && DeadAt(events, i, events[j].unit) ==>
      && events[j].unit !in alive
      && forall k :: i < k < |events| && events[k].Registered? ==> DeadAt(events, k, events[j].unit)
  }

  predicate DeadAt(events: seq<Event>, i: nat, unit: nat)
    requires i < |events|
  {
    events[i].Registered? && unit !in events[i].alive
  }

  /** Pruning never loses the map of a unit that is still reachable, and an error is never placed by another
      unit's map: a unit registered since the last reset is found with its own map exactly while it is alive. */
  lemma ReachableKeepsItsMap(events: seq<Event>, j: nat, alive: set<nat>)
    requires Distinct(events) && DeadStaysDead(events, alive)
    requires j < |events| && events[j].Registered? && NoneFrom(events, j)
    ensures events[j].unit in alive ==> MapOfUnit(After(events), alive, events[j].unit) == Some(events[j].segments)
    ensures events[j].unit !in alive ==> MapOfUnit(After(events), alive, events[j].unit).None?
  {
    var r := Retained(events[j].unit, events[j].segments);
    if r.unit in alive {
      forall k | j < k < |events| && events[k].Registered? ensures r.unit in events[k].alive {
        assert !DeadAt(events, k, events[j].unit);
      }
      assert IsRetained(events, j, r);
      RetainedExactly(events, r);
      forall o | o in After(events) && o.unit == r.unit ensures o == r {
        RetainedExactly(events, o);
        var k :| IsRetained(events, k, o);
      }
      MapOfUnitIsFirst(After(events), alive, r);
    } else if MapOfUnit(After(events), alive, r.unit).Some? {
      MapOfUnitIsThere(After(events), alive, r.unit);
    }
  }

  // --- Whole sessions --------------------------------------------------------------------------------------

  class Session {
    var inputs: seq<string>
    var declarations: map<string, Declaration>
    var units: seq<Retained>
    /** What happened to the units, and the text each was compiled from. */
    ghost var events: seq<Event>
    ghost var texts: map<nat, string>

    ghost predicate Valid()
      reads this
    {
      && AllExact(declarations, inputs)
      && units == After(events)
      && forall r :: r in units ==> r.unit in texts && Faithful(texts[r.unit], r.segments, inputs)
    }

    constructor ()
      ensures Valid() && inputs == [] && events == []
    {
      inputs, declarations, units, events, texts := [], map[], [], [], map[];
    }

    method Analyze(stmts: seq<Statement>) returns (a: Option<Analysis>)
      requires inputs != [] && WellParsed(inputs[|inputs| - 1], stmts)
      ensures a == Analysed(inputs[|inputs| - 1], |inputs|, stmts, |stmts|, declarations)
      ensures a.Some? <==> forall i :: 0 <= i < |stmts| ==> !stmts[i].kind.Unsupported?
      ensures var (input, number) := (inputs[|inputs| - 1], |inputs|);
        a.Some? ==>
          && (exists places :: KeepsExactly(input, stmts, |stmts|, a.value.statements, places))
          && DeclaresLast(input, number, stmts, |stmts|, declarations, a.value.declarations)
          && a.value.result == FinalExpression(input, stmts, |stmts|)
    {
      hide WellParsed, SourceOf, TrimStart, TrimEnd, Analyse, KeepsExactly, DeclaresLast, FinalExpression;
      var (input, number) := (inputs[|inputs| - 1], |inputs|);
      ghost var places := AnalysedExactly(input, number, stmts, |stmts|, declarations);
      var so := Analysis(declarations, [], None);
      for i := 0 to |stmts|
        invariant Analysed(input, number, stmts, i, declarations) == Some(so)
      {
        var next := Analyse(so, input, number, stmts, i);
        if next.None? {
          NeverAnalysed(input, number, stmts, i + 1, |stmts|, declarations);
          return None;
        }
        so := next.value;
      }
      return Some(so);
    }

    /** One admitted input. It may not parse, be refused, not compile, or fail when run; each leaves every map it
        retains faithful, and only a success replaces the declarations. */
    method Input(text: string, parsed: Option<seq<Statement>>, order: seq<string>, referenced: seq<string>,
        delta: string, compiles: Option<bool>, succeeds: bool, unit: nat, alive: set<nat>)
      requires Valid() && unit !in texts
      requires parsed.Some? ==> WellParsed(text, parsed.value)
      requires parsed.Some? ==>
        var a := Analysed(text, |inputs| + 1, parsed.value, |parsed.value|, declarations);
        a.Some? ==> forall x :: x in order ==> x in a.value.declarations
      modifies this
      ensures Valid() && inputs == old(inputs) + [text]
      ensures var a := if parsed.None? then None
                       else Analysed(text, |inputs|, parsed.value, |parsed.value|, old(declarations));
        if a.None? || compiles.None? then declarations == old(declarations) && events == old(events)
        else
          var pieces := BuildPieces(a.value, order, compiles.value, referenced, |inputs|, delta);
          && declarations == (if succeeds then a.value.declarations else old(declarations))
          && events == old(events) + [Registered(alive, unit, MapOf(pieces))]
          && texts == old(texts)[unit := TextOf(pieces)]
    {
      hide Analysed, BuildPieces, TextOf, MapOf, Faithful, AllExact, WellParsed, After;
      inputs := inputs + [text];
      assert inputs[|inputs| - 1] == text;
      Admitted(old(units), old(declarations), old(texts), old(inputs), text);
      if parsed.None? { return; }
      var a := Analyze(parsed.value);
      AnalysisIsFaithful(inputs, parsed.value, |parsed.value|, declarations);
      if a.None? || compiles.None? { return; }
      var g := Build(a.value, order, compiles.value, referenced, |inputs|, delta);
      BuildIsFaithful(a.value, order, compiles.value, referenced, delta, inputs);
      Register(unit, alive, g.segments, g.text);
      if succeeds { declarations := a.value.declarations; }
    }

    /** Drops the entries nothing can call and adds the new one. */
    method Register(unit: nat, alive: set<nat>, segments: seq<Segment>, ghost text: string)
      requires Valid() && unit !in texts && Faithful(text, segments, inputs)
      modifies `units, `events, `texts
      ensures Valid() && events == old(events) + [Registered(alive, unit, segments)]
      ensures texts == old(texts)[unit := text]
    {
      hide Faithful, AllExact;
      var kept := [];
      var i := 0;
      while i < |units|
        invariant 0 <= i <= |units| && kept == Alive(units[..i], alive)
      {
        assert units[..i + 1][..i] == units[..i];
        if units[i].unit in alive { kept := kept + [units[i]]; }
        i := i + 1;
      }
      assert units[..i] == units;
      units := kept + [Retained(unit, segments)];
      events := events + [Registered(alive, unit, segments)];
      texts := texts[unit := text];
      assert events[..|events| - 1] == old(events);
      forall r | r in units ensures r.unit in texts && Faithful(texts[r.unit], r.segments, inputs) {
        AliveIsExact(old(units), alive, r);
      }
    }

    method Reset()
      requires Valid()
      modifies this
      ensures Valid() && inputs == [] && declarations == map[] && events == old(events) + [Cleared]
    {
      inputs, declarations, units := [], map[], [];
      events := events + [Cleared];
    }
  }

  lemma {:induction false} NeverAnalysed(input: string, number: nat, stmts: seq<Statement>, n: nat, m: nat,
      declarations: map<string, Declaration>)
    requires WellParsed(input, stmts) && n <= m <= |stmts| && Analysed(input, number, stmts, n, declarations).None?
    ensures Analysed(input, number, stmts, m, declarations).None?
    decreases m
  {
    hide WellParsed, Analyse;
    if n < m { NeverAnalysed(input, number, stmts, n, m - 1, declarations); }
  }

  /** Admitting an input keeps everything retained faithful. */
  lemma Admitted(units: seq<Retained>, declarations: map<string, Declaration>, texts: map<nat, string>,
      inputs: seq<string>, text: string)
    requires AllExact(declarations, inputs)
    requires forall r :: r in units ==> r.unit in texts && Faithful(texts[r.unit], r.segments, inputs)
    ensures AllExact(declarations, inputs + [text])
    ensures forall r :: r in units ==> Faithful(texts[r.unit], r.segments, inputs + [text])
  {
    hide Faithful;
    forall x | x in declarations ensures Exact(declarations[x], inputs + [text]) {
      assert (inputs + [text])[declarations[x].input - 1] == inputs[declarations[x].input - 1];
    }
    forall r | r in units ensures Faithful(texts[r.unit], r.segments, inputs + [text]) {
      MoreInputsKeepCopies(texts[r.unit], r.segments, inputs, [text]);
    }
  }
}
