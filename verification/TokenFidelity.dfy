/**
 The formatter's fidelity checks (`src/source_fmt.rs`): commas the renderer inserted are found and deleted again,
 and comments are found between the tokens. Offsets count characters.
 */
module TokenFidelity {
  import opened Wrappers

  datatype Span = Span(start: nat, end: nat)

  /** A token: the discriminant of its kind, its text and where it stands. */
  datatype Token = Token(kind: nat, text: string, span: Span)

  const COMMA: nat := 0

  /** Spans and payloads do not matter, only the kind's discriminant and the text. */
  predicate Same(a: Token, b: Token) { a.kind == b.kind && a.text == b.text }

  predicate IsComma(t: Token) { t.kind == COMMA && t.text == "," }

  // --- Commas removed, any way at all ---------------------------------------------------------------

  /** The tokens that a choice of flags keeps. */
  function Kept(tokens: seq<Token>, keep: seq<bool>): seq<Token>
    requires |tokens| == |keep|
  {
    if tokens == [] then [] else (if keep[0] then [tokens[0]] else []) + Kept(tokens[1..], keep[1..])
  }

  function Dropped(tokens: seq<Token>, keep: seq<bool>): seq<Span>
    requires |tokens| == |keep|
  {
    if tokens == [] then [] else (if keep[0] then [] else [tokens[0].span]) + Dropped(tokens[1..], keep[1..])
  }

  predicate SameAll(a: seq<Token>, b: seq<Token>) { |a| == |b| && forall i :: 0 <= i < |a| ==> Same(a[i], b[i]) }

  /** A choice that drops commas only and leaves the original tokens. */
  predicate Explains(original: seq<Token>, rendered: seq<Token>, keep: seq<bool>) {
    && |keep| == |rendered|
    && (forall i :: 0 <= i < |rendered| && !keep[i] ==> IsComma(rendered[i]))
    && SameAll(original, Kept(rendered, keep))
  }

  // --- The greedy matching -----------------------------------------------------------------------------

  function Greedy(original: seq<Token>, rendered: seq<Token>): Option<seq<bool>>
    decreases |rendered|
  {
    if rendered == [] then if original == [] then Some([]) else None
    else
      var matched := original != [] && Same(original[0], rendered[0]);
      if !matched && !IsComma(rendered[0]) then None
      else
        var rest := Greedy(if matched then original[1..] else original, rendered[1..]);
        if rest.None? then None else Some([matched] + rest.value)
  }

  lemma {:induction false} GreedyIsSound(original: seq<Token>, rendered: seq<Token>)
    requires Greedy(original, rendered).Some?
    ensures Explains(original, rendered, Greedy(original, rendered).value)
    decreases |rendered|
  {
    if rendered != [] {
      var matched := original != [] && Same(original[0], rendered[0]);
      var keep := Greedy(original, rendered).value;
      GreedyIsSound(if matched then original[1..] else original, rendered[1..]);
      assert keep[1..] == Greedy(if matched then original[1..] else original, rendered[1..]).value;
      forall i | 0 <= i < |rendered| && !keep[i] ensures IsComma(rendered[i]) {
        if i > 0 { assert rendered[i] == rendered[1..][i - 1] && keep[i] == keep[1..][i - 1]; }
      }
    }
  }

  /** A comma that leads both lists may as well be matched: whatever matched it later can be dropped instead. */
  lemma {:induction false} MatchTheFirst(original: seq<Token>, rendered: seq<Token>, keep: seq<bool>)
    returns (other: seq<bool>)
    requires original != [] && IsComma(original[0]) && Explains(original, rendered, keep)
    ensures Explains(original[1..], rendered, other)
    decreases |rendered|
  {
    assert rendered != [];
    if keep[0] {
      other := [false] + keep[1..];
      assert Same(original[0], rendered[0]);
      assert Kept(rendered, other) == Kept(rendered[1..], keep[1..]);
      assert Kept(rendered, keep) == [rendered[0]] + Kept(rendered[1..], keep[1..]);
    } else {
      assert Kept(rendered, keep) == Kept(rendered[1..], keep[1..]);
      var rest := MatchTheFirst(original, rendered[1..], keep[1..]);
      other := [false] + rest;
      assert Kept(rendered, other) == Kept(rendered[1..], rest);
    }
  }

  lemma {:induction false} GreedyIsComplete(original: seq<Token>, rendered: seq<Token>, keep: seq<bool>)
    requires Explains(original, rendered, keep)
    ensures Greedy(original, rendered).Some?
    decreases |rendered|
  {
    if rendered != [] {
      var (kept, rest) := (Kept(rendered, keep), Kept(rendered[1..], keep[1..]));
      assert kept == (if keep[0] then [rendered[0]] else []) + rest;
      if original != [] && Same(original[0], rendered[0]) {
        if keep[0] {
          assert Explains(original[1..], rendered[1..], keep[1..]);
          GreedyIsComplete(original[1..], rendered[1..], keep[1..]);
        } else {
          assert Explains(original, rendered[1..], keep[1..]);
          var other := MatchTheFirst(original, rendered[1..], keep[1..]);
          GreedyIsComplete(original[1..], rendered[1..], other);
        }
      } else {
        assert !keep[0];
        assert Explains(original, rendered[1..], keep[1..]);
        GreedyIsComplete(original, rendered[1..], keep[1..]);
      }
    }
  }

  /** The matching succeeds exactly when the original is the rendered list with some commas removed. */
  method InsertedCommas(original: seq<Token>, rendered: seq<Token>) returns (r: Result<seq<Span>, string>)
    ensures r.Ok? <==> exists keep :: Explains(original, rendered, keep)
    ensures r.Ok? ==> exists keep :: Explains(original, rendered, keep) && r.value == Dropped(rendered, keep)
  {
    var index := 0;
    var spans: seq<Span> := [];
    ghost var flags: seq<bool> := [];
    var i := 0;
    assert original[0..] == original && rendered[0..] == rendered;
    ghost var all := Greedy(original, rendered);
    assert all.Some? ==> [] + all.value == all.value;
    while i < |rendered|
      invariant 0 <= i <= |rendered| && 0 <= index <= |original| && |flags| == i
      invariant Greedy(original, rendered) == Prefixed(flags, Greedy(original[index..], rendered[i..]))
      invariant spans == Dropped(rendered[..i], flags)
    {
      var token := rendered[i];
      assert original[index..] != [] ==> original[index..][0] == original[index];
      assert rendered[i..][0] == token && rendered[i..][1..] == rendered[i + 1..];
      assert index < |original| ==> original[index..][1..] == original[index + 1..];
      if index < |original| && Same(original[index], token) {
        PrefixedTwice(flags, true, Greedy(original[index + 1..], rendered[i + 1..]));
        DroppedGrows(rendered[..i], flags, token, true);
        index := index + 1;
        flags := flags + [true];
      } else if IsComma(token) {
        PrefixedTwice(flags, false, Greedy(original[index..], rendered[i + 1..]));
        DroppedGrows(rendered[..i], flags, token, false);
        spans := spans + [token.span];
        flags := flags + [false];
      } else {
        NotExplained(original, rendered);
        return Err("formatter changed a non-whitespace token");
      }
      assert rendered[..i + 1] == rendered[..i] + [token];
      i := i + 1;
    }
    assert rendered[i..] == [] && rendered[..i] == rendered;
    if index != |original| {
      assert original[index..] != [];
      NotExplained(original, rendered);
      return Err("formatter removed source tokens");
    }
    assert original[index..] == [] && flags + [] == flags;
    GreedyIsSound(original, rendered);
    return Ok(spans);
  }

  function Prefixed(flags: seq<bool>, r: Option<seq<bool>>): Option<seq<bool>> {
    if r.None? then None else Some(flags + r.value)
  }

  lemma PrefixedTwice(flags: seq<bool>, flag: bool, r: Option<seq<bool>>)
    ensures Prefixed(flags, Prefixed([flag], r)) == Prefixed(flags + [flag], r)
  {
    if r.Some? { assert flags + ([flag] + r.value) == flags + [flag] + r.value; }
  }

  lemma {:induction false} DroppedGrows(tokens: seq<Token>, keep: seq<bool>, t: Token, flag: bool)
    requires |tokens| == |keep|
    ensures Dropped(tokens + [t], keep + [flag]) == Dropped(tokens, keep) + if flag then [] else [t.span]
  {
    if tokens == [] {
      assert tokens + [t] == [t] && keep + [flag] == [flag];
    } else {
      DroppedGrows(tokens[1..], keep[1..], t, flag);
      assert (tokens + [t])[1..] == tokens[1..] + [t] && (keep + [flag])[1..] == keep[1..] + [flag];
    }
  }

  lemma NotExplained(original: seq<Token>, rendered: seq<Token>)
    requires Greedy(original, rendered).None?
    ensures !exists keep :: Explains(original, rendered, keep)
  {
    if keep :| Explains(original, rendered, keep) { GreedyIsComplete(original, rendered, keep); }
  }

  // --- Deleting the commas --------------------------------------------------------------------------------

  /** Tokens stand in a text in order, without overlapping, each where its text is. */
  predicate StandIn(tokens: seq<Token>, text: string, from: nat) {
    if tokens == [] then from <= |text|
    else
      var (span, rest) := (tokens[0].span, tokens[1..]);
      from <= span.start <= span.end <= |text| && text[span.start..span.end] == tokens[0].text
      && StandIn(rest, text, span.end)
  }

  predicate InOrder(spans: seq<Span>, from: nat, limit: nat) {
    if spans == [] then from <= limit
    else from <= spans[0].start <= spans[0].end <= limit && InOrder(spans[1..], spans[0].end, limit)
  }

  /** What is left of a text between the spans. */
  function Between(text: string, spans: seq<Span>, from: nat): string
    requires InOrder(spans, from, |text|)
  {
    if spans == [] then text[from..]
    else text[from..spans[0].start] + Between(text, spans[1..], spans[0].end)
  }

  lemma {:induction false} LastInOrder(spans: seq<Span>, from: nat, limit: nat)
    requires spans != [] && InOrder(spans, from, limit)
    ensures var (before, last) := (spans[..|spans| - 1], spans[|spans| - 1]);
      from <= last.start <= last.end <= limit && InOrder(before, from, last.start) && InOrder(before, from, limit)
  {
    if |spans| > 1 {
      LastInOrder(spans[1..], spans[0].end, limit);
      assert spans[..|spans| - 1][1..] == spans[1..][..|spans| - 2];
    }
  }

  /** Deleting the last span first leaves the earlier ones where they were. */
  lemma {:induction false} DeleteLast(text: string, spans: seq<Span>, from: nat)
    requires spans != [] && InOrder(spans, from, |text|)
    ensures var (before, last) := (spans[..|spans| - 1], spans[|spans| - 1]);
      && last.start <= last.end <= |text|
      && var cut := text[..last.start] + text[last.end..];
         InOrder(before, from, |cut|) && Between(cut, before, from) == Between(text, spans, from)
  {
    LastInOrder(spans, from, |text|);
    var (before, last) := (spans[..|spans| - 1], spans[|spans| - 1]);
    var cut := text[..last.start] + text[last.end..];
    WiderLimit(before, from, last.start, |cut|);
    if |spans| == 1 {
      assert spans[1..] == [] && before == [];
      assert cut[from..] == text[from..last.start] + text[last.end..];
    } else {
      DeleteLast(text, spans[1..], spans[0].end);
      assert before[1..] == spans[1..][..|spans| - 2] && before[0] == spans[0];
      LastInOrder(spans[1..], spans[0].end, |text|);
      SpanBefore(before, from, last.start);
      assert cut[from..spans[0].start] == text[from..spans[0].start];
    }
  }

  lemma SpanBefore(spans: seq<Span>, from: nat, limit: nat)
    requires spans != [] && InOrder(spans, from, limit)
    ensures spans[0].start <= spans[0].end <= limit
  {
  }

  lemma {:induction false} WiderLimit(spans: seq<Span>, from: nat, limit: nat, more: nat)
    requires InOrder(spans, from, limit) && limit <= more
    ensures InOrder(spans, from, more)
  {
    if spans != [] { WiderLimit(spans[1..], spans[0].end, limit, more); }
  }

  /** Deletes spans from the last to the first, in place. */
  method DeleteSpans(text: string, spans: seq<Span>) returns (output: string)
    requires InOrder(spans, 0, |text|)
    ensures output == Between(text, spans, 0)
  {
    hide Between, InOrder;
    output := text;
    var n := |spans|;
    assert spans[..n] == spans;
    while n > 0
      invariant 0 <= n <= |spans| && InOrder(spans[..n], 0, |output|)
      invariant Between(output, spans[..n], 0) == Between(text, spans, 0)
    {
      DeleteLast(output, spans[..n], 0);
      assert spans[..n][..n - 1] == spans[..n - 1];
      output := output[..spans[n - 1].start] + output[spans[n - 1].end..];
      n := n - 1;
    }
    NothingBetween(output);
  }

  lemma NothingBetween(text: string)
    ensures InOrder([], 0, |text|) && Between(text, [], 0) == text
  {
  }

  /** The tokens that are kept, moved to where they stand once the others are gone. */
  function Moved(tokens: seq<Token>, keep: seq<bool>, gone: nat): seq<Token>
    requires |tokens| == |keep|
  {
    if tokens == [] then []
    else
      var (t, length) := (tokens[0], tokens[0].span.end - tokens[0].span.start);
      if keep[0] then
        var fits := gone <= t.span.start <= t.span.end;
        [t.(span := if fits then Span(t.span.start - gone, t.span.end - gone) else t.span)]
        + Moved(tokens[1..], keep[1..], gone)
      else Moved(tokens[1..], keep[1..], if length >= 0 then gone + length else gone)
  }

  lemma {:induction false} DroppedInOrder(tokens: seq<Token>, keep: seq<bool>, text: string, from: nat, at: nat)
    requires |tokens| == |keep| && StandIn(tokens, text, from) && at <= from
    ensures InOrder(Dropped(tokens, keep), at, |text|)
    decreases |tokens|
  {
    if tokens != [] {
      if keep[0] {
        DroppedInOrder(tokens[1..], keep[1..], text, tokens[0].span.end, at);
        assert Dropped(tokens, keep) == Dropped(tokens[1..], keep[1..]);
      } else {
        DroppedInOrder(tokens[1..], keep[1..], text, tokens[0].span.end, tokens[0].span.end);
        assert Dropped(tokens, keep)[1..] == Dropped(tokens[1..], keep[1..]);
      }
    } else {
      assert Dropped(tokens, keep) == [];
    }
  }

  lemma {:induction false} MovedIsSame(tokens: seq<Token>, keep: seq<bool>, gone: nat)
    requires |tokens| == |keep|
    ensures SameAll(Moved(tokens, keep, gone), Kept(tokens, keep))
    decreases |tokens|
  {
    if tokens != [] {
      var length := tokens[0].span.end - tokens[0].span.start;
      MovedIsSame(tokens[1..], keep[1..], if !keep[0] && length >= 0 then gone + length else gone);
    }
  }

  lemma BetweenStarts(text: string, spans: seq<Span>, at: nat, p: nat)
    requires InOrder(spans, at, |text|) && at <= p <= |text| && (spans != [] ==> p <= spans[0].start)
    ensures |Between(text, spans, at)| >= p - at && Between(text, spans, at)[..p - at] == text[at..p]
  {
  }

  lemma StandLower(tokens: seq<Token>, text: string, from: nat, lower: nat)
    requires StandIn(tokens, text, from) && lower <= from
    ensures StandIn(tokens, text, lower)
  {
  }

  /** After the deletion the kept tokens stand in the text, in order and unchanged. `done` is what the text
      before `at` has become. */
  lemma {:induction false} MovedStand(tokens: seq<Token>, keep: seq<bool>, text: string, from: nat, at: nat,
      done: string)
    requires |tokens| == |keep| && StandIn(tokens, text, from) && at <= from && |done| <= at
    ensures InOrder(Dropped(tokens, keep), at, |text|)
    ensures var output := done + Between(text, Dropped(tokens, keep), at);
      StandIn(Moved(tokens, keep, at - |done|), output, |done| + (from - at))
    decreases |tokens|
  {
    hide StandIn, Between, InOrder;
    DroppedInOrder(tokens, keep, text, from, at);
    if tokens == [] {
      NoneStand(text, from, at, done);
    } else {
      StandStep(tokens, text, from);
      var span := tokens[0].span;
      if keep[0] {
        MovedStand(tokens[1..], keep[1..], text, span.end, at, done);
        KeptStands(tokens, keep, text, from, at, done);
      } else {
        var before := done + text[at..span.start];
        MovedStand(tokens[1..], keep[1..], text, span.end, span.end, before);
        DroppedStands(tokens, keep, text, from, at, done);
      }
    }
  }

  lemma NoneStand(text: string, from: nat, at: nat, done: string)
    requires StandIn([], text, from) && at <= from
    ensures InOrder([], at, |text|) && StandIn([], done + Between(text, [], at), |done| + (from - at))
  {
  }

  lemma KeptStands(tokens: seq<Token>, keep: seq<bool>, text: string, from: nat, at: nat, done: string)
    requires tokens != [] && |tokens| == |keep| && keep[0] && StandIn(tokens, text, from) && at <= from && |done| <= at
    requires InOrder(Dropped(tokens[1..], keep[1..]), at, |text|)
    requires var output := done + Between(text, Dropped(tokens[1..], keep[1..]), at);
      StandIn(Moved(tokens[1..], keep[1..], at - |done|), output, |done| + (tokens[0].span.end - at))
    ensures var spans := Dropped(tokens, keep);
      && spans == Dropped(tokens[1..], keep[1..])
      && StandIn(Moved(tokens, keep, at - |done|), done + Between(text, spans, at), |done| + (from - at))
  {
    hide Between, InOrder;
    StandStep(tokens, text, from);
    var (span, spans, gone) := (tokens[0].span, Dropped(tokens[1..], keep[1..]), at - |done|);
    var output := done + Between(text, spans, at);
    DroppedInOrder(tokens[1..], keep[1..], text, span.end, span.end);
    StartsAfter(spans, span.end, |text|);
    BetweenStarts(text, spans, at, span.end);
    var moved := Moved(tokens, keep, gone);
    assert moved[1..] == Moved(tokens[1..], keep[1..], gone);
    SliceMoves(text, Between(text, spans, at), at, span, done);
  }

  lemma StartsAfter(spans: seq<Span>, from: nat, limit: nat)
    requires InOrder(spans, from, limit)
    ensures spans != [] ==> from <= spans[0].start
  {
  }

  lemma SliceMoves(text: string, rest: string, at: nat, span: Span, done: string)
    requires at <= span.start <= span.end <= |text| && |done| <= at && |rest| >= span.end - at
    requires rest[..span.end - at] == text[at..span.end]
    ensures var (output, gone) := (done + rest, at - |done|);
      span.end - gone <= |output| && output[span.start - gone..span.end - gone] == text[span.start..span.end]
  {
    var (output, gone) := (done + rest, at - |done|);
    forall k | span.start <= k < span.end ensures output[k - gone] == text[k] {
      assert rest[..span.end - at][k - at] == text[at..span.end][k - at];
    }
  }

  lemma DroppedStands(tokens: seq<Token>, keep: seq<bool>, text: string, from: nat, at: nat, done: string)
    requires tokens != [] && |tokens| == |keep| && !keep[0] && StandIn(tokens, text, from) && at <= from && |done| <= at
    requires InOrder(Dropped(tokens[1..], keep[1..]), tokens[0].span.end, |text|)
    requires var (span, rest) := (tokens[0].span, Dropped(tokens[1..], keep[1..]));
      && at <= span.start <= span.end <= |text|
      && var before := done + text[at..span.start];
         StandIn(Moved(tokens[1..], keep[1..], span.end - |before|), before + Between(text, rest, span.end), |before|)
    ensures var spans := Dropped(tokens, keep);
      && InOrder(spans, at, |text|)
      && StandIn(Moved(tokens, keep, at - |done|), done + Between(text, spans, at), |done| + (from - at))
  {
    hide StandIn;
    StandStep(tokens, text, from);
    var (span, rest, spans) := (tokens[0].span, Dropped(tokens[1..], keep[1..]), Dropped(tokens, keep));
    var before := done + text[at..span.start];
    assert spans[0] == span && spans[1..] == rest;
    assert done + (text[at..span.start] + Between(text, rest, span.end)) == before + Between(text, rest, span.end);
    StandLower(Moved(tokens[1..], keep[1..], span.end - |before|), before + Between(text, rest, span.end), |before|,
      |done| + (from - at));
  }

  lemma StandStep(tokens: seq<Token>, text: string, from: nat)
    requires tokens != [] && StandIn(tokens, text, from)
    ensures var span := tokens[0].span;
      from <= span.start <= span.end <= |text| && text[span.start..span.end] == tokens[0].text
      && StandIn(tokens[1..], text, span.end)
  {
  }

  /** Deleting the commas found, last first, leaves a text in which the original tokens stand. */
  method RemoveCommas(original: seq<Token>, rendered: seq<Token>, text: string) returns (r: Result<string, string>)
    requires StandIn(rendered, text, 0)
    ensures r.Ok? <==> exists keep :: Explains(original, rendered, keep)
    ensures r.Ok? ==> exists tokens :: SameAll(original, tokens) && StandIn(tokens, r.value, 0)
    ensures r.Ok? ==> |text| - |r.value| == |rendered| - |original|
  {
    hide StandIn, Between, InOrder;
    var spans := InsertedCommas(original, rendered);
    if spans.Err? { return Err(spans.error); }
    ghost var keep :| Explains(original, rendered, keep) && spans.value == Dropped(rendered, keep);
    DroppedInOrder(rendered, keep, text, 0, 0);
    MovedStand(rendered, keep, text, 0, 0, "");
    MovedIsSame(rendered, keep, 0);
    OneEach(rendered, keep, text, 0, 0);
    var output := DeleteSpans(text, spans.value);
    assert "" + output == output;
    assert StandIn(Moved(rendered, keep, 0), output, 0);
    return Ok(output);
  }

  lemma {:induction false} OneEach(tokens: seq<Token>, keep: seq<bool>, text: string, from: nat, at: nat)
    requires |tokens| == |keep| && StandIn(tokens, text, from) && at <= from
    requires forall i :: 0 <= i < |tokens| && !keep[i] ==> IsComma(tokens[i])
    requires InOrder(Dropped(tokens, keep), at, |text|)
    ensures |Between(text, Dropped(tokens, keep), at)| == |text| - at - (|tokens| - |Kept(tokens, keep)|)
    decreases |tokens|
  {
    if tokens != [] {
      var span := tokens[0].span;
      if keep[0] {
        assert Dropped(tokens, keep) == Dropped(tokens[1..], keep[1..]);
        OneEach(tokens[1..], keep[1..], text, span.end, at);
      } else {
        assert Dropped(tokens, keep)[1..] == Dropped(tokens[1..], keep[1..]);
        assert |text[span.start..span.end]| == 1;
        OneEach(tokens[1..], keep[1..], text, span.end, span.end);
      }
    }
  }
}
