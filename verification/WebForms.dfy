/**
 Percent decoding and form parsing (`src/web.rs`): section 2.1 of RFC 3986 over bytes, checked
 against UTF-8 one character at a time without a copy, and then decoded for real.
 */
module WebForms {
  import opened Wrappers
  import opened Utf8
  import opened Numerals
  import opened Search

  const BODY: nat := 1048576
  const PAIRS: nat := 1024

  const PERCENT: Byte := 0x25
  const PLUS: Byte := 0x2B
  const SPACE: Byte := 0x20
  const AMPERSAND: Byte := 0x26
  const EQUALS: Byte := 0x3D

  predicate IsTriplet(bs: seq<Byte>) {
    |bs| >= 3 && bs[0] == PERCENT && HexValue(bs[1]).Some? && HexValue(bs[2]).Some?
  }

  /** The decoded bytes of a component. */
  function Percent(bs: seq<Byte>, plus: bool): (out: seq<Byte>)
    ensures |out| <= |bs|
  {
    if bs == [] then []
    else if IsTriplet(bs)
    then [HexValue(bs[1]).value * 16 + HexValue(bs[2]).value] + Percent(bs[3..], plus)
    else [if plus && bs[0] == PLUS then SPACE else bs[0]] + Percent(bs[1..], plus)
  }

  // --- What percent decoding undoes ---------------------------------------------------------

  /** How a sender may write one byte: itself, a triplet in either case of hex, or a plus for a space. */
  datatype Spelling = Itself | Triplet(upperHigh: bool, upperLow: bool) | PlusForSpace

  function Spell(b: Byte, s: Spelling): seq<Byte> {
    match s
    case Itself => [b]
    case Triplet(high, low) => [PERCENT, Digit(b / 16, high), Digit(b % 16, low)]
    case PlusForSpace => [PLUS]
  }

  function SpellAll(bs: seq<Byte>, ss: seq<Spelling>): seq<Byte>
    requires |bs| == |ss|
  {
    if bs == [] then [] else Spell(bs[0], ss[0]) + SpellAll(bs[1..], ss[1..])
  }

  /** A byte may stand for itself unless it would be read as something else: a plus where that is a space, or a
      percent sign that two hexadecimal digits follow. */
  predicate Spells(b: Byte, s: Spelling, rest: seq<Byte>, plus: bool) {
    match s
    case Itself => !(plus && b == PLUS) && !IsTriplet([b] + rest)
    case Triplet(_, _) => true
    case PlusForSpace => plus && b == SPACE
  }

  predicate SpellsAll(bs: seq<Byte>, ss: seq<Spelling>, plus: bool) {
    && |bs| == |ss|
    && (bs != [] ==> Spells(bs[0], ss[0], SpellAll(bs[1..], ss[1..]), plus) && SpellsAll(bs[1..], ss[1..], plus))
  }

  lemma PercentUndoesOne(b: Byte, s: Spelling, rest: seq<Byte>, plus: bool)
    requires Spells(b, s, rest, plus)
    ensures Percent(Spell(b, s) + rest, plus) == [b] + Percent(rest, plus)
  {
    hide HexValue, Digit;
    var all := Spell(b, s) + rest;
    if s.Triplet? {
      DigitReads(b / 16, s.upperHigh);
      DigitReads(b % 16, s.upperLow);
      assert all[3..] == rest;
      assert b / 16 * 16 + b % 16 == b;
    } else if s.Itself? {
      assert all == [b] + rest && all[1..] == rest;
    } else {
      assert all[0] == PLUS && all[1..] == rest;
    }
  }

  /** Every spelling of a byte string decodes to that byte string. */
  lemma {:induction false} PercentUndoesSpelling(bs: seq<Byte>, ss: seq<Spelling>, plus: bool)
    requires SpellsAll(bs, ss, plus)
    ensures Percent(SpellAll(bs, ss), plus) == bs
  {
    hide Spell, Spells;
    if bs != [] {
      PercentUndoesSpelling(bs[1..], ss[1..], plus);
      PercentUndoesOne(bs[0], ss[0], SpellAll(bs[1..], ss[1..]), plus);
    }
  }

  /** How the first byte of a component is spelled, and how much of the component that takes. */
  function SpellingOf(bs: seq<Byte>, plus: bool): (Spelling, nat)
    requires bs != []
  {
    if IsTriplet(bs) then (Triplet(bs[1] < 0x60, bs[2] < 0x60), 3)
    else (if plus && bs[0] == PLUS then PlusForSpace else Itself, 1)
  }

  lemma UpperOrLower(code: Byte)
    requires HexValue(code).Some?
    ensures Digit(HexValue(code).value, code < 0x60) == code
  {
  }

  lemma DecodesFirst(bs: seq<Byte>, plus: bool)
    requires bs != []
    ensures var ((spelling, n), out) := (SpellingOf(bs, plus), Percent(bs, plus));
      && n <= |bs| && out != [] && out[1..] == Percent(bs[n..], plus) && bs == Spell(out[0], spelling) + bs[n..]
      && Spells(out[0], spelling, bs[n..], plus)
  {
    hide HexValue, Digit;
    if IsTriplet(bs) {
      var (high, low) := (HexValue(bs[1]).value, HexValue(bs[2]).value);
      UpperOrLower(bs[1]);
      UpperOrLower(bs[2]);
      assert (high * 16 + low) / 16 == high && (high * 16 + low) % 16 == low;
      assert bs == bs[..3] + bs[3..];
    } else {
      assert bs == [bs[0]] + bs[1..];
    }
  }

  /** Every component is a spelling of what it decodes to, a stray percent sign standing for itself. */
  lemma {:induction false} EveryComponentIsSpelled(bs: seq<Byte>, plus: bool) returns (ss: seq<Spelling>)
    ensures SpellsAll(Percent(bs, plus), ss, plus) && SpellAll(Percent(bs, plus), ss) == bs
    decreases |bs|
  {
    hide Percent, Spell, Spells, IsTriplet;
    if bs == [] {
      ss := [];
      assert Percent([], plus) == [] by { NothingDecoded(plus); }
    } else {
      var ((spelling, n), out) := (SpellingOf(bs, plus), Percent(bs, plus));
      DecodesFirst(bs, plus);
      var rest := EveryComponentIsSpelled(bs[n..], plus);
      ss := [spelling] + rest;
      assert ss[1..] == rest;
    }
  }

  lemma NothingDecoded(plus: bool)
    ensures Percent([], plus) == []
  {
  }

  // --- The streaming decoder ---------------------------------------------------------------

  /** The iterator over decoded bytes, with what it has left to read. */
  class Decoded {
    var bytes: seq<Byte>
    const plus: bool

    constructor (bytes: seq<Byte>, plus: bool)
      ensures this.bytes == bytes && this.plus == plus
    {
      this.bytes, this.plus := bytes, plus;
    }

    ghost function Rest(): seq<Byte> reads this { Percent(bytes, plus) }

    method Next() returns (b: Option<Byte>)
      modifies this
      ensures b.None? <==> old(bytes) == []
      ensures old(Rest()) == (if b.Some? then [b.value] else []) + Rest()
      ensures b.Some? ==> |bytes| < |old(bytes)|
      ensures b.None? ==> bytes == [] && Rest() == []
    {
      if bytes == [] { return None; }
      var (first, rest) := (bytes[0], bytes[1..]);
      if first == PERCENT && |rest| >= 2 && HexValue(rest[0]).Some? && HexValue(rest[1]).Some? {
        bytes := rest[2..];
        return Some(HexValue(rest[0]).value * 16 + HexValue(rest[1]).value);
      }
      bytes := rest;
      return Some(if plus && first == PLUS then SPACE else first);
    }
  }

  ghost predicate StartsWithChar(bs: seq<Byte>) {
    bs != [] && 0 < Announced(bs[0]) <= |bs| && IsChar(bs[..Announced(bs[0])])
  }

  /** Read the rest of the character that `lead` begins, and check it. */
  method ReadChar(it: Decoded, lead: Byte) returns (r: Option<nat>)
    modifies it
    ensures r.Some? <==> StartsWithChar([lead] + old(it.Rest()))
    ensures r.Some? ==> r.value == Announced(lead) && it.Rest() == ([lead] + old(it.Rest()))[r.value..]
    ensures |it.bytes| <= |old(it.bytes)|
  {
    var n := Announced(lead);
    if n == 0 { return None; }
    ghost var left := [lead] + it.Rest();
    var scalar := [lead];
    while |scalar| < n
      invariant 1 <= |scalar| <= n && scalar[0] == lead && |it.bytes| <= |old(it.bytes)|
      invariant left == scalar + it.Rest()
    {
      var next := it.Next();
      if next.None? {
        assert left == scalar;
        return None;
      }
      scalar := scalar + [next.value];
    }
    assert left[..n] == scalar && left[n..] == it.Rest();
    return if IsChar(scalar) then Some(n) else None;
  }

  /** The length of the decoded component, if it is UTF-8. No more than one character is buffered. */
  method DecodedLen(s: seq<Byte>, plus: bool) returns (r: Option<nat>)
    ensures r.Some? <==> WellFormed(Percent(s, plus))
    ensures r.Some? ==> r.value == |Percent(s, plus)| <= |s|
  {
    ValidIsWellFormed(Percent(s, plus));
    var it := new Decoded(s, plus);
    var len := 0;
    var b := it.Next();
    ghost var left := (if b.Some? then [b.value] else []) + it.Rest();
    while b.Some?
      invariant fresh(it) && it.plus == plus
      invariant left == (if b.Some? then [b.value] else []) + it.Rest()
      invariant Valid(Percent(s, plus)) <==> Valid(left)
      invariant len + |left| == |Percent(s, plus)|
      invariant b.None? ==> it.bytes == []
      decreases if b.Some? then |it.bytes| + 1 else 0
    {
      var n := ReadChar(it, b.value);
      if n.None? {
        return None;
      }
      ValidCons(left[..n.value], left[n.value..]);
      assert left == left[..n.value] + left[n.value..];
      left := left[n.value..];
      len := len + n.value;
      b := it.Next();
    }
    return Some(len);
  }

  /** Decode a component for real: collect the bytes and check them again. */
  method Decode(s: seq<Byte>, plus: bool) returns (r: Option<seq<Byte>>)
    ensures r == if WellFormed(Percent(s, plus)) then Some(Percent(s, plus)) else None
  {
    ValidIsWellFormed(Percent(s, plus));
    hide Percent, Valid, WellFormed;
    var len := DecodedLen(s, plus);
    if len.None? { return None; }
    var it := new Decoded(s, plus);
    var out: seq<Byte> := [];
    var b := it.Next();
    while b.Some?
      invariant fresh(it) && it.plus == plus
      invariant Percent(s, plus) == out + (if b.Some? then [b.value] else []) + it.Rest()
      invariant b.None? ==> it.bytes == []
      decreases if b.Some? then |it.bytes| + 1 else 0
    {
      out := out + [b.value];
      b := it.Next();
    }
    assert Percent(s, plus) == out;
    return if Valid(out) then Some(out) else None;
  }

  // --- Forms ------------------------------------------------------------------------------

  function Split(s: seq<Byte>, sep: Byte): (parts: seq<seq<Byte>>)
    ensures |parts| > 0
  {
    if s == [] then [[]]
    else
      var rest := Split(s[1..], sep);
      if s[0] == sep then [[]] + rest else [[s[0]] + rest[0]] + rest[1..]
  }

  function Count(s: seq<Byte>, sep: Byte): nat {
    if s == [] then 0 else (if s[0] == sep then 1 else 0) + Count(s[1..], sep)
  }

  /** The parts put back together with the separator between them. */
  function Joined(parts: seq<seq<Byte>>, sep: Byte): seq<Byte>
    requires |parts| > 0
  {
    if |parts| == 1 then parts[0] else parts[0] + [sep] + Joined(parts[1..], sep)
  }

  /** Splitting is what joining undoes: one part for each separator and one more, none containing it. */
  lemma {:induction false} SplitSplits(s: seq<Byte>, sep: Byte)
    ensures |Split(s, sep)| == Count(s, sep) + 1
    ensures Joined(Split(s, sep), sep) == s
    ensures forall i :: 0 <= i < |Split(s, sep)| ==> sep !in Split(s, sep)[i]
  {
    if s != [] {
      SplitSplits(s[1..], sep);
      var (rest, parts) := (Split(s[1..], sep), Split(s, sep));
      if s[0] == sep {
        assert parts[1..] == rest;
      } else {
        assert parts[1..] == rest[1..];
        assert s == [s[0]] + s[1..];
      }
    }
  }

  /** The raw name and value of a pair: everything before the first `=`, and everything after it. */
  function RawName(pair: seq<Byte>): seq<Byte> { pair[..IndexOf(pair, EQUALS)] }

  function RawValue(pair: seq<Byte>): seq<Byte> {
    var i := IndexOf(pair, EQUALS);
    if i < |pair| then pair[i + 1..] else []
  }

  function Name(pair: seq<Byte>): seq<Byte> { Percent(RawName(pair), true) }

  function Content(pair: seq<Byte>): seq<Byte> { Percent(RawValue(pair), true) }

  /** A pair is its name, and after the first equals sign its value. */
  lemma PairIsSplit(pair: seq<Byte>)
    ensures EQUALS !in RawName(pair)
    ensures pair == RawName(pair) + if EQUALS in pair then [EQUALS] + RawValue(pair) else []
    ensures EQUALS !in pair ==> RawValue(pair) == []
  {
    hide IndexOf;
    var i := IndexOf(pair, EQUALS);
    if i < |pair| {
      assert pair == pair[..i] + [EQUALS] + pair[i + 1..];
    } else {
      assert pair[..i] == pair && pair + [] == pair;
    }
  }

  function Pairs(body: seq<Byte>): seq<seq<Byte>> {
    if body == [] then [] else Split(body, AMPERSAND)
  }

  /** A body is its pairs with ampersands between them, and only an empty body has none. */
  lemma PairsAreJoined(body: seq<Byte>)
    ensures Pairs(body) == [] <==> body == []
    ensures body != [] ==>
      Joined(Pairs(body), AMPERSAND) == body &&
      forall i :: 0 <= i < |Pairs(body)| ==> AMPERSAND !in Pairs(body)[i]
  {
    SplitSplits(body, AMPERSAND);
  }

  /** Whatever a sender writes as the name and the value of a pair, with plus signs for spaces, is what is read. */
  lemma PairReadsBack(name: seq<Byte>, ns: seq<Spelling>, value: seq<Byte>, vs: seq<Spelling>)
    requires SpellsAll(name, ns, true) && SpellsAll(value, vs, true) && EQUALS !in SpellAll(name, ns)
    ensures var pair := SpellAll(name, ns) + [EQUALS] + SpellAll(value, vs);
      Name(pair) == name && Content(pair) == value
  {
    hide Percent, SpellAll;
    var (left, right) := (SpellAll(name, ns), SpellAll(value, vs));
    var pair := left + [EQUALS] + right;
    IndexOfIn(left, EQUALS, right);
    assert pair[..|left|] == left && pair[|left| + 1..] == right;
    PercentUndoesSpelling(name, ns, true);
    PercentUndoesSpelling(value, vs, true);
  }

  datatype Refusal = TooLong | NotUtf8 | TooManyPairs | BadComponent | DecodedTooLong | SecondPassFailed

  ghost predicate PairDecodes(pair: seq<Byte>) {
    WellFormed(Name(pair)) && WellFormed(Content(pair))
  }

  /** The first pair with a decoded name, or the number of pairs if there is none. */
  function FirstWith(pairs: seq<seq<Byte>>, name: seq<Byte>): (i: nat)
    ensures i <= |pairs| && (i < |pairs| ==> Name(pairs[i]) == name)
    ensures forall h :: 0 <= h < i ==> Name(pairs[h]) != name
  {
    if pairs == [] then 0
    else
      var last := |pairs| - 1;
      var i := FirstWith(pairs[..last], name);
      if i < last || Name(pairs[last]) == name then i else |pairs|
  }

  /** A form follows the first-occurrence rule: its names are the decoded names, and the value of each is
      that of the first pair with that name. */
  ghost predicate FirstWins(m: map<seq<Byte>, seq<Byte>>, pairs: seq<seq<Byte>>) {
    && (forall i :: 0 <= i < |pairs| ==> Name(pairs[i]) in m)
    && (forall name :: name in m ==>
          FirstWith(pairs, name) < |pairs| && m[name] == Content(pairs[FirstWith(pairs, name)]))
  }

  function TotalLength(parts: seq<seq<Byte>>): nat {
    if parts == [] then 0 else |parts[0]| + TotalLength(parts[1..])
  }

  lemma {:induction false} JoinedLength(parts: seq<seq<Byte>>, sep: Byte)
    requires |parts| > 0
    ensures TotalLength(parts) <= |Joined(parts, sep)|
  {
    if |parts| > 1 { JoinedLength(parts[1..], sep); }
  }

  lemma {:induction false} PrefixLength(parts: seq<seq<Byte>>, i: nat)
    requires i < |parts|
    ensures TotalLength(parts[..i + 1]) == TotalLength(parts[..i]) + |parts[i]|
    ensures TotalLength(parts[..i + 1]) <= TotalLength(parts)
  {
    if i == 0 {
      assert parts[..1] == [parts[0]];
    } else {
      PrefixLength(parts[1..], i - 1);
      assert parts[..i + 1][1..] == parts[1..][..i];
      assert parts[..i][1..] == parts[1..][..i - 1];
    }
  }

  /** Check both components of a pair and add up what they decode to. */
  method PairLength(pair: seq<Byte>, total: nat) returns (r: Result<nat, Refusal>)
    requires total + |pair| <= BODY
    ensures r.Ok? <==> PairDecodes(pair)
    ensures r.Ok? ==> r.value <= total + |pair|
    ensures r.Err? ==> r.error == BadComponent
  {
    var name := DecodedLen(RawName(pair), true);
    if name.None? { return Err(BadComponent); }
    var sum := total + name.value;
    if sum > BODY { assert false; return Err(DecodedTooLong); }
    var value := DecodedLen(RawValue(pair), true);
    if value.None? { return Err(BadComponent); }
    sum := sum + value.value;
    if sum > BODY { assert false; return Err(DecodedTooLong); }
    return Ok(sum);
  }

  /** Check every component, and bound what they decode to together. */
  method FirstPass(pairs: seq<seq<Byte>>) returns (r: Option<Refusal>)
    requires TotalLength(pairs) <= BODY
    ensures r.None? <==> forall i :: 0 <= i < |pairs| ==> PairDecodes(pairs[i])
    ensures r.None? || r == Some(BadComponent)
  {
    hide PairDecodes;
    var total := 0;
    for i := 0 to |pairs|
      invariant 0 <= total <= TotalLength(pairs[..i]) <= BODY
      invariant forall j :: 0 <= j < i ==> PairDecodes(pairs[j])
    {
      PrefixLength(pairs, i);
      var sum := PairLength(pairs[i], total);
      if sum.Err? { return Some(sum.error); }
      total := sum.value;
    }
    assert pairs[..|pairs|] == pairs;
    return None;
  }

  /** Decode every component again, keeping the first value of each name. */
  method SecondPass(pairs: seq<seq<Byte>>) returns (r: Result<map<seq<Byte>, seq<Byte>>, Refusal>)
    requires forall i :: 0 <= i < |pairs| ==> PairDecodes(pairs[i])
    ensures r.Ok? && FirstWins(r.value, pairs)
  {
    var out: map<seq<Byte>, seq<Byte>> := map[];
    for i := 0 to |pairs|
      invariant FirstWins(out, pairs[..i])
    {
      assert PairDecodes(pairs[i]);
      FirstWinsNext(out, pairs, i);
      var name := Decode(RawName(pairs[i]), true);
      if name.None? { assert false; return Err(SecondPassFailed); }
      if name.value !in out {
        var value := Decode(RawValue(pairs[i]), true);
        if value.None? { assert false; return Err(SecondPassFailed); }
        out := out[name.value := value.value];
      }
    }
    assert pairs[..|pairs|] == pairs;
    return Ok(out);
  }

  lemma FirstWinsNext(m: map<seq<Byte>, seq<Byte>>, pairs: seq<seq<Byte>>, i: nat)
    requires i < |pairs| && FirstWins(m, pairs[..i])
    ensures var name := Name(pairs[i]);
      FirstWins(if name in m then m else m[name := Content(pairs[i])], pairs[..i + 1])
  {
    hide Name, Content;
    var (before, after, name) := (pairs[..i], pairs[..i + 1], Name(pairs[i]));
    var n := if name in m then m else m[name := Content(pairs[i])];
    assert after[..i] == before && after[i] == pairs[i];
    forall j | 0 <= j < |after| ensures Name(after[j]) in n {
      if j < i { assert Name(before[j]) in m; }
    }
    forall k | k in n
      ensures FirstWith(after, k) < |after| && n[k] == Content(after[FirstWith(after, k)])
    {
      var f := FirstWith(before, k);
      assert f < i ==> after[f] == before[f];
      assert f < i ==> k in m by {
        if f < i { assert Name(before[f]) in m; }
      }
    }
  }

  /** The rule leaves no choice: two forms that follow it are the same form. */
  lemma FirstWinsIsUnique(a: map<seq<Byte>, seq<Byte>>, b: map<seq<Byte>, seq<Byte>>, pairs: seq<seq<Byte>>)
    requires FirstWins(a, pairs) && FirstWins(b, pairs)
    ensures a == b
  {
    forall name ensures name in a <==> name in b {
      var i := FirstWith(pairs, name);
      if i < |pairs| { assert Name(pairs[i]) in a && Name(pairs[i]) in b; }
    }
  }

  /** The first pass leaves nothing for the second to refuse, and its bound on the decoded total is
      never what refuses a form. */
  method Form(body: seq<Byte>) returns (r: Result<map<seq<Byte>, seq<Byte>>, Refusal>)
    ensures r.Ok? <==>
      && |body| <= BODY && WellFormed(body) && |Pairs(body)| <= PAIRS
      && forall i :: 0 <= i < |Pairs(body)| ==> PairDecodes(Pairs(body)[i])
    ensures r.Ok? ==> FirstWins(r.value, Pairs(body))
    ensures r.Err? ==> r.error == (
                         if |body| > BODY then TooLong
                         else if !WellFormed(body) then NotUtf8
                         else if |Pairs(body)| > PAIRS then TooManyPairs
                         else BadComponent)
  {
    if |body| > BODY { return Err(TooLong); }
    ValidIsWellFormed(body);
    if !Valid(body) { return Err(NotUtf8); }
    var pairs := Pairs(body);
    var count := if body == [] then 0 else Count(body, AMPERSAND) + 1;
    SplitSplits(body, AMPERSAND);
    if count > PAIRS { return Err(TooManyPairs); }
    if pairs != [] { JoinedLength(pairs, AMPERSAND); }
    var refused := FirstPass(pairs);
    if refused.Some? { return Err(refused.value); }
    r := SecondPass(pairs);
  }
}
