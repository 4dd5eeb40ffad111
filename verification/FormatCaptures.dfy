/**
 Finding the names a format string captures (`src/session.rs`, `decode` and `format_captures`): the
 literal's escapes are undone first, because the formatter reads the decoded string.
 */
module FormatCaptures {
  import opened Wrappers
  import opened Numerals
  import opened Search
  import Utf8

  // --- Decoding a literal -----------------------------------------------------------------

  /** The value of a braced escape and what follows its brace. The value is kept in 32 bits. */
  function Braced(s: string, value: nat): (r: Option<(nat, string)>)
    ensures r.Some? ==> |r.value.1| < |s|
  {
    if s == "" then None
    else if s[0] == '}' then Some((value, s[1..]))
    else
      var digit := HexValue(s[0] as int);
      if digit.None? || value * 16 + digit.value >= 0x1_0000_0000 then None
      else Braced(s[1..], value * 16 + digit.value)
  }

  /** The character an escape stands for, and what follows it. `s` starts after the backslash. */
  function Escape(s: string): (r: Option<(char, string)>)
    ensures r.Some? ==> |r.value.1| < |s|
  {
    if s == "" then None
    else match s[0]
      case 'n' => Some(('\n', s[1..]))
      case 'r' => Some(('\r', s[1..]))
      case 't' => Some(('\t', s[1..]))
      case '0' => Some(('\0', s[1..]))
      case '\\' => Some(('\\', s[1..]))
      case '\'' => Some(('\'', s[1..]))
      case '"' => Some(('"', s[1..]))
      case 'x' =>
        if |s| < 3 || HexValue(s[1] as int).None? || HexValue(s[2] as int).None? then None
        else Some(((HexValue(s[1] as int).value * 16 + HexValue(s[2] as int).value) as char, s[3..]))
      case 'u' =>
        if |s| < 2 || s[1] != '{' then None
        else
          var braced := Braced(s[2..], 0);
          if braced.None? || !Utf8.Scalar(braced.value.0) then None
          else Some((braced.value.0 as char, braced.value.1))
      case _ => None
  }

  function After(out: string, r: Option<string>): Option<string> {
    if r.None? then None else Some(out + r.value)
  }

  function Decoded(text: string): Option<string>
    decreases |text|
  {
    if text == "" then Some("")
    else if text[0] != '\\' then After([text[0]], Decoded(text[1..]))
    else
      var escape := Escape(text[1..]);
      if escape.None? then None else After([escape.value.0], Decoded(escape.value.1))
  }

  lemma AfterTwice(a: string, b: string, r: Option<string>)
    ensures After(a, After(b, r)) == After(a + b, r)
    ensures r.Some? ==> After("", r) == r
  {
    if r.Some? { assert a + (b + r.value) == a + b + r.value && "" + r.value == r.value; }
  }

  method Decode(text: string) returns (r: Option<string>)
    ensures r == Decoded(text)
  {
    hide Escape;
    var out := "";
    var rest := text;
    AfterTwice("", "", Decoded(text));
    while rest != ""
      invariant Decoded(text) == After(out, Decoded(rest))
      decreases |rest|
    {
      var c := rest[0];
      if c != '\\' {
        AfterTwice(out, [c], Decoded(rest[1..]));
        out := out + [c];
        rest := rest[1..];
      } else {
        var escape := Escape(rest[1..]);
        if escape.None? { return None; }
        AfterTwice(out, [escape.value.0], Decoded(escape.value.1));
        out := out + [escape.value.0];
        rest := escape.value.1;
      }
    }
    assert out + "" == out;
    return Some(out);
  }

  // --- Every way to spell a literal ---------------------------------------------------------

  /** How one character may be written: itself, a short escape, two hex digits, or a braced code point in any
      number of digits of either case. */
  datatype Spelling = Itself | Short(letter: char) | Pair(high: char, low: char) | Code(digits: string)

  predicate HexDigits(digits: string) { forall i :: 0 <= i < |digits| ==> HexValue(digits[i] as int).Some? }

  predicate Spells(c: char, s: Spelling) {
    match s
    case Itself => c != '\\'
    case Short(letter) =>
      || (letter == 'n' && c == '\n') || (letter == 'r' && c == '\r') || (letter == 't' && c == '\t')
      || (letter == '0' && c == '\0') || (letter == c && (c == '\\' || c == '\'' || c == '"'))
    case Pair(high, low) =>
      && HexValue(high as int).Some? && HexValue(low as int).Some?
      && c as int == HexValue(high as int).value * 16 + HexValue(low as int).value
    case Code(digits) => HexDigits(digits) && ValueOf(digits, 16) == c as int
  }

  /** What follows the backslash. */
  function Mark(s: Spelling): string
    requires s != Itself
  {
    match s
    case Short(letter) => [letter]
    case Pair(high, low) => ['x', high, low]
    case Code(digits) => "u{" + digits + "}"
  }

  function Spell(c: char, s: Spelling): string { if s == Itself then [c] else "\\" + Mark(s) }

  function SpellAll(text: string, how: seq<Spelling>): string
    requires |text| == |how|
  {
    if text == "" then "" else Spell(text[0], how[0]) + SpellAll(text[1..], how[1..])
  }

  predicate SpellsAll(text: string, how: seq<Spelling>) {
    |text| == |how| && forall i :: 0 <= i < |text| ==> Spells(text[i], how[i])
  }

  lemma {:induction false} ValueOfGrows(a: string, b: string)
    ensures ValueOf(a, 16) <= ValueOf(a + b, 16)
  {
    if b == "" {
      assert a + b == a;
    } else {
      assert (a + b)[..|a + b| - 1] == a + b[..|b| - 1];
      ValueOfGrows(a, b[..|b| - 1]);
    }
  }

  lemma {:induction false} BracedReads(before: string, digits: string, rest: string)
    requires HexDigits(digits) && ValueOf(before + digits, 16) < 0x1_0000_0000
    ensures Braced(digits + "}" + rest, ValueOf(before, 16)) == Some((ValueOf(before + digits, 16), rest))
    decreases |digits|
  {
    var s := digits + "}" + rest;
    if digits == "" {
      assert s[1..] == rest && before + digits == before;
    } else {
      var next := before + [digits[0]];
      assert next[..|next| - 1] == before;
      assert next + digits[1..] == before + digits;
      assert s[1..] == digits[1..] + "}" + rest;
      ValueOfGrows(next, digits[1..]);
      BracedReads(next, digits[1..], rest);
    }
  }

  lemma ShortIsRead(c: char, letter: char, rest: string)
    requires Spells(c, Short(letter))
    ensures Escape([letter] + rest) == Some((c, rest))
  {
    hide Braced;
    assert ([letter] + rest)[1..] == rest;
  }

  lemma PairIsRead(c: char, high: char, low: char, rest: string)
    requires Spells(c, Pair(high, low))
    ensures Escape(['x', high, low] + rest) == Some((c, rest))
  {
    hide Braced, HexValue;
    var s := ['x', high, low] + rest;
    assert s[0] == 'x' && s[1] == high && s[2] == low && s[3..] == rest;
  }

  lemma CodeIsRead(c: char, digits: string, rest: string)
    requires Spells(c, Code(digits))
    ensures Escape("u{" + digits + "}" + rest) == Some((c, rest))
  {
    hide Braced, ValueOf, HexValue;
    var s := "u{" + digits + "}" + rest;
    assert s[0] == 'u' && s[1] == '{' && s[2..] == digits + "}" + rest;
    assert "" + digits == digits;
    EmptyIsZero();
    BracedReads("", digits, rest);
  }

  /** Reading an escape gives back the character it spells. */
  lemma EscapeUndoesSpelling(c: char, s: Spelling, rest: string)
    requires Spells(c, s) && s != Itself
    ensures Escape(Mark(s) + rest) == Some((c, rest))
  {
    hide Escape, Spells;
    match s
    case Short(letter) => ShortIsRead(c, letter, rest);
    case Pair(high, low) => PairIsRead(c, high, low, rest);
    case Code(digits) => CodeIsRead(c, digits, rest);
  }

  lemma EmptyIsZero()
    ensures ValueOf("", 16) == 0
  {
  }

  lemma PlainIsDecoded(c: char, rest: string)
    requires c != '\\'
    ensures Decoded([c] + rest) == After([c], Decoded(rest))
  {
    hide Escape, After;
    assert ([c] + rest)[1..] == rest;
  }

  lemma MarkedIsDecoded(mark: string, c: char, rest: string)
    requires Escape(mark + rest) == Some((c, rest))
    ensures Decoded("\\" + mark + rest) == After([c], Decoded(rest))
  {
    hide Escape, After;
    assert ("\\" + mark + rest)[1..] == mark + rest;
  }

  /** A spelled character is decoded in one step. */
  lemma DecodeOne(c: char, s: Spelling, rest: string)
    requires Spells(c, s)
    ensures Decoded(Spell(c, s) + rest) == After([c], Decoded(rest))
  {
    hide Decoded, Escape, Mark, After, HexDigits, HexValue, ValueOf;
    if s == Itself {
      PlainIsDecoded(c, rest);
    } else {
      EscapeUndoesSpelling(c, s, rest);
      MarkedIsDecoded(Mark(s), c, rest);
    }
  }

  /** Decoding gives back the text, however each of its characters was written. */
  lemma {:induction false} DecodeUndoesSpelling(text: string, how: seq<Spelling>)
    requires SpellsAll(text, how)
    ensures Decoded(SpellAll(text, how)) == Some(text)
  {
    hide Spells, Spell;
    if text != "" {
      DecodeUndoesSpelling(text[1..], how[1..]);
      hide Decoded;
      DecodeOne(text[0], how[0], SpellAll(text[1..], how[1..]));
      assert [text[0]] + text[1..] == text;
    }
  }

  lemma {:induction false} BracedIsDigits(s: string, before: string) returns (digits: string)
    requires Braced(s, ValueOf(before, 16)).Some?
    ensures var (value, rest) := Braced(s, ValueOf(before, 16)).value;
      s == digits + "}" + rest && HexDigits(digits) && value == ValueOf(before + digits, 16)
    decreases |s|
  {
    hide HexValue, ValueOf;
    if s[0] == '}' {
      digits := "";
      assert before + digits == before;
      assert s == "}" + s[1..];
    } else {
      var next := before + [s[0]];
      DigitAppended(before, s[0]);
      var later := BracedIsDigits(s[1..], next);
      digits := [s[0]] + later;
      assert next + later == before + digits;
      assert s == [s[0]] + s[1..];
    }
  }

  lemma DigitAppended(before: string, c: char)
    requires HexValue(c as int).Some?
    ensures ValueOf(before + [c], 16) == ValueOf(before, 16) * 16 + HexValue(c as int).value
  {
    assert (before + [c])[..|before|] == before;
  }

  lemma ShortIsSpelled(s: string)
    requires s != "" && s[0] != 'x' && s[0] != 'u' && Escape(s).Some?
    ensures Spells(Escape(s).value.0, Short(s[0])) && Escape(s).value.1 == s[1..]
  {
    hide Braced, HexValue;
  }

  lemma PairIsSpelled(s: string)
    requires s != "" && s[0] == 'x' && Escape(s).Some?
    ensures |s| >= 3 && Spells(Escape(s).value.0, Pair(s[1], s[2])) && Escape(s).value.1 == s[3..]
  {
    hide Braced, HexValue;
  }

  lemma CodeIsSpelled(s: string) returns (digits: string)
    requires s != "" && s[0] == 'u' && Escape(s).Some?
    ensures Spells(Escape(s).value.0, Code(digits)) && s == "u{" + digits + "}" + Escape(s).value.1
  {
    hide Braced, ValueOf, HexValue;
    EmptyIsZero();
    digits := BracedIsDigits(s[2..], "");
    assert "" + digits == digits;
    assert s == "u{" + s[2..];
  }

  /** Every escape that is read is one of the supported spellings of what it stands for. */
  lemma EscapeIsSpelled(s: string) returns (how: Spelling)
    requires s != "" && Escape(s).Some?
    ensures how != Itself && Spells(Escape(s).value.0, how) && s == Mark(how) + Escape(s).value.1
  {
    hide Escape, Spells;
    if s[0] == 'x' {
      PairIsSpelled(s);
      how := Pair(s[1], s[2]);
      assert s == ['x', s[1], s[2]] + s[3..];
    } else if s[0] == 'u' {
      var digits := CodeIsSpelled(s);
      how := Code(digits);
    } else {
      ShortIsSpelled(s);
      how := Short(s[0]);
      assert s == [s[0]] + s[1..];
    }
  }

  lemma EscapeNeedsText()
    ensures Escape("") == None
  {
  }

  lemma DecodedFirst(text: string)
    requires text != "" && Decoded(text).Some?
    ensures text[0] != '\\' ==> Decoded(text[1..]).Some? && Decoded(text).value == [text[0]] + Decoded(text[1..]).value
    ensures text[0] == '\\' ==>
      && Escape(text[1..]).Some? && Decoded(Escape(text[1..]).value.1).Some?
      && Decoded(text).value == [Escape(text[1..]).value.0] + Decoded(Escape(text[1..]).value.1).value
  {
    hide Escape;
  }

  /** What decodes is exactly what is written in supported spellings, of the text it decodes to. */
  lemma {:induction false} DecodedIsSpelled(text: string) returns (how: seq<Spelling>)
    requires Decoded(text).Some?
    ensures SpellsAll(Decoded(text).value, how) && SpellAll(Decoded(text).value, how) == text
    decreases |text|
  {
    hide Decoded, Escape, Spells, Mark;
    if text == "" {
      how := [];
      NothingToDecode();
    } else {
      DecodedFirst(text);
      var out := Decoded(text).value;
      if text[0] != '\\' {
        var later := DecodedIsSpelled(text[1..]);
        how := [Itself] + later;
        PlainSpells(text[0]);
        assert text == [text[0]] + text[1..];
      } else {
        EscapeNeedsText();
        var (c, rest) := Escape(text[1..]).value;
        var first := EscapeIsSpelled(text[1..]);
        var later := DecodedIsSpelled(rest);
        how := [first] + later;
        assert text == "\\" + Mark(first) + rest;
      }
    }
  }

  lemma PlainSpells(c: char)
    requires c != '\\'
    ensures Spells(c, Itself)
  {
  }

  lemma NothingToDecode()
    ensures Decoded("") == Some("")
  {
  }

  // --- Scanning the decoded text --------------------------------------------------------------

  predicate Opens(c: char) { c == '{' }

  predicate EndsName(c: char) { c == '}' || c == ':' }

  /** One turn of the scan: what it finds, and where the next turn starts, if there is one. */
  function Turn(text: string): (t: (seq<string>, Option<string>))
    ensures t.1.Some? ==> |t.1.value| < |text|
  {
    var open := First(text, Opens);
    if open == |text| then ([], None)
    else
      var after := text[open + 1..];
      if after != "" && after[0] == '{' then ([], Some(after[1..]))
      else
        var end := First(after, EndsName);
        (if end > 0 then [after[..end]] else [], if end == |after| then None else Some(after[end + 1..]))
  }

  /** What the scan finds, turn by turn. */
  function Captures(text: string): seq<string>
    decreases |text|
  {
    var (found, rest) := Turn(text);
    found + if rest.Some? then Captures(rest.value) else []
  }

  lemma CapturesByTurns(names: seq<string>, text: string)
    ensures names + Captures(text) ==
      names + Turn(text).0 + if Turn(text).1.Some? then Captures(Turn(text).1.value) else []
  {
    hide Turn;
  }

  method FormatCapturesOf(text: string) returns (names: seq<string>)
    ensures names == Captures(text)
  {
    hide First, Captures, Opens, EndsName;
    names := [];
    var rest := text;
    while true
      invariant Captures(text) == names + Captures(rest)
      decreases |rest|
    {
      CapturesByTurns(names, rest);
      ghost var found := names + Turn(rest).0;
      var open := First(rest, Opens);
      if open == |rest| { break; }
      var after := rest[open + 1..];
      if after != "" && after[0] == '{' {
        rest := after[1..];
        continue;
      }
      var end := First(after, EndsName);
      if end > 0 { names := names + [after[..end]]; }
      assert names == found;
      rest := after[end..];
      if rest == "" { break; }
      assert rest[1..] == after[end + 1..];
      rest := rest[1..];
    }
  }

  // --- Templates ------------------------------------------------------------------------------

  datatype Piece =
    | Literal(c: char)
    | OpenBrace
    | CloseBrace
    | Argument(name: string, spec: Option<string>)

  /** A piece of a template: a character, a doubled brace, or an argument that is positional when its name is empty. */
  predicate WellFormed(p: Piece) {
    match p
    case Literal(c) => c != '{' && c != '}'
    case Argument(name, spec) =>
      && (name != "" ==> name[0] != '{') && (forall i :: 0 <= i < |name| ==> !EndsName(name[i]))
      && (spec.Some? ==> '}' !in spec.value)
    case _ => true
  }

  predicate AllWellFormed(ps: seq<Piece>) { forall i :: 0 <= i < |ps| ==> WellFormed(ps[i]) }

  function Render(p: Piece): string {
    match p
    case Literal(c) => [c]
    case OpenBrace => "{{"
    case CloseBrace => "}}"
    case Argument(name, None) => "{" + name + "}"
    case Argument(name, Some(spec)) => "{" + name + ":" + spec + "}"
  }

  function RenderAll(ps: seq<Piece>): string {
    if ps == [] then "" else Render(ps[0]) + RenderAll(ps[1..])
  }

  function NameOf(p: Piece): seq<string> {
    if p.Argument? && p.name != "" then [p.name] else []
  }

  /** The names the template captures, in order. */
  function Names(ps: seq<Piece>): seq<string> {
    if ps == [] then [] else NameOf(ps[0]) + Names(ps[1..])
  }

  /** What a scan also finds inside a format specification. */
  function Spurious(p: Piece): seq<string> {
    if p.Argument? && p.spec.Some? then Captures(p.spec.value + "}") else []
  }

  function Found(ps: seq<Piece>): seq<string> {
    if ps == [] then [] else NameOf(ps[0]) + Spurious(ps[0]) + Found(ps[1..])
  }

  /** A character that opens nothing is passed over. */
  lemma SkipCharacter(c: char, rest: string)
    requires c != '{'
    ensures Captures([c] + rest) == Captures(rest)
  {
    var s := [c] + rest;
    assert s[1..] == rest;
    assert First(s, Opens) == 1 + First(rest, Opens);
    var open := First(rest, Opens);
    hide First;
    if open < |rest| { assert s[open + 2..] == rest[open + 1..]; }
    assert Turn(s) == Turn(rest);
  }

  /** An argument is read in one turn, up to the end of its name. */
  lemma ArgumentTurn(name: string, ended: char, rest: string)
    requires (name != "" ==> name[0] != '{') && forall i :: 0 <= i < |name| ==> !EndsName(name[i])
    requires EndsName(ended)
    ensures Turn("{" + name + [ended] + rest) == (if name != "" then [name] else [], Some(rest))
  {
    hide First;
    var s := "{" + name + [ended] + rest;
    var after := name + ([ended] + rest);
    assert s[0] == '{' && s[1..] == after;
    FirstIn(name, [ended] + rest, EndsName);
    assert after[..|name|] == name && after[|name| + 1..] == rest;
  }

  /** An argument is scanned up to the end of its name, and the scan goes on one character later. */
  lemma ScanArgument(name: string, ended: char, rest: string)
    requires (name != "" ==> name[0] != '{') && forall i :: 0 <= i < |name| ==> !EndsName(name[i])
    requires EndsName(ended)
    ensures Captures("{" + name + [ended] + rest) == (if name != "" then [name] else []) + Captures(rest)
  {
    hide Turn;
    ArgumentTurn(name, ended, rest);
  }

  lemma SkipDoubled(rest: string)
    ensures Captures("{{" + rest) == Captures(rest)
  {
    assert ("{{" + rest)[1..][1..] == rest;
  }

  /** The name after an opening brace: it runs to the first closing brace or colon, or to the end of the text. */
  predicate NameRuns(text: string, n: nat) {
    && n < |text|
    && (forall i :: 1 <= i <= n ==> text[i] != '}' && text[i] != ':')
    && (n + 1 == |text| || text[n + 1] == '}' || text[n + 1] == ':')
  }

  lemma NameIsScanned(text: string, n: nat)
    requires text != "" && text[0] == '{' && !("{{" <= text) && NameRuns(text, n)
    ensures Turn(text) ==
      (if n > 0 then [text[1..n + 1]] else [], if n + 1 == |text| then None else Some(text[n + 2..]))
  {
    hide First;
    var after := text[1..];
    assert text[0..] == text && First(text, Opens) == 0;
    assert after == after[..n] + after[n..] && after[..n] == text[1..n + 1];
    assert after != "" ==> after[0] == text[1] && text[..2] == [text[0], text[1]];
    assert n < |after| ==> after[n..][0] == text[n + 1] && after[n + 1..] == text[n + 2..];
    FirstIn(after[..n], after[n..], EndsName);
  }

  lemma NameIsCaptured(text: string, n: nat)
    requires text != "" && text[0] == '{' && !("{{" <= text) && NameRuns(text, n)
    ensures Captures(text) ==
      (if n > 0 then [text[1..n + 1]] else []) + (if n + 1 == |text| then [] else Captures(text[n + 2..]))
  {
    hide Turn, NameRuns;
    NameIsScanned(text, n);
  }

  /** What the scan finds in any text, whatever braces it has. */
  lemma CapturesExactly(text: string, n: nat)
    ensures text == "" ==> Captures(text) == []
    ensures text != "" && text[0] != '{' ==> Captures(text) == Captures(text[1..])
    ensures "{{" <= text ==> Captures(text) == Captures(text[2..])
    ensures text != "" && text[0] == '{' && !("{{" <= text) && NameRuns(text, n) ==>
      Captures(text) ==
        (if n > 0 then [text[1..n + 1]] else []) + (if n + 1 == |text| then [] else Captures(text[n + 2..]))
  {
    hide Captures, NameRuns;
    if text == "" {
      NothingCaptured();
    } else if text[0] != '{' {
      SkipCharacter(text[0], text[1..]);
      assert text == [text[0]] + text[1..];
    } else if "{{" <= text {
      SkipDoubled(text[2..]);
      assert text == "{{" + text[2..];
    } else if NameRuns(text, n) {
      NameIsCaptured(text, n);
    }
  }

  /** A scan that starts anywhere before a closing brace is in step again after it. */
  lemma {:induction false} InStepAfterBrace(s: string, rest: string)
    requires '}' !in s
    ensures Captures(s + "}" + rest) == Captures(s + "}") + Captures(rest)
    decreases |s|
  {
    hide Captures, First;
    var (whole, part) := (s + "}" + rest, s + "}");
    if s == "" {
      SkipCharacter('}', rest);
      SkipCharacter('}', "");
      NothingCaptured();
      assert whole == ['}'] + rest && part == ['}'] + "";
    } else if s[0] != '{' {
      SkipCharacter(s[0], s[1..] + "}" + rest);
      SkipCharacter(s[0], s[1..] + "}");
      assert whole == [s[0]] + (s[1..] + "}" + rest) && part == [s[0]] + (s[1..] + "}");
      InStepAfterBrace(s[1..], rest);
    } else if |s| > 1 && s[1] == '{' {
      SkipDoubled(s[2..] + "}" + rest);
      SkipDoubled(s[2..] + "}");
      assert whole == "{{" + (s[2..] + "}" + rest) && part == "{{" + (s[2..] + "}");
      InStepAfterBrace(s[2..], rest);
    } else {
      var end := First(s[1..], EndsName);
      if end == |s[1..]| {
        BraceEndsName(s, rest);
      } else {
        var (name, c, t) := (s[1..][..end], s[1..][end], s[1..][end + 1..]);
        InStepAfterBrace(t, rest);
        InStepAfterName(name, c, t, rest);
        assert s == "{" + name + [c] + t;
      }
    }
  }

  /** The name after the opening brace runs to the closing brace. */
  lemma BraceEndsName(s: string, rest: string)
    requires s != "" && s[0] == '{' && (|s| > 1 ==> s[1] != '{') && First(s[1..], EndsName) == |s[1..]|
    ensures Captures(s + "}" + rest) == Captures(s + "}") + Captures(rest)
  {
    hide Captures, First;
    var name := s[1..];
    ScanArgument(name, '}', rest);
    ScanArgument(name, '}', "");
    NothingCaptured();
    assert s + "}" + rest == "{" + name + ['}'] + rest && s + "}" == "{" + name + ['}'] + "";
  }

  /** The name after the opening brace ends before the closing brace. */
  lemma InStepAfterName(name: string, c: char, t: string, rest: string)
    requires (name != "" ==> name[0] != '{') && (forall i :: 0 <= i < |name| ==> !EndsName(name[i])) && EndsName(c)
    requires Captures(t + "}" + rest) == Captures(t + "}") + Captures(rest)
    ensures var s := "{" + name + [c] + t; Captures(s + "}" + rest) == Captures(s + "}") + Captures(rest)
  {
    hide Captures, First, EndsName;
    var (s, found) := ("{" + name + [c] + t, if name != "" then [name] else []);
    ScanArgument(name, c, t + "}" + rest);
    ScanArgument(name, c, t + "}");
    assert s + "}" + rest == "{" + name + [c] + (t + "}" + rest);
    assert s + "}" == "{" + name + [c] + (t + "}");
    FoundThenMore(found, Captures(t + "}"), Captures(rest));
  }

  lemma FoundThenMore(a: seq<string>, b: seq<string>, c: seq<string>)
    ensures a + (b + c) == a + b + c
  {
  }

  lemma NothingCaptured()
    ensures Captures("") == []
  {
  }

  lemma {:induction false} ScanFindsTemplate(ps: seq<Piece>)
    requires AllWellFormed(ps)
    ensures Captures(RenderAll(ps)) == Found(ps)
  {
    if ps == [] {
      NothingCaptured();
    } else {
      var rest := RenderAll(ps[1..]);
      ScanFindsTemplate(ps[1..]);
      assert WellFormed(ps[0]);
      ScanPiece(ps[0], rest);
    }
  }

  lemma ScanPiece(p: Piece, rest: string)
    requires WellFormed(p)
    ensures Captures(Render(p) + rest) == NameOf(p) + Spurious(p) + Captures(rest)
  {
    hide Captures, First;
    match p
    case Literal(c) => SkipCharacter(c, rest);
    case OpenBrace => SkipDoubled(rest);
    case CloseBrace =>
      SkipCharacter('}', "}" + rest);
      SkipCharacter('}', rest);
      assert "}}" + rest == ['}'] + ("}" + rest) && "}" + rest == ['}'] + rest;
    case Argument(name, None) =>
      ScanArgument(name, '}', rest);
      assert Render(p) + rest == "{" + name + ['}'] + rest;
    case Argument(name, Some(spec)) => ScanSpecified(name, spec, rest);
  }

  lemma ScanSpecified(name: string, spec: string, rest: string)
    requires WellFormed(Argument(name, Some(spec)))
    ensures var p := Argument(name, Some(spec));
      Captures(Render(p) + rest) == NameOf(p) + Spurious(p) + Captures(rest)
  {
    hide Captures, First;
    var p := Argument(name, Some(spec));
    var tail := spec + "}" + rest;
    ScanArgument(name, ':', tail);
    assert Render(p) + rest == "{" + name + [':'] + tail;
    InStepAfterBrace(spec, rest);
    assert NameOf(p) + (Spurious(p) + Captures(rest)) == NameOf(p) + Spurious(p) + Captures(rest);
  }

  /** A format specification in which the scan sees nothing: every brace in it is doubled, followed at once by
      the colon that ends an empty name, or the last character. */
  predicate Silent(spec: string) {
    if spec == "" then true
    else if spec[0] != '{' then Silent(spec[1..])
    else |spec| == 1 || ((spec[1] == '{' || spec[1] == ':') && Silent(spec[2..]))
  }

  /** The scan finds nothing in a specification exactly when it is silent. */
  lemma {:induction false} SilentExactly(spec: string)
    requires '}' !in spec
    ensures Captures(spec + "}") == [] <==> Silent(spec)
    decreases |spec|
  {
    hide Captures, First;
    var s := spec + "}";
    NothingCaptured();
    if spec == "" {
      SkipCharacter('}', "");
      assert s == ['}'] + "";
    } else if spec[0] != '{' {
      SkipCharacter(spec[0], spec[1..] + "}");
      assert s == [spec[0]] + (spec[1..] + "}");
      SilentExactly(spec[1..]);
    } else if |spec| == 1 {
      ScanArgument("", '}', "");
      assert s == "{" + "" + ['}'] + "";
    } else if spec[1] == '{' {
      SkipDoubled(spec[2..] + "}");
      assert s == "{{" + (spec[2..] + "}");
      SilentExactly(spec[2..]);
    } else if spec[1] == ':' {
      ScanArgument("", ':', spec[2..] + "}");
      assert s == "{" + "" + [':'] + (spec[2..] + "}");
      SilentExactly(spec[2..]);
    } else {
      NamedIsSeen(spec);
    }
  }

  /** A brace followed by anything else starts a name. */
  lemma NamedIsSeen(spec: string)
    requires |spec| > 1 && spec[0] == '{' && spec[1] != '{' && spec[1] != ':' && '}' !in spec
    ensures Captures(spec + "}") != []
  {
    hide First;
    var s := spec + "}";
    assert s[0] == '{' && s[1..][0] == spec[1] && !EndsName(spec[1]);
    assert Turn(s).0 != [];
  }

  lemma {:induction false} NoBraceIsSilent(spec: string)
    requires '{' !in spec
    ensures Silent(spec)
  {
    if spec != "" { NoBraceIsSilent(spec[1..]); }
  }

  lemma JoinedAlike(name: seq<string>, extra: seq<string>, found: seq<string>, names: seq<string>)
    requires |names| <= |found|
    ensures name + extra + found == name + names <==> extra == [] && found == names
  {
    var (long, short) := (name + extra + found, name + names);
    if extra == [] && found == names {
      assert long == short;
    } else if extra == [] {
      assert long[|name|..] == found && short[|name|..] == names;
    } else {
      assert |long| > |short|;
    }
  }

  lemma {:induction false} FoundAreNames(ps: seq<Piece>)
    ensures |Names(ps)| <= |Found(ps)|
    ensures forall n :: n in Names(ps) ==> n in Found(ps)
    ensures Found(ps) == Names(ps) <==> forall i :: 0 <= i < |ps| ==> Spurious(ps[i]) == []
  {
    hide Captures, Spurious, NameOf;
    if ps != [] {
      FoundAreNames(ps[1..]);
      JoinedAlike(NameOf(ps[0]), Spurious(ps[0]), Found(ps[1..]), Names(ps[1..]));
      assert (forall i :: 0 <= i < |ps| ==> Spurious(ps[i]) == []) <==>
        Spurious(ps[0]) == [] && forall i :: 0 <= i < |ps[1..]| ==> Spurious(ps[1..][i]) == [];
    }
  }

  /** No format specification of the template looks like a capture. */
  predicate AllSilent(ps: seq<Piece>) {
    forall i :: 0 <= i < |ps| && ps[i].Argument? && ps[i].spec.Some? ==> Silent(ps[i].spec.value)
  }

  /** Decoding a literal and scanning it finds every name its template captures, however each character of the
      literal was written. It finds exactly those names, in order, if and only if every format specification is
      silent, which one without an opening brace always is. */
  lemma ScanFindsEveryCapture(ps: seq<Piece>, how: seq<Spelling>)
    requires AllWellFormed(ps) && SpellsAll(RenderAll(ps), how)
    ensures var decoded := Decoded(SpellAll(RenderAll(ps), how));
      && decoded.Some?
      && (forall n :: n in Names(ps) ==> n in Captures(decoded.value))
      && (Captures(decoded.value) == Names(ps) <==> AllSilent(ps))
    ensures (forall i :: 0 <= i < |ps| && ps[i].Argument? && ps[i].spec.Some? ==> '{' !in ps[i].spec.value)
      ==> AllSilent(ps)
  {
    hide Decoded, SpellAll, Captures, Found, Silent;
    DecodeUndoesSpelling(RenderAll(ps), how);
    ScanFindsTemplate(ps);
    FoundAreNames(ps);
    forall i | 0 <= i < |ps| && ps[i].Argument? && ps[i].spec.Some?
      ensures Spurious(ps[i]) == [] <==> Silent(ps[i].spec.value)
      ensures '{' !in ps[i].spec.value ==> Silent(ps[i].spec.value)
    {
      assert WellFormed(ps[i]);
      SilentExactly(ps[i].spec.value);
      if '{' !in ps[i].spec.value { NoBraceIsSilent(ps[i].spec.value); }
    }
    assert AllSilent(ps) <==> forall i :: 0 <= i < |ps| ==> Spurious(ps[i]) == [];
  }

  /** A brace used as a fill character is read as a capture. */
  lemma FillCharacterIsFound()
    ensures Captures("{x:{<5}") == ["x", "<5"]
  {
    hide Captures, First;
    ScanArgument("x", ':', "{<5}");
    ScanArgument("<5", '}', "");
    NothingCaptured();
    assert "{x:{<5}" == "{" + "x" + [':'] + "{<5}" && "{<5}" == "{" + "<5" + ['}'] + "";
  }
}
