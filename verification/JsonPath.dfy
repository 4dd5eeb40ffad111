/**
 How a refusal's path is written (`src/json.rs`, `where_it_is`), and that it can be read in one way only.

 `odd` stands for the characters that the standard library's debug format writes as a code point; nothing
 here depends on which they are.
 */
module JsonPath {
  import opened Wrappers
  import opened JsonWalk
  import opened Numerals
  import opened Search
  import Utf8

  // --- Writing -----------------------------------------------------------------------------------

  predicate Alphanumeric(c: char) { '0' <= c <= '9' || 'a' <= c <= 'z' || 'A' <= c <= 'Z' }

  predicate Plain(key: string) {
    && key != ""
    && !('0' <= key[0] <= '9')
    && forall i :: 0 <= i < |key| ==> Alphanumeric(key[i]) || key[i] == '_'
  }

  /** One character of a quoted key. */
  function Quoted(c: char, odd: char -> bool): string {
    if c == '\0' then "\\0"
    else if c == '\t' then "\\t"
    else if c == '\r' then "\\r"
    else if c == '\n' then "\\n"
    else if c == '"' then "\\\""
    else if c == '\\' then "\\\\"
    else if odd(c) then "\\u{" + Numeral(c as int, 16) + "}"
    else [c]
  }

  function QuotedAll(key: string, odd: char -> bool): string {
    if key == "" then "" else Quoted(key[0], odd) + QuotedAll(key[1..], odd)
  }

  function WriteStep(step: Step, odd: char -> bool): string {
    match step
    case Key(key) => if Plain(key) then "." + key else "[\"" + QuotedAll(key, odd) + "\"]"
    case Index(index) => "[" + Numeral(index, 10) + "]"
  }

  function WriteSteps(path: seq<Step>, odd: char -> bool): string {
    if path == [] then "" else WriteStep(path[0], odd) + WriteSteps(path[1..], odd)
  }

  const ITSELF := "the value itself"

  function WhereItIs(path: seq<Step>, odd: char -> bool): string {
    if path == [] then ITSELF else WriteSteps(path, odd)
  }

  /** The same text, put together step by step. */
  method WriteWhereItIs(path: seq<Step>, odd: char -> bool) returns (out: string)
    ensures out == WhereItIs(path, odd)
  {
    hide WriteStep;
    if path == [] { return ITSELF; }
    out := "";
    for i := 0 to |path|
      invariant out + WriteSteps(path[i..], odd) == WriteSteps(path, odd)
    {
      assert path[i..][0] == path[i] && path[i..][1..] == path[i + 1..];
      assert out + WriteSteps(path[i..], odd) == out + WriteStep(path[i], odd) + WriteSteps(path[i + 1..], odd);
      out := out + WriteStep(path[i], odd);
    }
  }

  /** A key is written after a dot exactly when it is a plain identifier, and quoted in brackets otherwise. */
  lemma StepIsDotted(key: string, odd: char -> bool)
    ensures var s := WriteStep(Key(key), odd);
      && (s == "." + key <==>
            && key != "" && !('0' <= key[0] <= '9')
            && forall i :: 0 <= i < |key| ==>
                 '0' <= key[i] <= '9' || 'a' <= key[i] <= 'z' || 'A' <= key[i] <= 'Z' || key[i] == '_')
      && (s == "." + key || s == "[\"" + QuotedAll(key, odd) + "\"]")
  {
    if !Plain(key) { assert WriteStep(Key(key), odd)[0] == '[' && ("." + key)[0] == '.'; }
  }

  /** The documented paths: a key with a dot in it is no nesting, and a key of digits no index. */
  lemma DocumentedPaths(odd: char -> bool)
    requires !odd('a') && !odd('.') && !odd('b') && !odd('3')
    ensures WhereItIs([Key("a.b")], odd) == "[\"a.b\"]" && WhereItIs([Key("a"), Key("b")], odd) == ".a.b"
    ensures WhereItIs([Key("3")], odd) == "[\"3\"]" && WhereItIs([Index(3)], odd) == "[3]"
    ensures WhereItIs([], odd) == "the value itself"
  {
    hide Quoted, QuotedAll, WriteStep, Plain, Numeral;
    DottedIsQuoted(odd);
    OneStep(Key("a.b"), odd);
    OneStep(Key("3"), odd);
    OneStep(Index(3), odd);
    var two := [Key("a"), Key("b")];
    assert two[1..] == [Key("b")];
    OneStep(Key("b"), odd);
    assert WriteSteps(two, odd) == WriteStep(Key("a"), odd) + WriteSteps([Key("b")], odd);
  }

  lemma OneStep(step: Step, odd: char -> bool)
    ensures WriteSteps([step], odd) == WriteStep(step, odd) == WhereItIs([step], odd)
  {
    hide WriteStep;
    assert [step][1..] == [];
  }

  lemma DottedIsQuoted(odd: char -> bool)
    requires !odd('a') && !odd('.') && !odd('b') && !odd('3')
    ensures WriteStep(Key("a.b"), odd) == "[\"a.b\"]" && WriteStep(Key("3"), odd) == "[\"3\"]"
    ensures WriteStep(Key("a"), odd) == ".a" && WriteStep(Key("b"), odd) == ".b" && WriteStep(Index(3), odd) == "[3]"
  {
    hide WriteSteps;
    PlainOrNot();
    QuotedAsItIs(odd);
    assert Numeral(3, 10) == "3";
  }

  lemma PlainOrNot()
    ensures !Plain("a.b") && Plain("a") && Plain("b") && !Plain("3")
  {
    assert "a.b"[1] == '.';
  }

  lemma QuotedAsItIs(odd: char -> bool)
    requires !odd('a') && !odd('.') && !odd('b') && !odd('3')
    ensures QuotedAll("a.b", odd) == "a.b" && QuotedAll("3", odd) == "3"
  {
    assert "a.b"[1..] == ".b" && ".b"[1..] == "b" && "b"[1..] == "" && "3"[1..] == "";
    assert QuotedAll("b", odd) == "b" && QuotedAll(".b", odd) == ".b";
  }

  // --- Reading -------------------------------------------------------------------------------------

  /** One character of a quoted key, and what follows it; none at the closing quote. */
  function Unquote(s: string): Option<(char, string)> {
    if s == "" || s[0] == '"' then None
    else if s[0] != '\\' then Some((s[0], s[1..]))
    else if |s| < 2 then None
    else match s[1]
      case '0' => Some(('\0', s[2..]))
      case 't' => Some(('\t', s[2..]))
      case 'r' => Some(('\r', s[2..]))
      case 'n' => Some(('\n', s[2..]))
      case '"' => Some(('"', s[2..]))
      case '\\' => Some(('\\', s[2..]))
      case _ =>
        if |s| < 3 then None
        else
          var n := First(s[3..], ClosesBrace);
          var v := ValueOf(s[3..][..n], 16);
          if n == |s[3..]| || !Utf8.Scalar(v) then None else Some((v as char, s[3 + n + 1..]))
  }

  predicate ClosesBrace(c: char) { c == '}' }

  predicate ClosesBracket(c: char) { c == ']' }

  function UnquoteAll(s: string): (string, string)
    decreases |s|
  {
    match Unquote(s)
    case None => ("", s)
    case Some((c, rest)) => if |rest| < |s| then var (key, left) := UnquoteAll(rest); ([c] + key, left) else ("", s)
  }

  predicate Delimiter(c: char) { c == '.' || c == '[' }

  /** The step that a text starts with, and what follows it. */
  function ReadStep(s: string): Option<(Step, string)> {
    if s == "" then None
    else if s[0] == '.' then
      var n := First(s[1..], Delimiter);
      Some((Key(s[1..][..n]), s[1 + n..]))
    else if |s| >= 2 && s[1] == '"' then
      var (key, left) := UnquoteAll(s[2..]);
      if |left| < 2 then None else Some((Key(key), left[2..]))
    else
      var n := First(s[1..], ClosesBracket);
      if n == |s[1..]| then None else Some((Index(ValueOf(s[1..][..n], 10)), s[1 + n + 1..]))
  }

  predicate Short(c: char) { c == '\0' || c == '\t' || c == '\r' || c == '\n' || c == '"' || c == '\\' }

  lemma UnquoteCodePoint(n: nat, rest: string)
    requires Utf8.Scalar(n)
    ensures Unquote("\\u{" + Numeral(n, 16) + "}" + rest) == Some((n as char, rest))
  {
    hide Numeral, ValueOf;
    var numeral := Numeral(n, 16);
    var tail := numeral + ("}" + rest);
    NumeralHasNo(n, 16, '}');
    NumeralReads(n, 16);
    FirstIn(numeral, "}" + rest, ClosesBrace);
    assert tail[..|numeral|] == numeral && tail[|numeral| + 1..] == rest;
    UnquoteTail(tail);
    assert "\\u{" + tail == "\\u{" + numeral + "}" + rest;
  }

  lemma UnquoteTail(tail: string)
    requires var n := First(tail, ClosesBrace); n < |tail| && Utf8.Scalar(ValueOf(tail[..n], 16))
    ensures var n := First(tail, ClosesBrace);
      Unquote("\\u{" + tail) == Some((ValueOf(tail[..n], 16) as char, tail[n + 1..]))
  {
    hide ValueOf, First;
    var s := "\\u{" + tail;
    var n := First(tail, ClosesBrace);
    assert s[3..] == tail && s[3 + n + 1..] == tail[n + 1..];
  }

  lemma UnquoteUndoesQuoted(c: char, odd: char -> bool, rest: string)
    ensures Unquote(Quoted(c, odd) + rest) == Some((c, rest))
  {
    hide Numeral, ValueOf, First;
    var s := Quoted(c, odd) + rest;
    if Short(c) {
      assert s[2..] == rest;
    } else if odd(c) {
      UnquoteCodePoint(c as int, rest);
    } else {
      assert s[1..] == rest;
    }
  }

  lemma {:induction false} UnquoteUndoesQuotedAll(key: string, odd: char -> bool, rest: string)
    ensures UnquoteAll(QuotedAll(key, odd) + "\"" + rest) == (key, "\"" + rest)
  {
    hide Quoted, Unquote;
    if key == "" {
      UnquoteStops(rest);
      assert QuotedAll(key, odd) + "\"" + rest == "\"" + rest;
    } else {
      var after := QuotedAll(key[1..], odd) + "\"" + rest;
      assert QuotedAll(key, odd) + "\"" + rest == Quoted(key[0], odd) + after;
      UnquoteUndoesQuoted(key[0], odd, after);
      SomeQuoted(key[0], odd);
      UnquoteUndoesQuotedAll(key[1..], odd, rest);
      assert [key[0]] + key[1..] == key;
    }
  }

  lemma SomeQuoted(c: char, odd: char -> bool)
    ensures Quoted(c, odd) != ""
  {
  }

  lemma UnquoteStops(rest: string)
    ensures Unquote("\"" + rest) == None
  {
  }

  lemma ReadPlainKey(key: string, rest: string)
    requires Plain(key) && (rest == "" || Delimiter(rest[0]))
    ensures ReadStep("." + key + rest) == Some((Key(key), rest))
  {
    var s := "." + key + rest;
    assert s[1..] == key + rest;
    FirstIn(key, rest, Delimiter);
    assert s[1..][..|key|] == key && s[1 + |key|..] == rest;
  }

  lemma ReadQuotedKey(key: string, odd: char -> bool, rest: string)
    ensures ReadStep("[\"" + QuotedAll(key, odd) + "\"]" + rest) == Some((Key(key), rest))
  {
    hide QuotedAll, UnquoteAll;
    var s := "[\"" + QuotedAll(key, odd) + "\"]" + rest;
    assert s[2..] == QuotedAll(key, odd) + "\"" + ("]" + rest);
    UnquoteUndoesQuotedAll(key, odd, "]" + rest);
    assert ("\"" + ("]" + rest))[2..] == rest;
  }

  lemma ReadIndex(index: nat, rest: string)
    ensures ReadStep("[" + Numeral(index, 10) + "]" + rest) == Some((Index(index), rest))
  {
    hide Numeral, ValueOf;
    var numeral := Numeral(index, 10);
    NumeralHasNo(index, 10, ']');
    NumeralHasNo(index, 10, '"');
    NumeralReads(index, 10);
    ReadBracketed(numeral, rest);
  }

  lemma ReadBracketed(inner: string, rest: string)
    requires inner != "" && ']' !in inner && '"' !in inner
    ensures ReadStep("[" + inner + "]" + rest) == Some((Index(ValueOf(inner, 10)), rest))
  {
    hide ValueOf, UnquoteAll, First;
    var s := "[" + inner + "]" + rest;
    var tail := inner + ("]" + rest);
    FirstIn(inner, "]" + rest, ClosesBracket);
    assert s[1..] == tail && s[1] == inner[0];
    assert tail[..|inner|] == inner && s[1 + |inner| + 1..] == rest;
  }

  /** A step is read back whole from in front of another step or the end. */
  lemma ReadUndoesWrite(step: Step, odd: char -> bool, rest: string)
    requires rest == "" || Delimiter(rest[0])
    ensures ReadStep(WriteStep(step, odd) + rest) == Some((step, rest))
  {
    hide ReadStep, QuotedAll, Numeral;
    match step
    case Key(key) => if Plain(key) { ReadPlainKey(key, rest); } else { ReadQuotedKey(key, odd, rest); }
    case Index(index) => ReadIndex(index, rest);
  }

  lemma StepsStartWithADelimiter(path: seq<Step>, odd: char -> bool)
    ensures path == [] <==> WriteSteps(path, odd) == ""
    ensures path != [] ==> Delimiter(WriteSteps(path, odd)[0])
  {
  }

  /** The written path determines the steps: keys that imitate paths, indices or quotes are never confused. */
  lemma {:induction false} WrittenStepsAreUnique(p: seq<Step>, q: seq<Step>, odd: char -> bool)
    requires WriteSteps(p, odd) == WriteSteps(q, odd)
    ensures p == q
  {
    hide WriteStep, ReadStep, Delimiter;
    StepsStartWithADelimiter(p, odd);
    StepsStartWithADelimiter(q, odd);
    if p != [] && q != [] {
      StepsStartWithADelimiter(p[1..], odd);
      StepsStartWithADelimiter(q[1..], odd);
      ReadUndoesWrite(p[0], odd, WriteSteps(p[1..], odd));
      ReadUndoesWrite(q[0], odd, WriteSteps(q[1..], odd));
      WrittenStepsAreUnique(p[1..], q[1..], odd);
      assert p == [p[0]] + p[1..] && q == [q[0]] + q[1..];
    }
  }

  lemma WrittenPathIsUnique(p: seq<Step>, q: seq<Step>, odd: char -> bool)
    requires WhereItIs(p, odd) == WhereItIs(q, odd)
    ensures p == q
  {
    StepsStartWithADelimiter(p, odd);
    StepsStartWithADelimiter(q, odd);
    assert ITSELF[0] == 't';
    if p != [] && q != [] { WrittenStepsAreUnique(p, q, odd); }
  }
}
