/**
 The HTML allowlist (`src/present.rs`) and the HTML escaping that feeds it (`src/web.rs`).

 The allowlist is a stack machine over a string. It is proved to accept the renderings of a grammar of
 trees and nothing else. Characters are Unicode scalar values; sizes are counted in UTF-8 bytes.
 */
module HtmlMarkup {
  import opened Wrappers
  import opened Search
  import opened Utf8

  const HTML_BYTES: nat := 16384
  const BODY: nat := 1048576
  const DEPTH: nat := 8
  const TAGS: seq<string> := ["div", "small", "table", "thead", "tbody", "tr", "th", "td"]
  const ENTITIES: seq<string> := ["&amp;", "&lt;", "&gt;", "&quot;", "&#39;"]

  predicate Control(c: char) { c as int <= 0x1F || 0x7F <= c as int <= 0x9F }

  predicate Bidi(c: char) {
    var n := c as int;
    n == 0x2028 || n == 0x2029 || 0x202A <= n <= 0x202E || 0x2066 <= n <= 0x2069
  }

  predicate Clean(c: char) { !(Control(c) && c != '\n') && !Bidi(c) }

  // --- The grammar -----------------------------------------------------------------------

  datatype Node = Text(c: char) | Entity(index: nat) | Element(tag: string, children: seq<Node>)

  function Render(n: Node): string {
    match n
    case Text(c) => [c]
    case Entity(i) => if i < |ENTITIES| then ENTITIES[i] else ""
    case Element(tag, children) => "<" + tag + ">" + RenderAll(children) + "</" + tag + ">"
  }

  function RenderAll(ns: seq<Node>): string {
    if ns == [] then "" else Render(ns[0]) + RenderAll(ns[1..])
  }

  predicate Allowed(n: Node, depth: nat) {
    match n
    case Text(c) => Clean(c) && c != '<' && c != '>' && c != '&'
    case Entity(i) => i < |ENTITIES|
    case Element(tag, children) => tag in TAGS && depth < DEPTH && AllowedAll(children, depth + 1)
  }

  /** Allowed nodes inside `depth` open elements. */
  predicate AllowedAll(ns: seq<Node>, depth: nat) {
    ns == [] || (Allowed(ns[0], depth) && AllowedAll(ns[1..], depth))
  }

  ghost predicate InGrammar(s: string) {
    exists ns :: AllowedAll(ns, 0) && RenderAll(ns) == s
  }

  // --- The stack machine --------------------------------------------------------------------

  /** The entity the text starts with, or the number of entities if it starts with none. */
  function EntityAt(s: string): (i: nat)
    ensures i <= |ENTITIES| && (i < |ENTITIES| ==> ENTITIES[i] <= s)
    ensures i == |ENTITIES| ==> forall j :: 0 <= j < |ENTITIES| ==> !(ENTITIES[j] <= s)
  {
    if ENTITIES[0] <= s then 0
    else if ENTITIES[1] <= s then 1
    else if ENTITIES[2] <= s then 2
    else if ENTITIES[3] <= s then 3
    else if ENTITIES[4] <= s then 4
    else 5
  }

  /** What is left to read and the elements still open, or `None` once the text is refused. */
  datatype Scanner = Scanner(rest: string, open: seq<string>)

  function ReadTag(s: Scanner): Option<Scanner>
    requires s.rest != ""
  {
    var end := IndexOf(s.rest, '>');
    if end == |s.rest| || end == 0 then None
    else
      var inner := s.rest[1..end];
      var closing := inner != "" && inner[0] == '/';
      var name := if closing then inner[1..] else inner;
      var depth := |s.open|;
      if name !in TAGS then None
      else if closing then
        if depth > 0 && s.open[depth - 1] == name then Some(Scanner(s.rest[end + 1..], s.open[..depth - 1])) else None
      else if depth == DEPTH then None
      else Some(Scanner(s.rest[end + 1..], s.open + [name]))
  }

  function Read(s: Scanner): (t: Option<Scanner>)
    requires s.rest != ""
    ensures t.Some? ==> |t.value.rest| < |s.rest|
  {
    var c := s.rest[0];
    if c == '<' then ReadTag(s)
    else if c == '>' then None
    else if c == '&' then
      var i := EntityAt(s.rest);
      if i < |ENTITIES| then Some(s.(rest := s.rest[|ENTITIES[i]|..])) else None
    else if !Clean(c) then None
    else Some(s.(rest := s.rest[1..]))
  }

  predicate Accepts(s: Scanner)
    decreases |s.rest|
  {
    if s.rest == "" then s.open == []
    else
      var t := Read(s);
      t.Some? && Accepts(t.value)
  }

  // --- Every rendering is accepted -------------------------------------------------------

  lemma TagsArePlain(tag: string)
    requires tag in TAGS
    ensures tag != "" && tag[0] != '/' && '>' !in tag
  {
    assert TAGS == ["div", "small", "table", "thead", "tbody", "tr", "th", "td"];
  }

  lemma ReadOpening(tag: string, rest: string, open: seq<string>)
    requires tag in TAGS && |open| < DEPTH
    ensures Read(Scanner("<" + tag + ">" + rest, open)) == Some(Scanner(rest, open + [tag]))
  {
    TagsArePlain(tag);
    IndexOfIn("<" + tag, '>', rest);
    var s := "<" + tag + ">" + rest;
    assert s == "<" + tag + ['>'] + rest;
    assert s[1..|tag| + 1] == tag && s[|tag| + 2..] == rest;
  }

  lemma ReadClosing(tag: string, rest: string, open: seq<string>)
    requires tag in TAGS
    ensures Read(Scanner("</" + tag + ">" + rest, open + [tag])) == Some(Scanner(rest, open))
  {
    TagsArePlain(tag);
    IndexOfIn("</" + tag, '>', rest);
    var s := "</" + tag + ">" + rest;
    assert s == "</" + tag + ['>'] + rest;
    assert s[1..|tag| + 2] == "/" + tag && s[|tag| + 3..] == rest;
    assert (open + [tag])[..|open|] == open;
  }

  lemma ReadEntity(i: nat, rest: string, open: seq<string>)
    requires i < |ENTITIES|
    ensures Read(Scanner(ENTITIES[i] + rest, open)) == Some(Scanner(rest, open))
  {
    var s := ENTITIES[i] + rest;
    assert ENTITIES == ["&amp;", "&lt;", "&gt;", "&quot;", "&#39;"];
    assert ENTITIES[i] <= s && s[0] == '&';
    var j := EntityAt(s);
    assert s[1] == ENTITIES[i][1] && s[1] == ENTITIES[j][1];
    assert j == i;
    assert s[|ENTITIES[i]|..] == rest;
  }

  /** Reading a whole rendering leaves the machine as it was. */
  lemma {:induction false} AcceptsAfterForest(ns: seq<Node>, rest: string, open: seq<string>)
    requires AllowedAll(ns, |open|)
    ensures Accepts(Scanner(RenderAll(ns) + rest, open)) <==> Accepts(Scanner(rest, open))
    decreases ns
  {
    if ns == [] {
      assert RenderAll(ns) + rest == rest;
    } else {
      var after := RenderAll(ns[1..]) + rest;
      assert RenderAll(ns) + rest == Render(ns[0]) + after;
      AcceptsAfterNode(ns[0], after, open);
      AcceptsAfterForest(ns[1..], rest, open);
    }
  }

  lemma {:induction false} AcceptsAfterNode(n: Node, rest: string, open: seq<string>)
    requires Allowed(n, |open|)
    ensures Accepts(Scanner(Render(n) + rest, open)) <==> Accepts(Scanner(rest, open))
    decreases n
  {
    match n
    case Text(c) => assert ([c] + rest)[1..] == rest;
    case Entity(i) => ReadEntity(i, rest, open);
    case Element(tag, children) =>
      var closing := "</" + tag + ">" + rest;
      var inside := RenderAll(children) + closing;
      assert Render(n) + rest == "<" + tag + ">" + inside;
      ReadOpening(tag, inside, open);
      AcceptsAfterForest(children, closing, open + [tag]);
      ReadClosing(tag, rest, open);
  }

  // --- Nothing else is accepted ------------------------------------------------------------

  /** What follows inside `open` elements: a forest, then the innermost closing tag, and so on out. */
  function Unwound(open: seq<string>, forests: seq<seq<Node>>): string
    requires |forests| == |open| + 1
  {
    var (n, head) := (|open|, RenderAll(forests[0]));
    if n == 0 then head
    else head + ("</" + open[n - 1] + ">" + Unwound(open[..n - 1], forests[1..]))
  }

  predicate AllowedStack(open: seq<string>, forests: seq<seq<Node>>) {
    var n := |open|;
    && |forests| == n + 1
    && AllowedAll(forests[0], n)
    && (n > 0 ==> open[n - 1] in TAGS && AllowedStack(open[..n - 1], forests[1..]))
  }

  function WithNode(first: Node, later: seq<seq<Node>>): seq<seq<Node>>
    requires |later| > 0
  {
    [[first] + later[0]] + later[1..]
  }

  lemma AllowedWithNode(first: Node, open: seq<string>, later: seq<seq<Node>>)
    requires Allowed(first, |open|) && AllowedStack(open, later)
    ensures AllowedStack(open, WithNode(first, later))
  {
    hide Allowed, AllowedAll, TAGS;
    ForestCons(first, later[0], |open|);
    assert WithNode(first, later)[1..] == later[1..];
  }

  lemma UnwoundWithNode(first: Node, open: seq<string>, later: seq<seq<Node>>)
    requires |later| == |open| + 1
    ensures Unwound(open, WithNode(first, later)) == Render(first) + Unwound(open, later)
  {
    hide Render, RenderAll, WithNode;
    var (forests, n) := (WithNode(first, later), |open|);
    WithNodeParts(first, later);
    ForestCons(first, later[0], n);
    if n > 0 {
      var tail := "</" + open[n - 1] + ">" + Unwound(open[..n - 1], later[1..]);
      assert Unwound(open, forests) == RenderAll(forests[0]) + tail;
      Associates(Render(first), RenderAll(later[0]), tail);
    }
  }

  lemma Associates(a: string, b: string, c: string)
    ensures a + b + c == a + (b + c)
  {
  }

  lemma WithNodeParts(first: Node, later: seq<seq<Node>>)
    requires |later| > 0
    ensures |WithNode(first, later)| == |later|
    ensures WithNode(first, later)[0] == [first] + later[0] && WithNode(first, later)[1..] == later[1..]
  {
  }

  lemma ForestCons(first: Node, rest: seq<Node>, depth: nat)
    ensures RenderAll([first] + rest) == Render(first) + RenderAll(rest)
    ensures AllowedAll([first] + rest, depth) <==> Allowed(first, depth) && AllowedAll(rest, depth)
  {
    assert ([first] + rest)[1..] == rest;
  }

  lemma UnwoundClosing(tag: string, open: seq<string>, later: seq<seq<Node>>)
    requires tag in TAGS && AllowedStack(open, later)
    ensures AllowedStack(open + [tag], [[]] + later)
    ensures Unwound(open + [tag], [[]] + later) == "</" + tag + ">" + Unwound(open, later)
  {
    assert (open + [tag])[..|open|] == open && ([[]] + later)[1..] == later;
  }

  lemma UnwoundElement(tag: string, open: seq<string>, later: seq<seq<Node>>)
    requires tag in TAGS && |open| < DEPTH && AllowedStack(open + [tag], later)
    ensures Allowed(Element(tag, later[0]), |open|) && AllowedStack(open, later[1..])
    ensures Render(Element(tag, later[0])) + Unwound(open, later[1..]) == "<" + tag + ">" + Unwound(open + [tag], later)
  {
    hide AllowedAll, RenderAll, TAGS;
    assert (open + [tag])[..|open|] == open;
    var (head, after) := (RenderAll(later[0]), Unwound(open, later[1..]));
    assert Render(Element(tag, later[0])) + after == "<" + tag + ">" + (head + ("</" + tag + ">" + after));
  }

  lemma ReadPlainShape(s: Scanner)
    requires s.rest != "" && s.rest[0] != '<' && Read(s).Some?
    ensures var first := if s.rest[0] == '&' then Entity(EntityAt(s.rest)) else Text(s.rest[0]);
      Allowed(first, |s.open|) && s.rest == Render(first) + Read(s).value.rest && Read(s).value.open == s.open
  {
  }

  lemma ReadTagShape(s: Scanner)
    requires s.rest != "" && s.rest[0] == '<' && Read(s).Some?
    ensures var (end, t) := (IndexOf(s.rest, '>'), Read(s).value);
      && 0 < end < |s.rest|
      && var inner := s.rest[1..end];
      && if inner != "" && inner[0] == '/'
         then inner[1..] in TAGS && s.open == t.open + [inner[1..]] && s.rest == "</" + inner[1..] + ">" + t.rest
         else inner in TAGS && |s.open| != DEPTH && t.open == s.open + [inner] && s.rest == "<" + inner + ">" + t.rest
  {
    hide TAGS, IndexOf, EntityAt;
    var end := IndexOf(s.rest, '>');
    var inner := s.rest[1..end];
    assert s.rest == "<" + inner + ">" + s.rest[end + 1..];
    if inner != "" && inner[0] == '/' {
      assert s.rest == "</" + inner[1..] + ">" + s.rest[end + 1..];
      var depth := |s.open|;
      assert s.open == s.open[..depth - 1] + [s.open[depth - 1]];
    }
  }

  /** An accepted text can be read back as the forests it renders. */
  lemma {:induction false} AcceptedUnwinds(s: Scanner) returns (forests: seq<seq<Node>>)
    requires Accepts(s) && |s.open| <= DEPTH
    ensures AllowedStack(s.open, forests) && Unwound(s.open, forests) == s.rest
    decreases |s.rest|
  {
    if s.rest == "" {
      return [[]];
    }
    hide Read, Allowed, AllowedAll, Render, RenderAll;
    var t := Read(s).value;
    if s.rest[0] != '<' {
      ReadPlainShape(s);
      var first := if s.rest[0] == '&' then Entity(EntityAt(s.rest)) else Text(s.rest[0]);
      var later := AcceptedUnwinds(t);
      AllowedWithNode(first, s.open, later);
      UnwoundWithNode(first, s.open, later);
      return WithNode(first, later);
    }
    ReadTagShape(s);
    var inner := s.rest[1..IndexOf(s.rest, '>')];
    var later := AcceptedUnwinds(t);
    if inner != "" && inner[0] == '/' {
      UnwoundClosing(inner[1..], t.open, later);
      return [[]] + later;
    }
    UnwoundElement(inner, s.open, later);
    AllowedWithNode(Element(inner, later[0]), s.open, later[1..]);
    UnwoundWithNode(Element(inner, later[0]), s.open, later[1..]);
    return WithNode(Element(inner, later[0]), later[1..]);
  }

  /** The machine accepts exactly the grammar. */
  lemma AcceptsExactlyTheGrammar(s: string)
    ensures Accepts(Scanner(s, [])) <==> InGrammar(s)
  {
    if Accepts(Scanner(s, [])) {
      var forests := AcceptedUnwinds(Scanner(s, []));
      assert AllowedAll(forests[0], 0) && RenderAll(forests[0]) == s;
    }
    if InGrammar(s) {
      var ns :| AllowedAll(ns, 0) && RenderAll(ns) == s;
      AcceptsAfterForest(ns, "", []);
      assert RenderAll(ns) + "" == s;
    }
  }

  /** The check itself: one pass, with a stack of open elements. */
  method HtmlAllowed(html: string) returns (allowed: bool)
    ensures allowed <==> ByteLen(html) <= HTML_BYTES && InGrammar(html)
  {
    AcceptsExactlyTheGrammar(html);
    if ByteLen(html) > HTML_BYTES { return false; }
    var open: seq<string> := [];
    var rest := html;
    while rest != ""
      invariant Accepts(Scanner(html, [])) <==> Accepts(Scanner(rest, open))
      decreases |rest|
    {
      var ch := rest[0];
      if ch == '<' {
        var end := IndexOf(rest, '>');
        if end == |rest| { return false; }
        var inner := rest[1..end];
        var closing := inner != "" && inner[0] == '/';
        var name := if closing then inner[1..] else inner;
        if name !in TAGS { return false; }
        if closing {
          if open == [] || open[|open| - 1] != name { return false; }
          open := open[..|open| - 1];
        } else {
          if |open| == DEPTH { return false; }
          open := open + [name];
        }
        rest := rest[end + 1..];
      } else if ch == '>' {
        return false;
      } else if ch == '&' {
        var entity := EntityAt(rest);
        if entity == |ENTITIES| { return false; }
        rest := rest[|ENTITIES[entity]|..];
      } else if (Control(ch) && ch != '\n') || Bidi(ch) {
        return false;
      } else {
        rest := rest[1..];
      }
    }
    return open == [];
  }

  // --- Escaping -------------------------------------------------------------------------------

  function Escaped(c: char): string {
    match c
    case '&' => "&amp;"
    case '<' => "&lt;"
    case '>' => "&gt;"
    case '"' => "&quot;"
    case '\'' => "&#39;"
    case _ => [c]
  }

  function Escape(s: string): string {
    if s == "" then "" else Escaped(s[0]) + Escape(s[1..])
  }

  const CHARACTERS: string := "&<>\"'"

  /** Read each of the five entities back as its character. */
  function Unescape(s: string): string
    decreases |s|
  {
    if s == "" then ""
    else
      var i := EntityAt(s);
      if i < |ENTITIES| then [CHARACTERS[i]] + Unescape(s[|ENTITIES[i]|..])
      else [s[0]] + Unescape(s[1..])
  }

  /** The node that an escaped character renders. */
  function EscapedNode(c: char): Node {
    match c
    case '&' => Entity(0)
    case '<' => Entity(1)
    case '>' => Entity(2)
    case '"' => Entity(3)
    case '\'' => Entity(4)
    case _ => Text(c)
  }

  lemma EscapedIsARendering(c: char)
    ensures Escaped(c) == Render(EscapedNode(c))
    ensures Clean(c) ==> Allowed(EscapedNode(c), 0)
    ensures EscapedNode(c).Entity? ==> EscapedNode(c).index < |ENTITIES| && CHARACTERS[EscapedNode(c).index] == c
    ensures EscapedNode(c).Text? ==> c != '&' && c != '<' && c != '>' && EscapedNode(c) == Text(c)
    ensures EscapedNode(c).Entity? ==> Clean(c)
    ensures !EscapedNode(c).Element?
  {
  }

  lemma {:induction false} UnescapeUndoesEscape(s: string)
    ensures Unescape(Escape(s)) == s
  {
    if s != "" {
      var (rest, n) := (Escape(s[1..]), EscapedNode(s[0]));
      UnescapeUndoesEscape(s[1..]);
      EscapedIsARendering(s[0]);
      if n.Entity? {
        EntityIsUnique(n.index, rest);
        assert Escape(s) == ENTITIES[n.index] + rest;
      } else {
        NoEntityStartsWithout(s[0], rest);
        assert Escape(s) == [s[0]] + rest && Escape(s)[1..] == rest;
      }
    }
  }

  lemma NoEntityStartsWithout(c: char, rest: string)
    requires c != '&'
    ensures EntityAt([c] + rest) == |ENTITIES|
  {
    assert ([c] + rest)[0] == c;
    assert forall j :: 0 <= j < |ENTITIES| ==> ENTITIES[j][0] == '&';
  }

  lemma EntityIsUnique(i: nat, rest: string)
    requires i < |ENTITIES|
    ensures EntityAt(ENTITIES[i] + rest) == i && (ENTITIES[i] + rest)[|ENTITIES[i]|..] == rest
  {
    var s := ENTITIES[i] + rest;
    assert ENTITIES == ["&amp;", "&lt;", "&gt;", "&quot;", "&#39;"];
    assert ENTITIES[i] <= s;
    var j := EntityAt(s);
    assert s[1] == ENTITIES[i][1] && s[1] == ENTITIES[j][1];
  }

  /** No character at `i` could open a tag or close an attribute, and an ampersand there begins an entity. */
  predicate Inert(s: string, i: nat)
    requires i < |s|
  {
    && s[i] != '<' && s[i] != '>' && s[i] != '"' && s[i] != '\''
    && (s[i] == '&' ==> EntityAt(s[i..]) < |ENTITIES|)
  }

  /** Escaped text can stand anywhere in a document: it holds no angle bracket and no quote, and every ampersand in it
      begins one of the five entities. */
  lemma {:induction false} EscapedIsInert(s: string, i: nat)
    requires i < |Escape(s)|
    ensures Inert(Escape(s), i)
  {
    var (first, rest) := (Escaped(s[0]), Escape(s[1..]));
    var whole := first + rest;
    if i >= |first| {
      EscapedIsInert(s[1..], i - |first|);
      assert whole[i..] == rest[i - |first|..];
    } else {
      EscapedCharacterIsInert(s[0], rest, i);
    }
  }

  lemma EscapedCharacterIsInert(c: char, rest: string, i: nat)
    requires i < |Escaped(c)|
    ensures Inert(Escaped(c) + rest, i)
  {
    var whole := Escaped(c) + rest;
    assert whole[i] == Escaped(c)[i];
    if whole[i] == '&' {
      assert whole[0..] == whole && EscapedNode(c).Entity?;
      EscapedIsARendering(c);
      EntityIsUnique(EscapedNode(c).index, rest);
    }
  }

  /** Escaped text is accepted exactly when every character of the text is clean. */
  lemma {:induction false} EscapedIsAccepted(s: string)
    ensures Accepts(Scanner(Escape(s), [])) <==> forall i :: 0 <= i < |s| ==> Clean(s[i])
  {
    if s != "" {
      var rest := Escape(s[1..]);
      EscapedIsAccepted(s[1..]);
      assert (forall i :: 0 <= i < |s| ==> Clean(s[i])) <==>
        Clean(s[0]) && forall i :: 0 <= i < |s[1..]| ==> Clean(s[1..][i]);
      EscapedIsARendering(s[0]);
      if Clean(s[0]) {
        AcceptsAfterNode(EscapedNode(s[0]), rest, []);
      } else {
        assert Escape(s)[0] == s[0];
        assert Read(Scanner(Escape(s), [])).None?;
      }
    }
  }

  /** An escaped text passes the allowlist exactly when it fits its bound and the text has no control or
      bidirectional control character other than a newline. */
  lemma EscapedPassesTheAllowlist(s: string)
    ensures ByteLen(Escape(s)) <= HTML_BYTES && InGrammar(Escape(s)) <==>
      ByteLen(Escape(s)) <= HTML_BYTES && forall i :: 0 <= i < |s| ==> Clean(s[i])
  {
    EscapedIsAccepted(s);
    AcceptsExactlyTheGrammar(Escape(s));
  }

  lemma {:induction false} ByteLenConcat(a: string, b: string)
    ensures ByteLen(a + b) == ByteLen(a) + ByteLen(b)
  {
    if a == "" { assert a + b == b; }
    else {
      ByteLenConcat(a[1..], b);
      assert (a + b)[1..] == a[1..] + b;
    }
  }

  lemma EscapePrefix(s: string, i: nat)
    requires i < |s|
    ensures Escape(s[..i + 1]) == Escape(s[..i]) + Escaped(s[i])
    ensures ByteLen(Escape(s[..i + 1])) <= ByteLen(Escape(s))
    decreases i
  {
    if i == 0 {
      assert s[..1] == [s[0]] && s[..0] == "" && Escape(s[..1]) == Escaped(s[0]) + Escape("");
      assert Escape(s[..1]) == Escaped(s[0]);
      ByteLenConcat(Escaped(s[0]), Escape(s[1..]));
    } else {
      assert s[..i + 1][1..] == s[1..][..i] && s[..i][1..] == s[1..][..i - 1];
      EscapePrefix(s[1..], i - 1);
      ByteLenConcat(Escaped(s[0]), Escape(s[1..][..i]));
      ByteLenConcat(Escaped(s[0]), Escape(s[1..]));
    }
  }

  /** Measure the output first, then write it: refused exactly when the input or the output is over the bound. */
  method EscapeChecked(s: string) returns (r: Option<string>)
    ensures r == if ByteLen(s) <= BODY && ByteLen(Escape(s)) <= BODY then Some(Escape(s)) else None
    ensures r.Some? ==> Unescape(r.value) == s && forall i :: 0 <= i < |r.value| ==> Inert(r.value, i)
  {
    hide Inert, Unescape;
    UnescapeUndoesEscape(s);
    forall i | 0 <= i < |Escape(s)| ensures Inert(Escape(s), i) { EscapedIsInert(s, i); }
    if ByteLen(s) > BODY { return None; }
    var len := 0;
    for i := 0 to |s|
      invariant len == ByteLen(Escape(s[..i])) <= BODY
    {
      EscapePrefix(s, i);
      ByteLenConcat(Escape(s[..i]), Escaped(s[i]));
      len := len + ByteLen(Escaped(s[i]));
      if len > BODY { return None; }
    }
    assert s[..|s|] == s;
    var out := "";
    for i := 0 to |s|
      invariant out == Escape(s[..i])
    {
      EscapePrefix(s, i);
      out := out + Escaped(s[i]);
    }
    return Some(out);
  }
}
