/**
 A session as an incremental compiler (`src/session.rs`): each input is compiled with a prelude that restores
 only the bindings it may mention, and publishes only a delta.
 */
module Prelude {
  import opened Wrappers
  import opened Language
  import F = FormatCaptures

  // --- What an input mentions -----------------------------------------------------------------

  datatype Token = Ident(text: string) | Str(text: string) | Other | LexError

  /** The published names one token may refer to, or none when it could name anything. */
  function Mentions(t: Token, published: set<string>): Option<set<string>> {
    match t
    case Ident(text) => Some({text} * published)
    case Str(text) =>
      var decoded := F.Decoded(text);
      if decoded.None? then None else Some((set x | x in F.Captures(decoded.value)) * published)
    case _ => Some({})
  }

  function Mentioned(tokens: seq<Token>, published: set<string>): (found: set<string>)
    ensures found <= published
  {
    if tokens == [] || tokens[0].LexError? then {}
    else
      var first := Mentions(tokens[0], published);
      if first.None? then published else first.value + Mentioned(tokens[1..], published)
  }

  /** A token before any lexing error that names `x`, or a literal that could name anything. */
  ghost predicate NamesAt(tokens: seq<Token>, i: nat, x: string)
    requires i < |tokens|
  {
    && (forall k :: 0 <= k <= i ==> !tokens[k].LexError?)
    && match tokens[i]
       case Ident(text) => text == x
       case Str(text) => F.Decoded(text).None? || x in F.Captures(F.Decoded(text).value)
       case _ => false
  }

  /** What is mentioned is exactly what some token may name. */
  lemma {:induction false} MentionedExactly(tokens: seq<Token>, published: set<string>, x: string)
    ensures x in Mentioned(tokens, published) <==>
      x in published && exists i :: 0 <= i < |tokens| && NamesAt(tokens, i, x)
  {
    hide F.Decoded, F.Captures;
    if tokens != [] && !tokens[0].LexError? {
      var rest := tokens[1..];
      assert forall k :: 0 <= k < |rest| ==> rest[k] == tokens[k + 1];
      MentionedExactly(rest, published, x);
      if i :| 0 <= i < |rest| && NamesAt(rest, i, x) {
        forall k | 0 <= k <= i + 1 ensures !tokens[k].LexError? { if k > 0 { assert !rest[k - 1].LexError?; } }
        assert NamesAt(tokens, i + 1, x);
      }
      if i :| 0 <= i < |tokens| && NamesAt(tokens, i, x) {
        if i > 0 { assert NamesAt(rest, i - 1, x); }
      }
      if x in published { NamedFirst(tokens, published, x); }
    }
  }

  lemma NamedFirst(tokens: seq<Token>, published: set<string>, x: string)
    requires tokens != [] && !tokens[0].LexError? && x in published
    ensures var first := Mentions(tokens[0], published); NamesAt(tokens, 0, x) <==> first.None? || x in first.value
  {
    hide F.Decoded, F.Captures;
  }

  method MentionedIn(tokens: seq<Token>, published: set<string>) returns (found: set<string>)
    ensures found == Mentioned(tokens, published)
  {
    hide F.Decoded, F.Captures;
    found := {};
    if published == {} { return; }
    var i := 0;
    while i < |tokens|
      invariant 0 <= i <= |tokens| && found <= published
      invariant Mentioned(tokens, published) == found + Mentioned(tokens[i..], published)
    {
      assert tokens[i..][1..] == tokens[i + 1..];
      match tokens[i] {
        case LexError => return;
        case Ident(text) => if text in published { found := found + {text}; }
        case Str(text) =>
          var decoded := F.Decode(text);
          if decoded.None? { return published; }
          var groups := F.FormatCapturesOf(decoded.value);
          var j := 0;
          ghost var before := found;
          while j < |groups|
            invariant 0 <= j <= |groups|
            invariant found == before + (set x | x in groups[..j]) * published
          {
            if groups[j] in published { found := found + {groups[j]}; }
            j := j + 1;
          }
          assert groups[..j] == groups;
        case Other =>
      }
      i := i + 1;
    }
    assert tokens[i..] == [];
  }

  ghost predicate Finds(t: Token, x: string, published: set<string>) {
    !t.LexError? && (Mentions(t, published).None? || x in Mentions(t, published).value)
  }

  lemma {:induction false} MentionedFinds(tokens: seq<Token>, t: Token, x: string, published: set<string>)
    requires LexError !in tokens && t in tokens && Finds(t, x, published) && x in published
    ensures x in Mentioned(tokens, published)
  {
    if tokens[0] != t { MentionedFinds(tokens[1..], t, x, published); }
  }

  // --- The tokens of a program ------------------------------------------------------------------

  function TokensOf(e: Expr): seq<Token> {
    match e
    case Atomic(Name(x)) => [Ident(x)]
    case Atomic(Quoted(token)) => [Str(token)]
    case Atomic(Lambda(x, body)) => [Other, Ident(x), Other] + TokensOf(body)
    case Atomic(_) => [Other]
    case One(Format(token, _), of) => [Other, Str(token), Other] + TokensOf(of) + [Other]
    case One(Assign(x), of) => [Ident(x), Other] + TokensOf(of)
    case One(Field(key), of) => [Other, Ident(key), Other] + TokensOf(of) + [Other]
    case One(_, of) => [Other] + TokensOf(of)
    case Two(_, left, right) => TokensOf(left) + [Other] + TokensOf(right)
    case LetIn(x, bound, body) => [Other, Ident(x), Other] + TokensOf(bound) + [Other] + TokensOf(body)
    case If(c, yes, no) => [Other] + TokensOf(c) + [Other] + TokensOf(yes) + [Other] + TokensOf(no)
    case While(c, body) => [Other] + TokensOf(c) + [Other] + TokensOf(body)
    case Call(callee, argument) => TokensOf(callee) + [Other] + TokensOf(argument) + [Other]
  }

  const QUOTE := F.Literal('"')

  /** Where the session's decoder gives an answer it is the text the formatter reads, quotes included. */
  ghost predicate FaithfulLiteral(token: string, pieces: seq<F.Piece>) {
    && F.AllWellFormed(pieces)
    && (F.Decoded(token).Some? ==> F.Decoded(token).value == F.RenderAll([QUOTE] + pieces + [QUOTE]))
  }

  ghost predicate Faithful(e: Expr) {
    match e
    case Atomic(Lambda(_, body)) => Faithful(body)
    case Atomic(_) => true
    case One(op, of) => (op.Format? ==> FaithfulLiteral(op.token, op.pieces)) && Faithful(of)
    case Two(_, left, right) => Faithful(left) && Faithful(right)
    case LetIn(_, bound, body) => Faithful(bound) && Faithful(body)
    case If(c, yes, no) => Faithful(c) && Faithful(yes) && Faithful(no)
    case While(c, body) => Faithful(c) && Faithful(body)
    case Call(callee, argument) => Faithful(callee) && Faithful(argument)
  }

  lemma {:induction false} NamesOfPrefix(a: seq<F.Piece>, b: seq<F.Piece>)
    ensures forall x :: x in F.Names(a) ==> x in F.Names(a + b)
  {
    if a != [] {
      NamesOfPrefix(a[1..], b);
      assert (a + b)[1..] == a[1..] + b;
    }
  }

  lemma QuotedNames(pieces: seq<F.Piece>, x: string)
    requires F.AllWellFormed(pieces) && x in F.Names(pieces)
    ensures x in F.Captures(F.RenderAll([QUOTE] + pieces + [QUOTE]))
  {
    hide F.Captures, F.RenderAll, F.Names, F.Found, F.AllWellFormed, F.Spurious;
    var quoted := [QUOTE] + pieces + [QUOTE];
    QuotedTemplate(pieces, x);
    F.ScanFindsTemplate(quoted);
    F.FoundAreNames(quoted);
  }

  lemma QuotedTemplate(pieces: seq<F.Piece>, x: string)
    requires F.AllWellFormed(pieces) && x in F.Names(pieces)
    ensures F.AllWellFormed([QUOTE] + pieces + [QUOTE]) && x in F.Names([QUOTE] + pieces + [QUOTE])
  {
    var quoted := [QUOTE] + pieces + [QUOTE];
    NamesOfPrefix(pieces, [QUOTE]);
    assert quoted[1..] == pieces + [QUOTE];
  }

  /** Every name a literal captures is found in its token. */
  lemma LiteralIsFound(token: string, pieces: seq<F.Piece>, x: string, published: set<string>)
    requires FaithfulLiteral(token, pieces) && x in F.Names(pieces) && x in published
    ensures Finds(Str(token), x, published)
  {
    hide F.Decoded, F.Captures, F.RenderAll, F.Names, F.AllWellFormed;
    if F.Decoded(token).Some? { QuotedNames(pieces, x); }
  }

  ghost predicate Found(tokens: seq<Token>, x: string, published: set<string>) {
    exists t :: t in tokens && Finds(t, x, published)
  }

  lemma FoundToken(tokens: seq<Token>, t: Token, x: string, published: set<string>)
    requires t in tokens && Finds(t, x, published)
    ensures Found(tokens, x, published)
  {
  }

  lemma FoundIdent(tokens: seq<Token>, x: string, published: set<string>)
    requires Ident(x) in tokens && x in published
    ensures Found(tokens, x, published)
  {
    FoundToken(tokens, Ident(x), x, published);
  }

  lemma FoundInPart(part: seq<Token>, whole: seq<Token>, x: string, published: set<string>)
    requires Found(part, x, published) && forall t :: t in part ==> t in whole
    ensures Found(whole, x, published)
  {
  }

  /** The part of an expression that writes a name down, unless the expression does so itself. */
  ghost function PartUsing(e: Expr, x: string): Option<Expr> {
    match e
    case Atomic(Lambda(_, body)) => if x in Uses(body) then Some(body) else None
    case Atomic(_) => None
    case One(op, of) => if x in Uses(of) then Some(of) else None
    case Two(_, left, right) => Some(if x in Uses(left) then left else right)
    case LetIn(_, bound, body) => if x in Uses(bound) then Some(bound) else if x in Uses(body) then Some(body) else None
    case If(c, yes, no) => Some(if x in Uses(c) then c else if x in Uses(yes) then yes else no)
    case While(c, body) => Some(if x in Uses(c) then c else body)
    case Call(callee, argument) => Some(if x in Uses(callee) then callee else argument)
  }

  lemma PartOf(e: Expr, x: string)
    requires x in Uses(e) && PartUsing(e, x).Some?
    ensures var part := PartUsing(e, x).value;
      && x in Uses(part) && part < e && (Faithful(e) ==> Faithful(part))
      && forall t :: t in TokensOf(part) ==> t in TokensOf(e)
  {
    hide FaithfulLiteral;
  }

  /** Every published name an expression writes down is found among its tokens. */
  lemma {:induction false} UsesAreFound(e: Expr, x: string, published: set<string>)
    requires Faithful(e) && x in Uses(e) && x in published
    ensures Found(TokensOf(e), x, published)
  {
    hide Mentions, Finds, Found, FaithfulLiteral;
    var part := PartUsing(e, x);
    if part.Some? {
      PartOf(e, x);
      UsesAreFound(part.value, x, published);
      FoundInPart(TokensOf(part.value), TokensOf(e), x, published);
    } else if e.One? && e.unary.Format? {
      LiteralIsFound(e.unary.token, e.unary.pieces, x, published);
      assert Str(e.unary.token) in TokensOf(e);
      FoundToken(TokensOf(e), Str(e.unary.token), x, published);
    } else {
      assert Ident(x) in TokensOf(e);
      FoundIdent(TokensOf(e), x, published);
    }
  }

  // --- Inputs -------------------------------------------------------------------------------------

  datatype Stmt =
    | Item(name: string, isType: bool, source: string, fun: Fun)
    | OtherItem
    | Let(name: string, value: Expr)
    | Do(expr: Expr)

  datatype Input = Unparsable | Parsed(stmts: seq<Stmt>, result: Option<Expr>)

  datatype Declaration = Declaration(isType: bool, source: string, fun: Fun)

  /** What a session holds. The heap is what its handles share with everything else. */
  datatype Held = Held(declarations: map<string, Declaration>, names: set<string>, state: map<string, Value>,
                       heap: seq<Value>)

  datatype Outcome = Success(value: Value) | Failure

  predicate Reserved(name: string) { name == "main" || "__rnx_" <= name }

  /** The declarations and names an input would leave, unless one of its statements is refused. */
  function Gathered(stmts: seq<Stmt>, declarations: map<string, Declaration>, names: set<string>)
    : Option<(map<string, Declaration>, set<string>)>
  {
    if stmts == [] then Some((declarations, names))
    else
      match stmts[0]
      case OtherItem => None
      case Do(_) => Gathered(stmts[1..], declarations, names)
      case Let(x, _) => if Reserved(x) then None else Gathered(stmts[1..], declarations, names + {x})
      case Item(x, isType, source, fun) =>
        if Reserved(x) then None
        else if x in declarations && (declarations[x].isType || isType) && declarations[x].source != source then None
        else Gathered(stmts[1..], declarations[x := Declaration(isType, source, fun)], names)
  }

  function UnitOf(declarations: map<string, Declaration>): map<string, Fun> {
    map x | x in declarations :: declarations[x].fun
  }

  function RunStmts(stmts: seq<Stmt>, unit: map<string, Fun>, env: Env, heap: seq<Value>, budget: nat): (r: Run)
    decreases |stmts|
  {
    if stmts == [] then Done(Unit, env, heap, budget)
    else
      match stmts[0]
      case Let(x, value) =>
        var r := Eval(value, unit, env, heap, budget);
        if !r.Done? then r else RunStmts(stmts[1..], unit, Enter(r.env, x, r.value), r.heap, r.left)
      case Do(expr) =>
        var r := Eval(expr, unit, env, heap, budget);
        if !r.Done? then r else RunStmts(stmts[1..], unit, r.env, r.heap, r.left)
      case _ => RunStmts(stmts[1..], unit, env, heap, budget)
  }

  function RunMain(input: Input, unit: map<string, Fun>, env: Env, heap: seq<Value>, budget: nat): Run
    requires input.Parsed?
  {
    var r := RunStmts(input.stmts, unit, env, heap, budget);
    if !r.Done? || input.result.None? then r else Eval(input.result.value, unit, r.env, r.heap, r.left)
  }

  predicate StmtsResolve(stmts: seq<Stmt>, result: Option<Expr>, vars: set<string>, declared: set<string>)
    decreases |stmts|
  {
    if stmts == [] then result.Some? ==> Resolves(result.value, vars, declared)
    else
      match stmts[0]
      case Let(x, value) =>
        Resolves(value, vars, declared) && StmtsResolve(stmts[1..], result, vars + {x}, declared)
      case Do(expr) => Resolves(expr, vars, declared) && StmtsResolve(stmts[1..], result, vars, declared)
      case _ => StmtsResolve(stmts[1..], result, vars, declared)
  }

  /** Whether the generated source compiles: functions see only their parameter and the declarations. */
  predicate Compiles(input: Input, unit: map<string, Fun>, vars: set<string>)
    requires input.Parsed?
  {
    && (forall x :: x in unit ==> Resolves(unit[x].body, {unit[x].param}, unit.Keys))
    && StmtsResolve(input.stmts, input.result, vars, unit.Keys)
  }

  function Restored(state: map<string, Value>, names: set<string>): map<string, Value> {
    map x | x in names && x in state :: state[x]
  }

  function Delta(env: Env, names: set<string>): map<string, Value> {
    map x | x in names && Variable(env, x).Some? :: Variable(env, x).value
  }

  /** What the generated `main` hands back: the delta of its last expression, or whatever an early return
      produced, if that is a pair led by an object. */
  function Output(r: Run, names: set<string>): Option<(map<string, Value>, Value)> {
    match r
    case Done(value, env, _, _) => Some((Delta(env, names), value))
    case Back(Pair(Object(fields), value), _, _) => Some((fields, value))
    case _ => None
  }

  /** One input with a prelude restoring `referenced`. A name that is missing from the state fails the prelude. */
  function Inner(s: Held, input: Input, referenced: set<string>, budget: nat, begins: bool): (Held, Outcome) {
    if input.Unparsable? then (s, Failure)
    else
      var gathered := Gathered(input.stmts, s.declarations, s.names);
      if gathered.None? then (s, Failure)
      else
        var (declarations, names) := gathered.value;
        var unit := UnitOf(declarations);
        if !Compiles(input, unit, referenced) || !begins || !(referenced <= s.state.Keys) then (s, Failure)
        else
          var r := RunMain(input, unit, Env(Restored(s.state, referenced), []), s.heap, budget);
          Publish(s, r, declarations, names, referenced + (names - s.names))
  }

  function Publish(s: Held, r: Run, declarations: map<string, Declaration>, names: set<string>, delta: set<string>)
    : (Held, Outcome)
  {
    var output := Output(r, delta);
    if output.None? then (s.(heap := r.heap), Failure)
    else (Held(declarations, names, s.state + output.value.0, r.heap), Success(output.value.1))
  }

  /** The narrowed form, which restores what the input's tokens mention. */
  function Narrow(s: Held, input: Input, budget: nat, begins: bool): (Held, Outcome) {
    Inner(s, input, Mentioned(InputTokens(input), s.names), budget, begins)
  }

  /** The plain form, which restores and publishes every binding. */
  function Full(s: Held, input: Input, budget: nat, begins: bool): (Held, Outcome) {
    Inner(s, input, s.names, budget, begins)
  }

  // --- Narrowing preserves meaning -----------------------------------------------------------------

  function StmtTokens(stmt: Stmt): seq<Token> {
    match stmt
    case Item(name, _, _, fun) => [Other, Ident(name), Ident(fun.param), Other] + TokensOf(fun.body) + [Other]
    case OtherItem => [Other]
    case Let(name, value) => [Other, Ident(name), Other] + TokensOf(value) + [Other]
    case Do(expr) => TokensOf(expr) + [Other]
  }

  function StmtsTokens(stmts: seq<Stmt>): seq<Token> {
    if stmts == [] then [] else StmtTokens(stmts[0]) + StmtsTokens(stmts[1..])
  }

  function InputTokens(input: Input): seq<Token> {
    if input.Unparsable? then [LexError]
    else StmtsTokens(input.stmts) + (if input.result.Some? then TokensOf(input.result.value) else [])
  }

  function StmtUses(stmt: Stmt): set<string> {
    match stmt
    case Let(name, value) => {name} + Uses(value)
    case Do(expr) => Uses(expr)
    case _ => {}
  }

  function StmtsUses(stmts: seq<Stmt>): set<string> {
    if stmts == [] then {} else StmtUses(stmts[0]) + StmtsUses(stmts[1..])
  }

  function InputUses(input: Input): set<string> {
    if input.Unparsable? then {}
    else StmtsUses(input.stmts) + (if input.result.Some? then Uses(input.result.value) else {})
  }

  ghost predicate FaithfulStmts(stmts: seq<Stmt>) {
    forall i :: 0 <= i < |stmts| ==>
      (stmts[i].Let? ==> Faithful(stmts[i].value)) && (stmts[i].Do? ==> Faithful(stmts[i].expr))
  }

  ghost predicate FaithfulInput(input: Input) {
    input.Parsed? ==> FaithfulStmts(input.stmts) && (input.result.Some? ==> Faithful(input.result.value))
  }

  lemma {:induction false} NoLexError(e: Expr)
    ensures LexError !in TokensOf(e)
  {
    match e
    case Atomic(Lambda(_, body)) => NoLexError(body);
    case Atomic(_) =>
    case One(_, of) => NoLexError(of);
    case Two(_, left, right) => NoLexError(left); NoLexError(right);
    case LetIn(_, bound, body) => NoLexError(bound); NoLexError(body);
    case If(c, yes, no) => NoLexError(c); NoLexError(yes); NoLexError(no);
    case While(c, body) => NoLexError(c); NoLexError(body);
    case Call(callee, argument) => NoLexError(callee); NoLexError(argument);
  }

  lemma {:induction false} NoLexErrors(stmts: seq<Stmt>)
    ensures LexError !in StmtsTokens(stmts)
  {
    if stmts != [] {
      NoLexErrors(stmts[1..]);
      match stmts[0]
      case Item(_, _, _, fun) => NoLexError(fun.body);
      case OtherItem =>
      case Let(_, value) => NoLexError(value);
      case Do(expr) => NoLexError(expr);
    }
  }

  lemma {:induction false} StmtsUsesAreFound(stmts: seq<Stmt>, x: string, published: set<string>)
    requires FaithfulStmts(stmts) && x in StmtsUses(stmts) && x in published
    ensures Found(StmtsTokens(stmts), x, published)
  {
    hide Found, Faithful, TokensOf, Uses;
    var (first, all) := (stmts[0], StmtsTokens(stmts));
    if x !in StmtUses(first) {
      StmtsUsesAreFound(stmts[1..], x, published);
      FoundInPart(StmtsTokens(stmts[1..]), all, x, published);
    } else if first.Let? && x == first.name {
      assert Ident(x) in StmtTokens(first);
      FoundIdent(all, x, published);
    } else {
      var e := if first.Let? then first.value else first.expr;
      UsesAreFound(e, x, published);
      assert forall t :: t in TokensOf(e) ==> t in StmtTokens(first);
      FoundInPart(TokensOf(e), all, x, published);
    }
  }

  /** The scan is sound: an input writes down no published name that the scan leaves out. */
  lemma MentionedIsSound(input: Input, published: set<string>)
    requires FaithfulInput(input)
    ensures InputUses(input) * published <= Mentioned(InputTokens(input), published)
  {
    hide Found, Faithful, TokensOf, Uses;
    if input.Parsed? {
      var tokens := InputTokens(input);
      NoLexErrors(input.stmts);
      if input.result.Some? { NoLexError(input.result.value); }
      forall x | x in InputUses(input) && x in published ensures x in Mentioned(tokens, published) {
        if x in StmtsUses(input.stmts) {
          StmtsUsesAreFound(input.stmts, x, published);
          FoundInPart(StmtsTokens(input.stmts), tokens, x, published);
        } else {
          UsesAreFound(input.result.value, x, published);
          FoundInPart(TokensOf(input.result.value), tokens, x, published);
        }
        FoundIsMentioned(tokens, x, published);
      }
    }
  }

  lemma FoundIsMentioned(tokens: seq<Token>, x: string, published: set<string>)
    requires LexError !in tokens && Found(tokens, x, published) && x in published
    ensures x in Mentioned(tokens, published)
  {
    var t :| t in tokens && Finds(t, x, published);
    MentionedFinds(tokens, t, x, published);
  }

  lemma {:induction false} StmtsFramed(stmts: seq<Stmt>, unit: map<string, Fun>, env: Env, heap: seq<Value>,
      budget: nat, rest: map<string, Value>)
    requires StmtsUses(stmts) !! rest.Keys
    ensures RunStmts(stmts, unit, Wider(env, rest), heap, budget)
         == Widen(RunStmts(stmts, unit, env, heap, budget), rest)
    decreases |stmts|
  {
    hide Eval, Uses;
    if stmts != [] {
      if stmts[0].Let? || stmts[0].Do? {
        var e := if stmts[0].Let? then stmts[0].value else stmts[0].expr;
        EvalFramed(e, unit, env, heap, budget, rest);
        var r := Eval(e, unit, env, heap, budget);
        if r.Done? {
          var next := if stmts[0].Let? then Enter(r.env, stmts[0].name, r.value) else r.env;
          StmtsFramed(stmts[1..], unit, next, r.heap, r.left, rest);
        }
      } else {
        StmtsFramed(stmts[1..], unit, env, heap, budget, rest);
      }
    }
  }

  lemma MainFramed(input: Input, unit: map<string, Fun>, env: Env, heap: seq<Value>, budget: nat,
      rest: map<string, Value>)
    requires input.Parsed? && InputUses(input) !! rest.Keys
    ensures RunMain(input, unit, Wider(env, rest), heap, budget) == Widen(RunMain(input, unit, env, heap, budget), rest)
  {
    hide Eval, Uses, RunStmts, StmtsUses;
    StmtsFramed(input.stmts, unit, env, heap, budget, rest);
    var r := RunStmts(input.stmts, unit, env, heap, budget);
    if r.Done? && input.result.Some? { EvalFramed(input.result.value, unit, r.env, r.heap, r.left, rest); }
  }

  lemma {:induction false} StmtsResolveFramed(stmts: seq<Stmt>, result: Option<Expr>, vars: set<string>,
      more: set<string>, declared: set<string>)
    requires InputUses(Parsed(stmts, result)) * more <= vars
    ensures StmtsResolve(stmts, result, vars + more, declared) <==> StmtsResolve(stmts, result, vars, declared)
    decreases |stmts|
  {
    hide Resolves, Uses;
    if stmts == [] {
      if result.Some? { ResolvesFramed(result.value, vars, more, declared); }
    } else {
      match stmts[0]
      case Let(x, value) =>
        ResolvesFramed(value, vars, more, declared);
        assert vars + more + {x} == vars + {x} + more;
        StmtsResolveFramed(stmts[1..], result, vars + {x}, more, declared);
      case Do(expr) =>
        ResolvesFramed(expr, vars, more, declared);
        StmtsResolveFramed(stmts[1..], result, vars, more, declared);
      case _ => StmtsResolveFramed(stmts[1..], result, vars, more, declared);
    }
  }

  function LetNames(stmts: seq<Stmt>): set<string> {
    if stmts == [] then {} else (if stmts[0].Let? then {stmts[0].name} else {}) + LetNames(stmts[1..])
  }

  ghost function LocalNames(env: Env): set<string> {
    set i | 0 <= i < |env.locals| :: env.locals[i].0
  }

  lemma {:induction false} GatheredNames(stmts: seq<Stmt>, declarations: map<string, Declaration>, names: set<string>)
    requires Gathered(stmts, declarations, names).Some?
    ensures Gathered(stmts, declarations, names).value.1 == names + LetNames(stmts)
    ensures LetNames(stmts) <= StmtsUses(stmts)
    decreases |stmts|
  {
    if stmts != [] {
      match stmts[0]
      case Let(x, _) => GatheredNames(stmts[1..], declarations, names + {x});
      case Do(_) => GatheredNames(stmts[1..], declarations, names);
      case Item(x, isType, source, fun) =>
        GatheredNames(stmts[1..], declarations[x := Declaration(isType, source, fun)], names);
    }
  }

  lemma {:induction false} LetNamesAre(stmts: seq<Stmt>, x: string)
    ensures x in LetNames(stmts) <==> exists i :: 0 <= i < |stmts| && stmts[i].Let? && stmts[i].name == x
  {
    if stmts != [] {
      LetNamesAre(stmts[1..], x);
      if i :| 0 <= i < |stmts[1..]| && stmts[1..][i].Let? && stmts[1..][i].name == x {
        assert stmts[i + 1].Let? && stmts[i + 1].name == x;
      }
      if i :| 0 <= i < |stmts| && stmts[i].Let? && stmts[i].name == x {
        if i > 0 { assert stmts[1..][i - 1] == stmts[i]; }
      }
    }
  }

  // --- What an input declares --------------------------------------------------------------------------

  predicate Declares(stmt: Stmt, x: string) { stmt.Item? && stmt.name == x }

  function DeclarationOf(stmt: Stmt): Declaration
    requires stmt.Item?
  {
    Declaration(stmt.isType, stmt.source, stmt.fun)
  }

  /** Of the first `n` statements, `j` is the last that declares `x`. */
  ghost predicate LastOf(stmts: seq<Stmt>, n: nat, x: string, j: nat)
    requires n <= |stmts|
  {
    j < n && Declares(stmts[j], x) && forall k :: j < k < n ==> !Declares(stmts[k], x)
  }

  /** Before statement `n` the name `x` stands for `d`: its last declaration in the input, or the session's own. */
  ghost predicate Stands(stmts: seq<Stmt>, declarations: map<string, Declaration>, n: nat, x: string, d: Declaration)
    requires n <= |stmts|
  {
    || (exists j: nat :: LastOf(stmts, n, x, j) && d == DeclarationOf(stmts[j]))
    || ((forall j :: 0 <= j < n ==> !Declares(stmts[j], x)) && x in declarations && declarations[x] == d)
  }

  /** The statement is one that a session refuses: a reserved name, an unsupported item, or a type, old or new, whose
      source is not that of the declaration standing there. */
  ghost predicate RefusedStatement(stmts: seq<Stmt>, declarations: map<string, Declaration>, k: nat)
    requires k < |stmts|
  {
    match stmts[k]
    case OtherItem => true
    case Do(_) => false
    case Let(x, _) => Reserved(x)
    case Item(x, isType, source, _) =>
      Reserved(x) || exists d :: Stands(stmts, declarations, k, x, d) && (d.isType || isType) && d.source != source
  }

  function Declared(stmt: Stmt, declarations: map<string, Declaration>): map<string, Declaration> {
    if stmt.Item? then declarations[stmt.name := DeclarationOf(stmt)] else declarations
  }

  lemma StandsLater(stmts: seq<Stmt>, declarations: map<string, Declaration>, n: nat, x: string, d: Declaration)
    requires 0 < n <= |stmts|
    ensures Stands(stmts, declarations, n, x, d) <==>
      Stands(stmts[1..], Declared(stmts[0], declarations), n - 1, x, d)
  {
    var rest := stmts[1..];
    assert forall k :: 0 <= k < |rest| ==> rest[k] == stmts[k + 1];
    if j: nat :| LastOf(stmts, n, x, j) && d == DeclarationOf(stmts[j]) {
      if j > 0 {
        assert LastOf(rest, n - 1, x, j - 1);
      } else {
        forall k | 0 <= k < n - 1 ensures !Declares(rest[k], x) { assert !Declares(stmts[k + 1], x); }
      }
    }
    if j: nat :| LastOf(rest, n - 1, x, j) && d == DeclarationOf(rest[j]) {
      forall k | j + 1 < k < n ensures !Declares(stmts[k], x) { assert !Declares(rest[k - 1], x); }
      assert LastOf(stmts, n, x, j + 1);
    }
    if (forall j :: 0 <= j < n - 1 ==> !Declares(rest[j], x)) {
      forall k | 0 < k < n ensures !Declares(stmts[k], x) { assert !Declares(rest[k - 1], x); }
      if Declares(stmts[0], x) { assert LastOf(stmts, n, x, 0); }
    }
  }

  lemma RefusedLater(stmts: seq<Stmt>, declarations: map<string, Declaration>, k: nat)
    requires 0 < k < |stmts|
    ensures RefusedStatement(stmts, declarations, k) <==>
      RefusedStatement(stmts[1..], Declared(stmts[0], declarations), k - 1)
  {
    hide Stands, Declared;
    assert stmts[k] == stmts[1..][k - 1];
    if stmts[k].Item? {
      forall d ensures Stands(stmts, declarations, k, stmts[k].name, d) <==>
        Stands(stmts[1..], Declared(stmts[0], declarations), k - 1, stmts[k].name, d)
      {
        StandsLater(stmts, declarations, k, stmts[k].name, d);
      }
    }
  }

  lemma RefusedFirst(stmts: seq<Stmt>, declarations: map<string, Declaration>)
    requires stmts != []
    ensures RefusedStatement(stmts, declarations, 0) <==>
      match stmts[0]
      case OtherItem => true
      case Do(_) => false
      case Let(x, _) => Reserved(x)
      case Item(x, isType, source, _) =>
        Reserved(x) || (x in declarations && (declarations[x].isType || isType) && declarations[x].source != source)
  {
    if stmts[0].Item? && stmts[0].name in declarations {
      assert Stands(stmts, declarations, 0, stmts[0].name, declarations[stmts[0].name]);
    }
  }

  /** `after` holds each declared name's last declaration, and every other declaration as it was. */
  ghost predicate DeclaresLast(stmts: seq<Stmt>, before: map<string, Declaration>, after: map<string, Declaration>) {
    forall x, d :: (x in after && after[x] == d) <==> Stands(stmts, before, |stmts|, x, d)
  }

  lemma NothingDeclared(declarations: map<string, Declaration>)
    ensures DeclaresLast([], declarations, declarations)
  {
  }

  lemma DeclaresLater(stmts: seq<Stmt>, before: map<string, Declaration>, after: map<string, Declaration>)
    requires stmts != [] && DeclaresLast(stmts[1..], Declared(stmts[0], before), after)
    ensures DeclaresLast(stmts, before, after)
  {
    hide Stands, Declared;
    forall x, d ensures (x in after && after[x] == d) <==> Stands(stmts, before, |stmts|, x, d) {
      StandsLater(stmts, before, |stmts|, x, d);
      assert (x in after && after[x] == d) <==>
        Stands(stmts[1..], Declared(stmts[0], before), |stmts[1..]|, x, d);
    }
  }

  /** The statements are accepted exactly when none of them is refused where it stands, and then each name keeps the
      last of its declarations. */
  lemma {:induction false} GatheredExactly(stmts: seq<Stmt>, declarations: map<string, Declaration>, names: set<string>)
    ensures var g := Gathered(stmts, declarations, names);
      && (g.Some? <==> forall k :: 0 <= k < |stmts| ==> !RefusedStatement(stmts, declarations, k))
      && (g.Some? ==> DeclaresLast(stmts, declarations, g.value.0))
    decreases |stmts|
  {
    hide RefusedStatement, DeclaresLast;
    if stmts == [] {
      NothingDeclared(declarations);
    } else {
      RefusedFirst(stmts, declarations);
      forall k | 0 < k < |stmts| ensures RefusedStatement(stmts, declarations, k) <==>
        RefusedStatement(stmts[1..], Declared(stmts[0], declarations), k - 1)
      {
        RefusedLater(stmts, declarations, k);
      }
      if !RefusedStatement(stmts, declarations, 0) {
        var more := if stmts[0].Let? then {stmts[0].name} else {};
        assert names + {} == names;
        GatheredExactly(stmts[1..], Declared(stmts[0], declarations), names + more);
        var g := Gathered(stmts, declarations, names);
        assert g == Gathered(stmts[1..], Declared(stmts[0], declarations), names + more);
        if g.Some? { DeclaresLater(stmts, declarations, g.value.0); }
        ShiftedRefusals(stmts, declarations);
      }
    }
  }

  lemma ShiftedRefusals(stmts: seq<Stmt>, declarations: map<string, Declaration>)
    requires stmts != [] && !RefusedStatement(stmts, declarations, 0)
    ensures (forall k :: 0 <= k < |stmts| ==> !RefusedStatement(stmts, declarations, k)) <==>
      forall k :: 0 <= k < |stmts[1..]| ==> !RefusedStatement(stmts[1..], Declared(stmts[0], declarations), k)
  {
    hide RefusedStatement, Declared;
    if (forall k :: 0 <= k < |stmts| ==> !RefusedStatement(stmts, declarations, k)) {
      forall k | 0 <= k < |stmts[1..]|
        ensures !RefusedStatement(stmts[1..], Declared(stmts[0], declarations), k)
      {
        RefusedLater(stmts, declarations, k + 1);
      }
    }
    if (forall k :: 0 <= k < |stmts[1..]| ==> !RefusedStatement(stmts[1..], Declared(stmts[0], declarations), k)) {
      forall k | 0 <= k < |stmts| ensures !RefusedStatement(stmts, declarations, k) {
        if k > 0 { RefusedLater(stmts, declarations, k); }
      }
    }
  }

  lemma EnterNames(env: Env, x: string, v: Value)
    ensures LocalNames(Enter(env, x, v)) == LocalNames(env) + {x}
  {
    var more := Enter(env, x, v);
    assert more.locals[|env.locals|].0 == x;
    assert forall i :: 0 <= i < |env.locals| ==> more.locals[i] == env.locals[i];
  }

  /** A run that ends leaves exactly the input's own declarations beside the restored bindings. */
  lemma {:induction false} StmtsDeclare(stmts: seq<Stmt>, unit: map<string, Fun>, env: Env, heap: seq<Value>,
      budget: nat)
    ensures var r := RunStmts(stmts, unit, env, heap, budget);
      r.Done? ==> r.env.base.Keys == env.base.Keys && LocalNames(r.env) == LocalNames(env) + LetNames(stmts)
    decreases |stmts|
  {
    hide Eval;
    if stmts != [] {
      if stmts[0].Let? || stmts[0].Do? {
        var e := if stmts[0].Let? then stmts[0].value else stmts[0].expr;
        EvalKeepsNames(e, unit, env, heap, budget);
        var r := Eval(e, unit, env, heap, budget);
        if r.Done? {
          var next := if stmts[0].Let? then Enter(r.env, stmts[0].name, r.value) else r.env;
          if stmts[0].Let? { EnterNames(r.env, stmts[0].name, r.value); }
          SameLocalNames(env, r.env);
          StmtsDeclare(stmts[1..], unit, next, r.heap, r.left);
        }
      } else {
        StmtsDeclare(stmts[1..], unit, env, heap, budget);
      }
    }
  }

  lemma SameLocalNames(a: Env, b: Env)
    requires SameNames(a, b)
    ensures LocalNames(a) == LocalNames(b)
  {
  }

  lemma MainDeclares(input: Input, unit: map<string, Fun>, base: map<string, Value>, heap: seq<Value>, budget: nat)
    requires input.Parsed?
    ensures var r := RunMain(input, unit, Env(base, []), heap, budget);
      r.Done? ==> r.env.base.Keys == base.Keys && LocalNames(r.env) == LetNames(input.stmts)
  {
    hide Eval, RunStmts, LetNames;
    StmtsDeclare(input.stmts, unit, Env(base, []), heap, budget);
    var r := RunStmts(input.stmts, unit, Env(base, []), heap, budget);
    if r.Done? && input.result.Some? {
      EvalKeepsNames(input.result.value, unit, r.env, r.heap, r.left);
      var t := Eval(input.result.value, unit, r.env, r.heap, r.left);
      if t.Done? { SameLocalNames(r.env, t.env); }
    }
  }

  /** Publishing the whole state or the delta leaves the same state. */
  lemma SameDelta(state: map<string, Value>, env: Env, referenced: set<string>, rest: map<string, Value>,
      declared: set<string>)
    requires referenced !! rest.Keys && declared !! rest.Keys && LocalNames(env) !! rest.Keys
    requires forall x :: x in rest ==> x in state && rest[x] == state[x]
    ensures state + Delta(Wider(env, rest), referenced + rest.Keys + declared)
         == state + Delta(env, referenced + declared)
  {
    hide Variable, Wider, LocalNames;
    var (all, some) := (Delta(Wider(env, rest), referenced + rest.Keys + declared), Delta(env, referenced + declared));
    forall x | x in referenced + declared ensures Variable(Wider(env, rest), x) == Variable(env, x) {
      VariableFramed(env, rest, x);
    }
    forall x | x in rest ensures Variable(Wider(env, rest), x) == Some(state[x]) { RestIsKept(env, rest, x); }
    SameMerge(state, all, some);
  }

  lemma SameMerge(state: map<string, Value>, all: map<string, Value>, some: map<string, Value>)
    requires forall x :: x in some ==> x in all && all[x] == some[x]
    requires forall x :: x in all && x !in some ==> x in state && all[x] == state[x]
    ensures state + all == state + some
  {
  }

  lemma RestIsKept(env: Env, rest: map<string, Value>, x: string)
    requires x in rest && x !in LocalNames(env)
    ensures Variable(Wider(env, rest), x) == Some(rest[x])
  {
    assert forall i :: 0 <= i < |env.locals| ==> env.locals[i].0 in LocalNames(env);
  }

  /** Restoring any set of published names that covers what the input writes down is the same as restoring
      them all: the same result, the same published bindings and handles, the same heap. */
  lemma CoveringIsFull(s: Held, input: Input, referenced: set<string>, budget: nat, begins: bool)
    requires s.names <= s.state.Keys
    requires InputUses(input) * s.names <= referenced <= s.names
    ensures Inner(s, input, referenced, budget, begins) == Inner(s, input, s.names, budget, begins)
  {
    hide RunMain, StmtsResolve, Delta, Gathered, LetNames, StmtsUses, Uses;
    if input.Parsed? && Gathered(input.stmts, s.declarations, s.names).Some? {
      var (declarations, names) := Gathered(input.stmts, s.declarations, s.names).value;
      var unit := UnitOf(declarations);
      var more := s.names - referenced;
      var rest := map x | x in more :: s.state[x];
      assert referenced + more == s.names;
      StmtsResolveFramed(input.stmts, input.result, referenced, more, unit.Keys);
      var env := Env(Restored(s.state, referenced), []);
      assert Env(Restored(s.state, s.names), []) == Wider(env, rest);
      assert InputUses(input) !! rest.Keys;
      MainFramed(input, unit, env, s.heap, budget, rest);
      MainDeclares(input, unit, env.base, s.heap, budget);
      GatheredNames(input.stmts, s.declarations, s.names);
      var r := RunMain(input, unit, env, s.heap, budget);
      var declared := names - s.names;
      assert rest.Keys == more && referenced + rest.Keys + declared == s.names + declared;
      if r.Done? { SameDelta(s.state, r.env, referenced, rest, declared); }
    }
  }

  lemma NarrowIsFull(s: Held, input: Input, budget: nat, begins: bool)
    requires s.names <= s.state.Keys && FaithfulInput(input)
    ensures Narrow(s, input, budget, begins) == Full(s, input, budget, begins)
  {
    hide Inner, Mentioned, InputTokens;
    MentionedIsSound(input, s.names);
    CoveringIsFull(s, input, Mentioned(InputTokens(input), s.names), budget, begins);
  }

  // --- Names without a value ---------------------------------------------------------------------------

  lemma {:induction false} MentionedOfFewer(tokens: seq<Token>, published: set<string>, fewer: set<string>)
    requires fewer <= published
    ensures Mentioned(tokens, fewer) == Mentioned(tokens, published) * fewer
  {
    hide F.Decoded, F.Captures;
    if tokens != [] && !tokens[0].LexError? { MentionedOfFewer(tokens[1..], published, fewer); }
  }

  lemma {:induction false} GatheredApartFromNames(stmts: seq<Stmt>, declarations: map<string, Declaration>,
      names: set<string>, others: set<string>)
    ensures var (g, h) := (Gathered(stmts, declarations, names), Gathered(stmts, declarations, others));
      (g.Some? <==> h.Some?) && (g.Some? ==> g.value.0 == h.value.0)
    decreases |stmts|
  {
    if stmts != [] {
      match stmts[0]
      case OtherItem =>
      case Do(_) => GatheredApartFromNames(stmts[1..], declarations, names, others);
      case Let(x, _) => GatheredApartFromNames(stmts[1..], declarations, names + {x}, others + {x});
      case Item(x, isType, source, fun) =>
        GatheredApartFromNames(stmts[1..], declarations[x := Declaration(isType, source, fun)], names, others);
    }
  }

  /** The session without the names that have no value. */
  function Valued(s: Held): Held { s.(names := s.names * s.state.Keys) }

  /** The plain form on the names that have a value; an input that mentions another fails and changes nothing. */
  function Mended(s: Held, input: Input, budget: nat, begins: bool): (Held, Outcome) {
    if !(Mentioned(InputTokens(input), s.names) <= s.state.Keys) then (s, Failure)
    else
      var (t, outcome) := Full(Valued(s), input, budget, begins);
      (t.(names := t.names + (s.names - s.state.Keys)), outcome)
  }

  /** One name without a value makes the plain form fail every input. */
  lemma FullNeedsEveryValue(s: Held, input: Input, budget: nat, begins: bool)
    requires !(s.names <= s.state.Keys)
    ensures Full(s, input, budget, begins) == (s, Failure)
  {
  }

  /** Names that have no value and are not mentioned change nothing but stay names. */
  lemma ValuelessFramed(s: Held, input: Input, referenced: set<string>, budget: nat, begins: bool)
    requires referenced <= s.state.Keys && InputUses(input) * s.names <= referenced
    ensures var (t, outcome) := Inner(Valued(s), input, referenced, budget, begins);
      Inner(s, input, referenced, budget, begins) == (t.(names := t.names + (s.names - s.state.Keys)), outcome)
  {
    hide RunMain, StmtsResolve, Output, Gathered, LetNames, StmtsUses, Uses;
    var v := Valued(s);
    assert v.names + (s.names - s.state.Keys) == s.names;
    if input.Parsed? {
      GatheredApartFromNames(input.stmts, s.declarations, s.names, v.names);
      if Gathered(input.stmts, s.declarations, s.names).Some? {
        GatheredNames(input.stmts, s.declarations, s.names);
        GatheredNames(input.stmts, s.declarations, v.names);
        var lets := LetNames(input.stmts);
        assert s.names + lets - s.names == v.names + lets - v.names;
        assert v.names + lets + (s.names - s.state.Keys) == s.names + lets;
      }
    }
  }

  /** Whatever names have lost their value, the narrowed form is the plain form on the names that have one, and an
      input that mentions another fails and changes nothing. */
  lemma NarrowIsMended(s: Held, input: Input, budget: nat, begins: bool)
    requires FaithfulInput(input)
    ensures Narrow(s, input, budget, begins) == Mended(s, input, budget, begins)
  {
    var referenced := Mentioned(InputTokens(input), s.names);
    if referenced <= s.state.Keys {
      hide Inner, Mentioned, InputTokens;
      var v := Valued(s);
      MentionedIsSound(input, s.names);
      MentionedOfFewer(InputTokens(input), s.names, v.names);
      assert Mentioned(InputTokens(input), v.names) == referenced;
      ValuelessFramed(s, input, referenced, budget, begins);
      NarrowIsFull(v, input, budget, begins);
    } else {
      hide RunMain, Compiles, Gathered, Mentioned, InputTokens;
    }
  }

  // --- Names are the keys of the state ----------------------------------------------------------------

  /** No statement of the input holds a `return` of its own. */
  predicate ReturnFree(input: Input) {
    input.Parsed? ==>
      && (forall i :: 0 <= i < |input.stmts| && input.stmts[i].Let? ==> !MayReturn(input.stmts[i].value))
      && (forall i :: 0 <= i < |input.stmts| && input.stmts[i].Do? ==> !MayReturn(input.stmts[i].expr))
      && (input.result.Some? ==> !MayReturn(input.result.value))
  }

  lemma {:induction false} StmtsNeverReturn(stmts: seq<Stmt>, unit: map<string, Fun>, env: Env, heap: seq<Value>,
      budget: nat)
    requires ReturnFree(Parsed(stmts, None))
    ensures !RunStmts(stmts, unit, env, heap, budget).Back?
    decreases |stmts|
  {
    hide Eval, MayReturn;
    if stmts != [] {
      assert ReturnFree(Parsed(stmts[1..], None));
      if stmts[0].Let? || stmts[0].Do? {
        var e := if stmts[0].Let? then stmts[0].value else stmts[0].expr;
        OnlyReturnsReturn(e, unit, env, heap, budget);
        var r := Eval(e, unit, env, heap, budget);
        if r.Done? {
          var next := if stmts[0].Let? then Enter(r.env, stmts[0].name, r.value) else r.env;
          StmtsNeverReturn(stmts[1..], unit, next, r.heap, r.left);
        }
      } else {
        StmtsNeverReturn(stmts[1..], unit, env, heap, budget);
      }
    }
  }

  lemma MainNeverReturns(input: Input, unit: map<string, Fun>, env: Env, heap: seq<Value>, budget: nat)
    requires input.Parsed? && ReturnFree(input)
    ensures !RunMain(input, unit, env, heap, budget).Back?
  {
    hide Eval, MayReturn, RunStmts;
    StmtsNeverReturn(input.stmts, unit, env, heap, budget);
    var r := RunStmts(input.stmts, unit, env, heap, budget);
    if r.Done? && input.result.Some? { OnlyReturnsReturn(input.result.value, unit, r.env, r.heap, r.left); }
  }

  /** The run of the generated `main`. */
  function MainRun(s: Held, input: Input, referenced: set<string>, budget: nat): Run
    requires input.Parsed? && Gathered(input.stmts, s.declarations, s.names).Some?
  {
    var unit := UnitOf(Gathered(input.stmts, s.declarations, s.names).value.0);
    RunMain(input, unit, Env(Restored(s.state, referenced), []), s.heap, budget)
  }

  lemma DeltaKeys(env: Env, names: set<string>)
    requires names <= LocalNames(env) + env.base.Keys
    ensures Delta(env, names).Keys == names
  {
    forall x | x in names ensures Variable(env, x).Some? {
      if x !in env.base {
        var i :| 0 <= i < |env.locals| && env.locals[i].0 == x;
        assert Find(env.locals, x).Some?;
      }
    }
  }

  /** After a success the names are exactly the keys of the state, unless the input returned early: then they are
      exactly when the returned object names every new binding and nothing unknown. */
  lemma NamesAreKeys(s: Held, input: Input, referenced: set<string>, budget: nat, begins: bool)
    requires s.names == s.state.Keys && referenced <= s.names
    requires Inner(s, input, referenced, budget, begins).1.Success?
    ensures input.Parsed? && Gathered(input.stmts, s.declarations, s.names).Some?
    ensures var (t, r) := (Inner(s, input, referenced, budget, begins).0, MainRun(s, input, referenced, budget));
      && t.names == s.names + LetNames(input.stmts)
      && (r.Done? ==> t.names == t.state.Keys)
      && (r.Back? ==> r.value.Pair? && r.value.left.Object?)
      && (r.Back? ==> (t.names == t.state.Keys
            <==> LetNames(input.stmts) - s.names <= r.value.left.fields.Keys <= t.names))
    ensures ReturnFree(input) ==> MainRun(s, input, referenced, budget).Done?
  {
    hide RunMain, Delta, Gathered, LetNames, Compiles, ReturnFree;
    var (declarations, names) := Gathered(input.stmts, s.declarations, s.names).value;
    var (unit, base) := (UnitOf(declarations), Restored(s.state, referenced));
    GatheredNames(input.stmts, s.declarations, s.names);
    var r := MainRun(s, input, referenced, budget);
    if ReturnFree(input) { MainNeverReturns(input, unit, Env(base, []), s.heap, budget); }
    if r.Done? {
      MainDeclares(input, unit, base, s.heap, budget);
      DeltaKeys(r.env, referenced + (names - s.names));
    }
  }

  /** What a success with every binding restored publishes. */
  ghost predicate Publishes(s: Held, input: Input, r: Run, t: Held, outcome: Outcome)
    requires input.Parsed?
  {
    match r
    case Done(value, env, _, _) =>
      && outcome == Success(value) && t.state.Keys == s.state.Keys + LetNames(input.stmts)
      && (forall x :: x in (s.names * s.state.Keys) + LetNames(input.stmts) ==> Variable(env, x) == Some(t.state[x]))
      && (forall x :: x in s.state.Keys - s.names - LetNames(input.stmts) ==> t.state[x] == s.state[x])
    case Back(value, _, _) =>
      && value.Pair? && value.left.Object?
      && outcome == Success(value.right) && t.state == s.state + value.left.fields
    case Failed(_) => false
  }

  lemma FullPublishes(s: Held, input: Input, budget: nat, begins: bool)
    requires s.names <= s.state.Keys && Full(s, input, budget, begins).1.Success?
    ensures input.Parsed? && Gathered(input.stmts, s.declarations, s.names).Some?
    ensures var ((t, outcome), r) := (Full(s, input, budget, begins), MainRun(s, input, s.names, budget));
      && t.heap == r.heap && t.names == s.names + LetNames(input.stmts)
      && t.declarations == Gathered(input.stmts, s.declarations, s.names).value.0
      && Publishes(s, input, r, t, outcome)
  {
    hide RunMain, Gathered, LetNames, Compiles, Variable;
    var (declarations, names) := Gathered(input.stmts, s.declarations, s.names).value;
    var (r, base) := (MainRun(s, input, s.names, budget), Restored(s.state, s.names));
    GatheredNames(input.stmts, s.declarations, s.names);
    MainDeclares(input, UnitOf(declarations), base, s.heap, budget);
    assert s.names + (names - s.names) == names && base.Keys == s.names == s.names * s.state.Keys;
    if r.Done? { DeltaKeys(r.env, names); }
  }

  /** What a successful input publishes is what a run with every value restored leaves: its heap, and for every name,
      old or new, the value the name has at the end. An input that returns early publishes the object it returns
      instead. */
  lemma PublishesTheFinalValues(s: Held, input: Input, budget: nat, begins: bool)
    requires FaithfulInput(input) && Narrow(s, input, budget, begins).1.Success?
    ensures input.Parsed? && Gathered(input.stmts, s.declarations, Valued(s).names).Some?
    ensures var ((t, outcome), v) := (Narrow(s, input, budget, begins), Valued(s));
      var r := MainRun(v, input, v.names, budget);
      && t.heap == r.heap && t.names == s.names + LetNames(input.stmts)
      && t.declarations == Gathered(input.stmts, s.declarations, v.names).value.0
      && DeclaresLast(input.stmts, s.declarations, t.declarations)
      && Publishes(s, input, r, t, outcome)
  {
    hide Inner, Gathered, LetNames, FaithfulInput, Variable, RunMain, DeclaresLast;
    NarrowIsMended(s, input, budget, begins);
    FullPublishes(Valued(s), input, budget, begins);
    GatheredExactly(input.stmts, s.declarations, Valued(s).names);
    assert Valued(s).names * s.state.Keys == s.names * s.state.Keys;
    assert Valued(s).names + (s.names - s.state.Keys) == s.names;
  }

  /** The input gets as far as running: no statement is refused, it compiles, its lifecycle begins, and every binding
      it mentions has a value. */
  ghost predicate Starts(s: Held, input: Input, begins: bool) {
    && input.Parsed? && (forall k :: 0 <= k < |input.stmts| ==> !RefusedStatement(input.stmts, s.declarations, k))
    && begins && Mentioned(InputTokens(input), s.names) <= s.state.Keys
    && var gathered := Gathered(input.stmts, s.declarations, Valued(s).names);
    gathered.Some? && Compiles(input, UnitOf(gathered.value.0), Valued(s).names)
  }

  /** An input succeeds exactly when it gets to run and the run, with every value restored, ends in its last statement
      or returns a pair led by an object. One that fails leaves the session as it was but for what the run did to
      shared values. */
  lemma SucceedsExactly(s: Held, input: Input, budget: nat, begins: bool)
    requires FaithfulInput(input)
    ensures var (t, outcome) := Narrow(s, input, budget, begins);
      if !Starts(s, input, begins) then outcome == Failure && t == s
      else
        var r := MainRun(Valued(s), input, Valued(s).names, budget);
        && (outcome.Success? <==> r.Done? || (r.Back? && r.value.Pair? && r.value.left.Object?))
        && (outcome == Failure ==> t == s.(heap := r.heap))
  {
    hide Gathered, FaithfulInput, RunMain, RefusedStatement, DeclaresLast, Mentioned, InputTokens, Compiles;
    NarrowIsMended(s, input, budget, begins);
    if input.Parsed? { GatheredExactly(input.stmts, s.declarations, Valued(s).names); }
    assert Valued(s).names + (s.names - s.state.Keys) == s.names;
  }

  /** The input ended by an early return of an object that gives `x` another value. */
  ghost predicate ReturnsOver(s: Held, input: Input, referenced: set<string>, budget: nat, x: string)
    requires x in s.state && input.Parsed? && Gathered(input.stmts, s.declarations, s.names).Some?
  {
    var r := MainRun(s, input, referenced, budget);
    r.Back? && r.value.Pair? && r.value.left.Object? && x in r.value.left.fields
      && r.value.left.fields[x] != s.state[x]
  }

  /** A binding the input neither mentions nor declares keeps its value, handle included, if and only if the input
      does not succeed by returning early an object that gives the binding another value. */
  lemma UnmentionedIsKept(s: Held, input: Input, referenced: set<string>, budget: nat, begins: bool, x: string)
    requires x in s.state && x !in referenced
    requires x in s.names || (input.Parsed? ==> x !in LetNames(input.stmts))
    ensures var (t, outcome) := Inner(s, input, referenced, budget, begins);
      && x in t.state
      && (outcome.Success? ==> input.Parsed? && Gathered(input.stmts, s.declarations, s.names).Some?)
      && (t.state[x] == s.state[x] <==> !(outcome.Success? && ReturnsOver(s, input, referenced, budget, x)))
    ensures ReturnFree(input) ==> Inner(s, input, referenced, budget, begins).0.state[x] == s.state[x]
  {
    hide RunMain, Gathered, LetNames, Compiles, ReturnFree;
    if Inner(s, input, referenced, budget, begins).1.Success? {
      var (declarations, names) := Gathered(input.stmts, s.declarations, s.names).value;
      GatheredNames(input.stmts, s.declarations, s.names);
      if ReturnFree(input) {
        MainNeverReturns(input, UnitOf(declarations), Env(Restored(s.state, referenced), []), s.heap, budget);
      }
    }
  }

  // --- Early returns break the invariant, and only they ------------------------------------------------

  function Returning(o: string, n: int): Expr {
    One(Return, Two(MakePair, One(Field(o), Atomic(Lit(n))), Atomic(Lit(n))))
  }

  lemma ReturningResolves(o: string, n: int, vars: set<string>, declared: set<string>)
    ensures Resolves(Returning(o, n), vars, declared)
  {
    var made := One(Field(o), Atomic(Lit(n)));
    assert Resolves(made, vars, declared) && Resolves(Two(MakePair, made, Atomic(Lit(n))), vars, declared);
  }

  lemma ReturningRuns(o: string, n: int, unit: map<string, Fun>, env: Env, heap: seq<Value>, budget: nat)
    requires budget >= 5
    ensures Eval(Returning(o, n), unit, env, heap, budget)
         == Back(Pair(Object(map[o := Num(n)]), Num(n)), heap, budget - 5)
  {
    var made := One(Field(o), Atomic(Lit(n)));
    assert Eval(Atomic(Lit(n)), unit, env, heap, budget - 3) == Done(Num(n), env, heap, budget - 4);
    assert Eval(made, unit, env, heap, budget - 2) == Done(Object(map[o := Num(n)]), env, heap, budget - 4);
    assert Eval(Atomic(Lit(n)), unit, env, heap, budget - 4) == Done(Num(n), env, heap, budget - 5);
    assert Eval(Two(MakePair, made, Atomic(Lit(n))), unit, env, heap, budget - 1)
        == Done(Pair(Object(map[o := Num(n)]), Num(n)), env, heap, budget - 5);
  }

  const FRESH := Held(map[], {}, map[], [])

  /** An early return can publish a binding that has no name. */
  lemma ReturnPublishesUnnamed(budget: nat)
    requires budget >= 5
    ensures var t := Narrow(FRESH, Parsed([Do(Returning("z", 0))], None), budget, true);
      t.1.Success? && t.0.names == {} && t.0.state.Keys == {"z"}
  {
    hide Eval, Resolves;
    ReturningResolves("z", 0, {}, {});
    var (stmts, env) := ([Do(Returning("z", 0))], Env(Restored(map[], {}), []));
    assert UnitOf(map[]) == map[] && stmts[1..] == [];
    ReturningRuns("z", 0, map[], env, [], budget);
    assert Gathered(stmts, map[], {}) == Some((map[], {}));
    assert Mentioned(InputTokens(Parsed(stmts, None)), {}) == {};
    assert StmtsResolve(stmts, None, {}, {});
    assert UnitOf(map[]).Keys == {};
  }

  /** An early return can name a binding that is never published. */
  lemma ReturnNamesUnpublished(budget: nat)
    requires budget >= 6
    ensures var t := Narrow(FRESH, Parsed([Let("y", Atomic(Lit(0))), Do(Returning("z", 0))], None), budget, true);
      t.1.Success? && t.0.names == {"y"} && t.0.state.Keys == {"z"}
  {
    hide Eval, Resolves;
    ReturningResolves("z", 0, {} + {"y"}, {});
    LitResolves(0, {}, {});
    var (stmts, env) := ([Let("y", Atomic(Lit(0))), Do(Returning("z", 0))], Env(Restored(map[], {}), []));
    assert UnitOf(map[]) == map[] && stmts[1..] == [Do(Returning("z", 0))] && stmts[1..][1..] == [];
    LitRuns(0, map[], env, [], budget);
    ReturningRuns("z", 0, map[], Enter(env, "y", Num(0)), [], budget - 1);
    assert RunStmts(stmts[1..], map[], Enter(env, "y", Num(0)), [], budget - 1).Back?;
    assert Gathered(stmts[1..], map[], {} + {"y"}) == Some((map[], {} + {"y"}));
    assert {} + {"y"} == {"y"};
    assert Gathered(stmts, map[], {}) == Some((map[], {"y"}));
    assert Mentioned(InputTokens(Parsed(stmts, None)), {}) == {};
    assert StmtsResolve(stmts[1..], None, {} + {"y"}, {}) && StmtsResolve(stmts, None, {}, {});
    assert UnitOf(map[]).Keys == {};
  }

  /** A session that holds `x` and an object with a field of that name, as `let x = 1; let o = #{x: 5};` leaves it. */
  const HOLDING := Held(map[], {"x", "o"}, map["x" := Num(1), "o" := Object(map["x" := Num(5)])], [])

  const DECLARING := Parsed([Let("x", Atomic(Lit(1))), Let("o", One(Field("x"), Atomic(Lit(5))))], None)

  const RETURN_OBJECT := One(Return, Two(MakePair, Atomic(Name("o")), Atomic(Lit(0))))

  lemma DeclaringRuns(budget: nat)
    requires budget >= 3
    ensures var last := Enter(Enter(Env(map[], []), "x", Num(1)), "o", Object(map["x" := Num(5)]));
      RunMain(DECLARING, map[], Env(map[], []), [], budget) == Done(Unit, last, [], budget - 3)
  {
    hide Eval;
    var (stmts, env) := (DECLARING.stmts, Env(map[], []));
    assert stmts[1..] == [Let("o", One(Field("x"), Atomic(Lit(5))))] && stmts[1..][1..] == [];
    LitRuns(1, map[], env, [], budget);
    var mid := Enter(env, "x", Num(1));
    FieldRuns("x", 5, map[], mid, [], budget - 1);
    assert RunStmts(stmts[1..], map[], mid, [], budget - 1).Done?;
  }

  lemma DeclaringCompiles()
    ensures Gathered(DECLARING.stmts, map[], {}) == Some((map[], {"x", "o"}))
    ensures UnitOf(map[]) == map[] && Compiles(DECLARING, map[], {})
    ensures Mentioned(InputTokens(DECLARING), {}) == {}
  {
    hide Resolves;
    var (stmts, made) := (DECLARING.stmts, One(Field("x"), Atomic(Lit(5))));
    assert stmts[1..] == [Let("o", made)] && stmts[1..][1..] == [];
    LitResolves(1, {}, {});
    FieldResolves("x", 5, {} + {"x"}, {});
    assert Gathered(stmts[1..], map[], {} + {"x"}) == Some((map[], {} + {"x"} + {"o"}));
    assert {} + {"x"} + {"o"} == {"x", "o"};
    var none: map<string, Fun> := map[];
    assert none.Keys == {};
    assert StmtsResolve(stmts[1..], None, {} + {"x"}, {}) && StmtsResolve(stmts, None, {}, {});
  }

  lemma DeclaringLeaves(budget: nat)
    requires budget >= 3
    ensures Narrow(FRESH, DECLARING, budget, true).0 == HOLDING
  {
    hide RunMain, Gathered, Compiles, Mentioned, InputTokens, Variable;
    DeclaringRuns(budget);
    DeclaringCompiles();
    var none: map<string, Value> := map[];
    assert Restored(none, {}) == none && {} + ({"x", "o"} - {}) == {"x", "o"};
    TwoLocals(none, Num(1), Object(map["x" := Num(5)]));
    var last := Enter(Enter(Env(none, []), "x", Num(1)), "o", Object(map["x" := Num(5)]));
    assert Delta(last, {"x", "o"}) == HOLDING.state;
  }

  lemma TwoLocals(base: map<string, Value>, x: Value, o: Value)
    ensures var env := Enter(Enter(Env(base, []), "x", x), "o", o);
      Variable(env, "x") == Some(x) && Variable(env, "o") == Some(o)
  {
    var locals := [("x", x), ("o", o)];
    assert Enter(Enter(Env(base, []), "x", x), "o", o).locals == locals;
    assert locals[..1] == [("x", x)] && "x"[0] != "o"[0];
    assert Find(locals[..1], "x") == Some(0) && Find(locals, "o") == Some(1);
  }

  lemma FieldResolves(key: string, n: int, vars: set<string>, declared: set<string>)
    ensures Resolves(One(Field(key), Atomic(Lit(n))), vars, declared)
  {
    LitResolves(n, vars, declared);
  }

  lemma FieldRuns(key: string, n: int, unit: map<string, Fun>, env: Env, heap: seq<Value>, budget: nat)
    requires budget >= 2
    ensures Eval(One(Field(key), Atomic(Lit(n))), unit, env, heap, budget)
         == Done(Object(map[key := Num(n)]), env, heap, budget - 2)
  {
    assert Eval(Atomic(Lit(n)), unit, env, heap, budget - 1) == Done(Num(n), env, heap, budget - 2);
  }

  lemma ReturnObjectRuns(budget: nat, env: Env)
    requires budget >= 4 && env.base.Keys == {"o"} && env.locals == []
    ensures Eval(RETURN_OBJECT, map[], env, [], budget) == Back(Pair(env.base["o"], Num(0)), [], budget - 4)
  {
    var pair := Two(MakePair, Atomic(Name("o")), Atomic(Lit(0)));
    assert Eval(Atomic(Name("o")), map[], env, [], budget - 2) == Done(env.base["o"], env, [], budget - 3);
    assert Eval(Atomic(Lit(0)), map[], env, [], budget - 3) == Done(Num(0), env, [], budget - 4);
    assert Eval(pair, map[], env, [], budget - 1) == Done(Pair(env.base["o"], Num(0)), env, [], budget - 4);
  }

  /** An early return overwrites a binding that the input never mentions: after `let x = 1; let o = #{x: 5};` the
      input `return (o, 0);` leaves `x` at five. */
  lemma ReturnOverwritesUnmentioned(budget: nat)
    requires budget >= 4
    ensures var (s, input) := (Narrow(FRESH, DECLARING, budget, true).0, Parsed([Do(RETURN_OBJECT)], None));
      && "x" in s.state && s.state["x"] == Num(1) && "x" !in Mentioned(InputTokens(input), s.names)
      && var (t, outcome) := Narrow(s, input, budget, true);
      outcome == Success(Num(0)) && "x" in t.state && t.state["x"] == Num(5)
  {
    hide Narrow, Mentioned, InputTokens;
    DeclaringLeaves(budget);
    ReturnObjectMentions();
    ReturnObjectPublishes(budget);
    assert "x"[0] != "o"[0];
  }

  lemma ReturnObjectPublishes(budget: nat)
    requires budget >= 4
    ensures var (t, outcome) := Narrow(HOLDING, Parsed([Do(RETURN_OBJECT)], None), budget, true);
      outcome == Success(Num(0)) && t.state == HOLDING.state + map["x" := Num(5)]
  {
    hide Eval, Resolves, Mentioned, InputTokens;
    var (s, stmts) := (HOLDING, [Do(RETURN_OBJECT)]);
    ReturnObjectMentions();
    var env := Env(Restored(s.state, {"o"}), []);
    ReturnObjectRuns(budget, env);
    ReturnObjectResolves();
    assert stmts[1..] == [] && UnitOf(map[]) == map[] && UnitOf(map[]).Keys == {};
    assert RunStmts(stmts, map[], env, [], budget) == Back(Pair(s.state["o"], Num(0)), [], budget - 4);
    assert Gathered(stmts, map[], s.names) == Some((map[], s.names));
    assert StmtsResolve(stmts, None, {"o"}, {});
  }

  lemma ReturnObjectResolves()
    ensures Resolves(RETURN_OBJECT, {"o"}, {})
  {
    assert Resolves(Two(MakePair, Atomic(Name("o")), Atomic(Lit(0))), {"o"}, {});
  }

  lemma ReturnObjectMentions()
    ensures Mentioned(InputTokens(Parsed([Do(RETURN_OBJECT)], None)), {"x", "o"}) == {"o"}
  {
    var pair := Two(MakePair, Atomic(Name("o")), Atomic(Lit(0)));
    assert TokensOf(pair) == [Ident("o"), Other, Other];
    assert TokensOf(RETURN_OBJECT) == [Other] + TokensOf(pair);
    var stmts := [Do(RETURN_OBJECT)];
    assert stmts[1..] == [] && StmtsTokens([]) == [];
    assert StmtsTokens(stmts) == StmtTokens(stmts[0]) + [];
    var tokens := InputTokens(Parsed(stmts, None));
    assert tokens == [Other, Ident("o"), Other, Other, Other];
    assert tokens[1..] == [Ident("o"), Other, Other, Other] && tokens[2..] == [Other, Other, Other];
    assert tokens[1..][1..] == tokens[2..];
    OthersMention(tokens[2..], {"x", "o"});
    assert {"o"} * {"x", "o"} == {"o"};
  }

  lemma {:induction false} OthersMention(tokens: seq<Token>, published: set<string>)
    requires forall i :: 0 <= i < |tokens| ==> tokens[i] == Other
    ensures Mentioned(tokens, published) == {}
  {
    if tokens != [] { OthersMention(tokens[1..], published); }
  }

  lemma LitResolves(n: int, vars: set<string>, declared: set<string>)
    ensures Resolves(Atomic(Lit(n)), vars, declared)
  {
  }

  lemma LitRuns(n: int, unit: map<string, Fun>, env: Env, heap: seq<Value>, budget: nat)
    requires budget > 0
    ensures Eval(Atomic(Lit(n)), unit, env, heap, budget) == Done(Num(n), env, heap, budget - 1)
  {
  }

  /** The difference is real: an input the plain form fails and the narrowed form runs. */
  lemma NarrowOutlivesFull(budget: nat)
    requires budget > 0
    ensures var (s, input) := (Held(map[], {"y"}, map["z" := Num(0)], []), Parsed([], Some(Atomic(Lit(1)))));
      Narrow(s, input, budget, true).1 == Success(Num(1)) && Full(s, input, budget, true).1 == Failure
  {
    var (s, input) := (Held(map[], {"y"}, map["z" := Num(0)], []), Parsed([], Some(Atomic(Lit(1)))));
    LitRuns(1, map[], Env(Restored(s.state, {}), []), [], budget);
    assert UnitOf(map[]) == map[];
    assert InputTokens(input) == [Other];
    assert Mentioned([Other][1..], s.names) == {};
    assert Mentioned(InputTokens(input), s.names) == {};
  }

  // --- Failing inputs ------------------------------------------------------------------------------------

  predicate SameBindings(a: Held, b: Held) {
    a.declarations == b.declarations && a.names == b.names && a.state == b.state
  }

  /** An input with its lifecycle: a cleanup that fails after it turns its success into a failure. */
  function Evaluated(s: Held, input: Input, budget: nat, begins: bool, finishes: bool): (Held, Outcome) {
    var (t, outcome) := Narrow(s, input, budget, begins);
    (t, if finishes then outcome else Failure)
  }

  /** A failing input changes no name, declaration or binding, unless it failed only because cleanup failed after
      it had published: then it leaves what a success would. */
  lemma FailureChangesNothing(s: Held, input: Input, budget: nat, begins: bool, finishes: bool)
    requires Evaluated(s, input, budget, begins, finishes).1.Failure?
    ensures var (t, inner) := (Evaluated(s, input, budget, begins, finishes).0, Narrow(s, input, budget, begins));
      if finishes || inner.1.Failure? then SameBindings(s, t) else t == inner.0 && inner.1.Success?
    ensures finishes ==> SameBindings(s, Evaluated(s, input, budget, begins, finishes).0)
  {
  }

  /** A failing cleanup leaves the new binding behind. */
  lemma FailedCleanupPublishes(budget: nat)
    requires budget > 0
    ensures var t := Evaluated(FRESH, Parsed([Let("x", Atomic(Lit(1)))], None), budget, true, false);
      t.1.Failure? && t.0.names == {"x"} && !SameBindings(FRESH, t.0)
  {
    hide Eval;
    var (stmts, env) := ([Let("x", Atomic(Lit(1)))], Env(Restored(map[], {}), []));
    assert stmts[1..] == [];
    assert UnitOf(map[]) == map[];
    LitRuns(1, map[], env, [], budget);
    assert {} + {"x"} == {"x"};
    assert Gathered(stmts, map[], {}) == Some((map[], {"x"}));
    assert RunStmts(stmts, map[], env, [], budget).Done?;
  }

  // --- Whole sessions -------------------------------------------------------------------------------------

  datatype Step = Typed(input: Input, budget: nat, begins: bool, finishes: bool) | Reset

  /** The three ways to run an input. */
  datatype How = Narrowed | Whole | Repaired

  function Respond(s: Held, input: Input, budget: nat, begins: bool, how: How): (Held, Outcome) {
    match how
    case Narrowed => Narrow(s, input, budget, begins)
    case Whole => Full(s, input, budget, begins)
    case Repaired => Mended(s, input, budget, begins)
  }

  function Act(s: Held, step: Step, how: How): (Held, Outcome) {
    match step
    case Reset => (Held(map[], {}, map[], s.heap), Failure)
    case Typed(input, budget, begins, finishes) =>
      var (t, outcome) := Respond(s, input, budget, begins, how);
      (t, if finishes then outcome else Failure)
  }

  function ActAll(s: Held, steps: seq<Step>, how: How): (Held, seq<Outcome>)
    decreases |steps|
  {
    if steps == [] then (s, [])
    else
      var (t, outcome) := Act(s, steps[0], how);
      var (u, outcomes) := ActAll(t, steps[1..], how);
      (u, [outcome] + outcomes)
  }

  ghost predicate AllFaithful(steps: seq<Step>) {
    forall i :: 0 <= i < |steps| && steps[i].Typed? ==> FaithfulInput(steps[i].input)
  }

  /** After a reset a session answers as a new one does: no declaration, name or binding is left. */
  lemma ResetStartsAnew(s: Held, steps: seq<Step>, how: How)
    ensures ActAll(s, [Reset] + steps, how).1[1..] == ActAll(FRESH.(heap := s.heap), steps, how).1
    ensures ActAll(s, [Reset] + steps, how).0 == ActAll(FRESH.(heap := s.heap), steps, how).0
  {
    hide Respond;
    assert ([Reset] + steps)[1..] == steps;
  }

  predicate AllReturnFree(steps: seq<Step>) {
    forall i :: 0 <= i < |steps| && steps[i].Typed? ==> ReturnFree(steps[i].input)
  }

  /** Over any session of inputs and resets, early returns included, the narrowed prelude gives the outcomes, the
      bindings, the handles and the heap of a session that restores every name that has a value. */
  lemma {:induction false} SessionsAgree(s: Held, steps: seq<Step>)
    requires AllFaithful(steps)
    ensures ActAll(s, steps, Narrowed) == ActAll(s, steps, Repaired)
    decreases |steps|
  {
    hide Narrow, Mended, FaithfulInput;
    if steps != [] {
      if steps[0].Typed? { NarrowIsMended(s, steps[0].input, steps[0].budget, steps[0].begins); }
      assert AllFaithful(steps[1..]);
      SessionsAgree(Act(s, steps[0], Narrowed).0, steps[1..]);
    }
  }

  lemma StepKeepsNames(s: Held, step: Step)
    requires s.names == s.state.Keys && (step.Typed? ==> ReturnFree(step.input))
    ensures Act(s, step, Narrowed).0.names == Act(s, step, Narrowed).0.state.Keys
  {
    hide Inner, ReturnFree;
    if step.Typed? {
      var referenced := Mentioned(InputTokens(step.input), s.names);
      if Narrow(s, step.input, step.budget, step.begins).1.Success? {
        NamesAreKeys(s, step.input, referenced, step.budget, step.begins);
      } else {
        FailureChangesNothing(s, step.input, step.budget, step.begins, true);
      }
    }
  }

  /** While no input returns early, that session is the plain one, and the names stay the keys of the state. */
  lemma {:induction false} ReturnFreeSessionsAgree(s: Held, steps: seq<Step>)
    requires s.names == s.state.Keys && AllFaithful(steps) && AllReturnFree(steps)
    ensures ActAll(s, steps, Narrowed) == ActAll(s, steps, Whole)
    ensures ActAll(s, steps, Narrowed).0.names == ActAll(s, steps, Narrowed).0.state.Keys
    decreases |steps|
  {
    hide Narrow, Full, FaithfulInput, ReturnFree;
    if steps != [] {
      if steps[0].Typed? { NarrowIsFull(s, steps[0].input, steps[0].budget, steps[0].begins); }
      StepKeepsNames(s, steps[0]);
      assert AllFaithful(steps[1..]) && AllReturnFree(steps[1..]);
      ReturnFreeSessionsAgree(Act(s, steps[0], Narrowed).0, steps[1..]);
    }
  }

  // --- The session object ------------------------------------------------------------------------------------

  class Session {
    var declarations: map<string, Declaration>
    var names: set<string>
    var state: map<string, Value>
    /** What the session's handles share with everything else. */
    var heap: seq<Value>

    function Holds(): Held
      reads this
    {
      Held(declarations, names, state, heap)
    }

    constructor ()
      ensures Holds() == FRESH
    {
      declarations, names, state, heap := map[], {}, map[], [];
    }

    /** Inserts a delta entry by entry. */
    method Merge(delta: map<string, Value>)
      modifies `state
      ensures state == old(state) + delta
    {
      var left := delta.Keys;
      while left != {}
        invariant left <= delta.Keys
        invariant state == old(state) + (delta - left)
        decreases left
      {
        var name :| name in left;
        state := state[name := delta[name]];
        left := left - {name};
      }
      assert delta - {} == delta;
    }

    /** Collects what the statements declare. */
    method Gather(stmts: seq<Stmt>) returns (r: Option<(map<string, Declaration>, set<string>)>)
      ensures r == Gathered(stmts, declarations, names)
      ensures r.Some? <==> forall k :: 0 <= k < |stmts| ==> !RefusedStatement(stmts, declarations, k)
      ensures r.Some? ==> DeclaresLast(stmts, declarations, r.value.0) && r.value.1 == names + LetNames(stmts)
    {
      hide RefusedStatement, DeclaresLast, LetNames;
      GatheredExactly(stmts, declarations, names);
      if Gathered(stmts, declarations, names).Some? { GatheredNames(stmts, declarations, names); }
      var (d, n) := (declarations, names);
      var i := 0;
      while i < |stmts|
        invariant 0 <= i <= |stmts|
        invariant Gathered(stmts, declarations, names) == Gathered(stmts[i..], d, n)
      {
        assert stmts[i..][1..] == stmts[i + 1..];
        match stmts[i] {
          case OtherItem => return None;
          case Do(_) =>
          case Let(x, _) =>
            if Reserved(x) { return None; }
            n := n + {x};
          case Item(x, isType, source, fun) =>
            if Reserved(x) { return None; }
            if x in d && (d[x].isType || isType) && d[x].source != source { return None; }
            d := d[x := Declaration(isType, source, fun)];
        }
        i := i + 1;
      }
      assert stmts[i..] == [];
      return Some((d, n));
    }

    /** One input: gather, restore what it mentions, compile, run, and publish the delta only on success. */
    method Eval(input: Input, budget: nat, begins: bool, finishes: bool) returns (outcome: Outcome)
      modifies this
      ensures (Holds(), outcome) == Evaluated(old(Holds()), input, budget, begins, finishes)
    {
      hide Mentioned, RunMain, Delta, Gathered, Compiles, InputTokens;
      outcome := EvalInner(input, budget, begins);
      if !finishes { outcome := Failure; }
    }

    method EvalInner(input: Input, budget: nat, begins: bool) returns (outcome: Outcome)
      modifies this
      ensures (Holds(), outcome) == Narrow(old(Holds()), input, budget, begins)
    {
      hide Mentioned, RunMain, Delta, Gathered, Compiles, InputTokens;
      if input.Unparsable? { return Failure; }
      var gathered := Gather(input.stmts);
      if gathered.None? { return Failure; }
      var referenced := MentionedIn(InputTokens(input), names);
      var unit := UnitOf(gathered.value.0);
      if !Compiles(input, unit, referenced) { return Failure; }
      if !begins || !(referenced <= state.Keys) { return Failure; }
      var r := RunMain(input, unit, Env(Restored(state, referenced), []), heap, budget);
      heap := r.heap;
      var output := Output(r, referenced + (gathered.value.1 - names));
      if output.None? { return Failure; }
      Merge(output.value.0);
      declarations, names := gathered.value.0, gathered.value.1;
      return Success(output.value.1);
    }

    method Clear()
      modifies this
      ensures Holds() == Act(old(Holds()), Reset, Narrowed).0
    {
      declarations, names, state := map[], {}, map[];
    }
  }
}
