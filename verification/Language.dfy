/**
 A small language with scopes, closures, shared cells, format captures, early return and failure: what a session
 (`src/session.rs`) needs of the one it embeds. The frame theorem at the end says that bindings an expression never
 writes down do not matter to it.
 */
module Language {
  import opened Wrappers
  import F = FormatCaptures

  // --- The language -----------------------------------------------------------------------

  datatype Atom = Lit(n: int) | Quoted(token: string) | Name(name: string) | Lambda(param: string, body: Expr) | Panic

  /** `Format` holds a literal's token and the template the formatter reads from it. */
  datatype Unary =
    | Format(token: string, pieces: seq<F.Piece>)
    | Assign(name: string)
    | New
    | Get
    | Field(key: string)
    | Return

  datatype Binary = Set | Add | MakePair | Then

  datatype Expr =
    | Atomic(atom: Atom)
    | One(unary: Unary, of: Expr)
    | Two(binary: Binary, left: Expr, right: Expr)
    | LetIn(name: string, bound: Expr, body: Expr)
    | If(condition: Expr, yes: Expr, no: Expr)
    | While(condition: Expr, body: Expr)
    | Call(callee: Expr, argument: Expr)

  datatype Fun = Fun(param: string, body: Expr)

  /** A `Cell` is a shared handle. A formatted text is determined by its template, the values shown and the heap
      they were shown in. A function value keeps the unit it was compiled in. */
  datatype Value =
    | Unit
    | Num(n: int)
    | Text(token: string)
    | Shown(pieces: seq<F.Piece>, values: seq<Value>, heap: seq<Value>)
    | Cell(at: nat)
    | Pair(left: Value, right: Value)
    | Object(fields: map<string, Value>)
    | Closure(fun: Fun, captured: map<string, Value>, unit: map<string, Fun>)

  /** The restored bindings, and the locals declared since, innermost last. */
  datatype Env = Env(base: map<string, Value>, locals: seq<(string, Value)>)

  datatype Run =
    | Done(value: Value, env: Env, heap: seq<Value>, left: nat)
    | Back(value: Value, heap: seq<Value>, left: nat)
    | Failed(heap: seq<Value>)

  /** Every name an expression writes down. */
  function Uses(e: Expr): set<string> {
    match e
    case Atomic(Name(x)) => {x}
    case Atomic(Lambda(x, body)) => {x} + Uses(body)
    case Atomic(_) => {}
    case One(unary, of) => UnaryUses(unary) + Uses(of)
    case Two(_, left, right) => Uses(left) + Uses(right)
    case LetIn(x, bound, body) => {x} + Uses(bound) + Uses(body)
    case If(c, yes, no) => Uses(c) + Uses(yes) + Uses(no)
    case While(c, body) => Uses(c) + Uses(body)
    case Call(callee, argument) => Uses(callee) + Uses(argument)
  }

  function UnaryUses(op: Unary): set<string> {
    match op
    case Format(_, pieces) => set x | x in F.Names(pieces)
    case Assign(x) => {x}
    case _ => {}
  }

  /** The innermost local of that name. */
  function Find(locals: seq<(string, Value)>, x: string): (at: Option<nat>)
    ensures at.Some? ==> at.value < |locals| && locals[at.value].0 == x
    ensures at.None? ==> forall i :: 0 <= i < |locals| ==> locals[i].0 != x
  {
    if locals == [] then None
    else
      var last := |locals| - 1;
      if locals[last].0 == x then Some(last) else Find(locals[..last], x)
  }

  function Variable(env: Env, x: string): Option<Value> {
    var at := Find(env.locals, x);
    if at.Some? then Some(env.locals[at.value].1)
    else if x in env.base then Some(env.base[x]) else None
  }

  function Read(env: Env, unit: map<string, Fun>, x: string): Option<Value> {
    var value := Variable(env, x);
    if value.Some? then value
    else if x in unit then Some(Closure(unit[x], map[], unit)) else None
  }

  function Store(env: Env, x: string, v: Value): Option<Env> {
    var at := Find(env.locals, x);
    if at.Some? then Some(env.(locals := env.locals[at.value := (x, v)]))
    else if x in env.base then Some(env.(base := env.base[x := v])) else None
  }

  function ReadAll(env: Env, unit: map<string, Fun>, names: seq<string>): seq<Value> {
    if names == [] then []
    else
      var value := Read(env, unit, names[0]);
      (if value.Some? then [value.value] else []) + ReadAll(env, unit, names[1..])
  }

  function Captured(env: Env, names: set<string>): map<string, Value> {
    map x | x in names && Variable(env, x).Some? :: Variable(env, x).value
  }

  function Answer(v: Option<Value>, env: Env, heap: seq<Value>, left: nat): (r: Run)
    ensures !r.Failed? ==> r.left == left
  {
    if v.None? then Failed(heap) else Done(v.value, env, heap, left)
  }

  function Atomically(atom: Atom, unit: map<string, Fun>, env: Env): Option<Value> {
    match atom
    case Lit(n) => Some(Num(n))
    case Quoted(token) => Some(Text(token))
    case Name(x) => Read(env, unit, x)
    case Lambda(x, body) => Some(Closure(Fun(x, body), Captured(env, Uses(body)), unit))
    case Panic => None
  }

  function Apply1(op: Unary, unit: map<string, Fun>, v: Value, env: Env, heap: seq<Value>, left: nat): (r: Run)
    ensures !r.Failed? ==> r.left == left
  {
    match op
    case Format(_, pieces) => Done(Shown(pieces, [v] + ReadAll(env, unit, F.Names(pieces)), heap), env, heap, left)
    case Assign(x) =>
      var stored := Store(env, x, v);
      if stored.None? then Failed(heap) else Done(Unit, stored.value, heap, left)
    case New => Done(Cell(|heap|), env, heap + [v], left)
    case Get => if v.Cell? && v.at < |heap| then Done(heap[v.at], env, heap, left) else Failed(heap)
    case Field(key) => Done(Object(map[key := v]), env, heap, left)
    case Return => Back(v, heap, left)
  }

  function Apply2(op: Binary, a: Value, b: Value, env: Env, heap: seq<Value>, left: nat): (r: Run)
    ensures !r.Failed? ==> r.left == left
  {
    match op
    case Set => if a.Cell? && a.at < |heap| then Done(Unit, env, heap[a.at := b], left) else Failed(heap)
    case Add => if a.Num? && b.Num? then Done(Num(a.n + b.n), env, heap, left) else Failed(heap)
    case MakePair => Done(Pair(a, b), env, heap, left)
    case Then => Done(b, env, heap, left)
  }

  function Enter(env: Env, x: string, v: Value): Env { env.(locals := env.locals + [(x, v)]) }

  function Leave(r: Run): Run {
    if r.Done? && r.env.locals != [] then
      Done(r.value, r.env.(locals := r.env.locals[..|r.env.locals| - 1]), r.heap, r.left)
    else r
  }

  /** Back in the caller's scope, whether the callee ended or returned early. */
  function Resume(t: Run, env: Env): Run {
    if t.Failed? then t else Done(t.value, env, t.heap, t.left)
  }

  /** Runs an expression within a budget of instructions, one for each step. */
  function Eval(e: Expr, unit: map<string, Fun>, env: Env, heap: seq<Value>, budget: nat): (r: Run)
    ensures !r.Failed? ==> r.left <= budget
    decreases budget, 0
  {
    if budget == 0 then Failed(heap) else Step(e, unit, env, heap, budget - 1)
  }

  function Step(e: Expr, unit: map<string, Fun>, env: Env, heap: seq<Value>, budget: nat): (r: Run)
    ensures !r.Failed? ==> r.left <= budget
    decreases budget, 1
  {
    match e
    case Atomic(atom) => Answer(Atomically(atom, unit, env), env, heap, budget)
    case One(op, of) =>
      var r := Eval(of, unit, env, heap, budget);
      if !r.Done? then r else Apply1(op, unit, r.value, r.env, r.heap, r.left)
    case Two(op, left, right) =>
      var r := Eval(left, unit, env, heap, budget);
      if !r.Done? then r
      else
        var s := Eval(right, unit, r.env, r.heap, r.left);
        if !s.Done? then s else Apply2(op, r.value, s.value, s.env, s.heap, s.left)
    case LetIn(x, bound, body) =>
      var r := Eval(bound, unit, env, heap, budget);
      if !r.Done? then r else Leave(Eval(body, unit, Enter(r.env, x, r.value), r.heap, r.left))
    case If(c, yes, no) =>
      var r := Eval(c, unit, env, heap, budget);
      if !r.Done? then r else Eval(if r.value != Num(0) then yes else no, unit, r.env, r.heap, r.left)
    case While(c, body) =>
      var r := Eval(c, unit, env, heap, budget);
      if !r.Done? then r
      else if r.value == Num(0) then Done(Unit, r.env, r.heap, r.left)
      else
        var turn := Eval(body, unit, r.env, r.heap, r.left);
        if !turn.Done? then turn else Eval(e, unit, turn.env, turn.heap, turn.left)
    case Call(callee, argument) =>
      var r := Eval(callee, unit, env, heap, budget);
      if !r.Done? then r
      else
        var s := Eval(argument, unit, r.env, r.heap, r.left);
        if !s.Done? then s
        else if !r.value.Closure? then Failed(s.heap)
        else
          var inner := Env(r.value.captured, [(r.value.fun.param, s.value)]);
          Resume(Eval(r.value.fun.body, r.value.unit, inner, s.heap, s.left), s.env)
  }

  // --- Bindings that are not mentioned change nothing ----------------------------------------

  function Wider(env: Env, rest: map<string, Value>): Env { env.(base := env.base + rest) }

  function Widen(r: Run, rest: map<string, Value>): Run {
    if r.Done? then Done(r.value, Wider(r.env, rest), r.heap, r.left) else r
  }

  lemma VariableFramed(env: Env, rest: map<string, Value>, x: string)
    requires x !in rest
    ensures Variable(Wider(env, rest), x) == Variable(env, x)
  {
  }

  lemma {:induction false} ReadAllFramed(env: Env, unit: map<string, Fun>, rest: map<string, Value>, names: seq<string>)
    requires forall x :: x in names ==> x !in rest
    ensures ReadAll(Wider(env, rest), unit, names) == ReadAll(env, unit, names)
  {
    if names != [] {
      VariableFramed(env, rest, names[0]);
      ReadAllFramed(env, unit, rest, names[1..]);
    }
  }

  lemma StoreFramed(env: Env, rest: map<string, Value>, x: string, v: Value)
    requires x !in rest
    ensures Store(env, x, v).None? ==> Store(Wider(env, rest), x, v).None?
    ensures Store(env, x, v).Some? ==> Store(Wider(env, rest), x, v) == Some(Wider(Store(env, x, v).value, rest))
  {
    if Find(env.locals, x).None? && x in env.base {
      assert (env.base + rest)[x := v] == env.base[x := v] + rest;
    }
  }

  lemma CapturedFramed(env: Env, rest: map<string, Value>, names: set<string>)
    requires names !! rest.Keys
    ensures Captured(Wider(env, rest), names) == Captured(env, names)
  {
    forall x | x in names ensures Variable(Wider(env, rest), x) == Variable(env, x) {
      VariableFramed(env, rest, x);
    }
  }

  lemma AtomFramed(atom: Atom, unit: map<string, Fun>, env: Env, rest: map<string, Value>)
    requires Uses(Atomic(atom)) !! rest.Keys
    ensures Atomically(atom, unit, Wider(env, rest)) == Atomically(atom, unit, env)
  {
    hide Variable;
    match atom
    case Name(x) => VariableFramed(env, rest, x);
    case Lambda(x, body) => CapturedFramed(env, rest, Uses(body));
    case _ =>
  }

  lemma Apply1Framed(op: Unary, unit: map<string, Fun>, v: Value, env: Env, heap: seq<Value>, left: nat,
      rest: map<string, Value>)
    requires UnaryUses(op) !! rest.Keys
    ensures Apply1(op, unit, v, Wider(env, rest), heap, left) == Widen(Apply1(op, unit, v, env, heap, left), rest)
  {
    hide Store, ReadAll;
    match op
    case Format(_, pieces) => ReadAllFramed(env, unit, rest, F.Names(pieces));
    case Assign(x) => StoreFramed(env, rest, x, v);
    case _ =>
  }

  /** Extra bindings that an expression never writes down neither change what it does nor are changed by it. */
  lemma {:induction false} EvalFramed(e: Expr, unit: map<string, Fun>, env: Env, heap: seq<Value>, budget: nat,
      rest: map<string, Value>)
    requires Uses(e) !! rest.Keys
    ensures Eval(e, unit, Wider(env, rest), heap, budget) == Widen(Eval(e, unit, env, heap, budget), rest)
    decreases budget, 0
  {
    hide Step, Wider, Uses;
    if budget > 0 { StepFramed(e, unit, env, heap, budget - 1, rest); }
  }

  lemma {:induction false} LetFramed(e: Expr, unit: map<string, Fun>, env: Env, heap: seq<Value>, budget: nat,
      rest: map<string, Value>)
    requires e.LetIn? && Uses(e) !! rest.Keys
    ensures Step(e, unit, Wider(env, rest), heap, budget) == Widen(Step(e, unit, env, heap, budget), rest)
    decreases budget, 1
  {
    hide Eval, Wider;
    var LetIn(x, bound, body) := e;
    EvalFramed(bound, unit, env, heap, budget, rest);
    var r := Eval(bound, unit, env, heap, budget);
    if r.Done? {
      EvalFramed(body, unit, Enter(r.env, x, r.value), r.heap, r.left, rest);
      ScopeFramed(r.env, x, r.value, Eval(body, unit, Enter(r.env, x, r.value), r.heap, r.left), rest);
    }
  }

  lemma {:induction false} WhileFramed(e: Expr, unit: map<string, Fun>, env: Env, heap: seq<Value>, budget: nat,
      rest: map<string, Value>)
    requires e.While? && Uses(e) !! rest.Keys
    ensures Step(e, unit, Wider(env, rest), heap, budget) == Widen(Step(e, unit, env, heap, budget), rest)
    decreases budget, 1
  {
    hide Eval, Wider;
    var While(c, body) := e;
    EvalFramed(c, unit, env, heap, budget, rest);
    var r := Eval(c, unit, env, heap, budget);
    if r.Done? {
      EvalFramed(body, unit, r.env, r.heap, r.left, rest);
      var turn := Eval(body, unit, r.env, r.heap, r.left);
      if turn.Done? { EvalFramed(e, unit, turn.env, turn.heap, turn.left, rest); }
    }
  }

  lemma {:induction false} StepFramed(e: Expr, unit: map<string, Fun>, env: Env, heap: seq<Value>, budget: nat,
      rest: map<string, Value>)
    requires Uses(e) !! rest.Keys
    ensures Step(e, unit, Wider(env, rest), heap, budget) == Widen(Step(e, unit, env, heap, budget), rest)
    decreases budget, 2
  {
    hide Eval, Atomically, Apply1, Apply2, Wider;
    match e {
      case Atomic(atom) => AtomFramed(atom, unit, env, rest);
      case One(op, of) =>
        EvalFramed(of, unit, env, heap, budget, rest);
        var r := Eval(of, unit, env, heap, budget);
        if r.Done? { Apply1Framed(op, unit, r.value, r.env, r.heap, r.left, rest); }
      case Two(op, left, right) =>
        EvalFramed(left, unit, env, heap, budget, rest);
        var r := Eval(left, unit, env, heap, budget);
        if r.Done? {
          EvalFramed(right, unit, r.env, r.heap, r.left, rest);
          var s := Eval(right, unit, r.env, r.heap, r.left);
          if s.Done? { Apply2Framed(op, r.value, s.value, s.env, s.heap, s.left, rest); }
        }
      case LetIn(_, _, _) => LetFramed(e, unit, env, heap, budget, rest);
      case If(c, yes, no) =>
        EvalFramed(c, unit, env, heap, budget, rest);
        var r := Eval(c, unit, env, heap, budget);
        if r.Done? { EvalFramed(if r.value != Num(0) then yes else no, unit, r.env, r.heap, r.left, rest); }
      case While(_, _) => WhileFramed(e, unit, env, heap, budget, rest);
      case Call(callee, argument) =>
        EvalFramed(callee, unit, env, heap, budget, rest);
        var r := Eval(callee, unit, env, heap, budget);
        if r.Done? { EvalFramed(argument, unit, r.env, r.heap, r.left, rest); }
    }
  }

  lemma Apply2Framed(op: Binary, a: Value, b: Value, env: Env, heap: seq<Value>, left: nat, rest: map<string, Value>)
    ensures Apply2(op, a, b, Wider(env, rest), heap, left) == Widen(Apply2(op, a, b, env, heap, left), rest)
  {
  }

  lemma ScopeFramed(env: Env, x: string, v: Value, r: Run, rest: map<string, Value>)
    ensures Enter(Wider(env, rest), x, v) == Wider(Enter(env, x, v), rest)
    ensures Leave(Widen(r, rest)) == Widen(Leave(r), rest)
  {
  }

  // --- Running keeps the shape of a scope -----------------------------------------------------

  ghost predicate SameNames(a: Env, b: Env) {
    a.base.Keys == b.base.Keys && |a.locals| == |b.locals|
    && forall i :: 0 <= i < |a.locals| ==> a.locals[i].0 == b.locals[i].0
  }

  ghost predicate KeepsNames(env: Env, r: Run) { r.Done? ==> SameNames(env, r.env) }

  ghost function FirstPart(e: Expr): Expr
    requires !e.Atomic?
    ensures FirstPart(e) < e
  {
    match e
    case One(_, of) => of
    case Two(_, left, _) => left
    case LetIn(_, bound, _) => bound
    case If(c, _, _) => c
    case While(c, _) => c
    case Call(callee, _) => callee
  }

  lemma {:induction false} EvalKeepsNames(e: Expr, unit: map<string, Fun>, env: Env, heap: seq<Value>, budget: nat)
    ensures KeepsNames(env, Eval(e, unit, env, heap, budget))
    decreases budget, 0
  {
    hide Step;
    if budget > 0 { StepKeepsNames(e, unit, env, heap, budget - 1); }
  }

  lemma {:induction false} StepKeepsNames(e: Expr, unit: map<string, Fun>, env: Env, heap: seq<Value>, budget: nat)
    ensures KeepsNames(env, Step(e, unit, env, heap, budget))
    decreases budget, 1
  {
    hide Eval, Atomically, Apply1, Apply2;
    if !e.Atomic? {
      EvalKeepsNames(FirstPart(e), unit, env, heap, budget);
      var r := Eval(FirstPart(e), unit, env, heap, budget);
      if r.Done? {
        match e {
          case One(op, of) => Apply1KeepsNames(op, unit, r.value, r.env, r.heap, r.left);
          case Two(op, left, right) =>
            EvalKeepsNames(right, unit, r.env, r.heap, r.left);
            var s := Eval(right, unit, r.env, r.heap, r.left);
            if s.Done? { Apply2KeepsNames(op, r.value, s.value, s.env, s.heap, s.left); }
          case LetIn(x, bound, body) => EvalKeepsNames(body, unit, Enter(r.env, x, r.value), r.heap, r.left);
          case If(c, yes, no) =>
            EvalKeepsNames(if r.value != Num(0) then yes else no, unit, r.env, r.heap, r.left);
          case While(c, body) =>
            EvalKeepsNames(body, unit, r.env, r.heap, r.left);
            var turn := Eval(body, unit, r.env, r.heap, r.left);
            if turn.Done? { EvalKeepsNames(e, unit, turn.env, turn.heap, turn.left); }
          case Call(callee, argument) => EvalKeepsNames(argument, unit, r.env, r.heap, r.left);
        }
      }
    }
  }

  lemma Apply1KeepsNames(op: Unary, unit: map<string, Fun>, v: Value, env: Env, heap: seq<Value>, left: nat)
    ensures KeepsNames(env, Apply1(op, unit, v, env, heap, left))
  {
    hide ReadAll;
  }

  lemma Apply2KeepsNames(op: Binary, a: Value, b: Value, env: Env, heap: seq<Value>, left: nat)
    ensures KeepsNames(env, Apply2(op, a, b, env, heap, left))
  {
  }

  // --- Early returns ----------------------------------------------------------------------------

  /** Whether an expression holds a `return` of its own: one inside a closure returns from the closure. */
  predicate MayReturn(e: Expr) {
    match e
    case Atomic(_) => false
    case One(op, of) => op.Return? || MayReturn(of)
    case Two(_, left, right) => MayReturn(left) || MayReturn(right)
    case LetIn(_, bound, body) => MayReturn(bound) || MayReturn(body)
    case If(c, yes, no) => MayReturn(c) || MayReturn(yes) || MayReturn(no)
    case While(c, body) => MayReturn(c) || MayReturn(body)
    case Call(callee, argument) => MayReturn(callee) || MayReturn(argument)
  }

  lemma {:induction false} OnlyReturnsReturn(e: Expr, unit: map<string, Fun>, env: Env, heap: seq<Value>, budget: nat)
    requires !MayReturn(e)
    ensures !Eval(e, unit, env, heap, budget).Back?
    decreases budget, 0
  {
    hide Step, MayReturn;
    if budget > 0 { OnlyReturnsStepBack(e, unit, env, heap, budget - 1); }
  }

  lemma {:induction false} OnlyReturnsStepBack(e: Expr, unit: map<string, Fun>, env: Env, heap: seq<Value>, budget: nat)
    requires !MayReturn(e)
    ensures !Step(e, unit, env, heap, budget).Back?
    decreases budget, 1
  {
    hide Eval, Atomically;
    if !e.Atomic? {
      OnlyReturnsReturn(FirstPart(e), unit, env, heap, budget);
      var r := Eval(FirstPart(e), unit, env, heap, budget);
      if r.Done? {
        match e {
          case One(_, _) =>
          case Two(_, _, right) => OnlyReturnsReturn(right, unit, r.env, r.heap, r.left);
          case LetIn(x, _, body) => OnlyReturnsReturn(body, unit, Enter(r.env, x, r.value), r.heap, r.left);
          case If(_, yes, no) =>
            OnlyReturnsReturn(if r.value != Num(0) then yes else no, unit, r.env, r.heap, r.left);
          case While(_, body) =>
            OnlyReturnsReturn(body, unit, r.env, r.heap, r.left);
            var turn := Eval(body, unit, r.env, r.heap, r.left);
            if turn.Done? { OnlyReturnsReturn(e, unit, turn.env, turn.heap, turn.left); }
          case Call(_, argument) => OnlyReturnsReturn(argument, unit, r.env, r.heap, r.left);
        }
      }
    }
  }

  // --- Resolving names ----------------------------------------------------------------------------

  /** Whether every name resolves: to a variable, or, when it is only read, to a declaration. */
  predicate Resolves(e: Expr, vars: set<string>, declared: set<string>) {
    match e
    case Atomic(Name(x)) => x in vars || x in declared
    case Atomic(Lambda(x, body)) => Resolves(body, vars + {x}, declared)
    case Atomic(_) => true
    case One(Format(_, pieces), of) =>
      (forall x :: x in F.Names(pieces) ==> x in vars || x in declared) && Resolves(of, vars, declared)
    case One(Assign(x), of) => x in vars && Resolves(of, vars, declared)
    case One(_, of) => Resolves(of, vars, declared)
    case Two(_, left, right) => Resolves(left, vars, declared) && Resolves(right, vars, declared)
    case LetIn(x, bound, body) => Resolves(bound, vars, declared) && Resolves(body, vars + {x}, declared)
    case If(c, yes, no) => Resolves(c, vars, declared) && Resolves(yes, vars, declared) && Resolves(no, vars, declared)
    case While(c, body) => Resolves(c, vars, declared) && Resolves(body, vars, declared)
    case Call(callee, argument) => Resolves(callee, vars, declared) && Resolves(argument, vars, declared)
  }

  lemma {:induction false} ResolvesFramed(e: Expr, vars: set<string>, more: set<string>, declared: set<string>)
    requires Uses(e) * more <= vars
    ensures Resolves(e, vars + more, declared) <==> Resolves(e, vars, declared)
  {
    match e
    case Atomic(Lambda(x, body)) =>
      assert vars + more + {x} == vars + {x} + more;
      ResolvesFramed(body, vars + {x}, more, declared);
    case Atomic(_) =>
    case One(op, of) =>
      ResolvesFramed(of, vars, more, declared);
      assert forall x :: x in UnaryUses(op) && x in more ==> x in vars;
    case Two(_, left, right) =>
      ResolvesFramed(left, vars, more, declared);
      ResolvesFramed(right, vars, more, declared);
    case LetIn(x, bound, body) =>
      assert vars + more + {x} == vars + {x} + more;
      ResolvesFramed(bound, vars, more, declared);
      ResolvesFramed(body, vars + {x}, more, declared);
    case If(c, yes, no) =>
      ResolvesFramed(c, vars, more, declared);
      ResolvesFramed(yes, vars, more, declared);
      ResolvesFramed(no, vars, more, declared);
    case While(c, body) =>
      ResolvesFramed(c, vars, more, declared);
      ResolvesFramed(body, vars, more, declared);
    case Call(callee, argument) =>
      ResolvesFramed(callee, vars, more, declared);
      ResolvesFramed(argument, vars, more, declared);
  }
}
