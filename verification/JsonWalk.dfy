/**
 The walk that bounds JSON writing (`src/json.rs`): a recursive descent over a heap graph that may share
 and may be cyclic, with a stack of the containers being descended and a stack of path steps.
 */
module JsonWalk {
  import opened Wrappers

  /** Rune's limit on the nesting of values. */
  const MAX_DEPTH: nat := 64

  /** A value, by how the walk treats it. Vectors and tuples descend by index, objects by key. */
  datatype Value =
    | Leaf
    | Items(items: seq<nat>)
    | Entries(entries: seq<(string, nat)>)
    | Maybe(inner: Option<nat>)
    | Unserializable(what: string)

  /** A heap: allocations by address. */
  type Graph = map<nat, Value>

  datatype Step = Key(key: string) | Index(index: nat)

  datatype Why = TooDeep | Cycle | Cannot(what: string)

  datatype Outcome = Accepted | Refused(why: Why, path: seq<Step>)

  function Kids(v: Value): seq<nat> {
    match v
    case Items(items) => items
    case Entries(entries) => seq(|entries|, i requires 0 <= i < |entries| => entries[i].1)
    case Maybe(Some(inner)) => [inner]
    case _ => []
  }

  predicate Container(v: Value) { v.Items? || v.Entries? }

  /** How a container's child is named. */
  function StepTo(v: Value, i: nat): Step
    requires Container(v) && i < |Kids(v)|
  {
    if v.Items? then Index(i) else Key(v.entries[i].0)
  }

  /** Every reference leads somewhere. */
  predicate Closed(g: Graph) {
    forall a :: a in g ==> forall i :: 0 <= i < |Kids(g[a])| ==> Kids(g[a])[i] in g
  }

  // --- What the walk answers -----------------------------------------------------------------

  function Left(depth: nat): nat { if depth > MAX_DEPTH then 0 else MAX_DEPTH + 1 - depth }

  function Walked(g: Graph, a: nat, depth: nat, path: seq<Step>, active: seq<nat>): Outcome
    requires Closed(g) && a in g
    decreases Left(depth), 1, 0
  {
    if depth > MAX_DEPTH then Refused(TooDeep, path)
    else match g[a]
      case Leaf => Accepted
      case Maybe(None) => Accepted
      case Maybe(Some(inner)) =>
        assert Kids(g[a])[0] == inner;
        Walked(g, inner, depth + 1, path, active)
      case Unserializable(what) => Refused(Cannot(what), path)
      case _ =>
        if a in active then Refused(Cycle, path)
        else if depth >= MAX_DEPTH && Kids(g[a]) != [] then Refused(TooDeep, path)
        else WalkedFrom(g, a, 0, depth, path, active + [a])
  }

  /** The children of a container from the `i`-th on: the first refusal stands. */
  function WalkedFrom(g: Graph, a: nat, i: nat, depth: nat, path: seq<Step>, active: seq<nat>): Outcome
    requires Closed(g) && a in g && Container(g[a]) && i <= |Kids(g[a])|
    requires depth < MAX_DEPTH || (depth == MAX_DEPTH && Kids(g[a]) == [])
    decreases Left(depth), 0, |Kids(g[a])| - i
  {
    if i == |Kids(g[a])| then Accepted
    else
      var first := Walked(g, Kids(g[a])[i], depth + 1, path + [StepTo(g[a], i)], active);
      if first.Accepted? then WalkedFrom(g, a, i + 1, depth, path, active) else first
  }

  /** The walk with its two stacks, pushed on the way in and popped on the way out. */
  class Walker {
    var path: seq<Step>
    var active: seq<nat>

    constructor ()
      ensures path == [] && active == []
    {
      path, active := [], [];
    }

    /** The answer is the function's, and both stacks are as they were, however the walk leaves. */
    method Walk(g: Graph, a: nat, depth: nat) returns (r: Outcome)
      requires Closed(g) && a in g
      modifies this
      ensures r == Walked(g, a, depth, old(path), old(active))
      ensures path == old(path) && active == old(active)
      decreases Left(depth), 1
    {
      if depth > MAX_DEPTH { return Refused(TooDeep, path); }
      match g[a]
      case Leaf => return Accepted;
      case Maybe(None) => return Accepted;
      case Maybe(Some(inner)) =>
        assert Kids(g[a])[0] == inner;
        r := Walk(g, inner, depth + 1);
      case Unserializable(what) => return Refused(Cannot(what), path);
      case _ => r := Descend(g, a, depth);
    }

    method Descend(g: Graph, a: nat, depth: nat) returns (r: Outcome)
      requires Closed(g) && a in g && Container(g[a]) && depth <= MAX_DEPTH
      modifies this
      ensures r == Walked(g, a, depth, old(path), old(active))
      ensures path == old(path) && active == old(active)
      decreases Left(depth), 0
    {
      var items := Kids(g[a]);
      if a in active { return Refused(Cycle, path); }
      if depth >= MAX_DEPTH && items != [] { return Refused(TooDeep, path); }
      active := active + [a];
      for i := 0 to |items|
        invariant path == old(path) && active == old(active) + [a]
        invariant WalkedFrom(g, a, 0, depth, path, active) == WalkedFrom(g, a, i, depth, path, active)
      {
        path := path + [StepTo(g[a], i)];
        var outcome := Walk(g, items[i], depth + 1);
        path := path[..|path| - 1];
        if outcome.Refused? {
          active := active[..|active| - 1];
          return outcome;
        }
      }
      active := active[..|active| - 1];
      return Accepted;
    }
  }

  // --- The unfolding of a value ---------------------------------------------------------------

  /** A finite tree of values, each serializable or not. */
  datatype Tree = Node(ok: bool, kids: seq<Tree>)

  ghost predicate Unfolds(g: Graph, a: nat, t: Tree)
    decreases t
  {
    && a in g
    && t.ok == !g[a].Unserializable?
    && |t.kids| == |Kids(g[a])|
    && forall i :: 0 <= i < |t.kids| ==> Unfolds(g, Kids(g[a])[i], t.kids[i])
  }

  ghost function Height(t: Tree): nat
    decreases t, 0
  {
    1 + Highest(t.kids)
  }

  ghost function Highest(ts: seq<Tree>): (h: nat)
    ensures forall i :: 0 <= i < |ts| ==> Height(ts[i]) <= h
    ensures ts == [] ==> h == 0
    decreases ts, 1
  {
    if ts == [] then 0
    else
      var (first, rest) := (Height(ts[0]), Highest(ts[1..]));
      assert forall i :: 1 <= i < |ts| ==> ts[i] == ts[1..][i - 1];
      if first > rest then first else rest
  }

  ghost predicate AllOk(t: Tree)
    decreases t
  {
    t.ok && forall i :: 0 <= i < |t.kids| ==> AllOk(t.kids[i])
  }

  lemma {:induction false} HighestAtMost(ts: seq<Tree>, h: nat)
    requires forall i :: 0 <= i < |ts| ==> Height(ts[i]) <= h
    ensures Highest(ts) <= h
    decreases |ts|
  {
    if ts != [] {
      assert forall i :: 0 <= i < |ts[1..]| ==> ts[1..][i] == ts[i + 1];
      HighestAtMost(ts[1..], h);
    }
  }

  lemma {:induction false} UnfoldingIsUnique(g: Graph, a: nat, s: Tree, t: Tree)
    requires Unfolds(g, a, s) && Unfolds(g, a, t)
    ensures s == t
    decreases s
  {
    forall i | 0 <= i < |s.kids| ensures s.kids[i] == t.kids[i] {
      UnfoldingIsUnique(g, Kids(g[a])[i], s.kids[i], t.kids[i]);
    }
  }

  /** The reference: the value unfolds to a finite tree, at most `levels` high, of serializable values. */
  ghost predicate Fits(g: Graph, a: nat, levels: nat) {
    exists t :: Unfolds(g, a, t) && AllOk(t) && Height(t) <= levels
  }

  // --- Accepting is fitting --------------------------------------------------------------------

  /** The walk goes on into the children of a container. */
  predicate Descends(g: Graph, a: nat, depth: nat, active: seq<nat>)
    requires a in g
  {
    depth <= MAX_DEPTH && Container(g[a]) && a !in active && !(depth >= MAX_DEPTH && Kids(g[a]) != [])
  }

  lemma WalkedOnce(g: Graph, a: nat, depth: nat, path: seq<Step>, active: seq<nat>)
    requires Closed(g) && a in g
    ensures depth <= MAX_DEPTH && g[a].Maybe? && g[a].inner.Some? ==>
      && Kids(g[a])[0] == g[a].inner.value && g[a].inner.value in g
      && Walked(g, a, depth, path, active) == Walked(g, g[a].inner.value, depth + 1, path, active)
    ensures Descends(g, a, depth, active) ==>
      Walked(g, a, depth, path, active) == WalkedFrom(g, a, 0, depth, path, active + [a])
    ensures Walked(g, a, depth, path, active) == Accepted ==> depth <= MAX_DEPTH && !g[a].Unserializable?
    ensures Walked(g, a, depth, path, active) == Accepted && Container(g[a]) ==> Descends(g, a, depth, active)
  {
    hide WalkedFrom;
  }

  /** Trees for the children make one for the value. */
  lemma UnfoldsFrom(g: Graph, a: nat, kids: seq<Tree>, h: nat)
    requires a in g && !g[a].Unserializable? && |kids| == |Kids(g[a])|
    requires forall j :: 0 <= j < |kids| ==>
      Unfolds(g, Kids(g[a])[j], kids[j]) && AllOk(kids[j]) && Height(kids[j]) <= h
    ensures Unfolds(g, a, Node(true, kids)) && AllOk(Node(true, kids)) && Height(Node(true, kids)) <= 1 + h
  {
    HighestAtMost(kids, h);
  }

  lemma OptionUnfolds(g: Graph, a: nat, kid: Tree, h: nat)
    requires a in g && g[a].Maybe? && g[a].inner.Some?
    requires Unfolds(g, g[a].inner.value, kid) && AllOk(kid) && Height(kid) <= h
    ensures Unfolds(g, a, Node(true, [kid])) && AllOk(Node(true, [kid])) && Height(Node(true, [kid])) <= 1 + h
  {
    hide Unfolds, AllOk, Height;
    UnfoldsFrom(g, a, [kid], h);
  }

  lemma LeafUnfolds(g: Graph, a: nat, h: nat)
    requires a in g && !g[a].Unserializable? && !Container(g[a]) && !(g[a].Maybe? && g[a].inner.Some?)
    ensures Unfolds(g, a, Node(true, [])) && AllOk(Node(true, [])) && Height(Node(true, [])) <= 1 + h
  {
    hide Unfolds, AllOk, Height;
    UnfoldsFrom(g, a, [], h);
  }

  lemma {:induction false} AcceptedFits(g: Graph, a: nat, depth: nat, path: seq<Step>, active: seq<nat>)
    returns (t: Tree)
    requires Closed(g) && a in g && 1 <= depth
    requires Walked(g, a, depth, path, active) == Accepted
    ensures Unfolds(g, a, t) && AllOk(t) && depth + Height(t) <= MAX_DEPTH + 1
    decreases Left(depth), 1, 0
  {
    hide Walked, WalkedFrom, Unfolds, AllOk, Height, Closed, Kids, Container;
    WalkedOnce(g, a, depth, path, active);
    if g[a].Maybe? && g[a].inner.Some? {
      var kid := AcceptedFits(g, g[a].inner.value, depth + 1, path, active);
      t := Node(true, [kid]);
      OptionUnfolds(g, a, kid, MAX_DEPTH - depth);
    } else if Container(g[a]) {
      var kids := AcceptedKidsFit(g, a, 0, depth, path, active + [a]);
      t := Node(true, kids);
      UnfoldsFrom(g, a, kids, MAX_DEPTH - depth);
    } else {
      t := Node(true, []);
      LeafUnfolds(g, a, MAX_DEPTH - depth);
    }
  }

  lemma {:induction false} AcceptedKidsFit(g: Graph, a: nat, i: nat, depth: nat, path: seq<Step>, active: seq<nat>)
    returns (ts: seq<Tree>)
    requires Closed(g) && a in g && Container(g[a]) && i <= |Kids(g[a])|
    requires 1 <= depth && (depth < MAX_DEPTH || (depth == MAX_DEPTH && Kids(g[a]) == []))
    requires WalkedFrom(g, a, i, depth, path, active) == Accepted
    ensures |ts| == |Kids(g[a])| - i
    ensures forall j :: 0 <= j < |ts| ==>
      Unfolds(g, Kids(g[a])[i + j], ts[j]) && AllOk(ts[j]) && depth + 1 + Height(ts[j]) <= MAX_DEPTH + 1
    decreases Left(depth), 0, |Kids(g[a])| - i
  {
    hide Walked, Unfolds, AllOk, Height;
    if i == |Kids(g[a])| {
      ts := [];
    } else {
      var first := AcceptedFits(g, Kids(g[a])[i], depth + 1, path + [StepTo(g[a], i)], active);
      var rest := AcceptedKidsFit(g, a, i + 1, depth, path, active);
      ts := [first] + rest;
      assert forall j :: 1 <= j < |ts| ==> ts[j] == rest[j - 1] && i + j == i + 1 + (j - 1);
    }
  }

  /** Everything being descended has a higher unfolding than what is being looked at. */
  ghost predicate Above(g: Graph, active: seq<nat>, h: nat) {
    forall b :: b in active ==> exists t :: Unfolds(g, b, t) && Height(t) > h
  }

  lemma {:induction false} FittingIsAccepted(g: Graph, a: nat, t: Tree, depth: nat, path: seq<Step>, active: seq<nat>)
    requires Closed(g) && Unfolds(g, a, t) && AllOk(t) && depth + Height(t) <= MAX_DEPTH + 1
    requires Above(g, active, Height(t))
    ensures Walked(g, a, depth, path, active) == Accepted
    decreases t, 1, 0
  {
    if a in active {
      var s :| Unfolds(g, a, s) && Height(s) > Height(t);
      UnfoldingIsUnique(g, a, s, t);
      assert false;
    }
    if g[a].Maybe? && g[a].inner.Some? {
      AboveKids(g, active, t, 0);
      FittingIsAccepted(g, g[a].inner.value, t.kids[0], depth + 1, path, active);
    } else if Container(g[a]) {
      if t.kids != [] { assert Height(t.kids[0]) >= 1; }
      AboveNext(g, active, a, t);
      FittingKidsAreAccepted(g, a, t, 0, depth, path, active + [a]);
    }
  }

  lemma AboveKids(g: Graph, active: seq<nat>, t: Tree, i: nat)
    requires i < |t.kids| && Above(g, active, Height(t) - 1)
    ensures Above(g, active, Height(t.kids[i]))
  {
  }

  lemma AboveNext(g: Graph, active: seq<nat>, a: nat, t: Tree)
    requires Unfolds(g, a, t) && Above(g, active, Height(t))
    ensures Above(g, active + [a], Height(t) - 1)
  {
  }

  lemma {:induction false} FittingKidsAreAccepted(g: Graph, a: nat, t: Tree, i: nat, depth: nat, path: seq<Step>,
      active: seq<nat>)
    requires Closed(g) && Unfolds(g, a, t) && AllOk(t) && Container(g[a]) && i <= |Kids(g[a])|
    requires depth < MAX_DEPTH || (depth == MAX_DEPTH && Kids(g[a]) == [])
    requires depth + Height(t) <= MAX_DEPTH + 1
    requires Above(g, active, Height(t) - 1)
    ensures WalkedFrom(g, a, i, depth, path, active) == Accepted
    decreases t, 0, |t.kids| - i
  {
    if i < |Kids(g[a])| {
      AboveKids(g, active, t, i);
      FittingIsAccepted(g, Kids(g[a])[i], t.kids[i], depth + 1, path + [StepTo(g[a], i)], active);
      FittingKidsAreAccepted(g, a, t, i + 1, depth, path, active);
    }
  }

  /** On any graph, the walk accepts a value exactly when its unfolding is finite, at most 64 levels high
      and holds only serializable values, however much of it is shared. */
  lemma AcceptsExactly(g: Graph, a: nat)
    requires Closed(g) && a in g
    ensures Walked(g, a, 1, [], []) == Accepted <==> Fits(g, a, MAX_DEPTH)
  {
    if Walked(g, a, 1, [], []) == Accepted {
      var t := AcceptedFits(g, a, 1, [], []);
    }
    if Fits(g, a, MAX_DEPTH) {
      var t :| Unfolds(g, a, t) && AllOk(t) && Height(t) <= MAX_DEPTH;
      FittingIsAccepted(g, a, t, 1, [], []);
    }
  }

  // --- Where a refusal is ------------------------------------------------------------------------

  /** The levels left below a value at `depth`. */
  function LevelsBelow(depth: nat): nat { if depth > MAX_DEPTH then 0 else MAX_DEPTH - depth }

  /** Every value that comes before child `i` fits the levels left for it. */
  ghost predicate FitBefore(g: Graph, a: nat, i: nat, levels: nat)
    requires a in g && i <= |Kids(g[a])|
  {
    forall j :: 0 <= j < i ==> Fits(g, Kids(g[a])[j], levels)
  }

  /** The value at `b` is inside the value at `a`, under the name `name`; an option names nothing. Everything before it
      fits. */
  ghost predicate Edge(g: Graph, a: nat, b: nat, name: seq<Step>, levels: nat) {
    a in g && exists i :: 0 <= i < |Kids(g[a])| && Kids(g[a])[i] == b && FitBefore(g, a, i, levels) &&
                name == if Container(g[a]) then [StepTo(g[a], i)] else []
  }

  /** A way into a value, one level of nesting at a time, past values that fit, with the path that names it. */
  ghost predicate Trail(g: Graph, trail: seq<nat>, path: seq<Step>)
    decreases |trail|
  {
    && |trail| > 0
    && (if |trail| == 1 then path == []
        else
          var n := |trail|;
          exists before, name ::
            && path == before + name && Edge(g, trail[n - 2], trail[n - 1], name, LevelsBelow(n - 1))
            && Trail(g, trail[..n - 1], before))
  }

  /** The refusal is what it says it is, at the end of a trail that its path names. The depth is looked at first, then
      whether a container is inside itself, then whether its children would be too deep. */
  ghost predicate Justified(g: Graph, trail: seq<nat>, why: Why) {
    0 < |trail| <= MAX_DEPTH + 1 &&
    var (n, a) := (|trail|, trail[|trail| - 1]);
    a in g &&
    match why
    case Cannot(what) => n <= MAX_DEPTH && g[a] == Unserializable(what)
    case Cycle => n <= MAX_DEPTH && Container(g[a]) && a in trail[..n - 1]
    case TooDeep =>
      n == MAX_DEPTH + 1 || (n == MAX_DEPTH && Container(g[a]) && Kids(g[a]) != [] && a !in trail[..n - 1])
  }

  lemma TrailStep(g: Graph, trail: seq<nat>, path: seq<Step>, b: nat, name: seq<Step>)
    requires Trail(g, trail, path) && Edge(g, trail[|trail| - 1], b, name, LevelsBelow(|trail|))
    ensures Trail(g, trail + [b], path + name)
  {
    var longer := trail + [b];
    assert longer[..|longer| - 1] == trail;
  }

  /** A trail goes on into an option without naming a step. */
  lemma TrailInside(g: Graph, trail: seq<nat>, path: seq<Step>)
    requires Trail(g, trail, path) && |trail| > 0 && trail[|trail| - 1] in g
    requires var a := trail[|trail| - 1]; g[a].Maybe? && g[a].inner.Some?
    ensures var inner := g[trail[|trail| - 1]].inner.value;
      Trail(g, trail + [inner], path) && (trail + [inner])[..|trail|] == trail
  {
    var a := trail[|trail| - 1];
    assert Kids(g[a])[0] == g[a].inner.value;
    assert FitBefore(g, a, 0, LevelsBelow(|trail|));
    assert Edge(g, a, g[a].inner.value, [], LevelsBelow(|trail|));
    TrailStep(g, trail, path, g[a].inner.value, []);
    assert path + [] == path;
  }

  /** A trail goes on into a container under the name of the step. */
  lemma TrailInto(g: Graph, trail: seq<nat>, path: seq<Step>, i: nat)
    requires Trail(g, trail, path) && |trail| > 0 && trail[|trail| - 1] in g
    requires var a := trail[|trail| - 1];
      Container(g[a]) && i < |Kids(g[a])| && FitBefore(g, a, i, LevelsBelow(|trail|))
    ensures var a := trail[|trail| - 1]; Trail(g, trail + [Kids(g[a])[i]], path + [StepTo(g[a], i)])
  {
    hide Kids, Container, StepTo, FitBefore;
    var a := trail[|trail| - 1];
    var (kid, name) := (Kids(g[a])[i], [StepTo(g[a], i)]);
    assert Edge(g, a, kid, name, LevelsBelow(|trail|));
    TrailStep(g, trail, path, kid, name);
  }

  /** What is being descended is the containers on the trail. */
  ghost predicate Along(g: Graph, active: seq<nat>, trail: seq<nat>) {
    forall b :: b in active <==> b in trail && b in g && Container(g[b])
  }

  lemma AlongWith(g: Graph, active: seq<nat>, trail: seq<nat>)
    requires |trail| > 0 && trail[|trail| - 1] in g && Along(g, active, trail[..|trail| - 1])
    ensures var a := trail[|trail| - 1]; Along(g, if Container(g[a]) then active + [a] else active, trail)
  {
    hide Container;
    assert trail == trail[..|trail| - 1] + [trail[|trail| - 1]];
  }

  /** The trail `to` starts at `from`, its path names its end, and the refusal holds there. */
  ghost predicate Explained(g: Graph, from: nat, to: seq<nat>, r: Outcome) {
    r.Refused? && Trail(g, to, r.path) && to[0] == from && Justified(g, to, r.why)
  }

  lemma {:induction false} RefusedAt(g: Graph, a: nat, path: seq<Step>, active: seq<nat>, trail: seq<nat>)
    returns (to: seq<nat>)
    requires Closed(g) && a in g && Trail(g, trail, path) && trail[|trail| - 1] == a
    requires |trail| <= MAX_DEPTH + 1
    requires Along(g, active, trail[..|trail| - 1])
    requires Walked(g, a, |trail|, path, active).Refused?
    ensures |trail| > 0 && Explained(g, trail[0], to, Walked(g, a, |trail|, path, active))
    decreases Left(|trail|), 2, 0
  {
    assert |trail| > 0;
    hide Trail, Walked, WalkedFrom, Explained, Along, Closed, Kids, Container, Edge, StepTo;
    WalkedOnce(g, a, |trail|, path, active);
    AlongWith(g, active, trail);
    if |trail| <= MAX_DEPTH && g[a].Maybe? && g[a].inner.Some? {
      to := RefusedInside(g, a, path, active, trail);
    } else if Descends(g, a, |trail|, active) {
      NoneBefore(g, a, |trail|, active);
      to := RefusedFrom(g, a, 0, path, active + [a], trail);
    } else {
      RefusedHere(g, a, path, active, trail);
      to := trail;
    }
  }

  lemma NoneBefore(g: Graph, a: nat, depth: nat, active: seq<nat>)
    requires a in g && Descends(g, a, depth, active)
    ensures Container(g[a]) && FitBefore(g, a, 0, LevelsBelow(depth))
  {
  }

  /** A refusal inside an option is reached through it. */
  lemma {:induction false} RefusedInside(g: Graph, a: nat, path: seq<Step>, active: seq<nat>, trail: seq<nat>)
    returns (to: seq<nat>)
    requires Closed(g) && a in g && Trail(g, trail, path) && |trail| > 0 && trail[|trail| - 1] == a
    requires |trail| <= MAX_DEPTH && Along(g, active, trail)
    requires g[a].Maybe? && g[a].inner.Some? && Walked(g, a, |trail|, path, active).Refused?
    ensures Explained(g, trail[0], to, Walked(g, a, |trail|, path, active))
    decreases Left(|trail|), 1, 0
  {
    hide Trail, Walked, WalkedFrom, Explained, Along, Closed, Kids, Container, Edge, StepTo;
    var inner := g[a].inner.value;
    var longer := trail + [inner];
    WalkedOnce(g, a, |trail|, path, active);
    TrailInside(g, trail, path);
    assert longer[0] == trail[0] && longer[..|longer| - 1] == trail;
    to := RefusedAt(g, inner, path, active, longer);
  }

  /** A refusal that needs no step further is about the value itself. */
  lemma RefusedHere(g: Graph, a: nat, path: seq<Step>, active: seq<nat>, trail: seq<nat>)
    requires Closed(g) && a in g && |trail| > 0 && trail[|trail| - 1] == a && |trail| <= MAX_DEPTH + 1
    requires Along(g, active, trail[..|trail| - 1])
    requires Walked(g, a, |trail|, path, active).Refused? && !Descends(g, a, |trail|, active)
    requires !(|trail| <= MAX_DEPTH && g[a].Maybe? && g[a].inner.Some?)
    requires Trail(g, trail, path)
    ensures Explained(g, trail[0], trail, Walked(g, a, |trail|, path, active))
  {
    hide WalkedFrom, Trail;
  }

  lemma FromOnce(g: Graph, a: nat, i: nat, depth: nat, path: seq<Step>, active: seq<nat>)
    requires Closed(g) && a in g && Container(g[a]) && i <= |Kids(g[a])|
    requires depth < MAX_DEPTH || (depth == MAX_DEPTH && Kids(g[a]) == [])
    requires WalkedFrom(g, a, i, depth, path, active).Refused?
    ensures i < |Kids(g[a])| && Kids(g[a])[i] in g && depth < MAX_DEPTH
    ensures var first := Walked(g, Kids(g[a])[i], depth + 1, path + [StepTo(g[a], i)], active);
      WalkedFrom(g, a, i, depth, path, active) ==
        if first.Refused? then first else WalkedFrom(g, a, i + 1, depth, path, active)
  {
    hide Walked, StepTo;
  }

  lemma OneMoreFits(g: Graph, a: nat, i: nat, depth: nat, path: seq<Step>, active: seq<nat>)
    requires Closed(g) && a in g && Container(g[a]) && i < |Kids(g[a])| && 1 <= depth <= MAX_DEPTH
    requires FitBefore(g, a, i, LevelsBelow(depth))
    requires Walked(g, Kids(g[a])[i], depth + 1, path + [StepTo(g[a], i)], active) == Accepted
    ensures FitBefore(g, a, i + 1, LevelsBelow(depth))
  {
    hide Walked, Kids, Container, StepTo, Unfolds, AllOk, Height;
    var t := AcceptedFits(g, Kids(g[a])[i], depth + 1, path + [StepTo(g[a], i)], active);
    assert Fits(g, Kids(g[a])[i], LevelsBelow(depth));
  }

  lemma {:induction false} RefusedFrom(g: Graph, a: nat, i: nat, path: seq<Step>, active: seq<nat>, trail: seq<nat>)
    returns (to: seq<nat>)
    requires Closed(g) && a in g && Container(g[a]) && i <= |Kids(g[a])|
    requires Trail(g, trail, path) && trail[|trail| - 1] == a
    requires |trail| < MAX_DEPTH || (|trail| == MAX_DEPTH && Kids(g[a]) == [])
    requires Along(g, active, trail)
    requires |trail| > 0 && FitBefore(g, a, i, LevelsBelow(|trail|))
    requires WalkedFrom(g, a, i, |trail|, path, active).Refused?
    ensures |trail| > 0 && Explained(g, trail[0], to, WalkedFrom(g, a, i, |trail|, path, active))
    decreases Left(|trail|), 0, |Kids(g[a])| - i
  {
    assert |trail| > 0;
    hide Trail, Explained, Walked, WalkedFrom, Along, StepTo, Edge, Closed, Container, Kids, FitBefore;
    FromOnce(g, a, i, |trail|, path, active);
    if Walked(g, Kids(g[a])[i], |trail| + 1, path + [StepTo(g[a], i)], active).Refused? {
      to := RefusedChild(g, a, i, path, active, trail);
    } else {
      OneMoreFits(g, a, i, |trail|, path, active);
      to := RefusedFrom(g, a, i + 1, path, active, trail);
    }
  }

  /** A refusal inside a child is reached through it, past the children before. */
  lemma {:induction false} RefusedChild(g: Graph, a: nat, i: nat, path: seq<Step>, active: seq<nat>, trail: seq<nat>)
    returns (to: seq<nat>)
    requires Closed(g) && a in g && Container(g[a]) && i < |Kids(g[a])| && Kids(g[a])[i] in g
    requires 0 < |trail| < MAX_DEPTH && Trail(g, trail, path) && trail[|trail| - 1] == a
    requires Along(g, active, trail) && FitBefore(g, a, i, LevelsBelow(|trail|))
    requires Walked(g, Kids(g[a])[i], |trail| + 1, path + [StepTo(g[a], i)], active).Refused?
    ensures Explained(g, trail[0], to, Walked(g, Kids(g[a])[i], |trail| + 1, path + [StepTo(g[a], i)], active))
    decreases Left(|trail| + 1), 3, 0
  {
    hide Trail, Explained, Walked, WalkedFrom, Along, StepTo, Edge, Closed, Container, Kids, FitBefore, LevelsBelow;
    var longer := trail + [Kids(g[a])[i]];
    TrailInto(g, trail, path, i);
    assert longer[0] == trail[0] && longer[..|longer| - 1] == trail;
    to := RefusedAt(g, Kids(g[a])[i], path + [StepTo(g[a], i)], active, longer);
  }

  /** A refusal's path leads from the root, past values that all fit, to the first value that does not: an
      unserializable value, a value nested too deep, or a container that really contains itself, so that shared data
      is never called a cycle. */
  lemma RefusalIsJustified(g: Graph, a: nat)
    requires Closed(g) && a in g && Walked(g, a, 1, [], []).Refused?
    ensures exists trail ::
              && Trail(g, trail, Walked(g, a, 1, [], []).path) && trail[0] == a
              && Justified(g, trail, Walked(g, a, 1, [], []).why)
  {
    var trail := RefusedAt(g, a, [], [], [a]);
  }
}
