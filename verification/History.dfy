/**
 The history policy (`ci/commit_subjects.py`, `segment`): commits and trees as data, every rule of the loop, and the
 numbering law that acceptance implies.
 */
module History {
  import opened Wrappers

  // --- Commits and trees ----------------------------------------------------------------------------

  /** A path of a tree, as far as the policy reads it. `Doc` is a record's decision or implementation document. */
  datatype Path =
    | Doc(rune: bool, decision: bool, number: nat, slug: string)
    | PlansOther(rune: bool, name: string)
    | RuneOther(name: string)
    | Elsewhere(name: string)

  predicate InPlans(p: Path) { p.Doc? || p.PlansOther? }

  predicate InRune(p: Path) { p.RuneOther? || (InPlans(p) && p.rune) }

  /** The opening status of a decision document. */
  datatype Status = Missing | Withdrawn | OtherWithdrawn | Standing

  datatype Content = Content(text: string, status: Status, reference: bool)

  type Tree = map<Path, Content>

  datatype Kind = Plan | Impl

  /** `sound` stands for the metadata rules, `proven` for the pinned second parent and subtree of an import. */
  datatype Commit = Commit(id: nat, parents: seq<nat>, kind: Kind, number: nat, tree: Tree, sound: bool, proven: bool)

  datatype Policy = Policy(sequenceBase: nat, importCommit: nat, followerPlan: nat, followerImpl: nat, engine: bool,
                           occupied: set<nat>)

  function Changed(before: Tree, after: Tree): set<Path> {
    (set p | p in before && (p !in after || after[p] != before[p]) :: p) + (set p | p in after && p !in before :: p)
  }

  /** The only document of a record in a tree, outside the imported prefix. */
  function TheDocument(tree: Tree, decision: bool, number: nat): Option<Path> {
    var found := set p | p in tree && p.Doc? && !p.rune && p.decision == decision && p.number == number;
    if exists p :: p in found && forall q :: q in found ==> q == p then
      var p :| p in found && forall q :: q in found ==> q == p;
      Some(p)
    else None
  }

  function Decisions(tree: Tree): set<nat> { set p | p in tree && p.Doc? && p.decision :: p.number }

  /** `m` is the largest. */
  predicate Tops(m: nat, s: set<nat>) { m in s && forall x :: x in s ==> x <= m }

  lemma TopsWith(m: nat, rest: set<nat>, y: nat)
    requires Tops(m, rest)
    ensures Tops(if y <= m then m else y, rest + {y})
  {
  }

  lemma {:induction false} MaxExists(s: set<nat>)
    requires s != {}
    ensures exists m :: Tops(m, s)
    decreases |s|
  {
    var y :| y in s;
    var rest := s - {y};
    assert s == rest + {y};
    if rest == {} {
      assert Tops(y, s);
    } else {
      MaxExists(rest);
      hide Tops;
      var m :| Tops(m, rest);
      TopsWith(m, rest, y);
    }
  }

  function Max(s: set<nat>): (m: nat)
    requires s != {}
    ensures m in s && forall x :: x in s ==> x <= m
  {
    MaxExists(s);
    var m :| Tops(m, s);
    m
  }

  /** The number the next record must take. */
  function Expected(tree: Tree): nat {
    if Decisions(tree) == {} then 206 else Max(Decisions(tree)) + 1
  }

  // --- One commit --------------------------------------------------------------------------------------

  /** What the loop remembers. `decision` is the decision document last found, which a follower does not replace. */
  datatype State = State(previous: nat, tree: Tree, sequenced: bool, pending: Option<nat>, plans: map<nat, nat>,
                         implementations: map<nat, nat>, imported: bool, decision: Option<Path>)

  predicate IsImport(policy: Policy, c: Commit) { !policy.engine && c.id == policy.importCommit }

  predicate IsFollower(policy: Policy, c: Commit) {
    !policy.engine && (c.id == policy.followerPlan || c.id == policy.followerImpl)
  }

  predicate ImportProof(before: Tree, c: Commit) {
    && |c.parents| == 2 && c.proven
    && Changed(before, c.tree) != {} && (forall p :: p in Changed(before, c.tree) ==> InRune(p))
    && (forall p :: p in before ==> !InRune(p))
  }

  /** The alternation of plans and implementations, and the next number. */
  predicate InSequence(pending: Option<nat>, before: Tree, c: Commit) {
    if pending.None? then c.kind == Plan && c.number == Expected(before)
    else c.kind == Impl && c.number == pending.value
  }

  /** The documents a commit may change, if it has the ones it needs. */
  function Allowed(policy: Policy, c: Commit): Option<set<Path>> {
    var (adr, impl) := (TheDocument(c.tree, true, c.number), TheDocument(c.tree, false, c.number));
    if impl.None? then None
    else if IsFollower(policy, c) then
      if && c.number == 206 && c.id == (if c.kind == Plan then policy.followerPlan else policy.followerImpl)
         && impl.value in c.tree && c.tree[impl.value].reference
      then Some({impl.value}) else None
    else if adr.Some? && adr.value in c.tree && c.tree[adr.value].status != Missing then Some({adr.value, impl.value})
    else None
  }

  /** Withdrawing is left to an implementation that changes only its own documents. */
  predicate MayWithdraw(decision: Option<Path>, c: Commit, changed: set<Path>, allowed: set<Path>) {
    && decision.Some? && decision.value in c.tree && c.tree[decision.value].status != Missing
    && var status := c.tree[decision.value].status;
       (status == Withdrawn || status == OtherWithdrawn) ==>
         status == Withdrawn && c.kind == Impl && changed != {} && changed <= allowed
  }

  predicate MayPlan(policy: Policy, plans: map<nat, nat>, c: Commit, changed: set<Path>, allowed: set<Path>) {
    && c.number !in plans && (c.number !in policy.occupied || IsFollower(policy, c)) && changed == allowed
  }

  function Count(implementations: map<nat, nat>, number: nat): nat {
    if number in implementations then implementations[number] else 0
  }

  predicate MayImplement(policy: Policy, plans: map<nat, nat>, implementations: map<nat, nat>, c: Commit,
      changed: set<Path>, allowed: set<Path>)
  {
    && c.number in plans && Count(implementations, c.number) + 1 <= 1
    && (!IsImport(policy, c) ==> forall p :: p in changed && InPlans(p) ==> p in allowed)
  }

  predicate SharesNumber(p: Path, q: Path) {
    p.Doc? && q.Doc? && p.decision && q.decision && p.number == q.number && p.number >= 206
  }

  /** No two decision documents share a number from 206 on. */
  predicate UniqueDecisions(tree: Tree) {
    forall p, q :: p in tree && q in tree && SharesNumber(p, q) ==> p == q
  }

  function DecisionOf(policy: Policy, s: State, c: Commit): Option<Path> {
    if IsFollower(policy, c) then s.decision else TheDocument(c.tree, true, c.number)
  }

  /** Sound metadata, on the first-parent chain, and alone unless it is the proven import. */
  predicate Chained(policy: Policy, previous: nat, before: Tree, c: Commit) {
    && c.sound && c.number >= 206 && c.parents != [] && c.parents[0] == previous
    && (if IsImport(policy, c) then ImportProof(before, c) else |c.parents| == 1)
  }

  predicate Recordable(policy: Policy, plans: map<nat, nat>, implementations: map<nat, nat>, c: Commit,
      changed: set<Path>, allowed: set<Path>)
  {
    if c.kind == Plan then MayPlan(policy, plans, c, changed, allowed)
    else MayImplement(policy, plans, implementations, c, changed, allowed)
  }

  predicate Acceptable(policy: Policy, s: State, c: Commit) {
    var (changed, allowed) := (Changed(s.tree, c.tree), Allowed(policy, c));
    && Chained(policy, s.previous, s.tree, c)
    && (s.sequenced ==> InSequence(s.pending, s.tree, c))
    && allowed.Some?
    && (s.sequenced ==> MayWithdraw(DecisionOf(policy, s, c), c, changed, allowed.value))
    && Recordable(policy, s.plans, s.implementations, c, changed, allowed.value)
    && (s.imported || IsImport(policy, c) ==> UniqueDecisions(c.tree))
  }

  function NextPending(sequenced: bool, pending: Option<nat>, c: Commit): Option<nat> {
    if !sequenced then pending else if pending.None? then Some(c.number) else None
  }

  function NextPlans(plans: map<nat, nat>, c: Commit): map<nat, nat> {
    if c.kind == Plan then plans[c.number := c.id] else plans
  }

  function NextImplementations(implementations: map<nat, nat>, c: Commit): map<nat, nat> {
    if c.kind == Impl then implementations[c.number := Count(implementations, c.number) + 1] else implementations
  }

  function Next(policy: Policy, s: State, c: Commit): State {
    State(c.id, c.tree, s.sequenced || (!policy.engine && c.id == policy.sequenceBase),
          NextPending(s.sequenced, s.pending, c), NextPlans(s.plans, c), NextImplementations(s.implementations, c),
          s.imported || IsImport(policy, c), DecisionOf(policy, s, c))
  }

  /** The state after a history, if every commit is accepted. */
  function Follow(policy: Policy, s: State, commits: seq<Commit>): Option<State>
    decreases |commits|
  {
    if commits == [] then Some(s)
    else if !Acceptable(policy, s, commits[0]) then None
    else Follow(policy, Next(policy, s, commits[0]), commits[1..])
  }

  function Initial(policy: Policy, base: nat, tree: Tree): State {
    State(base, tree, !policy.engine && base == policy.sequenceBase, None, map[], map[], false, None)
  }

  // --- The numbering law ----------------------------------------------------------------------------------

  /** Plan n, implementation n, plan n + 1, and so on, with at most a plan left over. */
  predicate Alternates(commits: seq<Commit>, n: nat)
    decreases |commits|
  {
    commits == [] || (
      && commits[0].kind == Plan && commits[0].number == n
      && (|commits| == 1 || (commits[1].kind == Impl && commits[1].number == n && Alternates(commits[2..], n + 1))))
  }

  predicate NoImports(policy: Policy, commits: seq<Commit>) {
    forall i :: 0 <= i < |commits| ==> !IsImport(policy, commits[i])
  }

  /** The documents of other records, and all imported ones, are as they were. */
  predicate KeepsOthers(before: Tree, after: Tree, number: nat) {
    forall p :: p in before && p.Doc? && (p.rune || p.number != number) ==> p in after && after[p] == before[p]
  }

  /** No decision appears outside the commit's own record. */
  predicate AddsNone(before: Tree, after: Tree, number: nat) {
    forall p :: p in after && p.Doc? && p.decision && p !in before ==> p.number == number
  }

  lemma AllowedAreOwn(policy: Policy, c: Commit)
    requires Allowed(policy, c).Some?
    ensures forall p :: p in Allowed(policy, c).value ==> p.Doc? && !p.rune && p.number == c.number
  {
  }

  lemma OutsideChanged(before: Tree, after: Tree, p: Path)
    requires p !in Changed(before, after)
    ensures p in before <==> p in after
    ensures p in before ==> after[p] == before[p]
  {
  }

  /** No accepted commit removes or alters the documents of another record, an import included. */
  lemma OthersAreKept(policy: Policy, s: State, c: Commit)
    requires Acceptable(policy, s, c)
    ensures KeepsOthers(s.tree, c.tree, c.number)
    ensures !IsImport(policy, c) ==> AddsNone(s.tree, c.tree, c.number)
  {
    hide Changed, Allowed, MayWithdraw, InSequence, UniqueDecisions, TheDocument;
    AllowedAreOwn(policy, c);
    forall p | p in s.tree && p.Doc? && (p.rune || p.number != c.number) ensures p in c.tree && c.tree[p] == s.tree[p] {
      assert p !in Changed(s.tree, c.tree);
      OutsideChanged(s.tree, c.tree, p);
    }
    if !IsImport(policy, c) {
      forall p | p in c.tree && p.Doc? && p.decision && p !in s.tree ensures p.number == c.number {
        if p !in Changed(s.tree, c.tree) { OutsideChanged(s.tree, c.tree, p); }
      }
    }
  }

  lemma KeptTwice(a: Tree, b: Tree, c: Tree, n: nat)
    requires KeepsOthers(a, b, n) && AddsNone(a, b, n) && KeepsOthers(b, c, n) && AddsNone(b, c, n)
    ensures KeepsOthers(a, c, n) && AddsNone(a, c, n)
  {
  }

  /** Commits of record n, made where n is next, leave n or n + 1 as the next number. */
  lemma ExpectedStays(before: Tree, after: Tree, n: nat)
    requires KeepsOthers(before, after, n) && AddsNone(before, after, n) && Expected(before) == n
    ensures Expected(after) == n || Expected(after) == n + 1
  {
    forall x | x in Decisions(after) ensures x <= n {
      var p :| p in after && p.Doc? && p.decision && p.number == x;
      if p in before { assert x in Decisions(before); }
    }
    if Decisions(before) != {} {
      var p :| p in before && p.Doc? && p.decision && p.number == Max(Decisions(before));
      assert p in after && p.number in Decisions(after);
    }
  }

  lemma {:induction false} FollowStep(policy: Policy, s: State, commits: seq<Commit>)
    requires commits != [] && Follow(policy, s, commits).Some?
    ensures Acceptable(policy, s, commits[0])
    ensures Follow(policy, Next(policy, s, commits[0]), commits[1..]) == Follow(policy, s, commits)
  {
  }

  lemma FirstInSequence(policy: Policy, s: State, c: Commit)
    requires s.sequenced && Acceptable(policy, s, c)
    ensures InSequence(s.pending, s.tree, c) && Next(policy, s, c).sequenced && c.number >= 206
    ensures s.pending.None? ==> c.number !in s.plans && Next(policy, s, c).pending == Some(c.number)
    ensures s.pending.Some? ==> Next(policy, s, c).pending == None && c.number in s.plans
    ensures c.kind == Plan ==> c.number in Next(policy, s, c).plans
    ensures s.plans.Keys <= Next(policy, s, c).plans.Keys
  {
    hide Changed, Allowed, MayWithdraw, UniqueDecisions, Expected;
  }

  /** An import that is followed by another commit brings no decision numbered above its own record. */
  predicate ImportsFit(policy: Policy, commits: seq<Commit>) {
    forall i :: 0 <= i < |commits| - 1 && IsImport(policy, commits[i]) ==>
      forall x :: x in Decisions(commits[i].tree) ==> x <= commits[i].number
  }

  /** An import can only be an implementation: a plan changes its own documents, an import none of them. */
  lemma ImportIsImplementation(policy: Policy, s: State, c: Commit)
    requires Acceptable(policy, s, c) && IsImport(policy, c)
    ensures c.kind == Impl
  {
    hide Changed, Allowed, MayWithdraw, UniqueDecisions, InSequence;
    AllowedAreOwn(policy, c);
    assert exists p :: p in Changed(s.tree, c.tree) && InRune(p);
  }

  /** Where every import fits or there is none, a pair of commits leaves n + 1 as the only number that can follow. */
  lemma NextAfterPair(before: Tree, after: Tree, n: nat)
    requires KeepsOthers(before, after, n) && Expected(before) == n && Expected(after) >= 206
    ensures Expected(after) >= n
    ensures (forall x :: x in Decisions(after) ==> x <= n) <==> Expected(after) <= n + 1
  {
    if Decisions(before) != {} {
      var p :| p in before && p.Doc? && p.decision && p.number == Max(Decisions(before));
      assert p in after && p.number in Decisions(after);
    }
  }

  lemma FitsByPairs(policy: Policy, commits: seq<Commit>)
    requires |commits| >= 2 && !IsImport(policy, commits[0])
    ensures ImportsFit(policy, commits) <==>
      && (IsImport(policy, commits[1]) && |commits| > 2 ==>
            forall x :: x in Decisions(commits[1].tree) ==> x <= commits[1].number)
      && ImportsFit(policy, commits[2..])
  {
    hide Decisions;
    var rest := commits[2..];
    if ImportsFit(policy, commits) {
      forall i | 0 <= i < |rest| - 1 && IsImport(policy, rest[i])
        ensures forall x :: x in Decisions(rest[i].tree) ==> x <= rest[i].number
      {
        assert rest[i] == commits[i + 2];
      }
    }
    if ImportsFit(policy, rest) {
      forall i | 2 <= i < |commits| - 1 && IsImport(policy, commits[i])
        ensures forall x :: x in Decisions(commits[i].tree) ==> x <= commits[i].number
      {
        assert rest[i - 2] == commits[i];
      }
    }
  }

  /** Whatever is accepted after the cutoff is plan n, implementation n, plan n + 1 and so on from the next free
      number, with at most a plan left over, exactly when every import there fits. */
  lemma {:induction false} AcceptedAlternates(policy: Policy, s: State, commits: seq<Commit>)
    requires s.sequenced && s.pending.None? && Follow(policy, s, commits).Some?
    ensures Alternates(commits, Expected(s.tree)) <==> ImportsFit(policy, commits)
    ensures NoImports(policy, commits) ==> Alternates(commits, Expected(s.tree))
    decreases |commits|
  {
    hide Acceptable, Expected, KeepsOthers, AddsNone, Next, ImportsFit, Decisions;
    Few(policy, commits);
    if commits != [] {
      FollowStep(policy, s, commits);
      FirstInSequence(policy, s, commits[0]);
      if IsImport(policy, commits[0]) { ImportIsImplementation(policy, s, commits[0]); }
      if |commits| > 1 {
        var (t, rest) := (Next(policy, s, commits[0]), commits[2..]);
        PairAlternates(policy, s, commits);
        AcceptedAlternates(policy, Next(policy, t, commits[1]), rest);
        FitsByPairs(policy, commits);
      }
    }
  }

  lemma Few(policy: Policy, commits: seq<Commit>)
    ensures |commits| <= 1 || NoImports(policy, commits) ==> ImportsFit(policy, commits)
  {
  }

  /** The first two commits are a plan and its implementation, and a third takes the number after theirs exactly
      when an import that comes second fits. */
  lemma PairAlternates(policy: Policy, s: State, commits: seq<Commit>)
    requires s.sequenced && s.pending.None? && Follow(policy, s, commits).Some? && |commits| > 1
    requires !IsImport(policy, commits[0])
    ensures var (plan, impl, n) := (commits[0], commits[1], Expected(s.tree));
      && plan.kind == Plan && impl.kind == Impl && plan.number == impl.number == n
      && (|commits| > 2 ==>
            (Expected(impl.tree) == n + 1 <==>
              (IsImport(policy, impl) ==> forall x :: x in Decisions(impl.tree) ==> x <= n)))
    ensures var u := Next(policy, Next(policy, s, commits[0]), commits[1]);
      && u.sequenced && u.pending.None? && u.tree == commits[1].tree
      && Follow(policy, u, commits[2..]).Some?
      && (|commits| > 2 ==> commits[2].number == Expected(u.tree) && commits[2].kind == Plan)
  {
    hide Acceptable, Expected, KeepsOthers, AddsNone, Next, Decisions;
    var (plan, impl, rest, n) := (commits[0], commits[1], commits[2..], Expected(s.tree));
    FollowStep(policy, s, commits);
    FirstInSequence(policy, s, plan);
    var t := Next(policy, s, plan);
    assert commits[1..][0] == impl && commits[1..][1..] == rest;
    FollowStep(policy, t, commits[1..]);
    FirstInSequence(policy, t, impl);
    TreeIs(policy, s, plan);
    TreeIs(policy, t, impl);
    OthersAreKept(policy, s, plan);
    OthersAreKept(policy, t, impl);
    OthersTwice(s.tree, plan.tree, impl.tree, n);
    if !IsImport(policy, impl) {
      KeptTwice(s.tree, plan.tree, impl.tree, n);
      ExpectedStays(s.tree, impl.tree, n);
    }
    if rest != [] {
      var u := Next(policy, t, impl);
      FollowStep(policy, u, rest);
      FirstInSequence(policy, u, rest[0]);
      NextAfterPair(s.tree, impl.tree, n);
    }
  }

  lemma OthersTwice(a: Tree, b: Tree, c: Tree, n: nat)
    requires KeepsOthers(a, b, n) && KeepsOthers(b, c, n)
    ensures KeepsOthers(a, c, n)
  {
  }

  lemma TreeIs(policy: Policy, s: State, c: Commit)
    ensures Next(policy, s, c).tree == c.tree
  {
  }

  // --- Plans and implementations ---------------------------------------------------------------------------

  /** The numbers of the commits of one kind. */
  function Numbers(commits: seq<Commit>, kind: Kind): set<nat> {
    set i | 0 <= i < |commits| && commits[i].kind == kind :: commits[i].number
  }

  /** No number is used twice by commits of one kind. */
  predicate Once(commits: seq<Commit>, kind: Kind) {
    forall i, j :: 0 <= i < j < |commits| && commits[i].kind == kind && commits[j].kind == kind ==>
      commits[i].number != commits[j].number
  }

  /** Every implementation follows a plan of its number. */
  predicate Planned(commits: seq<Commit>) {
    forall i :: 0 <= i < |commits| && commits[i].kind == Impl ==> commits[i].number in Numbers(commits[..i], Plan)
  }

  predicate Remembers(s: State, done: seq<Commit>) {
    && s.plans.Keys == Numbers(done, Plan) && Once(done, Plan)
    && s.implementations.Keys == Numbers(done, Impl) && Once(done, Impl)
    && (forall n :: n in s.implementations ==> s.implementations[n] == 1)
    && Planned(done)
  }

  lemma NumbersMore(done: seq<Commit>, c: Commit, kind: Kind)
    ensures Numbers(done + [c], kind) == Numbers(done, kind) + if c.kind == kind then {c.number} else {}
  {
    var more := done + [c];
    forall n | n in Numbers(done, kind) ensures n in Numbers(more, kind) {
      var i :| 0 <= i < |done| && done[i].kind == kind && done[i].number == n;
      assert more[i] == done[i];
    }
    if c.kind == kind { assert more[|done|] == c; }
  }

  lemma OnceMore(done: seq<Commit>, c: Commit, kind: Kind)
    requires Once(done, kind) && (c.kind == kind ==> c.number !in Numbers(done, kind))
    ensures Once(done + [c], kind)
  {
  }

  lemma PlannedMore(done: seq<Commit>, c: Commit)
    requires Planned(done) && (c.kind == Impl ==> c.number in Numbers(done, Plan))
    ensures Planned(done + [c])
  {
    var more := done + [c];
    forall i | 0 <= i < |more| && more[i].kind == Impl ensures more[i].number in Numbers(more[..i], Plan) {
      assert more[..i] == done[..i];
      if i == |done| { assert done[..i] == done; }
    }
  }

  lemma RemembersNext(policy: Policy, s: State, done: seq<Commit>, c: Commit)
    requires Remembers(s, done) && Acceptable(policy, s, c)
    ensures Remembers(Next(policy, s, c), done + [c])
  {
    hide Changed, Allowed, MayWithdraw, UniqueDecisions, InSequence, ImportProof, Numbers, Once, Planned;
    NumbersMore(done, c, Plan);
    NumbersMore(done, c, Impl);
    OnceMore(done, c, Plan);
    OnceMore(done, c, Impl);
    PlannedMore(done, c);
  }

  lemma {:induction false} RemembersAll(policy: Policy, s: State, done: seq<Commit>, commits: seq<Commit>)
    requires Remembers(s, done) && Follow(policy, s, commits).Some?
    ensures Remembers(Follow(policy, s, commits).value, done + commits)
    decreases |commits|
  {
    hide Acceptable, Next, Remembers;
    if commits == [] {
      assert done + commits == done;
    } else {
      FollowStep(policy, s, commits);
      RemembersNext(policy, s, done, commits[0]);
      RemembersAll(policy, Next(policy, s, commits[0]), done + [commits[0]], commits[1..]);
      assert done + [commits[0]] + commits[1..] == done + commits;
    }
  }

  /** In any accepted segment every implementation has exactly one plan, before it, and no record is planned or
      implemented twice. */
  lemma OnePlanEach(policy: Policy, base: nat, tree: Tree, commits: seq<Commit>)
    requires Follow(policy, Initial(policy, base, tree), commits).Some?
    ensures Once(commits, Plan) && Once(commits, Impl) && Planned(commits)
  {
    hide Follow, Initial, Numbers, Once, Planned;
    assert [] + commits == commits;
    RemembersNone(policy, base, tree);
    RemembersAll(policy, Initial(policy, base, tree), [], commits);
  }

  lemma RemembersNone(policy: Policy, base: nat, tree: Tree)
    ensures Remembers(Initial(policy, base, tree), [])
  {
  }

  /** A document stays as it is until a commit of its own record, and an imported one for ever. */
  lemma {:induction false} DocumentsAreKept(policy: Policy, s: State, commits: seq<Commit>, p: Path)
    requires p in s.tree && p.Doc? && Follow(policy, s, commits).Some?
    requires p.rune || forall i :: 0 <= i < |commits| ==> commits[i].number != p.number
    ensures var tree := Follow(policy, s, commits).value.tree; p in tree && tree[p] == s.tree[p]
    decreases |commits|
  {
    hide Acceptable, Next;
    if commits != [] {
      FollowStep(policy, s, commits);
      OthersAreKept(policy, s, commits[0]);
      TreeIs(policy, s, commits[0]);
      DocumentsAreKept(policy, Next(policy, s, commits[0]), commits[1..], p);
    }
  }

  /** The law from the start of a segment: what follows the cutoff commit alternates from the next free number. */
  lemma {:induction false} AfterTheCutoff(policy: Policy, s: State, commits: seq<Commit>, k: nat)
    requires !policy.engine && s.pending.None? && !s.sequenced && Follow(policy, s, commits).Some?
    requires k < |commits| && commits[k].id == policy.sequenceBase
    requires forall i :: 0 <= i < k ==> commits[i].id != policy.sequenceBase
    ensures Alternates(commits[k + 1..], Expected(commits[k].tree)) <==> ImportsFit(policy, commits[k + 1..])
    ensures NoImports(policy, commits[k + 1..]) ==> Alternates(commits[k + 1..], Expected(commits[k].tree))
    decreases k
  {
    hide Acceptable, Expected, Alternates, ImportsFit, NoImports;
    FollowStep(policy, s, commits);
    var t := Next(policy, s, commits[0]);
    if k == 0 {
      TreeIs(policy, s, commits[0]);
      AcceptedAlternates(policy, t, commits[1..]);
    } else {
      assert commits[1..][k - 1] == commits[k] && commits[1..][k..] == commits[k + 1..];
      AfterTheCutoff(policy, t, commits[1..], k - 1);
    }
  }

  // --- An import after the cutoff ------------------------------------------------------------------------------

  const STANDING := Content("", Standing, false)
  const PINNED := Policy(0, 2, 100, 101, false, {})

  function Record(number: nat): Tree {
    map[Doc(false, true, number, "a") := STANDING, Doc(false, false, number, "a") := STANDING]
  }

  const IMPORTED: Tree := map[Doc(true, true, 300, "r") := STANDING]

  lemma RecordHasOne(others: Tree, number: nat, decision: bool)
    requires forall p :: p in others ==> p.Doc? && (p.rune || p.number != number)
    ensures TheDocument(others + Record(number), decision, number) == Some(Doc(false, decision, number, "a"))
  {
    var (tree, one) := (others + Record(number), Doc(false, decision, number, "a"));
    var it := set p | p in tree && p.Doc? && !p.rune && p.decision == decision && p.number == number;
    assert one in it && forall q :: q in it ==> q == one;
  }

  lemma RecordHas(others: Tree, number: nat)
    requires forall p :: p in others ==> p.Doc? && (p.rune || p.number != number)
    ensures var tree := others + Record(number);
      && TheDocument(tree, true, number) == Some(Doc(false, true, number, "a"))
      && TheDocument(tree, false, number) == Some(Doc(false, false, number, "a"))
  {
    hide TheDocument, Record;
    RecordHasOne(others, number, true);
    RecordHasOne(others, number, false);
  }

  lemma PlanIsAcceptable(s: State, c: Commit)
    requires s.sequenced && s.pending.None? && (s.imported ==> UniqueDecisions(c.tree))
    requires forall p :: p in s.tree ==> p.Doc? && (p.rune || p.number != c.number)
    requires c.tree == s.tree + Record(c.number) && c.kind == Plan && c.sound && c.parents == [s.previous]
    requires c.number == Expected(s.tree) && c.number >= 206 && c.number !in s.plans && c.id != 2 && c.id < 100
    ensures Acceptable(PINNED, s, c)
  {
    hide Expected, UniqueDecisions, TheDocument;
    RecordHas(s.tree, c.number);
    var allowed := {Doc(false, true, c.number, "a"), Doc(false, false, c.number, "a")};
    assert Allowed(PINNED, c) == Some(allowed);
    assert Changed(s.tree, c.tree) == allowed;
  }

  /** With an import after the cutoff the numbers can jump: plan 206, implementation 206, plan 301. */
  lemma ImportCanJump()
    ensures exists commits: seq<Commit> ::
      && Follow(PINNED, Initial(PINNED, 0, map[]), commits).Some?
      && Expected(map[]) == 206 && !Alternates(commits, 206)
      && |commits| == 3 && commits[0].number == commits[1].number == 206 && commits[2].number == 301
  {
    hide Acceptable, Expected, UniqueDecisions, Record, TheDocument, Alternates;
    var (one, two) := (Record(206), Record(206) + IMPORTED);
    var plan := Commit(1, [0], Plan, 206, one, true, false);
    var imports := Commit(2, [1, 9], Impl, 206, two, true, true);
    var last := Commit(3, [2], Plan, 301, two + Record(301), true, false);
    var s := Initial(PINNED, 0, map[]);
    var t := Next(PINNED, s, plan);
    var u := Next(PINNED, t, imports);
    Numbered();
    assert map[] + Record(206) == one;
    PlanIsAcceptable(s, plan);
    ImportIsAcceptable(t, imports);
    Unique();
    NoneYet();
    PlanIsAcceptable(u, last);
    FollowThree(s, plan, imports, last);
    NotInStep(plan, imports, last);
  }

  lemma NoneYet()
    ensures forall p :: p in Record(206) + IMPORTED ==> p.Doc? && (p.rune || p.number != 301)
  {
  }

  lemma FollowThree(s: State, a: Commit, b: Commit, c: Commit)
    requires Acceptable(PINNED, s, a) && Acceptable(PINNED, Next(PINNED, s, a), b)
    requires Acceptable(PINNED, Next(PINNED, Next(PINNED, s, a), b), c)
    ensures Follow(PINNED, s, [a, b, c]).Some?
  {
    hide Acceptable, Next;
    var (t, commits) := (Next(PINNED, s, a), [a, b, c]);
    assert commits[1..] == [b, c] && [b, c][1..] == [c] && [c][1..] == [];
    assert Follow(PINNED, Next(PINNED, t, b), [c]).Some? && Follow(PINNED, t, [b, c]).Some?;
  }

  lemma NotInStep(a: Commit, b: Commit, c: Commit)
    requires c.number != a.number + 1
    ensures !Alternates([a, b, c], a.number)
  {
    assert [a, b, c][2..] == [c];
  }

  lemma Numbered()
    ensures Expected(map[]) == 206 && Expected(Record(206) + IMPORTED) == 301
  {
    var tree := Record(206) + IMPORTED;
    assert Doc(true, true, 300, "r") in tree && Doc(false, true, 206, "a") in tree;
    assert 300 in Decisions(tree);
    assert forall x :: x in Decisions(tree) ==> x == 206 || x == 300;
    assert Decisions(map[]) == {};
  }

  lemma Unique()
    ensures UniqueDecisions(Record(206) + IMPORTED) && UniqueDecisions(Record(206) + IMPORTED + Record(301))
  {
  }

  lemma ImportIsAcceptable(t: State, c: Commit)
    requires t.sequenced && t.pending == Some(206) && t.tree == Record(206)
    requires 206 in t.plans && t.implementations == map[]
    requires c == Commit(2, [t.previous, 9], Impl, 206, Record(206) + IMPORTED, true, true)
    ensures Acceptable(PINNED, t, c)
  {
    hide TheDocument, Expected;
    assert Record(206) + IMPORTED == IMPORTED + Record(206);
    RecordHas(IMPORTED, 206);
    var allowed := {Doc(false, true, 206, "a"), Doc(false, false, 206, "a")};
    assert Allowed(PINNED, c) == Some(allowed);
    assert Changed(t.tree, c.tree) == {Doc(true, true, 300, "r")};
    assert UniqueDecisions(c.tree);
  }

  // --- The loop --------------------------------------------------------------------------------------------------

  /** What the loop over a segment's commits keeps up to date. */
  class Walk {
    const policy: Policy
    var previous: nat
    var previousTree: Tree
    var sequenced: bool
    var pending: Option<nat>
    var plans: map<nat, nat>
    var implementations: map<nat, nat>
    var imported: bool
    var decision: Option<Path>

    function Value(): State
      reads this
    {
      State(previous, previousTree, sequenced, pending, plans, implementations, imported, decision)
    }

    constructor (policy: Policy, base: nat, tree: Tree)
      ensures this.policy == policy && Value() == Initial(policy, base, tree)
    {
      this.policy, previous, previousTree := policy, base, tree;
      sequenced, pending := !policy.engine && base == policy.sequenceBase, None;
      plans, implementations, imported, decision := map[], map[], false, None;
    }

    /** Metadata, the first-parent chain, and the proof that goes with an import. */
    method Chain(c: Commit) returns (broken: Option<string>)
      modifies `imported
      ensures broken.None? <==> Chained(policy, previous, previousTree, c)
      ensures broken.None? ==> imported == (old(imported) || IsImport(policy, c))
    {
      hide ImportProof;
      if !c.sound || c.number < 206 { return Some("invalid metadata"); }
      if c.parents == [] || c.parents[0] != previous { return Some("cutoff not on complete first-parent chain"); }
      if !policy.engine && c.id == policy.importCommit {
        if !ImportProof(previousTree, c) { return Some("import proof failed"); }
        imported := true;
      } else if |c.parents| != 1 {
        return Some("unreviewed merge/second-parent history");
      }
      return None;
    }

    /** The alternation after the cutoff. */
    method Sequence(c: Commit) returns (broken: Option<string>)
      modifies `pending
      ensures broken.None? <==> (sequenced ==> InSequence(old(pending), previousTree, c))
      ensures broken.None? ==> pending == NextPending(sequenced, old(pending), c)
    {
      hide Expected;
      if sequenced {
        if pending.None? {
          if c.kind != Plan { return Some("expected next plan after implementation"); }
          if c.number != Expected(previousTree) { return Some("expected next record"); }
          pending := Some(c.number);
        } else {
          if c.kind != Impl || c.number != pending.value { return Some("expected immediate implementation"); }
          pending := None;
        }
      }
      return None;
    }

    /** Records a plan or an implementation. */
    method Record(c: Commit, changed: set<Path>, allowed: set<Path>) returns (broken: Option<string>)
      modifies `plans, `implementations
      ensures broken.None? <==> Recordable(policy, old(plans), old(implementations), c, changed, allowed)
      ensures broken.None? ==> plans == NextPlans(old(plans), c)
      ensures broken.None? ==> implementations == NextImplementations(old(implementations), c)
    {
      if c.kind == Plan {
        if c.number in plans { return Some("duplicate plan"); }
        if c.number in policy.occupied && !IsFollower(policy, c) {
          return Some("shared record number already occupied");
        }
        if changed != allowed { return Some("plan must change exactly its paired documents"); }
        plans := plans[c.number := c.id];
      } else {
        if c.number !in plans { return Some("implementation missing earlier first-parent plan"); }
        implementations := implementations[c.number := Count(implementations, c.number) + 1];
        if implementations[c.number] > 1 { return Some("implementation limit exceeded"); }
        if !IsImport(policy, c) && exists p :: p in changed && InPlans(p) && p !in allowed {
          return Some("implementation changes another record's documents");
        }
      }
      return None;
    }

    /** One commit: the first rule it breaks, or the new state. */
    method Commit(c: Commit) returns (broken: Option<string>)
      modifies this
      ensures broken.None? <==> Acceptable(policy, old(Value()), c)
      ensures broken.None? ==> Value() == Next(policy, old(Value()), c)
    {
      hide Changed, Allowed, TheDocument, UniqueDecisions, MayWithdraw, Chained, InSequence, Recordable;
      hide NextPending, NextPlans, NextImplementations;
      broken := Chain(c);
      if broken.Some? { return; }
      var changed := Changed(previousTree, c.tree);
      broken := Sequence(c);
      if broken.Some? { return; }
      var allowed := Allowed(policy, c);
      if allowed.None? { return Some("record must have its documents"); }
      if !IsFollower(policy, c) { decision := TheDocument(c.tree, true, c.number); }
      if sequenced && !MayWithdraw(decision, c, changed, allowed.value) { return Some("withdrawal"); }
      broken := Record(c, changed, allowed.value);
      if broken.Some? { return; }
      if imported && !UniqueDecisions(c.tree) { return Some("duplicate shared ADR documents"); }
      previous, previousTree := c.id, c.tree;
      if !policy.engine && c.id == policy.sequenceBase { sequenced := true; }
    }
  }

  /** Walks the commits of a segment in order and returns its plans, or fails at the first rule that is broken. */
  method Segment(policy: Policy, base: nat, head: nat, tree: Tree, commits: seq<Commit>)
    returns (r: Result<map<nat, nat>, string>)
    ensures var end := Follow(policy, Initial(policy, base, tree), commits);
      && (r.Ok? <==> end.Some? && end.value.previous == head)
      && (r.Ok? ==> r.value == end.value.plans)
  {
    hide Acceptable, Next;
    var walk := new Walk(policy, base, tree);
    var i := 0;
    assert commits[0..] == commits;
    while i < |commits|
      invariant 0 <= i <= |commits| && fresh(walk) && walk.policy == policy
      invariant Follow(policy, Initial(policy, base, tree), commits) == Follow(policy, walk.Value(), commits[i..])
    {
      assert commits[i..][0] == commits[i] && commits[i..][1..] == commits[i + 1..];
      var broken := walk.Commit(commits[i]);
      if broken.Some? { return Err(broken.value); }
      i := i + 1;
    }
    assert commits[i..] == [];
    if walk.previous != head { return Err("empty segment head mismatch"); }
    return Ok(walk.plans);
  }
}
