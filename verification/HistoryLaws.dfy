/**
 What the history policy (`ci/commit_subjects.py`) accepts, said of the commits alone: every rule is about a commit, its
 tree, the tree before it and the commits before it, and nothing that the loop remembers.
 */
module HistoryLaws {
  import opened Wrappers
  import opened History

  // --- A commit and what came before it ---------------------------------------------------------------------

  function IdBefore(base: nat, done: seq<Commit>): nat { if done == [] then base else done[|done| - 1].id }

  function TreeBefore(tree: Tree, done: seq<Commit>): Tree { if done == [] then tree else done[|done| - 1].tree }

  /** The commit that starts the sequence is behind. */
  predicate PastCutoff(policy: Policy, base: nat, done: seq<Commit>) {
    !policy.engine && (base == policy.sequenceBase || exists i :: 0 <= i < |done| && done[i].id == policy.sequenceBase)
  }

  /** The record whose plan, made in sequence, is the latest commit. */
  function OpenPlan(policy: Policy, base: nat, done: seq<Commit>): Option<nat> {
    if done == [] then None
    else
      var (before, last) := (done[..|done| - 1], done[|done| - 1]);
      if PastCutoff(policy, base, before) && last.kind == Plan then Some(last.number) else None
  }

  predicate Earlier(done: seq<Commit>, kind: Kind, number: nat) {
    exists i :: 0 <= i < |done| && done[i].kind == kind && done[i].number == number
  }

  /** The commit `id` planned the record. */
  predicate PlanOf(done: seq<Commit>, number: nat, id: nat) {
    exists i :: 0 <= i < |done| && done[i].kind == Plan && done[i].number == number && done[i].id == id
  }

  predicate HasImport(policy: Policy, done: seq<Commit>) {
    exists i :: 0 <= i < |done| && IsImport(policy, done[i])
  }

  predicate Differs(before: Tree, after: Tree, p: Path) {
    (p in before) != (p in after) || (p in before && p in after && before[p] != after[p])
  }

  predicate IsDoc(p: Path, decision: bool, number: nat) {
    p.Doc? && !p.rune && p.decision == decision && p.number == number
  }

  /** `p` is the record's one document of that kind. */
  predicate OnlyDoc(tree: Tree, decision: bool, number: nat, p: Path) {
    p in tree && IsDoc(p, decision, number) && forall q :: q in tree && IsDoc(q, decision, number) ==> q == p
  }

  /** The documents that are the commit's own; a follower's decision is another's. */
  predicate Own(policy: Policy, c: Commit, p: Path) {
    OnlyDoc(c.tree, false, c.number, p) || (!IsFollower(policy, c) && OnlyDoc(c.tree, true, c.number, p))
  }

  /** The decision whose status counts: the commit's own, or for a follower that of the last commit that is none. */
  ghost predicate Decides(policy: Policy, done: seq<Commit>, c: Commit, p: Path)
    decreases |done|
  {
    if !IsFollower(policy, c) then OnlyDoc(c.tree, true, c.number, p)
    else done != [] && Decides(policy, done[..|done| - 1], done[|done| - 1], p)
  }

  /** One more than every decision in the tree, and 206 in a tree without any. */
  predicate NextFree(tree: Tree, n: nat) {
    && (forall p :: p in tree && p.Doc? && p.decision ==> p.number < n)
    && (if exists p :: p in tree && p.Doc? && p.decision
        then exists p :: p in tree && p.Doc? && p.decision && p.number + 1 == n
        else n == 206)
  }

  // --- The rules ----------------------------------------------------------------------------------------------

  /** Sound metadata, the commit before as first parent, and no other parent but that of the import, which brings a tree
      under its own prefix where there was none. */
  ghost predicate ChainRule(policy: Policy, base: nat, tree: Tree, done: seq<Commit>, c: Commit) {
    var before := TreeBefore(tree, done);
    && c.sound && c.number >= 206 && c.parents != [] && c.parents[0] == IdBefore(base, done)
    && if IsImport(policy, c) then
         && |c.parents| == 2 && c.proven && (forall p :: p in before ==> !InRune(p))
         && (exists p :: Differs(before, c.tree, p)) && (forall p :: Differs(before, c.tree, p) ==> InRune(p))
       else |c.parents| == 1
  }

  /** After the cutoff a plan takes the next free number, and its implementation comes next. */
  predicate SequenceRule(policy: Policy, base: nat, tree: Tree, done: seq<Commit>, c: Commit) {
    PastCutoff(policy, base, done) ==>
      match OpenPlan(policy, base, done)
      case None => c.kind == Plan && NextFree(TreeBefore(tree, done), c.number)
      case Some(n) => c.kind == Impl && c.number == n
  }

  /** The record has its implementation document and a decision with a status; a follower has the pinned reference. */
  ghost predicate DocumentsRule(policy: Policy, c: Commit) {
    exists impl ::
      && OnlyDoc(c.tree, false, c.number, impl)
      && if IsFollower(policy, c) then
           && c.number == 206 && c.tree[impl].reference
           && c.id == if c.kind == Plan then policy.followerPlan else policy.followerImpl
         else exists adr :: OnlyDoc(c.tree, true, c.number, adr) && c.tree[adr].status != Missing
  }

  /** After the cutoff, only an implementation that changes nothing but its own documents has a withdrawn decision, and
      then just that status. */
  ghost predicate WithdrawalRule(policy: Policy, base: nat, tree: Tree, done: seq<Commit>, c: Commit) {
    PastCutoff(policy, base, done) ==>
      exists p ::
        && Decides(policy, done, c, p) && p in c.tree && c.tree[p].status != Missing
        && (c.tree[p].status != Standing ==>
              && c.tree[p].status == Withdrawn && c.kind == Impl
              && (exists q :: Differs(TreeBefore(tree, done), c.tree, q))
              && forall q :: Differs(TreeBefore(tree, done), c.tree, q) ==> Own(policy, c, q))
  }

  /** A plan is the record's first, not of an occupied number, and changes exactly its own documents. */
  ghost predicate PlanRule(policy: Policy, tree: Tree, done: seq<Commit>, c: Commit) {
    c.kind == Plan ==>
      && !Earlier(done, Plan, c.number) && (c.number !in policy.occupied || IsFollower(policy, c))
      && forall q :: Differs(TreeBefore(tree, done), c.tree, q) <==> Own(policy, c, q)
  }

  /** An implementation follows a plan, is the record's first, and changes no plans but its own. */
  ghost predicate ImplementationRule(policy: Policy, tree: Tree, done: seq<Commit>, c: Commit) {
    c.kind == Impl ==>
      && Earlier(done, Plan, c.number) && !Earlier(done, Impl, c.number)
      && (!IsImport(policy, c) ==>
            forall q :: Differs(TreeBefore(tree, done), c.tree, q) && InPlans(q) ==> Own(policy, c, q))
  }

  /** From the import on no two decisions share a number from 206 on. */
  predicate UniqueRule(policy: Policy, done: seq<Commit>, c: Commit) {
    HasImport(policy, done) || IsImport(policy, c) ==>
      forall p, q :: p in c.tree && q in c.tree && SharesNumber(p, q) ==> p == q
  }

  ghost predicate Lawful(policy: Policy, base: nat, tree: Tree, done: seq<Commit>, c: Commit) {
    && ChainRule(policy, base, tree, done, c) && SequenceRule(policy, base, tree, done, c)
    && DocumentsRule(policy, c) && WithdrawalRule(policy, base, tree, done, c)
    && PlanRule(policy, tree, done, c) && ImplementationRule(policy, tree, done, c) && UniqueRule(policy, done, c)
  }

  // --- What the loop remembers ----------------------------------------------------------------------------------

  /** The loop remembers what the commits before say. */
  ghost predicate Reflects(policy: Policy, base: nat, tree: Tree, done: seq<Commit>, s: State) {
    && s.previous == IdBefore(base, done) && s.tree == TreeBefore(tree, done)
    && s.sequenced == PastCutoff(policy, base, done) && s.pending == OpenPlan(policy, base, done)
    && KnowsPlans(done, s.plans) && KnowsImplementations(done, s.implementations)
    && s.imported == HasImport(policy, done) && KnowsDecision(policy, done, s.decision)
  }

  ghost predicate KnowsPlans(done: seq<Commit>, plans: map<nat, nat>) {
    && (forall n :: n in plans <==> Earlier(done, Plan, n))
    && (forall n :: n in plans ==> PlanOf(done, n, plans[n]))
  }

  ghost predicate KnowsImplementations(done: seq<Commit>, implementations: map<nat, nat>) {
    forall n :: Count(implementations, n) > 0 <==> Earlier(done, Impl, n)
  }

  ghost predicate KnowsDecision(policy: Policy, done: seq<Commit>, decision: Option<Path>) {
    forall p :: decision == Some(p) <==> done != [] && Decides(policy, done[..|done| - 1], done[|done| - 1], p)
  }

  lemma ChangedAre(before: Tree, after: Tree, p: Path)
    ensures p in Changed(before, after) <==> Differs(before, after, p)
  {
  }

  lemma TheDocumentIs(tree: Tree, decision: bool, number: nat, p: Path)
    ensures TheDocument(tree, decision, number) == Some(p) <==> OnlyDoc(tree, decision, number, p)
  {
    var found := set q | q in tree && q.Doc? && !q.rune && q.decision == decision && q.number == number;
    assert forall q :: q in found <==> q in tree && IsDoc(q, decision, number);
    if OnlyDoc(tree, decision, number, p) { assert p in found && forall q :: q in found ==> q == p; }
  }

  lemma NextFreeIsExpected(tree: Tree, n: nat)
    ensures NextFree(tree, n) <==> n == Expected(tree)
  {
    var numbers := Decisions(tree);
    assert forall p :: p in tree && p.Doc? && p.decision ==> p.number in numbers;
    if numbers != {} {
      var m := Max(numbers);
      var p :| p in tree && p.Doc? && p.decision && p.number == m;
      assert exists q :: q in tree && q.Doc? && q.decision;
    } else {
      assert !exists q :: q in tree && q.Doc? && q.decision;
    }
  }

  lemma AllowedAre(policy: Policy, c: Commit)
    ensures Allowed(policy, c).Some? <==> DocumentsRule(policy, c)
    ensures Allowed(policy, c).Some? ==> forall p :: p in Allowed(policy, c).value <==> Own(policy, c, p)
  {
    hide TheDocument, OnlyDoc;
    var (adr, impl) := (TheDocument(c.tree, true, c.number), TheDocument(c.tree, false, c.number));
    forall p ensures OnlyDoc(c.tree, true, c.number, p) <==> adr == Some(p) {
      TheDocumentIs(c.tree, true, c.number, p);
    }
    forall p ensures OnlyDoc(c.tree, false, c.number, p) <==> impl == Some(p) {
      TheDocumentIs(c.tree, false, c.number, p);
    }
    if impl.Some? {
      OnlyIsThere(c.tree, false, c.number, impl.value);
      if adr.Some? { OnlyIsThere(c.tree, true, c.number, adr.value); }
    }
  }

  lemma OnlyIsThere(tree: Tree, decision: bool, number: nat, p: Path)
    requires OnlyDoc(tree, decision, number, p)
    ensures p in tree
  {
  }

  // --- The rules are what the loop checks ------------------------------------------------------------------------

  lemma ChainIsChecked(policy: Policy, base: nat, tree: Tree, done: seq<Commit>, c: Commit)
    ensures Chained(policy, IdBefore(base, done), TreeBefore(tree, done), c) <==> ChainRule(policy, base, tree, done, c)
  {
    hide Changed, Differs;
    var before := TreeBefore(tree, done);
    forall p ensures p in Changed(before, c.tree) <==> Differs(before, c.tree, p) { ChangedAre(before, c.tree, p); }
  }

  lemma SequenceIsChecked(policy: Policy, base: nat, tree: Tree, done: seq<Commit>, c: Commit)
    ensures SequenceRule(policy, base, tree, done, c) <==>
      (PastCutoff(policy, base, done) ==> InSequence(OpenPlan(policy, base, done), TreeBefore(tree, done), c))
  {
    hide NextFree, Expected, PastCutoff;
    NextFreeIsExpected(TreeBefore(tree, done), c.number);
  }

  lemma DecisionIs(policy: Policy, base: nat, tree: Tree, done: seq<Commit>, s: State, c: Commit, p: Path)
    requires Reflects(policy, base, tree, done, s)
    ensures DecisionOf(policy, s, c) == Some(p) <==> Decides(policy, done, c, p)
  {
    hide TheDocument, OnlyDoc;
    if !IsFollower(policy, c) { TheDocumentIs(c.tree, true, c.number, p); }
  }

  lemma WithdrawalIsChecked(policy: Policy, base: nat, tree: Tree, done: seq<Commit>, s: State, c: Commit,
      allowed: set<Path>)
    requires Reflects(policy, base, tree, done, s) && forall p :: p in allowed <==> Own(policy, c, p)
    requires PastCutoff(policy, base, done)
    ensures MayWithdraw(DecisionOf(policy, s, c), c, Changed(s.tree, c.tree), allowed) <==>
      WithdrawalRule(policy, base, tree, done, c)
  {
    hide DecisionOf, Changed, Differs, Own, Decides, PastCutoff;
    var before := TreeBefore(tree, done);
    forall p ensures p in Changed(before, c.tree) <==> Differs(before, c.tree, p) { ChangedAre(before, c.tree, p); }
    forall p ensures DecisionOf(policy, s, c) == Some(p) <==> Decides(policy, done, c, p) {
      DecisionIs(policy, base, tree, done, s, c, p);
    }
  }

  lemma RecordIsChecked(policy: Policy, base: nat, tree: Tree, done: seq<Commit>, s: State, c: Commit,
      allowed: set<Path>)
    requires Reflects(policy, base, tree, done, s) && forall p :: p in allowed <==> Own(policy, c, p)
    ensures Recordable(policy, s.plans, s.implementations, c, Changed(s.tree, c.tree), allowed) <==>
      PlanRule(policy, tree, done, c) && ImplementationRule(policy, tree, done, c)
  {
    hide Changed, Differs, Own, Decides, PastCutoff, Earlier;
    var before := TreeBefore(tree, done);
    forall p ensures p in Changed(before, c.tree) <==> Differs(before, c.tree, p) { ChangedAre(before, c.tree, p); }
  }

  /** One commit is accepted exactly when it keeps every rule. */
  lemma LawfulIsChecked(policy: Policy, base: nat, tree: Tree, done: seq<Commit>, s: State, c: Commit)
    requires Reflects(policy, base, tree, done, s)
    ensures Acceptable(policy, s, c) <==> Lawful(policy, base, tree, done, c)
  {
    hide Chained, InSequence, Allowed, MayWithdraw, Recordable, Changed, DecisionOf;
    hide ChainRule, SequenceRule, DocumentsRule, PlanRule, ImplementationRule;
    ChainIsChecked(policy, base, tree, done, c);
    SequenceIsChecked(policy, base, tree, done, c);
    AllowedAre(policy, c);
    if Allowed(policy, c).Some? {
      var allowed := Allowed(policy, c).value;
      if PastCutoff(policy, base, done) { WithdrawalIsChecked(policy, base, tree, done, s, c, allowed); }
      RecordIsChecked(policy, base, tree, done, s, c, allowed);
    }
  }

  lemma EarlierMore(done: seq<Commit>, c: Commit, kind: Kind, n: nat)
    ensures Earlier(done + [c], kind, n) <==> Earlier(done, kind, n) || (c.kind == kind && c.number == n)
  {
    var more := done + [c];
    if i :| 0 <= i < |done| && done[i].kind == kind && done[i].number == n { assert more[i] == done[i]; }
    if c.kind == kind && c.number == n { assert more[|done|] == c; }
  }

  lemma PlanOfMore(done: seq<Commit>, c: Commit, n: nat, id: nat)
    ensures PlanOf(done, n, id) || (c.kind == Plan && c.number == n && c.id == id) ==> PlanOf(done + [c], n, id)
  {
    var more := done + [c];
    assert more[|done|] == c;
    if i :| 0 <= i < |done| && done[i].kind == Plan && done[i].number == n && done[i].id == id {
      assert more[i] == done[i];
    }
  }

  lemma PastCutoffMore(policy: Policy, base: nat, done: seq<Commit>, c: Commit)
    ensures PastCutoff(policy, base, done + [c]) <==>
      PastCutoff(policy, base, done) || (!policy.engine && c.id == policy.sequenceBase)
    ensures HasImport(policy, done + [c]) <==> HasImport(policy, done) || IsImport(policy, c)
  {
    var more := done + [c];
    assert more[|done|] == c && forall i :: 0 <= i < |done| ==> more[i] == done[i];
  }

  lemma PendingMore(policy: Policy, base: nat, done: seq<Commit>, c: Commit)
    requires PastCutoff(policy, base, done) ==> (OpenPlan(policy, base, done).None? <==> c.kind == Plan)
    ensures OpenPlan(policy, base, done + [c]) ==
      NextPending(PastCutoff(policy, base, done), OpenPlan(policy, base, done), c)
  {
    assert (done + [c])[..|done|] == done;
    if done != [] {
      var (before, last) := (done[..|done| - 1], done[|done| - 1]);
      assert done == before + [last];
      PastCutoffMore(policy, base, before, last);
    }
  }

  lemma KnowsMorePlans(done: seq<Commit>, plans: map<nat, nat>, c: Commit)
    requires KnowsPlans(done, plans)
    ensures KnowsPlans(done + [c], NextPlans(plans, c))
  {
    hide Earlier, PlanOf;
    var (more, next) := (done + [c], NextPlans(plans, c));
    forall n ensures n in next <==> Earlier(more, Plan, n) { EarlierMore(done, c, Plan, n); }
    forall n | n in next ensures PlanOf(more, n, next[n]) { PlanOfMore(done, c, n, next[n]); }
  }

  lemma KnowsMoreImplementations(done: seq<Commit>, implementations: map<nat, nat>, c: Commit)
    requires KnowsImplementations(done, implementations)
    ensures KnowsImplementations(done + [c], NextImplementations(implementations, c))
  {
    hide Earlier;
    var (more, next) := (done + [c], NextImplementations(implementations, c));
    forall n ensures Count(next, n) > 0 <==> Earlier(more, Impl, n) { EarlierMore(done, c, Impl, n); }
  }

  lemma KnowsLatestDecision(policy: Policy, base: nat, tree: Tree, done: seq<Commit>, s: State, c: Commit)
    requires Reflects(policy, base, tree, done, s)
    ensures KnowsDecision(policy, done + [c], DecisionOf(policy, s, c))
  {
    hide DecisionOf, Reflects, Decides;
    var more := done + [c];
    assert more[|more| - 1] == c && more[..|more| - 1] == done;
    forall p ensures DecisionOf(policy, s, c) == Some(p) <==> Decides(policy, done, c, p) {
      DecisionIs(policy, base, tree, done, s, c, p);
    }
  }

  lemma KindFollows(policy: Policy, s: State, c: Commit)
    requires Acceptable(policy, s, c) && s.sequenced
    ensures s.pending.None? <==> c.kind == Plan
  {
    hide Chained, Allowed, MayWithdraw, Recordable, UniqueDecisions, Changed, Expected;
  }

  lemma ReflectsMore(policy: Policy, base: nat, tree: Tree, done: seq<Commit>, s: State, c: Commit)
    requires Reflects(policy, base, tree, done, s) && Acceptable(policy, s, c)
    ensures Reflects(policy, base, tree, done + [c], Next(policy, s, c))
  {
    hide Acceptable, PastCutoff, HasImport, OpenPlan, DecisionOf, NextPending, NextPlans, NextImplementations;
    hide KnowsPlans, KnowsImplementations, KnowsDecision;
    if s.sequenced { KindFollows(policy, s, c); }
    PastCutoffMore(policy, base, done, c);
    PendingMore(policy, base, done, c);
    KnowsMorePlans(done, s.plans, c);
    KnowsMoreImplementations(done, s.implementations, c);
    KnowsLatestDecision(policy, base, tree, done, s, c);
  }

  /** A history is accepted exactly when every commit keeps every rule. */
  lemma {:induction false} FollowedExactly(policy: Policy, base: nat, tree: Tree, done: seq<Commit>, s: State,
      commits: seq<Commit>)
    requires Reflects(policy, base, tree, done, s)
    ensures Follow(policy, s, commits).Some? <==>
      forall i :: 0 <= i < |commits| ==> Lawful(policy, base, tree, done + commits[..i], commits[i])
    ensures Follow(policy, s, commits).Some? ==>
      Reflects(policy, base, tree, done + commits, Follow(policy, s, commits).value)
    decreases |commits|
  {
    hide Acceptable, Next, Reflects, Lawful;
    if commits == [] {
      assert done + commits == done;
    } else {
      var (c, rest) := (commits[0], commits[1..]);
      LawfulIsChecked(policy, base, tree, done, s, c);
      assert done + commits[..0] == done;
      if Acceptable(policy, s, c) {
        ReflectsMore(policy, base, tree, done, s, c);
        FollowedExactly(policy, base, tree, done + [c], Next(policy, s, c), rest);
        assert done + [c] + rest == done + commits;
        forall i | 0 <= i < |rest|
          ensures done + [c] + rest[..i] == done + commits[..i + 1] && rest[i] == commits[i + 1]
        {
        }
        if forall i :: 0 <= i < |rest| ==> Lawful(policy, base, tree, done + [c] + rest[..i], rest[i]) {
          forall i | 0 <= i < |commits| ensures Lawful(policy, base, tree, done + commits[..i], commits[i]) {
            if i > 0 { assert Lawful(policy, base, tree, done + [c] + rest[..i - 1], rest[i - 1]); }
          }
        }
        if forall i :: 0 <= i < |commits| ==> Lawful(policy, base, tree, done + commits[..i], commits[i]) {
          forall i | 0 <= i < |rest| ensures Lawful(policy, base, tree, done + [c] + rest[..i], rest[i]) {
            assert Lawful(policy, base, tree, done + commits[..i + 1], commits[i + 1]);
          }
        }
      } else {
        assert !Lawful(policy, base, tree, done + commits[..0], commits[0]);
      }
    }
  }

  lemma NothingReflected(policy: Policy, base: nat, tree: Tree)
    ensures Reflects(policy, base, tree, [], Initial(policy, base, tree))
  {
  }

  /** From the start of a segment: exactly the lawful histories are accepted, and the plans are its plans. */
  lemma AcceptedExactly(policy: Policy, base: nat, tree: Tree, commits: seq<Commit>)
    ensures var end := Follow(policy, Initial(policy, base, tree), commits);
      && (end.Some? <==> forall i :: 0 <= i < |commits| ==> Lawful(policy, base, tree, commits[..i], commits[i]))
    ensures var end := Follow(policy, Initial(policy, base, tree), commits);
      end.Some? ==>
        && end.value.previous == IdBefore(base, commits)
        && (forall n :: n in end.value.plans <==> Earlier(commits, Plan, n))
        && (forall n :: n in end.value.plans ==> PlanOf(commits, n, end.value.plans[n]))
  {
    hide Follow, Initial, Lawful;
    NothingReflected(policy, base, tree);
    FollowedExactly(policy, base, tree, [], Initial(policy, base, tree), commits);
    assert [] + commits == commits;
    forall i | 0 <= i < |commits| ensures [] + commits[..i] == commits[..i] {
    }
  }
}
