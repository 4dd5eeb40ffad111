/**
 Numbers on the prompt and in diagnostics (`src/session.rs`, `next_number`, `renumber`, `input_number` and the
 admission of an input), under any mix of admissions, refusals and renumberings.
 */
module Numbering {
  import opened Wrappers
  import opened Numerals
  import opened Utf8

  const INPUT_CAP: nat := 32 * 1024

  // --- The labels --------------------------------------------------------------------------------

  /** A label: the position within a numbering, and which numbering when it is not the current one. */
  datatype InputNumber = InputNumber(position: int, older: Option<nat>)

  /** How many leading boundaries are below an index. */
  function Epoch(numberings: seq<nat>, index: nat): (epoch: nat)
    ensures epoch <= |numberings|
  {
    if numberings == [] || numberings[0] >= index then 0 else 1 + Epoch(numberings[1..], index)
  }

  function Base(numberings: seq<nat>, epoch: nat): nat
    requires epoch <= |numberings|
  {
    if epoch == 0 then 0 else numberings[epoch - 1]
  }

  function NumberOf(numberings: seq<nat>, index: nat): InputNumber {
    var epoch := Epoch(numberings, index);
    InputNumber(index - Base(numberings, epoch), if epoch != |numberings| then Some(epoch + 1) else None)
  }

  function Prompt(admitted: nat, numberings: seq<nat>): int { admitted - Base(numberings, |numberings|) + 1 }

  function Show(n: InputNumber): string
    requires n.position >= 0
  {
    Numeral(n.position, 10) + if n.older.Some? then " of numbering " + Numeral(n.older.value, 10) else ""
  }

  /** Boundaries never decrease and never pass the inputs admitted so far. */
  predicate Sound(admitted: nat, numberings: seq<nat>) {
    && (forall i, j :: 0 <= i < j < |numberings| ==> numberings[i] <= numberings[j])
    && (forall i :: 0 <= i < |numberings| ==> numberings[i] <= admitted)
  }

  /** The epoch of an index splits the boundaries into those before it and those at or after it. */
  lemma {:induction false} EpochSplits(admitted: nat, numberings: seq<nat>, index: nat)
    requires Sound(admitted, numberings)
    ensures var epoch := Epoch(numberings, index);
      && (forall i :: 0 <= i < epoch ==> numberings[i] < index)
      && (forall i :: epoch <= i < |numberings| ==> index <= numberings[i])
  {
    if numberings != [] && numberings[0] < index {
      EpochSplits(admitted, numberings[1..], index);
      var epoch := Epoch(numberings, index);
      forall i | 0 <= i < epoch ensures numberings[i] < index {
        if i > 0 { assert numberings[i] == numberings[1..][i - 1]; }
      }
      forall i | epoch <= i < |numberings| ensures index <= numberings[i] {
        assert numberings[i] == numberings[1..][i - 1];
      }
    }
  }

  /** The prompt shows the position the next admitted input receives, in the current numbering. */
  lemma PromptIsNext(admitted: nat, numberings: seq<nat>)
    requires Sound(admitted, numberings)
    ensures NumberOf(numberings, admitted + 1) == InputNumber(Prompt(admitted, numberings), None)
    ensures Prompt(admitted, numberings) >= 1
  {
    EpochSplits(admitted, numberings, admitted + 1);
    if Epoch(numberings, admitted + 1) < |numberings| {
      assert admitted + 1 <= numberings[Epoch(numberings, admitted + 1)];
    }
  }

  /** A position is at least one, and positions in one numbering count up one by one. */
  lemma PositionsStartAtOne(admitted: nat, numberings: seq<nat>, index: nat)
    requires Sound(admitted, numberings) && 1 <= index <= admitted
    ensures NumberOf(numberings, index).position >= 1
  {
    EpochSplits(admitted, numberings, index);
  }

  /** No two inputs share a label. */
  lemma LabelsDiffer(admitted: nat, numberings: seq<nat>, i: nat, j: nat)
    requires Sound(admitted, numberings) && 1 <= i < j <= admitted
    ensures NumberOf(numberings, i) != NumberOf(numberings, j)
  {
    EpochSplits(admitted, numberings, i);
    EpochSplits(admitted, numberings, j);
  }

  lemma ShowsApart(a: string, b: string, x: string, y: string)
    requires ' ' !in a && ' ' !in b
    requires (x == "" || x[0] == ' ') && (y == "" || y[0] == ' ') && a + x == b + y
    ensures a == b && x == y
  {
    assert forall i :: 0 <= i < |a| ==> (a + x)[i] == a[i];
    assert forall i :: 0 <= i < |b| ==> (b + y)[i] == b[i];
    assert x != "" ==> (a + x)[|a|] == ' ';
    assert y != "" ==> (b + y)[|b|] == ' ';
    assert |a| == |b|;
    assert (a + x)[..|a|] == a && (b + y)[..|b|] == b && (a + x)[|a|..] == x && (b + y)[|b|..] == y;
  }

  /** A displayed label determines the label. */
  lemma ShownLabelIsUnique(a: InputNumber, b: InputNumber)
    requires a.position >= 0 && b.position >= 0 && Show(a) == Show(b)
    ensures a == b
  {
    var (na, nb) := (Numeral(a.position, 10), Numeral(b.position, 10));
    NumeralHasNo(a.position, 10, ' ');
    NumeralHasNo(b.position, 10, ' ');
    var (x, y) := (Show(a)[|na|..], Show(b)[|nb|..]);
    ShowsApart(na, nb, x, y);
    NumeralReads(a.position, 10);
    NumeralReads(b.position, 10);
    if a.older.Some? && b.older.Some? {
      var of := " of numbering ";
      assert x[|of|..] == Numeral(a.older.value, 10) && y[|of|..] == Numeral(b.older.value, 10);
      NumeralReads(a.older.value, 10);
      NumeralReads(b.older.value, 10);
    }
  }

  /** Hence no two inputs are ever displayed alike. */
  lemma ShownLabelsDiffer(admitted: nat, numberings: seq<nat>, i: nat, j: nat)
    requires Sound(admitted, numberings) && 1 <= i < j <= admitted
    ensures NumberOf(numberings, i).position >= 1 && NumberOf(numberings, j).position >= 1
    ensures Show(NumberOf(numberings, i)) != Show(NumberOf(numberings, j))
  {
    hide NumberOf, Show;
    PositionsStartAtOne(admitted, numberings, i);
    PositionsStartAtOne(admitted, numberings, j);
    LabelsDiffer(admitted, numberings, i, j);
    if Show(NumberOf(numberings, i)) == Show(NumberOf(numberings, j)) {
      ShownLabelIsUnique(NumberOf(numberings, i), NumberOf(numberings, j));
    }
  }

  // --- Whole sessions -------------------------------------------------------------------------------

  /** An admission, a refusal before it, or a renumbering. */
  datatype Event = Admit | Refuse | Renumber

  datatype Counts = Counts(admitted: nat, numberings: seq<nat>)

  function Step(s: Counts, e: Event): Counts {
    match e
    case Admit => s.(admitted := s.admitted + 1)
    case Refuse => s
    case Renumber => s.(numberings := s.numberings + [s.admitted])
  }

  function After(s: Counts, events: seq<Event>): Counts
    decreases |events|
  {
    if events == [] then s else After(Step(s, events[0]), events[1..])
  }

  lemma {:induction false} LaterBoundaryChangesNothing(numberings: seq<nat>, boundary: nat, index: nat)
    requires index <= boundary
    ensures Epoch(numberings + [boundary], index) == Epoch(numberings, index)
  {
    if numberings != [] && numberings[0] < index {
      assert (numberings + [boundary])[1..] == numberings[1..] + [boundary];
      LaterBoundaryChangesNothing(numberings[1..], boundary, index);
    }
  }

  lemma StepKeepsSound(s: Counts, e: Event)
    requires Sound(s.admitted, s.numberings)
    ensures Sound(Step(s, e).admitted, Step(s, e).numberings)
  {
  }

  /** Over any run, an input keeps its numbering and its position; only whether that numbering is the current one
      can change, and once it is old it stays old. */
  lemma {:induction false} NumberingIsForEver(s: Counts, events: seq<Event>, index: nat)
    requires Sound(s.admitted, s.numberings) && 1 <= index <= s.admitted
    ensures var t := After(s, events);
      && Sound(t.admitted, t.numberings) && s.admitted <= t.admitted
      && Epoch(t.numberings, index) == Epoch(s.numberings, index)
      && NumberOf(t.numberings, index).position == NumberOf(s.numberings, index).position
      && (NumberOf(s.numberings, index).older.Some? ==>
            NumberOf(t.numberings, index) == NumberOf(s.numberings, index))
    decreases |events|
  {
    hide NumberOf;
    if events != [] {
      var next := Step(s, events[0]);
      StepKeepsSound(s, events[0]);
      NumberingIsForEver(next, events[1..], index);
      if events[0].Renumber? { RenumberKeepsNumber(s, index); }
    }
  }

  lemma RenumberKeepsNumber(s: Counts, index: nat)
    requires Sound(s.admitted, s.numberings) && 1 <= index <= s.admitted
    ensures var t := Step(s, Renumber);
      && Epoch(t.numberings, index) == Epoch(s.numberings, index)
      && NumberOf(t.numberings, index).position == NumberOf(s.numberings, index).position
      && (NumberOf(s.numberings, index).older.Some? ==> NumberOf(t.numberings, index) == NumberOf(s.numberings, index))
  {
    LaterBoundaryChangesNothing(s.numberings, s.admitted, index);
  }

  lemma {:induction false} RefusalsChangeNothing(s: Counts, events: seq<Event>)
    requires forall i :: 0 <= i < |events| ==> events[i].Refuse?
    ensures After(s, events) == s
    decreases |events|
  {
    if events != [] { RefusalsChangeNothing(s, events[1..]); }
  }

  /** The number on a prompt is the position of the input admitted at it, however many are refused first and
      whatever happens afterwards. */
  lemma PromptIsKept(s: Counts, refusals: seq<Event>, later: seq<Event>)
    requires Sound(s.admitted, s.numberings)
    requires forall i :: 0 <= i < |refusals| ==> refusals[i].Refuse?
    ensures var t := After(Step(After(s, refusals), Admit), later);
      NumberOf(t.numberings, s.admitted + 1).position == Prompt(s.admitted, s.numberings)
  {
    hide NumberOf;
    RefusalsChangeNothing(s, refusals);
    PromptIsNext(s.admitted, s.numberings);
    NumberingIsForEver(Step(s, Admit), later, s.admitted + 1);
  }

  // --- What a label says of the history ------------------------------------------------------------------

  function Admits(events: seq<Event>): nat {
    if events == [] then 0
    else Admits(events[..|events| - 1]) + if events[|events| - 1].Admit? then 1 else 0
  }

  function Renumbers(events: seq<Event>): nat {
    if events == [] then 0
    else Renumbers(events[..|events| - 1]) + if events[|events| - 1].Renumber? then 1 else 0
  }

  /** How many inputs were admitted since the latest renumbering. */
  function Since(events: seq<Event>): nat {
    if events == [] || events[|events| - 1].Renumber? then 0
    else Since(events[..|events| - 1]) + if events[|events| - 1].Admit? then 1 else 0
  }

  const NEW := Counts(0, [])

  lemma {:induction false} AfterOneMore(s: Counts, events: seq<Event>)
    requires events != []
    ensures After(s, events) == Step(After(s, events[..|events| - 1]), events[|events| - 1])
    decreases |events|
  {
    if |events| > 1 {
      AfterOneMore(Step(s, events[0]), events[1..]);
      assert events[1..][..|events| - 2] == events[..|events| - 1][1..];
    } else {
      assert events[..0] == [] && events[1..] == [];
    }
  }

  lemma {:induction false} AfterInTwo(s: Counts, a: seq<Event>, b: seq<Event>)
    ensures After(s, a + b) == After(After(s, a), b)
    decreases |a|
  {
    if a == [] {
      assert a + b == b;
    } else {
      assert (a + b)[1..] == a[1..] + b;
      AfterInTwo(Step(s, a[0]), a[1..], b);
    }
  }

  /** The counters of a session count its admissions and renumberings, and the prompt the admissions since the latest
      renumbering. */
  lemma {:induction false} CountersCount(events: seq<Event>)
    ensures var s := After(NEW, events);
      && Sound(s.admitted, s.numberings)
      && s.admitted == Admits(events) && |s.numberings| == Renumbers(events)
      && Prompt(s.admitted, s.numberings) == Since(events) + 1
  {
    if events != [] {
      var before := events[..|events| - 1];
      CountersCount(before);
      AfterOneMore(NEW, events);
      StepKeepsSound(After(NEW, before), events[|events| - 1]);
    }
  }

  lemma EpochAtPrompt(admitted: nat, numberings: seq<nat>)
    requires Sound(admitted, numberings)
    ensures Epoch(numberings, admitted + 1) == |numberings|
  {
    PromptIsNext(admitted, numberings);
  }

  lemma LabelFrom(numberings: seq<nat>, index: nat, position: int)
    requires NumberOf(numberings, index).position == position
    ensures var epoch := Epoch(numberings, index);
      NumberOf(numberings, index) == InputNumber(position, if epoch < |numberings| then Some(epoch + 1) else None)
  {
  }

  /** The label an input has when it is admitted, and after anything that follows. */
  lemma LabelLater(s: Counts, later: seq<Event>)
    requires Sound(s.admitted, s.numberings)
    ensures var (after, n) := (After(Step(s, Admit), later).numberings, |s.numberings|);
      && n <= |after|
      && NumberOf(after, s.admitted + 1) ==
         InputNumber(Prompt(s.admitted, s.numberings), if n < |after| then Some(n + 1) else None)
  {
    hide After, NumberOf, Prompt;
    var (t, index) := (Step(s, Admit), s.admitted + 1);
    PromptIsNext(s.admitted, s.numberings);
    EpochAtPrompt(s.admitted, s.numberings);
    StepKeepsSound(s, Admit);
    NumberingIsForEver(t, later, index);
    LabelFrom(After(t, later).numberings, index, Prompt(s.admitted, s.numberings));
  }

  /** Over any session, an input's label says how many inputs its numbering had when it was admitted, itself included,
      and names that numbering by its place when another has followed. */
  lemma LabelTellsTheHistory(events: seq<Event>, k: nat)
    requires k < |events| && events[k].Admit?
    ensures var (before, index) := (events[..k], Admits(events[..k]) + 1);
      NumberOf(After(NEW, events).numberings, index) ==
        InputNumber(Since(before) + 1,
                    if Renumbers(before) < Renumbers(events) then Some(Renumbers(before) + 1) else None)
  {
    hide After, NumberOf, Prompt, Admits, Renumbers, Since, Step;
    var (before, later) := (events[..k], events[k + 1..]);
    var s := After(NEW, before);
    assert events == before + [Admit] + later && (before + [Admit])[..k] == before;
    CountersCount(before);
    CountersCount(events);
    AfterInTwo(NEW, before + [Admit], later);
    AfterOneMore(NEW, before + [Admit]);
    LabelLater(s, later);
  }

  // --- The session's counters -------------------------------------------------------------------------

  class Session {
    var inputs: seq<string>
    var numberings: seq<nat>
    var overCeiling: bool

    ghost function Count(): Counts
      reads this
    {
      Counts(|inputs|, numberings)
    }

    ghost predicate Valid()
      reads this
    {
      Sound(|inputs|, numberings)
    }

    constructor ()
      ensures Valid() && inputs == [] && numberings == [] && !overCeiling
    {
      inputs, numberings, overCeiling := [], [], false;
    }

    /** A refused input leaves the prompt alone; an admitted one gets the number it showed. */
    method Admit(input: string) returns (number: Option<nat>)
      requires Valid()
      modifies `inputs
      ensures Valid()
      ensures Count() == Step(old(Count()), if number.Some? then Event.Admit else Refuse)
      ensures number.None? <==> overCeiling || ByteLen(input) > INPUT_CAP
      ensures number.Some? ==> inputs == old(inputs) + [input] && number.value == |inputs|
      ensures number.Some? ==>
        NumberOf(numberings, number.value) == InputNumber(Prompt(|old(inputs)|, numberings), None)
      ensures number.None? ==> inputs == old(inputs)
    {
      if overCeiling || ByteLen(input) > INPUT_CAP { return None; }
      PromptIsNext(|inputs|, numberings);
      inputs := inputs + [input];
      return Some(|inputs|);
    }

    /** A new numbering starts at one, however often it is asked for. */
    method Renumber()
      requires Valid()
      modifies `numberings
      ensures Valid() && Count() == Step(old(Count()), Event.Renumber)
      ensures Prompt(|inputs|, numberings) == 1
    {
      numberings := numberings + [|inputs|];
    }

    method Reset()
      modifies this
      ensures Valid() && inputs == [] && numberings == [] && !overCeiling
    {
      inputs, numberings, overCeiling := [], [], false;
    }
  }
}
