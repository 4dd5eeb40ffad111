/** A stable sort by a number, such as where something starts. */
module Sorting {
  function Insert<T>(xs: seq<T>, x: T, at: T -> nat): seq<T> {
    if xs == [] || at(x) < at(xs[0]) then [x] + xs else [xs[0]] + Insert(xs[1..], x, at)
  }

  function Sorted<T>(xs: seq<T>, at: T -> nat): seq<T> {
    if xs == [] then [] else Insert(Sorted(xs[..|xs| - 1], at), xs[|xs| - 1], at)
  }

  lemma {:induction false} InsertKeeps<T>(xs: seq<T>, x: T, at: T -> nat)
    ensures multiset(Insert(xs, x, at)) == multiset(xs) + multiset{x}
  {
    if xs != [] && at(x) >= at(xs[0]) {
      InsertKeeps(xs[1..], x, at);
      assert xs == [xs[0]] + xs[1..];
    }
  }

  /** Sorting keeps what is sorted. */
  lemma {:induction false} SortedKeeps<T>(xs: seq<T>, at: T -> nat)
    ensures multiset(Sorted(xs, at)) == multiset(xs)
  {
    hide Insert;
    if xs != [] {
      var (before, last) := (xs[..|xs| - 1], xs[|xs| - 1]);
      SortedKeeps(before, at);
      InsertKeeps(Sorted(before, at), last, at);
      assert xs == before + [last];
    }
  }

  lemma SortedHas<T(!new)>(xs: seq<T>, at: T -> nat)
    ensures forall x :: x in Sorted(xs, at) <==> x in xs
  {
    hide Sorted;
    SortedKeeps(xs, at);
    forall x ensures x in Sorted(xs, at) <==> x in xs {
      assert x in Sorted(xs, at) <==> x in multiset(Sorted(xs, at));
      assert x in xs <==> x in multiset(xs);
    }
  }

  ghost predicate Ascends<T(!new)>(xs: seq<T>, at: T -> nat) {
    forall i, j :: 0 <= i < j < |xs| ==> at(xs[i]) <= at(xs[j])
  }

  lemma {:induction false} InsertSorts<T(!new)>(xs: seq<T>, x: T, at: T -> nat)
    requires Ascends(xs, at)
    ensures Ascends(Insert(xs, x, at), at)
    ensures Insert(xs, x, at)[0] == x || (xs != [] && Insert(xs, x, at)[0] == xs[0])
  {
    if xs != [] && at(x) >= at(xs[0]) {
      var rest := Insert(xs[1..], x, at);
      InsertSorts(xs[1..], x, at);
      assert forall j :: 0 <= j < |rest| ==> at(rest[0]) <= at(rest[j]);
    }
  }

  /** Sorting sorts. */
  lemma {:induction false} SortedSorts<T(!new)>(xs: seq<T>, at: T -> nat)
    ensures Ascends(Sorted(xs, at), at)
  {
    if xs != [] {
      SortedSorts(xs[..|xs| - 1], at);
      InsertSorts(Sorted(xs[..|xs| - 1], at), xs[|xs| - 1], at);
    }
  }

  /** No two stand at the same place. */
  ghost predicate AllDiffer<T(!new)>(xs: seq<T>, at: T -> nat) {
    forall i, j :: 0 <= i < j < |xs| ==> at(xs[i]) != at(xs[j])
  }

  lemma {:induction false} InsertDiffers<T(!new)>(xs: seq<T>, x: T, at: T -> nat)
    requires AllDiffer(xs, at) && forall y :: y in xs ==> at(y) != at(x)
    ensures AllDiffer(Insert(xs, x, at), at)
    ensures forall y :: y in Insert(xs, x, at) <==> y in xs || y == x
  {
    if xs != [] && at(x) >= at(xs[0]) {
      var rest := Insert(xs[1..], x, at);
      assert forall i, j :: 0 <= i < j < |xs[1..]| ==> xs[1..][i] == xs[i + 1] && xs[1..][j] == xs[j + 1];
      InsertDiffers(xs[1..], x, at);
      forall j | 0 <= j < |rest| ensures at(rest[j]) != at(xs[0]) {
        assert rest[j] in rest;
        if rest[j] in xs[1..] {
          var k :| 0 <= k < |xs[1..]| && xs[1..][k] == rest[j];
          assert xs[k + 1] == rest[j];
        }
      }
    }
  }

  lemma {:induction false} SortedDiffers<T(!new)>(xs: seq<T>, at: T -> nat)
    requires AllDiffer(xs, at)
    ensures AllDiffer(Sorted(xs, at), at)
  {
    hide Insert;
    if xs != [] {
      var (before, last) := (xs[..|xs| - 1], xs[|xs| - 1]);
      SortedDiffers(before, at);
      SortedHas(before, at);
      InsertDiffers(Sorted(before, at), last, at);
    }
  }
}
