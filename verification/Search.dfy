/** The first place in a sequence where something is. */
module Search {
  /** The index of the first element that `found` picks out, or the length if there is none. */
  function First<T>(s: seq<T>, found: T -> bool): (n: nat)
    ensures n <= |s| && (n < |s| ==> found(s[n]))
    ensures forall i :: 0 <= i < n ==> !found(s[i])
  {
    if s == [] || found(s[0]) then 0 else 1 + First(s[1..], found)
  }

  lemma {:induction false} FirstIn<T>(before: seq<T>, after: seq<T>, found: T -> bool)
    requires forall i :: 0 <= i < |before| ==> !found(before[i])
    requires after == [] || found(after[0])
    ensures First(before + after, found) == |before|
  {
    if before == [] {
      assert before + after == after;
    } else {
      FirstIn(before[1..], after, found);
      assert (before + after)[1..] == before[1..] + after;
    }
  }

  /** The index of the first occurrence, or the length if there is none. */
  function IndexOf<T(==)>(s: seq<T>, x: T): (i: nat)
    ensures i <= |s| && x !in s[..i] && (i < |s| ==> s[i] == x)
  {
    if s == [] || s[0] == x then 0 else 1 + IndexOf(s[1..], x)
  }

  lemma {:induction false} IndexOfIn<T>(before: seq<T>, x: T, after: seq<T>)
    requires x !in before
    ensures IndexOf(before + [x] + after, x) == |before|
  {
    var s := before + [x] + after;
    if before != [] {
      IndexOfIn(before[1..], x, after);
      assert s[1..] == before[1..] + [x] + after;
    }
  }
}
