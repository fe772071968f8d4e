/**
 * Sequences without repeats, and the "emit unless already emitted" filter that
 * the import planner applies to its candidate lines.
 */
module Sequences {

  predicate NoDuplicates<T(==)>(s: seq<T>)
  {
    forall i, j :: 0 <= i < j < |s| ==> s[i] != s[j]
  }

  /** The position of the first occurrence of `x` in `s`. */
  function FirstIndex<T(==)>(s: seq<T>, x: T): (k: nat)
    requires x in s
    ensures k < |s| && s[k] == x && x !in s[..k]
  {
    if s[0] == x then 0 else
      var k := FirstIndex(s[1..], x);
      assert s[1..][..k] == s[1..k + 1];
      1 + k
  }

  /** `s` with every element that already occurred earlier dropped. */
  function Dedup<T(==,!new)>(s: seq<T>): (d: seq<T>)
    ensures forall x :: x in d <==> x in s
  {
    if s == [] then []
    else
      var d := Dedup(s[..|s| - 1]);
      var x := s[|s| - 1];
      assert s == s[..|s| - 1] + [x];
      if x in d then d else d + [x]
  }

  /** `Dedup` leaves no element twice. */
  lemma {:induction false} DedupNoDuplicates<T(!new)>(s: seq<T>)
    ensures NoDuplicates(Dedup(s))
  {
    if s != [] {
      DedupNoDuplicates(s[..|s| - 1]);
    }
  }

  /** One more element: `Dedup` keeps it exactly when it has not occurred before. */
  lemma DedupSnoc<T(!new)>(s: seq<T>, x: T)
    ensures Dedup(s + [x]) == if x in Dedup(s) then Dedup(s) else Dedup(s) + [x]
  {
    assert (s + [x])[..|s|] == s;
  }

  /**
   * One step of the "write unless already written" filter: with `seen` holding
   * exactly the lines written so far, writing `x` when it is not in `seen`
   * keeps the lines equal to `Dedup` of everything offered.
   */
  lemma DedupStep<T(!new)>(offered: seq<T>, lines: seq<T>, seen: set<T>, x: T)
    requires lines == Dedup(offered)
    requires forall y :: y in seen <==> y in lines
    ensures x in seen ==> lines == Dedup(offered + [x])
    ensures x !in seen ==> lines + [x] == Dedup(offered + [x])
    ensures forall y :: y in seen + {x} <==> y in lines + [x]
  {
    DedupSnoc(offered, x);
  }

  lemma {:induction false} FirstIndexOfExtension<T>(s: seq<T>, x: T, y: T)
    requires y in s
    ensures FirstIndex(s + [x], y) == FirstIndex(s, y)
  {
    if s[0] != y {
      assert (s + [x])[1..] == s[1..] + [x];
      FirstIndexOfExtension(s[1..], x, y);
    }
  }

  /**
   * `Dedup` keeps the surviving elements in the order of their first
   * occurrence in `s`.
   */
  lemma {:induction false} DedupFirstOccurrenceOrder<T(!new)>(s: seq<T>, i: nat, j: nat)
    requires i < j < |Dedup(s)|
    ensures Dedup(s)[i] in s && Dedup(s)[j] in s
    ensures FirstIndex(s, Dedup(s)[i]) < FirstIndex(s, Dedup(s)[j])
    decreases |s|
  {
    var init := s[..|s| - 1];
    var x := s[|s| - 1];
    var d := Dedup(init);
    assert s == init + [x];
    if x in d {
      DedupFirstOccurrenceOrder(init, i, j);
      FirstIndexOfExtension(init, x, d[i]);
      FirstIndexOfExtension(init, x, d[j]);
    } else {
      assert Dedup(s) == d + [x];
      FirstIndexOfExtension(init, x, d[i]);
      if j < |d| {
        DedupFirstOccurrenceOrder(init, i, j);
        FirstIndexOfExtension(init, x, d[j]);
      } else {
        assert x !in init;
        assert forall k :: 0 <= k < |init| ==> s[k] != x;
      }
    }
  }
}
