/**
  First-occurrence de-duplication of sequences: the "seen set guards every
  append" loop that both the index builder and the index merger run.
  `Extend(acc, items)` is `acc` followed by every element of `items` that is
  not yet present, in the order of first appearance.
 */
module Dedup {

  /** No element occurs twice. */
  ghost predicate NoDup<T>(s: seq<T>) {
    forall i, j :: 0 <= i < j < |s| ==> s[i] != s[j]
  }

  /** The position of the first occurrence of `x` in `s`. */
  function IndexOf<T(==)>(s: seq<T>, x: T): (k: nat)
    requires x in s
    ensures k < |s| && s[k] == x
    ensures forall j :: 0 <= j < k ==> s[j] != x
  {
    if s[0] == x then 0 else 1 + IndexOf(s[1..], x)
  }

  /** `acc` followed by the elements of `items` that are not seen yet, in order. */
  function Extend<T(==)>(acc: seq<T>, items: seq<T>): (r: seq<T>)
    ensures |acc| <= |r| && r[..|acc|] == acc
    ensures forall i :: 0 <= i < |items| ==> items[i] in r
    ensures forall i :: 0 <= i < |r| ==> r[i] in acc || r[i] in items
    decreases |items|
  {
    if items == [] then acc
    else
      var prev := Extend(acc, items[..|items| - 1]);
      var x := items[|items| - 1];
      if x in prev then prev else prev + [x]
  }

  /** The distinct elements of `s`, in order of first occurrence. */
  function Distinct<T(==)>(s: seq<T>): seq<T> {
    Extend([], s)
  }

  /** The elements of `s` that are not in `excluded`, in order (duplicates kept). */
  function Without<T(==)>(s: seq<T>, excluded: seq<T>): (r: seq<T>)
    ensures forall i :: 0 <= i < |s| && s[i] !in excluded ==> s[i] in r
    ensures forall i :: 0 <= i < |r| ==> r[i] in s && r[i] !in excluded
    decreases |s|
  {
    if s == [] then []
    else
      var prev := Without(s[..|s| - 1], excluded);
      var x := s[|s| - 1];
      if x in excluded then prev else prev + [x]
  }

  /** Extending a duplicate-free sequence keeps it duplicate-free. */
  lemma {:induction false} ExtendNoDup<T>(acc: seq<T>, items: seq<T>)
    requires NoDup(acc)
    ensures NoDup(Extend(acc, items))
    decreases |items|
  {
    if items != [] {
      ExtendNoDup(acc, items[..|items| - 1]);
    }
  }

  /** The distinct elements of any sequence hold no duplicate. */
  lemma DistinctNoDup<T>(s: seq<T>)
    ensures NoDup(Distinct(s))
  {
    ExtendNoDup([], s);
  }

  /** What `Extend` appends is the distinct elements of `items` that `acc` lacks. */
  lemma {:induction false} ExtendIsAppendOfNew<T>(acc: seq<T>, items: seq<T>)
    ensures Extend(acc, items) == acc + Distinct(Without(items, acc))
    decreases |items|
  {
    if items != [] {
      var init, x := items[..|items| - 1], items[|items| - 1];
      ExtendIsAppendOfNew(acc, init);
      assert Without(items, acc) == if x in acc then Without(init, acc) else Without(init, acc) + [x];
      if x !in acc {
        var w := Without(init, acc);
        assert (w + [x])[..|w + [x]| - 1] == w;
      }
    }
  }

  /** A duplicate-free sequence is its own distinct elements. */
  lemma {:induction false} DistinctOfNoDup<T>(s: seq<T>)
    requires NoDup(s)
    ensures Distinct(s) == s
    decreases |s|
  {
    if s != [] {
      var init := s[..|s| - 1];
      assert NoDup(init);
      DistinctOfNoDup(init);
    }
  }

  /** Appending an element leaves the first occurrences of earlier elements where they were. */
  lemma IndexOfSnoc<T>(s: seq<T>, y: T, x: T)
    requires x in s
    ensures IndexOf(s + [y], x) == IndexOf(s, x)
  {
    var k := IndexOf(s, x);
    var k' := IndexOf(s + [y], x);
    assert (s + [y])[k] == x;
  }

  /** The distinct elements appear in the order of their first occurrence in `s`. */
  lemma {:induction false} DistinctOrder<T>(s: seq<T>)
    ensures forall i, j :: 0 <= i < j < |Distinct(s)| ==>
      IndexOf(s, Distinct(s)[i]) < IndexOf(s, Distinct(s)[j])
    decreases |s|
  {
    if s != [] {
      var init, x := s[..|s| - 1], s[|s| - 1];
      assert s == init + [x];
      DistinctOrder(init);
      var d, r := Distinct(init), Distinct(s);
      assert r == if x in d then d else d + [x];
      forall i, j | 0 <= i < j < |r| ensures IndexOf(s, r[i]) < IndexOf(s, r[j]) {
        assert r[i] == d[i];
        IndexOfSnoc(init, x, r[i]);
        if j < |d| {
          assert r[j] == d[j];
          IndexOfSnoc(init, x, r[j]);
        } else {
          assert r[j] == x && x !in init;
          assert IndexOf(s, x) == |init|;
        }
      }
    }
  }

  /**
    The loop both the builder and the merger run: start from `acc` with a
    `seen` set holding its elements, and append each item not yet seen.
   */
  method AppendUnseen<T(==)>(acc: seq<T>, items: seq<T>) returns (r: seq<T>)
    ensures r == Extend(acc, items)
  {
    r := acc;
    var seen := set x | x in acc;
    var i := 0;
    while i < |items|
      invariant 0 <= i <= |items|
      invariant r == Extend(acc, items[..i])
      invariant seen == set x | x in r
    {
      assert items[..i + 1][..i] == items[..i];
      if items[i] !in seen {
        r := r + [items[i]];
        seen := seen + {items[i]};
      }
      i := i + 1;
    }
    assert items[..i] == items;
  }
}
