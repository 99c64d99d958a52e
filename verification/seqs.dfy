/**
 Generic facts about sequences used by the read-tracker: duplicate-freedom,
 first occurrences, order-preserving filtering and first-occurrence
 deduplication (the order in which a JavaScript `Set` keeps its elements).

 The filtering and deduplication definitions peel off the LAST element, so
 that a definition over `xs + [x]` unfolds in one step; `FirstIndex` scans
 from the front, since it looks for the leftmost occurrence.
 */
module Seqs {

  /** No element occurs twice. */
  predicate NoDuplicates<T(==)>(xs: seq<T>) {
    forall i, j :: 0 <= i < j < |xs| ==> xs[i] != xs[j]
  }

  /** Index of the leftmost occurrence of `x` in `xs`. */
  function FirstIndex<T(==)>(xs: seq<T>, x: T): (i: nat)
    requires x in xs
    ensures i < |xs| && xs[i] == x
    ensures forall j :: 0 <= j < i ==> xs[j] != x
  {
    if xs[0] == x then 0 else 1 + FirstIndex(xs[1..], x)
  }

  /** `xs` can be obtained from `ys` by deleting elements (order is kept). */
  predicate IsSubsequence<T(==)>(xs: seq<T>, ys: seq<T>)
    decreases |ys|
  {
    xs == []
    || (ys != [] &&
        if xs[|xs| - 1] == ys[|ys| - 1]
        then IsSubsequence(xs[..|xs| - 1], ys[..|ys| - 1])
        else IsSubsequence(xs, ys[..|ys| - 1]))
  }

  /** The elements of `xs` that are not in `drop`, in their original order. */
  function Without<T(==,!new)>(xs: seq<T>, drop: set<T>): (r: seq<T>)
    ensures forall x :: x in r <==> x in xs && x !in drop
    ensures |r| <= |xs|
    decreases |xs|
  {
    if xs == [] then []
    else
      var init := xs[..|xs| - 1];
      var last := xs[|xs| - 1];
      assert xs == init + [last];
      var rest := Without(init, drop);
      if last in drop then rest else rest + [last]
  }

  /** `xs` with every element after its first occurrence removed. */
  function Dedup<T(==,!new)>(xs: seq<T>): (r: seq<T>)
    ensures forall x :: x in r <==> x in xs
    ensures NoDuplicates(r)
    ensures |r| <= |xs|
    decreases |xs|
  {
    if xs == [] then []
    else
      var init := xs[..|xs| - 1];
      var last := xs[|xs| - 1];
      assert xs == init + [last];
      var rest := Dedup(init);
      if last in init then rest else rest + [last]
  }

  /** Deduplicating a concatenation keeps every element of both parts. */
  lemma DedupKeepsBoth<T(!new)>(xs: seq<T>, ys: seq<T>)
    ensures forall x :: x in xs ==> x in Dedup(xs + ys)
    ensures forall y :: y in ys ==> y in Dedup(xs + ys)
    ensures forall z :: z in Dedup(xs + ys) ==> z in xs || z in ys
  {
  }

  /** Appending an element does not move the first occurrence of an earlier one. */
  lemma FirstIndexAppend<T(!new)>(xs: seq<T>, y: T, x: T)
    requires x in xs
    ensures x in xs + [y]
    ensures FirstIndex(xs + [y], x) == FirstIndex(xs, x)
  {
    var m := FirstIndex(xs, x);
    var k := FirstIndex(xs + [y], x);
    assert (xs + [y])[m] == x;
  }

  /** Filtering keeps the original order. */
  lemma {:induction false} WithoutIsSubsequence<T(!new)>(xs: seq<T>, drop: set<T>)
    ensures IsSubsequence(Without(xs, drop), xs)
    decreases |xs|
  {
    if xs != [] {
      var init := xs[..|xs| - 1];
      var last := xs[|xs| - 1];
      var rest := Without(init, drop);
      WithoutIsSubsequence(init, drop);
      if last !in drop {
        assert Without(xs, drop) == rest + [last];
        assert (rest + [last])[..|rest|] == rest;
      } else {
        assert Without(xs, drop) == rest;
        if rest != [] {
          assert rest[|rest| - 1] in rest;
        }
      }
    }
  }

  /** Removing nothing gives back the whole sequence. */
  lemma {:induction false} WithoutNothing<T(!new)>(xs: seq<T>)
    ensures Without(xs, {}) == xs
    decreases |xs|
  {
    if xs != [] {
      WithoutNothing(xs[..|xs| - 1]);
      assert xs == xs[..|xs| - 1] + [xs[|xs| - 1]];
    }
  }

  /**
   The elements of `Dedup(xs)` appear in the order of their first occurrence
   in `xs`; together with the contract of `Dedup` this pins it down.
   */
  lemma {:induction false} DedupFirstOccurrenceOrder<T(!new)>(xs: seq<T>)
    ensures forall i, j :: 0 <= i < j < |Dedup(xs)| ==>
              FirstIndex(xs, Dedup(xs)[i]) < FirstIndex(xs, Dedup(xs)[j])
    decreases |xs|
  {
    if xs != [] {
      var init := xs[..|xs| - 1];
      var last := xs[|xs| - 1];
      assert xs == init + [last];
      var rest := Dedup(init);
      DedupFirstOccurrenceOrder(init);
      forall e | e in init
        ensures FirstIndex(xs, e) == FirstIndex(init, e) < |init|
      {
        FirstIndexAppend(init, last, e);
      }
      var d := Dedup(xs);
      if last in init {
        assert d == rest;
        forall i, j | 0 <= i < j < |d|
          ensures FirstIndex(xs, d[i]) < FirstIndex(xs, d[j])
        {
          assert d[i] in rest && d[j] in rest;
        }
      } else {
        assert d == rest + [last];
        assert FirstIndex(xs, last) == |init|;
        forall i, j | 0 <= i < j < |d|
          ensures FirstIndex(xs, d[i]) < FirstIndex(xs, d[j])
        {
          assert d[i] == rest[i] && d[i] in rest;
          if j < |rest| {
            assert d[j] == rest[j] && d[j] in rest;
          }
        }
      }
    }
  }

  /** A duplicate-free sequence is its own deduplication. */
  lemma {:induction false} DedupOfDistinct<T(!new)>(xs: seq<T>)
    requires NoDuplicates(xs)
    ensures Dedup(xs) == xs
    decreases |xs|
  {
    if xs != [] {
      var init := xs[..|xs| - 1];
      var last := xs[|xs| - 1];
      assert xs == init + [last];
      DedupOfDistinct(init);
      assert last !in init by {
        forall i | 0 <= i < |init| ensures init[i] != last {
          assert xs[i] == init[i];
        }
      }
    }
  }

  /** Deduplicating twice is the same as deduplicating once. */
  lemma DedupIdempotent<T(!new)>(xs: seq<T>)
    ensures Dedup(Dedup(xs)) == Dedup(xs)
  {
    DedupOfDistinct(Dedup(xs));
  }

  /** Appending elements that already occur changes nothing after deduplication. */
  lemma {:induction false} DedupAbsorbs<T(!new)>(xs: seq<T>, ys: seq<T>)
    requires forall y :: y in ys ==> y in xs
    ensures Dedup(xs + ys) == Dedup(xs)
    decreases |ys|
  {
    if ys == [] {
      assert xs + ys == xs;
    } else {
      var init := ys[..|ys| - 1];
      var last := ys[|ys| - 1];
      assert ys == init + [last];
      DedupAbsorbs(xs, init);
      var whole := xs + ys;
      assert whole[..|whole| - 1] == xs + init;
      assert whole[|whole| - 1] == last;
      assert last in xs + init;
    }
  }

  /**
   Listing a JavaScript `Set` built from `xs`: the set adds each element on
   its first insertion and iterates in insertion order, which is exactly
   first-occurrence deduplication.
   */
  method ArrayFromSet<T(==,!new)>(xs: seq<T>) returns (r: seq<T>)
    ensures r == Dedup(xs)
    ensures NoDuplicates(r)
  {
    var seen: set<T> := {};
    r := [];
    var i := 0;
    while i < |xs|
      invariant 0 <= i <= |xs|
      invariant r == Dedup(xs[..i])
      invariant forall x :: x in seen <==> x in xs[..i]
    {
      assert xs[..i + 1] == xs[..i] + [xs[i]];
      assert xs[..i + 1][..i] == xs[..i];
      if xs[i] !in seen {
        seen := seen + {xs[i]};
        r := r + [xs[i]];
      }
      i := i + 1;
    }
    assert xs[..i] == xs;
  }
}
