/**
  First-occurrence deduplication of a sequence, as the `seen`-set loops of
  `detectDuplicates`, `cleanData` and `cleanDataString` perform it.
*/
module Distinct {

  /** The elements of `xs` that do not occur earlier, in order. */
  function Dedup<T(==)>(xs: seq<T>): seq<T>
  {
    if xs == [] then []
    else
      var init := xs[..|xs| - 1];
      if xs[|xs| - 1] in init then Dedup(init) else Dedup(init) + [xs[|xs| - 1]]
  }

  /** The number of elements of `xs` equal to some earlier element. */
  function DupCount<T(==)>(xs: seq<T>): nat
  {
    if xs == [] then 0
    else
      var init := xs[..|xs| - 1];
      DupCount(init) + (if xs[|xs| - 1] in init then 1 else 0)
  }

  /** One more element of a prefix: it is kept when new and counted when seen before. */
  lemma PrefixStep<T>(xs: seq<T>, i: nat)
    requires i < |xs|
    ensures Dedup(xs[..i + 1]) == if xs[i] in xs[..i] then Dedup(xs[..i]) else Dedup(xs[..i]) + [xs[i]]
    ensures DupCount(xs[..i + 1]) == DupCount(xs[..i]) + if xs[i] in xs[..i] then 1 else 0
    ensures forall x :: x in xs[..i + 1] <==> x in xs[..i] || x == xs[i]
  {
    assert xs[..i + 1] == xs[..i] + [xs[i]];
    assert xs[..i + 1][..i] == xs[..i];
  }

  /** Position of the first occurrence of `x`. */
  function FirstIndex<T(==)>(xs: seq<T>, x: T): (i: nat)
    requires x in xs
    ensures i < |xs| && xs[i] == x
    ensures forall k :: 0 <= k < i ==> xs[k] != x
  {
    if xs[0] == x then 0 else 1 + FirstIndex(xs[1..], x)
  }

  /** Every element is either kept or counted as a duplicate. */
  lemma {:induction false} DedupPlusDuplicates<T>(xs: seq<T>)
    ensures |Dedup(xs)| + DupCount(xs) == |xs|
    decreases |xs|
  {
    if xs != [] {
      DedupPlusDuplicates(xs[..|xs| - 1]);
    }
  }

  /** Deduplication keeps exactly the elements of `xs`. */
  lemma {:induction false} DedupElements<T>(xs: seq<T>)
    ensures forall x :: x in Dedup(xs) <==> x in xs
    decreases |xs|
  {
    if xs != [] {
      var init := xs[..|xs| - 1];
      DedupElements(init);
      assert xs == init + [xs[|xs| - 1]];
    }
  }

  /** No element occurs twice in the deduplicated sequence. */
  lemma {:induction false} DedupDistinct<T>(xs: seq<T>)
    ensures forall i, j :: 0 <= i < j < |Dedup(xs)| ==> Dedup(xs)[i] != Dedup(xs)[j]
    decreases |xs|
  {
    if xs != [] {
      var init := xs[..|xs| - 1];
      DedupDistinct(init);
      DedupElements(init);
    }
  }

  lemma FirstIndexOfPrefix<T>(init: seq<T>, x: T, y: T)
    requires y in init
    ensures FirstIndex(init + [x], y) == FirstIndex(init, y)
  {
    var i := FirstIndex(init, y);
    var j := FirstIndex(init + [x], y);
    assert (init + [x])[i] == y;
    assert forall k :: 0 <= k < |init| ==> (init + [x])[k] == init[k];
  }

  /** The kept elements appear in the order of their first occurrences. */
  lemma {:induction false} DedupOrder<T>(xs: seq<T>)
    ensures forall y :: y in Dedup(xs) ==> y in xs
    ensures forall i, j :: 0 <= i < j < |Dedup(xs)| ==>
              FirstIndex(xs, Dedup(xs)[i]) < FirstIndex(xs, Dedup(xs)[j])
    decreases |xs|
  {
    DedupElements(xs);
    if xs != [] {
      var init, x := xs[..|xs| - 1], xs[|xs| - 1];
      assert xs == init + [x];
      DedupOrder(init);
      DedupElements(init);
      var d := Dedup(xs);
      forall i, j | 0 <= i < j < |d|
        ensures FirstIndex(xs, d[i]) < FirstIndex(xs, d[j])
      {
        assert d[i] in init by {
          if x in init {
            assert d[i] in Dedup(init);
          } else {
            assert i < |Dedup(init)|;
            assert d[i] == Dedup(init)[i];
          }
        }
        FirstIndexOfPrefix(init, x, d[i]);
        if j < |Dedup(init)| {
          assert d[j] == Dedup(init)[j];
          assert d[i] == Dedup(init)[i];
          FirstIndexOfPrefix(init, x, d[j]);
        } else {
          assert x !in init && d[j] == x;
          assert FirstIndex(xs, x) == |init| by {
            assert forall k :: 0 <= k < |init| ==> xs[k] == init[k];
          }
        }
      }
    }
  }

  /** Deduplicating twice is deduplicating once. */
  lemma {:induction false} DedupIdempotent<T>(xs: seq<T>)
    ensures Dedup(Dedup(xs)) == Dedup(xs)
  {
    DedupDistinct(xs);
    DistinctFixed(Dedup(xs));
  }

  lemma {:induction false} DistinctFixed<T>(xs: seq<T>)
    requires forall i, j :: 0 <= i < j < |xs| ==> xs[i] != xs[j]
    ensures Dedup(xs) == xs
    decreases |xs|
  {
    if xs != [] {
      var init := xs[..|xs| - 1];
      DistinctFixed(init);
      assert xs[|xs| - 1] !in init;
      assert init + [xs[|xs| - 1]] == xs;
    }
  }

  function Map<T, U>(xs: seq<T>, f: T -> U): (ys: seq<U>)
    ensures |ys| == |xs|
    ensures forall i :: 0 <= i < |xs| ==> ys[i] == f(xs[i])
  {
    seq(|xs|, i requires 0 <= i < |xs| => f(xs[i]))
  }

  ghost predicate InjectiveOn<T, U>(f: T -> U, xs: seq<T>)
  {
    forall a, b :: a in xs && b in xs && f(a) == f(b) ==> a == b
  }

  /**
    Deduplicating by a key that is injective on the elements is deduplicating the
    elements themselves: same kept positions, same duplicate count.
  */
  lemma {:induction false} DedupByKey<T, U>(xs: seq<T>, f: T -> U)
    requires InjectiveOn(f, xs)
    ensures Dedup(Map(xs, f)) == Map(Dedup(xs), f)
    ensures DupCount(Map(xs, f)) == DupCount(xs)
    decreases |xs|
  {
    if xs != [] {
      var init, x := xs[..|xs| - 1], xs[|xs| - 1];
      assert forall a :: a in init ==> a in xs;
      DedupByKey(init, f);
      var keys := Map(xs, f);
      assert keys[..|keys| - 1] == Map(init, f);
      assert f(x) in Map(init, f) <==> x in init by {
        if f(x) in Map(init, f) {
          var k :| 0 <= k < |init| && Map(init, f)[k] == f(x);
          assert init[k] in xs;
        }
        if x in init {
          var k :| 0 <= k < |init| && init[k] == x;
          assert Map(init, f)[k] == f(x);
        }
      }
      if x !in init {
        assert Map(Dedup(init) + [x], f) == Map(Dedup(init), f) + [f(x)];
      }
    }
  }
}
