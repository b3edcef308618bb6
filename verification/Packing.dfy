/**
 Whether a row of objects finds blocks, decided from the sizes of the unused blocks and
 of the tail alone: each takes a smallest block that is large enough and leaves the
 rest of it, or else the front of the tail.
 */
module Packing {
  import opened Machine
  import opened FreeList

  predicate SomeFits(sizes: multiset<u64>, need: u64) {
    exists x :: x in sizes && need <= x
  }

  /** A smallest size that is large enough. */
  predicate IsBestFit(sizes: multiset<u64>, need: u64, x: u64) {
    x in sizes && need <= x && forall y :: y in sizes && need <= y ==> x <= y
  }

  lemma {:induction false} BestFitExists(sizes: multiset<u64>, need: u64)
    requires SomeFits(sizes, need)
    ensures exists x: u64 :: IsBestFit(sizes, need, x)
    decreases |sizes|
  {
    var x :| x in sizes && need <= x;
    var rest := sizes[x := 0];
    if SomeFits(rest, need) {
      BestFitExists(rest, need);
      var y: u64 :| IsBestFit(rest, need, y);
      var best := if y < x then y else x;
      forall z | z in sizes && need <= z ensures best <= z { assert z != x ==> z in rest; }
      assert best in sizes;
      assert IsBestFit(sizes, need, best);
    } else {
      forall y | y in sizes && need <= y ensures x <= y { assert y != x ==> y in rest; }
      assert IsBestFit(sizes, need, x);
    }
  }

  function BestFit(sizes: multiset<u64>, need: u64): (x: u64)
    requires SomeFits(sizes, need)
    ensures IsBestFit(sizes, need, x)
  {
    BestFitExists(sizes, need);
    var x :| x in sizes && IsBestFit(sizes, need, x);
    x
  }

  /** The sizes once `need` has been cut from a best fit. */
  function CutSizes(sizes: multiset<u64>, need: u64): multiset<u64>
    requires SomeFits(sizes, need)
  {
    var x := BestFit(sizes, need);
    sizes - multiset{x} + if x == need then multiset{} else multiset{x - need}
  }

  /** Every need finds a block when its turn comes. */
  predicate Packs(sizes: multiset<u64>, tail: u64, needs: seq<u64>)
    decreases |needs|
  {
    needs == [] ||
    if SomeFits(sizes, needs[0]) then Packs(CutSizes(sizes, needs[0]), tail, needs[1..])
    else needs[0] <= tail && Packs(sizes, tail - needs[0], needs[1..])
  }

  function Sum(needs: seq<u64>): nat {
    if needs == [] then 0 else needs[0] + Sum(needs[1..])
  }

  /** A tail as long as all of them together is enough, whatever blocks are unused. */
  lemma {:induction false} TailIsEnough(sizes: multiset<u64>, tail: u64, needs: seq<u64>)
    requires Sum(needs) <= tail
    ensures Packs(sizes, tail, needs)
    decreases |needs|
  {
    if needs != [] {
      if SomeFits(sizes, needs[0]) {
        TailIsEnough(CutSizes(sizes, needs[0]), tail, needs[1..]);
      } else {
        TailIsEnough(sizes, tail - needs[0], needs[1..]);
      }
    }
  }

  // ---------------------------------------------------- the sizes of a free list

  function SizeSeq<T>(d: seq<Node<T>>): (sizes: seq<u64>)
    ensures |sizes| == |d| && forall i :: 0 <= i < |d| ==> sizes[i] == d[i].size
  {
    seq(|d|, i requires 0 <= i < |d| => d[i].size)
  }

  function SizesOf<T>(d: seq<Node<T>>): multiset<u64> {
    multiset(SizeSeq(d))
  }

  lemma InSizes<T>(d: seq<Node<T>>, x: u64)
    ensures x in SizesOf(d) <==> exists n :: n in d && n.size == x
  {
    if n :| n in d && n.size == x {
      var i :| 0 <= i < |d| && d[i] == n;
      assert SizeSeq(d)[i] == x;
    }
    if x in SizeSeq(d) {
      var i :| 0 <= i < |d| && SizeSeq(d)[i] == x;
      assert d[i] in d;
    }
  }

  lemma SizesCons<T>(n: Node<T>, d: seq<Node<T>>)
    ensures SizesOf([n] + d) == multiset{n.size} + SizesOf(d)
  {
    assert SizeSeq([n] + d) == [n.size] + SizeSeq(d);
  }

  lemma {:induction false} InsertedSizes<T>(d: seq<Node<T>>, n: Node<T>)
    ensures SizesOf(Inserted(d, n)) == SizesOf(d) + multiset{n.size}
  {
    hide SizesOf;
    if d == [] || n.size < d[0].size {
      SizesCons(n, d);
    } else {
      InsertedSizes(d[1..], n);
      SizesCons(d[0], Inserted(d[1..], n));
      SizesCons(d[0], d[1..]);
      assert [d[0]] + d[1..] == d;
    }
  }

  lemma ErasedSizes<T>(d: seq<Node<T>>, i: nat)
    requires i < |d|
    ensures SizesOf(Erased(d, i)) == SizesOf(d) - multiset{d[i].size}
  {
    var s := SizeSeq(d);
    assert SizeSeq(Erased(d, i)) == s[..i] + s[i + 1..];
    assert s == s[..i] + ([s[i]] + s[i + 1..]);
  }

  /** `splice` takes a best fit and leaves what the sizes say. */
  lemma SplicedSizes<T>(d: seq<Node<T>>, need: u64, advance: (T, u64) -> (T, T))
    requires Sorted(d)
    ensures Chosen(d, need, U64_MAX).Some? <==> SomeFits(SizesOf(d), need)
    ensures Chosen(d, need, U64_MAX).Some? ==>
              && need <= d[Chosen(d, need, U64_MAX).value].size
              && SizesOf(SplicedRest(d, Chosen(d, need, U64_MAX).value, need, advance)) == CutSizes(SizesOf(d), need)
  {
    hide Inserted, Erased, Sorted, Chosen, SizesOf, SomeFits, IsBestFit;
    ChosenSize(d, need);
    if Chosen(d, need, U64_MAX).Some? {
      var i := Chosen(d, need, U64_MAX).value;
      OneBestFit(SizesOf(d), need, d[i].size, BestFit(SizesOf(d), need));
      ErasedSizes(d, i);
      if d[i].size != need { InsertedSizes(Erased(d, i), Node(d[i].size - need, advance(d[i].item, need).0)); }
    }
  }

  lemma OneBestFit(sizes: multiset<u64>, need: u64, x: u64, y: u64)
    requires IsBestFit(sizes, need, x) && IsBestFit(sizes, need, y)
    ensures x == y
  {
  }

  lemma ChosenSize<T>(d: seq<Node<T>>, need: u64)
    requires Sorted(d)
    ensures Chosen(d, need, U64_MAX).Some? <==> SomeFits(SizesOf(d), need)
    ensures Chosen(d, need, U64_MAX).Some? ==>
              var x := d[Chosen(d, need, U64_MAX).value].size; need <= x && IsBestFit(SizesOf(d), need, x)
  {
    hide Sorted, Chosen, SizesOf;
    ChosenIsBestFit(d, need, U64_MAX);
    if Chosen(d, need, U64_MAX).Some? {
      var n := d[Chosen(d, need, U64_MAX).value];
      assert n in d;
      InSizes(d, n.size);
      forall y | y in SizesOf(d) && need <= y ensures n.size <= y { InSizes(d, y); }
    } else if SomeFits(SizesOf(d), need) {
      var x :| x in SizesOf(d) && need <= x;
      InSizes(d, x);
    }
  }
}
