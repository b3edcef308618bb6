/**
 How the file is divided: the runs of the mapped intervals and the blocks of the
 free list are disjoint and together make up exactly the first `max` bytes.
 */
module Tiling {
  import opened Machine
  import opened IntervalSpec
  import opened FreeList

  /** The value of an interval that has no place in the file yet. */
  const UNMAPPED: u64 := U64_MAX

  datatype Extent = Extent(off: int, len: int)

  ghost predicate Apart(a: Extent, b: Extent) {
    a.off + a.len <= b.off || b.off + b.len <= a.off
  }

  ghost predicate InFile(a: Extent, max: int) {
    0 <= a.off && 0 < a.len && a.off + a.len <= max
  }

  ghost predicate Holds(a: Extent, x: int) {
    a.off <= x < a.off + a.len
  }

  /** The part of an interval map that has a place in the file. */
  ghost function Mapped(m: Intervals<u64>): Intervals<u64> {
    map k | k in m && m[k].value != UNMAPPED :: m[k]
  }

  ghost function Run(mp: Intervals<u64>, k: u64): Extent
    requires k in mp
  {
    Extent(mp[k].value, mp[k].end - k + 1)
  }

  ghost function Block(n: Node<u64>): Extent {
    Extent(n.item, n.size)
  }

  ghost predicate RunsApart(mp: Intervals<u64>, max: int) {
    && (forall k :: k in mp ==> InFile(Run(mp, k), max))
    && (forall j, k :: j in mp && k in mp && j != k ==> Apart(Run(mp, j), Run(mp, k)))
  }

  ghost predicate BlocksApart(free: multiset<Node<u64>>, max: int) {
    && (forall n :: n in free ==> free[n] == 1 && InFile(Block(n), max))
    && (forall n, o :: n in free && o in free && n != o ==> Apart(Block(n), Block(o)))
  }

  ghost predicate RunsOffBlocks(mp: Intervals<u64>, free: multiset<Node<u64>>) {
    forall k, n :: k in mp && n in free ==> Apart(Run(mp, k), Block(n))
  }

  ghost predicate InRun(mp: Intervals<u64>, k: u64, x: int) {
    k in mp && Holds(Run(mp, k), x)
  }

  ghost predicate InBlock(free: multiset<Node<u64>>, n: Node<u64>, x: int) {
    n in free && Holds(Block(n), x)
  }

  ghost predicate Owned(mp: Intervals<u64>, free: multiset<Node<u64>>, x: int) {
    (exists k :: InRun(mp, k, x)) || (exists n :: InBlock(free, n, x))
  }

  ghost predicate Tiled(mp: Intervals<u64>, free: multiset<Node<u64>>, max: int) {
    && RunsApart(mp, max)
    && BlocksApart(free, max)
    && RunsOffBlocks(mp, free)
    && (forall x :: 0 <= x < max ==> Owned(mp, free, x))
  }

  lemma BlockIsUnique(free: multiset<Node<u64>>, n: Node<u64>, max: int)
    requires BlocksApart(free, max) && n in free
    ensures n !in free - multiset{n}
  {
  }

  /** A free block may become the run of a new mapped interval. */
  lemma MapBlock(mp: Intervals<u64>, free: multiset<Node<u64>>, max: int, n: Node<u64>, a: u64, e: u64)
    requires Tiled(mp, free, max) && n in free
    requires a !in mp && e - a + 1 == n.size
    ensures Tiled(mp[a := Interval(e, n.item)], free - multiset{n}, max)
  {
    var mp' := mp[a := Interval(e, n.item)];
    var rest := free - multiset{n};
    BlockIsUnique(free, n, max);
    assert Run(mp', a) == Block(n);
    assert forall k :: k in mp ==> Run(mp', k) == Run(mp, k);
    forall x | 0 <= x < max ensures Owned(mp', rest, x) {
      MappedIsOwned(mp, free, max, n, a, e, x);
    }
  }

  lemma MappedIsOwned(mp: Intervals<u64>, free: multiset<Node<u64>>, max: int, n: Node<u64>, a: u64, e: u64, x: int)
    requires Tiled(mp, free, max) && n in free && a !in mp && e - a + 1 == n.size && 0 <= x < max
    ensures Owned(mp[a := Interval(e, n.item)], free - multiset{n}, x)
  {
    var mp' := mp[a := Interval(e, n.item)];
    assert Owned(mp, free, x);
    if k :| InRun(mp, k, x) {
      assert InRun(mp', k, x);
    } else {
      var o :| InBlock(free, o, x);
      assert o == n ==> InRun(mp', a, x);
      assert o != n ==> InBlock(free - multiset{n}, o, x);
    }
  }

  /** A run may become a free block. */
  lemma FreeRun(mp: Intervals<u64>, free: multiset<Node<u64>>, max: int, k: u64, n: Node<u64>)
    requires Tiled(mp, free, max) && k in mp && Block(n) == Run(mp, k)
    ensures Tiled(mp - {k}, free + multiset{n}, max)
  {
    var mp' := mp - {k};
    var free' := free + multiset{n};
    assert n in free ==> Apart(Run(mp, k), Block(n));
    assert forall j :: j in mp' ==> Run(mp', j) == Run(mp, j);
    forall x | 0 <= x < max ensures Owned(mp', free', x) {
      FreedIsOwned(mp, free, max, k, n, x);
    }
  }

  lemma FreedIsOwned(mp: Intervals<u64>, free: multiset<Node<u64>>, max: int, k: u64, n: Node<u64>, x: int)
    requires Tiled(mp, free, max) && k in mp && Block(n) == Run(mp, k) && 0 <= x < max
    ensures Owned(mp - {k}, free + multiset{n}, x)
  {
    var mp' := mp - {k};
    var free' := free + multiset{n};
    assert Owned(mp, free, x);
    if j :| InRun(mp, j, x) {
      assert j == k ==> InBlock(free', n, x);
      assert j != k ==> InRun(mp', j, x);
    } else {
      var o :| InBlock(free, o, x);
      assert InBlock(free', o, x);
    }
  }

  /** A free block may be cut in two. */
  lemma SplitBlock(mp: Intervals<u64>, free: multiset<Node<u64>>, max: int, n: Node<u64>, a: Node<u64>, b: Node<u64>)
    requires Tiled(mp, free, max) && n in free
    requires 0 < a.size && 0 < b.size && a.size + b.size == n.size
    requires a.item == n.item && b.item == n.item + a.size
    ensures Tiled(mp, free - multiset{n} + multiset{b} + multiset{a}, max)
  {
    var rest := free - multiset{n};
    var free' := rest + multiset{b} + multiset{a};
    BlockIsUnique(free, n, max);
    forall o | o in rest ensures Apart(Block(o), Block(a)) && Apart(Block(o), Block(b)) {
      assert Apart(Block(o), Block(n));
    }
    forall k | k in mp ensures Apart(Run(mp, k), Block(a)) && Apart(Run(mp, k), Block(b)) {
      assert Apart(Run(mp, k), Block(n));
    }
    assert a !in rest && b !in rest && a != b;
    SplitOwned(mp, free, max, n, a, b);
  }

  lemma SplitOwned(mp: Intervals<u64>, free: multiset<Node<u64>>, max: int, n: Node<u64>, a: Node<u64>, b: Node<u64>)
    requires Tiled(mp, free, max) && n in free
    requires a.size + b.size == n.size && a.item == n.item && b.item == n.item + a.size
    ensures forall x :: 0 <= x < max ==> Owned(mp, free - multiset{n} + multiset{b} + multiset{a}, x)
  {
    var free' := free - multiset{n} + multiset{b} + multiset{a};
    forall x | 0 <= x < max ensures Owned(mp, free', x) {
      assert Owned(mp, free, x);
      if o :| InBlock(free, o, x) {
        if o == n {
          assert InBlock(free', a, x) || InBlock(free', b, x);
        } else {
          assert InBlock(free', o, x);
        }
      }
    }
  }

  /** The file may grow by a free block at its end. */
  lemma ExtendFile(mp: Intervals<u64>, free: multiset<Node<u64>>, max: int, n: Node<u64>)
    requires Tiled(mp, free, max) && 0 < n.size && n.item == max
    ensures Tiled(mp, free + multiset{n}, max + n.size)
  {
    var free' := free + multiset{n};
    forall x | 0 <= x < max + n.size ensures Owned(mp, free', x) {
      if x < max {
        assert Owned(mp, free, x);
        if o :| InBlock(free, o, x) { assert InBlock(free', o, x); }
      } else {
        assert InBlock(free', n, x);
      }
    }
  }

  lemma EmptyTiled()
    ensures Tiled(map[], multiset{}, 0)
  {
  }

  /** The file may grow by the run of a new mapped interval. */
  lemma AppendRun(mp: Intervals<u64>, free: multiset<Node<u64>>, max: u64, a: u64, size: u64)
    requires Tiled(mp, free, max) && 0 < size && a !in mp && a + size <= U64_LIMIT
    ensures Tiled(mp[a := Interval(a + size - 1, max)], free, max + size)
  {
    hide Tiled;
    var n := Node(size, max);
    ExtendFile(mp, free, max, n);
    MapBlock(mp, free + multiset{n}, max + size, n, a, a + size - 1);
    assert free + multiset{n} - multiset{n} == free;
  }

  // -------------------------------------------------------------- translation

  ghost predicate MapsAt(m: Intervals<u64>, k: u64, x: int) {
    Covers(m, k, x) && m[k].value != UNMAPPED
  }

  /** Where in the file the byte of virtual address `x` is. */
  ghost function Translate(m: Intervals<u64>, x: int): Option<int> {
    if exists k: u64 :: MapsAt(m, k, x) then
      var k: u64 :| MapsAt(m, k, x);
      Some(m[k].value + x - k)
    else None
  }

  lemma TranslateIn(m: Intervals<u64>, k: u64, x: int)
    requires Disjoint(m) && Covers(m, k, x)
    ensures Translate(m, x) == if m[k].value == UNMAPPED then None else Some(m[k].value + x - k)
  {
    forall j: u64 | Covers(m, j, x) ensures j == k { CoverUnique(m, j, k, x); }
    assert m[k].value != UNMAPPED ==> MapsAt(m, k, x);
  }

  ghost predicate SameMapping(m: Intervals<u64>, n: Intervals<u64>, x: int) {
    forall k: u64 :: MapsAt(m, k, x) ==> k in n && n[k] == m[k]
  }

  /** Translation depends on the mapped intervals only. */
  lemma TranslateMapped(m: Intervals<u64>, n: Intervals<u64>, x: int)
    requires Disjoint(m) && Disjoint(n) && SameMapping(m, n, x) && SameMapping(n, m, x)
    ensures Translate(m, x) == Translate(n, x)
  {
    forall k: u64 | MapsAt(n, k, x) ensures MapsAt(m, k, x) {
    }
    if k: u64 :| MapsAt(m, k, x) {
      TranslateIn(m, k, x);
      TranslateIn(n, k, x);
    }
  }

  /** Distinct mapped addresses never share a place in the file. */
  lemma TranslateInjective(m: Intervals<u64>, free: multiset<Node<u64>>, max: int, x: int, y: int)
    requires Disjoint(m) && Tiled(Mapped(m), free, max)
    requires Translate(m, x).Some? && Translate(m, x) == Translate(m, y)
    ensures x == y && 0 <= Translate(m, x).value < max
  {
    var j: u64 :| MapsAt(m, j, x);
    var k: u64 :| MapsAt(m, k, y);
    TranslateIn(m, j, x);
    TranslateIn(m, k, y);
    var mp := Mapped(m);
    assert j in mp && k in mp && InFile(Run(mp, j), max);
    assert j != k ==> Apart(Run(mp, j), Run(mp, k));
  }
}
