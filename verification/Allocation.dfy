/**
 Allocating over addresses that are already mapped: `alloc` and `alloc_unmapped` keep
 the file divided exactly when they meet no mapped interval. What they displace is
 freed by nobody.
 */
module Allocation {
  import opened Machine
  import opened IntervalSpec
  import opened FreeList
  import opened Tiling
  import opened MappingSpec
  import Erasure

  /**
   Every piece a deletion leaves starts at the offset of the interval it was cut from,
   and is shorter if it was cut.
   */
  lemma CutPiece(m: Intervals<u64>, s: u64, e: u64, j: u64) returns (i: u64)
    requires Disjoint(m) && s <= e && j in Mapped(Cut(m, s, e))
    ensures i in Mapped(m) && Mapped(Cut(m, s, e))[j].value == m[i].value
    ensures Mapped(Cut(m, s, e))[j].end - j <= m[i].end - i
    ensures i <= e && s <= m[i].end ==> Mapped(Cut(m, s, e))[j].end - j < m[i].end - i
  {
    if SplitAt(m, e) { SplitterUnique(m, Splitter(m, e), e); }
    i := if j in m then j else Splitter(m, e);
  }

  /** Once a mapped interval has lost a point, nobody owns the last byte of its run. */
  lemma CutLosesLast(m: Intervals<u64>, free: multiset<Node<u64>>, max: int, k: u64, s: u64, e: u64)
    requires Disjoint(m) && s <= e && Tiled(Mapped(m), free, max)
    requires k in Mapped(m) && k <= e && s <= m[k].end
    ensures var x := m[k].value + (m[k].end - k);
      0 <= x < max && !Owned(Mapped(Cut(m, s, e)), free, x)
  {
    hide Cut;
    var mp := Mapped(m);
    var x := m[k].value + (m[k].end - k);
    assert Holds(Run(mp, k), x) && InFile(Run(mp, k), max) by { assert k <= m[k].end; }
    forall j | j in Mapped(Cut(m, s, e)) ensures !InRun(Mapped(Cut(m, s, e)), j, x) {
      var i := CutPiece(m, s, e, j);
      assert i != k ==> Apart(Run(mp, i), Run(mp, k));
    }
    forall n | n in free ensures !InBlock(free, n, x) {
      assert Apart(Run(mp, k), Block(n));
    }
  }

  /** The offset just handed out is no interval's, so the new mapping stands alone whatever was there. */
  lemma AssignOverMapped(m: Intervals<u64>, free: multiset<Node<u64>>, max: int, s: u64, e: u64, off: u64, size: u64)
    requires Disjoint(m) && s <= e && Tiled(Mapped(m), free, max) && Node(size, off) in free && off != UNMAPPED
    ensures Mapped(Assign(m, s, e, off)) == Mapped(Cut(m, s, e))[s := Interval(e, off)]
  {
    hide Cut, Coalesce, Tiled;
    TileValueIsFresh(Mapped(m), free, max, Node(size, off));
    forall j: u64 | j in Mapped(Cut(m, s, e)) ensures Mapped(Cut(m, s, e))[j].value != off {
      var i := CutPiece(m, s, e, j);
      assert Mapped(m)[i].value != off;
    }
    CoalesceFresh(Cut(m, s, e), s, e, off);
  }

  lemma AllocOverMapped(v: Vam, addr: u64, size: u64, k: u64)
    requires VamOk(v) && IsRange(addr, size) && Room(v, size)
    requires k in Mapped(v.ivs) && k <= EndOffset(addr, size) && addr <= v.ivs[k].end
    ensures var w := AllocOf(v, addr, size).0; !Tiled(Mapped(w.ivs), multiset(w.free), w.maxOff)
  {
    hide Tiled, Disjoint, Assign, AllocOffset, Cut, Owned;
    var e := EndOffset(addr, size);
    assert e == addr + size - 1;
    var (u, off) := AllocOffset(v, addr, size);
    var n := Node(size, off);
    var free := multiset(u.free) + multiset{n};
    AllocOffsetTiles(v, addr, size);
    assert n in free;
    AssignOverMapped(v.ivs, free, u.maxOff, addr, e, off, size);
    CutLosesLast(v.ivs, free, u.maxOff, k, addr, e);
    var x := v.ivs[k].value + (v.ivs[k].end - k);
    NobodyOwns(Mapped(Cut(v.ivs, addr, e)), free, multiset(u.free), n, addr, e, u.maxOff, x);
  }

  lemma NobodyOwns(mp: Intervals<u64>, free: multiset<Node<u64>>, rest: multiset<Node<u64>>, n: Node<u64>,
          s: u64, e: u64, max: int, x: int)
    requires free == rest + multiset{n} && n.size == e - s + 1 && 0 <= x < max
    requires !Owned(mp, free, x)
    ensures !Tiled(mp[s := Interval(e, n.item)], rest, max)
  {
    var mp' := mp[s := Interval(e, n.item)];
    assert !InBlock(free, n, x);
    forall j ensures !InRun(mp', j, x) {
      assert j != s && j in mp ==> Run(mp', j) == Run(mp, j);
      assert !InRun(mp, j, x);
    }
    forall o ensures !InBlock(rest, o, x) {
      assert !InBlock(free, o, x);
    }
    assert !Owned(mp', rest, x);
  }

  /** `alloc` keeps the file divided if and only if no mapped interval meets its range. */
  lemma AllocTilesIff(v: Vam, addr: u64, size: u64)
    requires VamOk(v) && IsRange(addr, size) && Room(v, size)
    ensures var w := AllocOf(v, addr, size).0;
      Tiled(Mapped(w.ivs), multiset(w.free), w.maxOff) <==> NoneMapped(v.ivs, addr, EndOffset(addr, size))
  {
    hide Tiled, AllocOf;
    var e := EndOffset(addr, size);
    if NoneMapped(v.ivs, addr, e) {
      AllocKeepsTiling(v, addr, size);
    } else {
      var k: u64 :| k in v.ivs && k <= e && addr <= v.ivs[k].end && v.ivs[k].value != UNMAPPED;
      AllocOverMapped(v, addr, size, k);
    }
  }

  /** So does `alloc_unmapped`. */
  lemma AllocUnmappedTilesIff(v: Vam, addr: u64, size: u64)
    requires VamOk(v) && IsRange(addr, size)
    ensures var w := AllocUnmappedOf(v, addr, size);
      Tiled(Mapped(w.ivs), multiset(w.free), w.maxOff) <==> NoneMapped(v.ivs, addr, EndOffset(addr, size))
  {
    hide Tiled, Assign, Cut, Disjoint, Owned;
    var e := EndOffset(addr, size);
    assert e == addr + size - 1;
    if NoneMapped(v.ivs, addr, e) {
      AllocUnmappedKeepsTiling(v, addr, size);
    } else {
      var k: u64 :| k in v.ivs && k <= e && addr <= v.ivs[k].end && v.ivs[k].value != UNMAPPED;
      CutLosesLast(v.ivs, multiset(v.free), v.maxOff, k, addr, e);
      UnmappedKeepsCut(v.ivs, addr, e);
      NotTiled(Mapped(Cut(v.ivs, addr, e)), multiset(v.free), v.maxOff, v.ivs[k].value + (v.ivs[k].end - k));
    }
  }

  lemma UnmappedKeepsCut(m: Intervals<u64>, s: u64, e: u64)
    requires Disjoint(m) && s <= e
    ensures Mapped(Assign(m, s, e, UNMAPPED)) == Mapped(Cut(m, s, e))
  {
    hide Cut, Coalesce;
    CutDisjoint(m, s, e);
    CoalesceUnmapped(Cut(m, s, e), s, e);
  }

  lemma NotTiled(mp: Intervals<u64>, free: multiset<Node<u64>>, max: int, x: int)
    requires 0 <= x < max && !Owned(mp, free, x)
    ensures !Tiled(mp, free, max)
  {
  }

  /** Both lose the bytes of a mapped interval that they are asked to write over. */
  lemma AllocExample()
    ensures var v := Vam(map[100 := Interval(109, 0)], [], 110, 10);
      && VamOk(v) && Room(v, 10)
      && !Tiled(Mapped(AllocOf(v, 100, 10).0.ivs), multiset(AllocOf(v, 100, 10).0.free), AllocOf(v, 100, 10).0.maxOff)
      && !Tiled(Mapped(AllocUnmappedOf(v, 100, 10).ivs), multiset(v.free), v.maxOff)
  {
    hide Tiled, Disjoint, AllocOf, AllocUnmappedOf;
    var v := Vam(map[100 := Interval(109, 0)], [], 110, 10);
    Erasure.OneRunTiled(100, 10);
    assert EndOffset(100, 10) == 109 && !NoneMapped(v.ivs, 100, 109) by { assert 100 in v.ivs; }
    AllocTilesIff(v, 100, 10);
    AllocUnmappedTilesIff(v, 100, 10);
    UnmappedSpends(v);
  }

  /** `alloc_unmapped` touches neither the free list nor the end of the file. */
  lemma UnmappedSpends(v: Vam)
    ensures AllocUnmappedOf(v, 100, 10) == v.(ivs := AllocUnmappedOf(v, 100, 10).ivs)
  {
    hide Assign;
  }
}
