/**
 The virtual address mapping of include/storage/SimpleStorage.hpp as a value:
 what each operation does to intervals, free list and high-water marks, and what
 that means for translation and for the division of the file.
 */
module MappingSpec {
  import opened Machine
  import opened IntervalSpec
  import opened IntervalSteps
  import opened FreeList
  import opened Tiling

  /** `intervals`, `empty` and `max`; the field `unmapped` is always empty. */
  datatype Vam = Vam(ivs: Intervals<u64>, free: seq<Node<u64>>, maxAddr: u64, maxOff: u64)

  const NEW_VAM := Vam(map[], [], 0, 0)

  ghost predicate VamOk(v: Vam) {
    && Canonical(v.ivs)
    && Sorted(v.free)
    && v.maxOff < UNMAPPED
    && Tiled(Mapped(v.ivs), multiset(v.free), v.maxOff)
  }

  /** How far the file reaches once `size` bytes are allocated: it grows only when no free block is large enough. */
  function NewMax(v: Vam, size: u64): int {
    if Chosen(v.free, size, U64_MAX).Some? then v.maxOff else v.maxOff + size
  }

  /** Allocating `size` bytes neither wraps nor reaches the unmapped marker. */
  predicate Room(v: Vam, size: u64) {
    NewMax(v, size) < UNMAPPED
  }

  /** The same for a lookup, which allocates only when it is the first touch of its interval. */
  predicate RoomAt(v: Vam, addr: u64, size: u64) {
    FirstTouchAt(v, addr) ==> Room(v, size)
  }

  predicate FirstTouchAt(v: Vam, addr: u64) {
    Find(v.ivs, addr).Some? && v.ivs[Find(v.ivs, addr).value].value == UNMAPPED
  }

  /** `end_offset`; the source asserts that the size is not zero. */
  function EndOffset(addr: u64, size: u64): u64
    requires size != 0
  {
    Add64(addr, size - 1)
  }

  /** `addr` and `size` denote a range of addresses. */
  predicate IsRange(addr: u64, size: u64) {
    size != 0 && addr + size <= U64_LIMIT
  }

  lemma EndOffsetExact(addr: u64, size: u64)
    requires IsRange(addr, size)
    ensures EndOffset(addr, size) == addr + size - 1
  {
    Add64Exact(addr, size - 1);
  }

  // --------------------------------------------------------------- allocation

  function AdvanceOffset(off: u64, size: u64): (u64, u64) {
    (Add64(off, size), off)
  }

  ghost function AllocOffset(v: Vam, addr: u64, size: u64): (Vam, u64) {
    match Chosen(v.free, size, U64_MAX)
    case Some(i) =>
      (v.(free := SplicedRest(v.free, i, size, AdvanceOffset)), SplicedItem(v.free, i, size, AdvanceOffset))
    case None =>
      (v.(maxAddr := Add64(addr, size), maxOff := Add64(v.maxOff, size)), v.maxOff)
  }

  /** The space handed out is a tile of its own, and nothing else of the file changes hands. */
  /** The space is the front of the free block `n`, a smallest that is large enough; only the rest of it comes back. */
  ghost predicate FrontOfBlock(v: Vam, w: Vam, off: u64, size: u64, n: Node<u64>) {
    && n in multiset(v.free) && size <= n.size && off == n.item
    && (forall k :: k in multiset(v.free) && size <= k.size ==> n.size <= k.size)
    && w == v.(free := w.free)
    && multiset(w.free) == multiset(v.free) - multiset{n} + RestOf(n, size)
  }

  /** What remains of a block behind its first `size` bytes. */
  ghost function RestOf(n: Node<u64>, size: u64): multiset<Node<u64>>
    requires size <= n.size
  {
    if n.size == size then multiset{} else multiset{Node(n.size - size, Add64(n.item, size))}
  }

  /** The file grows by exactly the space, and what it grew for is remembered. */
  ghost predicate EndOfFile(v: Vam, w: Vam, addr: u64, off: u64, size: u64) {
    && (forall n :: n in multiset(v.free) ==> n.size < size)
    && off == v.maxOff && w.maxOff == v.maxOff + size && w.maxAddr == (addr + size) % U64_LIMIT
    && w.free == v.free && w.ivs == v.ivs
  }

  /** Where space comes from: one free block, if any is large enough, else the end of the file. */
  lemma AllocOffsetTakes(v: Vam, addr: u64, size: u64)
    requires Sorted(v.free) && v.maxOff + size < U64_LIMIT
    ensures var (w, off) := AllocOffset(v, addr, size);
      (exists n :: FrontOfBlock(v, w, off, size, n)) || EndOfFile(v, w, addr, off, size)
  {
    hide Sorted, SplicedRest, SplicedItem, FrontOfBlock;
    ChosenIsBestFit(v.free, size, U64_MAX);
    match Chosen(v.free, size, U64_MAX)
    case Some(i) =>
      forall k | k in multiset(v.free) && size <= k.size ensures v.free[i].size <= k.size { assert k in v.free; }
      SpliceTakes(v, i, size);
    case None => forall n | n in multiset(v.free) ensures n.size < size { assert n in v.free; }
  }

  lemma SpliceTakes(v: Vam, i: nat, size: u64)
    requires Sorted(v.free) && i < |v.free| && size <= v.free[i].size
    requires forall k :: k in multiset(v.free) && size <= k.size ==> v.free[i].size <= k.size
    ensures FrontOfBlock(v, v.(free := SplicedRest(v.free, i, size, AdvanceOffset)),
                         SplicedItem(v.free, i, size, AdvanceOffset), size, v.free[i])
  {
    hide Sorted, SplicedRest, RestOf, AdvanceOffset;
    SplicedMeaning(v.free, i, size, AdvanceOffset);
    RestIs(v.free[i], size);
    assert v.free[i] in multiset(v.free);
  }

  lemma RestIs(n: Node<u64>, size: u64)
    requires size <= n.size
    ensures AdvanceOffset(n.item, size).1 == n.item
    ensures RestOf(n, size) ==
            if n.size == size then multiset{} else multiset{Node(n.size - size, AdvanceOffset(n.item, size).0)}
  {
  }

  lemma AllocOffsetTiles(v: Vam, addr: u64, size: u64)
    requires VamOk(v) && 0 < size && Room(v, size)
    ensures var (w, off) := AllocOffset(v, addr, size);
      && w.ivs == v.ivs && Sorted(w.free) && |w.free| <= |v.free|
      && v.maxOff <= w.maxOff == NewMax(v, size)
      && off + size <= w.maxOff
      && Tiled(Mapped(v.ivs), multiset(w.free) + multiset{Node(size, off)}, w.maxOff)
  {
    hide Tiled, Mapped;
    match Chosen(v.free, size, U64_MAX)
    case None =>
      Add64Exact(v.maxOff, size);
      ExtendFile(Mapped(v.ivs), multiset(v.free), v.maxOff, Node(size, v.maxOff));
    case Some(i) =>
      SpliceTiles(v, i, size);
  }

  lemma SpliceTiles(v: Vam, i: nat, size: u64)
    requires VamOk(v) && 0 < size && i < |v.free| && size <= v.free[i].size
    ensures var rest := SplicedRest(v.free, i, size, AdvanceOffset);
      var off := SplicedItem(v.free, i, size, AdvanceOffset);
      && Sorted(rest) && |rest| <= |v.free|
      && off + size <= v.maxOff
      && Tiled(Mapped(v.ivs), multiset(rest) + multiset{Node(size, off)}, v.maxOff)
  {
    hide Tiled, Mapped, SplicedRest, Sorted;
    var n := v.free[i];
    var free := multiset(v.free);
    var rest := SplicedRest(v.free, i, size, AdvanceOffset);
    SplicedMeaning(v.free, i, size, AdvanceOffset);
    assert n in free;
    TiledBlock(Mapped(v.ivs), free, v.maxOff, n);
    if n.size == size {
      assert multiset(rest) + multiset{n} == free;
    } else {
      Add64Exact(n.item, size);
      SplitBlock(Mapped(v.ivs), free, v.maxOff, n, Node(size, n.item), Node(n.size - size, n.item + size));
    }
  }

  lemma TiledBlock(mp: Intervals<u64>, free: multiset<Node<u64>>, max: int, n: Node<u64>)
    requires Tiled(mp, free, max) && n in free
    ensures InFile(Block(n), max)
  {
  }

  /** No mapped interval has the value of a tile that is not its own. */
  lemma TileValueIsFresh(mp: Intervals<u64>, free: multiset<Node<u64>>, max: int, n: Node<u64>)
    requires Tiled(mp, free, max) && n in free
    ensures forall k :: k in mp ==> mp[k].value != n.item
  {
    forall k | k in mp ensures mp[k].value != n.item {
      assert Apart(Run(mp, k), Block(n)) && InFile(Run(mp, k), max) && InFile(Block(n), max);
    }
  }

  // ------------------------------------------------- assignment, mapped part

  /** No mapped interval meets [s, e]. */
  ghost predicate NoneMapped(m: Intervals<u64>, s: u64, e: u64) {
    forall k: u64 :: k in m && k <= e && s <= m[k].end ==> m[k].value == UNMAPPED
  }

  /** Every mapped interval that meets [s, e] lies inside it. */
  ghost predicate WholeMapped(m: Intervals<u64>, s: u64, e: u64) {
    forall k: u64 :: k in m && k <= e && s <= m[k].end && m[k].value != UNMAPPED ==> s <= k && m[k].end <= e
  }

  lemma CutMapped(m: Intervals<u64>, s: u64, e: u64)
    requires Disjoint(m) && s <= e && WholeMapped(m, s, e)
    ensures forall k: u64 {:trigger k in Mapped(Cut(m, s, e))} ::
              k in Mapped(Cut(m, s, e)) <==> k in Mapped(m) && !(s <= k <= e)
    ensures forall k: u64 {:trigger Mapped(Cut(m, s, e))[k]} ::
              k in Mapped(Cut(m, s, e)) ==> Mapped(Cut(m, s, e))[k] == m[k]
  {
    var c := Cut(m, s, e);
    if SplitAt(m, e) { SplitterUnique(m, Splitter(m, e), e); }
    forall k: u64 | k in m && !(s <= k <= e) && m[k].value != UNMAPPED ensures k in c && c[k] == m[k] {
    }
    forall k: u64 | k in c && c[k].value != UNMAPPED ensures k in m && !(s <= k <= e) && c[k] == m[k] {
    }
  }

  /** Assigning a fresh offset adds one mapped interval: merging never fuses it with another. */
  lemma AssignMaps(m: Intervals<u64>, s: u64, e: u64, off: u64)
    requires Disjoint(m) && s <= e && NoneMapped(m, s, e) && off != UNMAPPED
    requires forall k: u64 :: k in Mapped(m) ==> Mapped(m)[k].value != off
    ensures Mapped(Assign(m, s, e, off)) == Mapped(m)[s := Interval(e, off)]
    ensures s !in Mapped(m)
  {
    hide Cut, Coalesce;
    var c := Cut(m, s, e);
    CutMapped(m, s, e);
    CutDisjoint(m, s, e);
    assert Mapped(c).Keys == Mapped(m).Keys;
    assert Mapped(c) == Mapped(m);
    CoalesceFresh(c, s, e, off);
  }

  lemma CoalesceFresh(c: Intervals<u64>, s: u64, e: u64, off: u64)
    requires off != UNMAPPED && forall k: u64 :: k in Mapped(c) ==> Mapped(c)[k].value != off
    ensures Coalesce(c, s, e, off) == c[s := Interval(e, off)]
    ensures Mapped(Coalesce(c, s, e, off)) == Mapped(c)[s := Interval(e, off)]
  {
    assert forall k: u64 :: k in c && c[k].value == off ==> k in Mapped(c);
  }

  /** Assigning `UNMAPPED` removes the mapped intervals of the range, if it cuts none of them. */
  lemma AssignUnmaps(m: Intervals<u64>, s: u64, e: u64)
    requires Disjoint(m) && s <= e && WholeMapped(m, s, e)
    ensures Mapped(Assign(m, s, e, UNMAPPED)) == map k | k in Mapped(m) && !(s <= k <= e) :: m[k]
  {
    CutMapped(m, s, e);
    CoalesceUnmapped(Cut(m, s, e), s, e);
  }

  lemma AssignUnmapsNone(m: Intervals<u64>, s: u64, e: u64)
    requires Disjoint(m) && s <= e && NoneMapped(m, s, e)
    ensures Mapped(Assign(m, s, e, UNMAPPED)) == Mapped(m)
  {
    hide Assign;
    AssignUnmaps(m, s, e);
    var mp := Mapped(m);
    forall k: u64 | k in mp ensures !(s <= k <= e) {
      assert k <= m[k].end;
    }
    assert mp == map k | k in mp && !(s <= k <= e) :: m[k];
  }

  lemma CoalesceUnmapped(c: Intervals<u64>, s: u64, e: u64)
    requires s <= e && s !in Mapped(c)
    ensures Mapped(Coalesce(c, s, e, UNMAPPED)) == Mapped(c)
  {
    var lo := JoinedStart(c, s, UNMAPPED);
    assert lo == s || EndsBefore(c, lo, s, UNMAPPED);
    assert lo !in Mapped(c);
    var d := Coalesce(c, s, e, UNMAPPED);
    assert forall k: u64 :: k in Mapped(d) <==> k in Mapped(c);
  }

  // ------------------------------------------------------------------- alloc

  ghost function AllocOf(v: Vam, addr: u64, size: u64): (Vam, u64)
    requires size != 0
  {
    var (w, off) := AllocOffset(v, addr, size);
    (w.(ivs := Assign(v.ivs, addr, EndOffset(addr, size), off)), off)
  }

  /** `alloc_unmapped` on any intervals and any range; `end_offset` throws for an empty one. */
  ghost function AllocUnmappedAny(v: Vam, addr: u64, size: u64): (Vam, Result) {
    if size == 0 then (v, Thrown)
    else
      var (n, r) := PutSteps(v.ivs, addr, EndOffset(addr, size), UNMAPPED);
      (v.(ivs := n), r)
  }

  lemma AllocUnmappedAnyIs(v: Vam, addr: u64, size: u64)
    requires Disjoint(v.ivs) && IsRange(addr, size)
    ensures AllocUnmappedAny(v, addr, size) == (AllocUnmappedOf(v, addr, size), Success)
  {
    hide PutSteps, Assign;
    EndOffsetExact(addr, size);
    PutIsAssign(v.ivs, addr, EndOffset(addr, size), UNMAPPED);
  }

  ghost function AllocUnmappedOf(v: Vam, addr: u64, size: u64): Vam
    requires size != 0
  {
    v.(ivs := Assign(v.ivs, addr, EndOffset(addr, size), UNMAPPED))
  }

  /** `alloc` over unmapped addresses keeps the file tiled and maps exactly the range, to space of its own. */
  lemma AllocKeepsTiling(v: Vam, addr: u64, size: u64)
    requires VamOk(v) && IsRange(addr, size) && Room(v, size)
    requires NoneMapped(v.ivs, addr, EndOffset(addr, size))
    ensures var (w, off) := AllocOf(v, addr, size);
      && VamOk(w) && v.maxOff <= w.maxOff == NewMax(v, size) && off + size <= w.maxOff
      && Mapped(w.ivs) == Mapped(v.ivs)[addr := Interval(addr + size - 1, off)]
      && addr !in Mapped(v.ivs)
      && |w.ivs| <= |v.ivs| + 2 && |w.free| <= |v.free|
      && multiset(AllocOffset(v, addr, size).0.free) == multiset(w.free)
  {
    hide Tiled, Disjoint, Assign, AllocOffset;
    var e := EndOffset(addr, size);
    assert e == addr + size - 1;
    var (u, off) := AllocOffset(v, addr, size);
    var free := multiset(u.free) + multiset{Node(size, off)};
    AllocOffsetTiles(v, addr, size);
    assert Node(size, off) in free;
    TileValueIsFresh(Mapped(v.ivs), free, u.maxOff, Node(size, off));
    AssignMaps(v.ivs, addr, e, off);
    AssignCanonical(v.ivs, addr, e, off);
    AssignGrowth(v.ivs, addr, e, off);
    MapBlock(Mapped(v.ivs), free, u.maxOff, Node(size, off), addr, e);
    assert free - multiset{Node(size, off)} == multiset(u.free);
  }

  lemma AllocUnmappedKeepsTiling(v: Vam, addr: u64, size: u64)
    requires VamOk(v) && IsRange(addr, size)
    requires NoneMapped(v.ivs, addr, EndOffset(addr, size))
    ensures VamOk(AllocUnmappedOf(v, addr, size))
    ensures Mapped(AllocUnmappedOf(v, addr, size).ivs) == Mapped(v.ivs)
  {
    hide Tiled, Assign, Mapped;
    var e := EndOffset(addr, size);
    assert e == addr + size - 1;
    AssignUnmapsNone(v.ivs, addr, e);
    AssignCanonical(v.ivs, addr, e, UNMAPPED);
  }

  // ------------------------------------------------------------------ lookup

  /** `size_from_start_end`. */
  function SizeOf(start: u64, end: u64): u64 {
    (end - start + 1) % U64_LIMIT
  }

  datatype Hit = Hit(vam: Vam, offset: u64, avail: u64)

  /** The unmapped interval at `k` once its first `size` addresses are mapped to `off`. */
  ghost function FirstTouch(m: Intervals<u64>, k: u64, size: u64, off: u64): Intervals<u64>
    requires k in m && k <= m[k].end && size != 0
  {
    var n := Replaced(m, k, off);
    if size == SizeOf(k, m[k].end) then n else SplitAfter(n, k, EndOffset(k, size), UNMAPPED)
  }

  /** `None` where the source throws. */
  ghost function LookupOf(v: Vam, addr: u64, size: u64, readOnly: bool): Option<Hit> {
    match Find(v.ivs, addr)
    case None => None
    case Some(k) =>
      var iv := v.ivs[k];
      if size == 0 || iv.end < EndOffset(addr, size) then None
      else if iv.value != UNMAPPED then
        Some(Hit(v, Add64(iv.value, addr - k), SizeOf(addr, iv.end)))
      else if readOnly then None
      else
        var (w, off) := AllocOffset(v, addr, size);
        Some(Hit(w.(ivs := FirstTouch(v.ivs, k, size, off)), Add64(off, addr - k), SizeOf(addr, iv.end)))
  }

  /** The intervals after a first touch, and whether the split behind it went through. */
  ghost function TouchSteps(m: Intervals<u64>, k: u64, size: u64, off: u64): (Intervals<u64>, Result)
    requires k in m && size != 0
  {
    var n := Replaced(m, k, off);
    if size == SizeOf(k, m[k].end) then (n, Success) else SplitSteps(n, k, EndOffset(k, size), UNMAPPED)
  }

  /**
   `lookup` on any intervals and any range, one that wraps around included: the mapping
   it leaves, and what it returns.
   */
  ghost function LookupAny(v: Vam, addr: u64, size: u64, readOnly: bool): (Vam, Option<(u64, u64)>) {
    match Find(v.ivs, addr)
    case None => (v, None)
    case Some(k) =>
      var iv := v.ivs[k];
      if size == 0 || iv.end < EndOffset(addr, size) then (v, None)
      else if iv.value != UNMAPPED then
        (v, Some((Add64(iv.value, addr - k), SizeOf(addr, iv.end))))
      else if readOnly then (v, None)
      else
        var (w, off) := AllocOffset(v, addr, size);
        var (n, r) := TouchSteps(v.ivs, k, size, off);
        (w.(ivs := n), if r == Thrown then None else Some((Add64(off, addr - k), SizeOf(addr, iv.end))))
  }

  ghost function Answer(v: Vam, hit: Option<Hit>): (Vam, Option<(u64, u64)>) {
    match hit
    case None => (v, None)
    case Some(h) => (h.vam, Some((h.offset, h.avail)))
  }

  /** A range that runs past the end of the address space is answered like its first address alone. */
  lemma LookupWraps(v: Vam, addr: u64, size: u64)
    requires VamOk(v) && U64_LIMIT < addr + size
    ensures var (w, r) := LookupAny(v, addr, size, true);
      && w == v && (r.Some? <==> Translate(v.ivs, addr).Some?)
      && (r.Some? ==> r.value.0 == Translate(v.ivs, addr).value)
  {
    hide Tiled, Translate, AllocOffset, TouchSteps;
    FindMeaning(v.ivs, addr);
    Add64Exact(addr, size - 1);
    if Find(v.ivs, addr).Some? {
      var k := Find(v.ivs, addr).value;
      assert Covers(v.ivs, k, addr);
      TranslateIn(v.ivs, k, addr);
      if v.ivs[k].value != UNMAPPED { MappedOffsetExact(v, k, addr); }
    } else {
      NowhereUnmapped(v.ivs, addr);
    }
  }

  lemma NowhereUnmapped(m: Intervals<u64>, x: u64)
    requires At(m, x).None?
    ensures Translate(m, x).None?
  {
    assert forall k: u64 :: MapsAt(m, k, x) ==> Covers(m, k, x);
  }

  lemma LookupAnyIsLookup(v: Vam, addr: u64, size: u64, readOnly: bool)
    requires Disjoint(v.ivs) && (size == 0 || IsRange(addr, size))
    ensures LookupAny(v, addr, size, readOnly) == Answer(v, LookupOf(v, addr, size, readOnly))
  {
    hide AllocOffset, EndOffset, Add64, Replaced, SplitAfter;
    if size != 0 && Find(v.ivs, addr).Some? {
      var k := Find(v.ivs, addr).value;
      EndOffsetExact(addr, size);
      if EndOffset(addr, size) <= v.ivs[k].end && v.ivs[k].value == UNMAPPED {
        var off := AllocOffset(v, addr, size).1;
        EndOffsetExact(k, size);
        if size != SizeOf(k, v.ivs[k].end) { TouchSplits(v.ivs, k, size, off); }
      }
    }
  }

  lemma TouchSplits(m: Intervals<u64>, k: u64, size: u64, off: u64)
    requires Disjoint(m) && k in m && size != 0 && k + size - 1 <= m[k].end && size != SizeOf(k, m[k].end)
    ensures k <= m[k].end && TouchSteps(m, k, size, off) == (FirstTouch(m, k, size, off), Success)
  {
    hide SplitAfter, SplitSteps;
    EndOffsetExact(k, size);
    ReplacedCovers(m, k, off, k);
    SplitIsSplitAfter(Replaced(m, k, off), k, EndOffset(k, size), UNMAPPED);
  }

  /** [addr, addr + size) lies inside the interval that starts at `k`. */
  ghost predicate Within(m: Intervals<u64>, k: u64, addr: u64, size: u64) {
    k in m && k <= addr && addr + size - 1 <= m[k].end
  }

  /** A lookup is answered exactly when one interval holds the range, mapped if it is only to be read. */
  lemma LookupAnswers(v: Vam, addr: u64, size: u64, readOnly: bool)
    requires Disjoint(v.ivs) && IsRange(addr, size)
    ensures LookupOf(v, addr, size, readOnly).Some? <==>
            exists k: u64 :: Within(v.ivs, k, addr, size) && (readOnly ==> v.ivs[k].value != UNMAPPED)
    ensures forall k: u64 :: Within(v.ivs, k, addr, size) ==> Find(v.ivs, addr) == Some(k)
  {
    hide Disjoint, At, AllocOffset;
    FindMeaning(v.ivs, addr);
    forall k: u64 | Within(v.ivs, k, addr, size) ensures Find(v.ivs, addr) == Some(k) {
      assert Covers(v.ivs, k, addr);
    }
    if LookupOf(v, addr, size, readOnly).Some? {
      assert Within(v.ivs, Find(v.ivs, addr).value, addr, size);
    }
  }

  /** The first write to an unmapped interval maps exactly its first `size` addresses, to space of their own. */
  lemma FirstTouchKeepsTiling(v: Vam, addr: u64, size: u64, k: u64)
    requires VamOk(v) && Room(v, size) && size != 0
    requires Within(v.ivs, k, k, size) && v.ivs[k].value == UNMAPPED
    ensures var (w, off) := AllocOffset(v, addr, size);
      var m := FirstTouch(v.ivs, k, size, off);
      && VamOk(w.(ivs := m)) && v.maxOff <= w.maxOff == NewMax(v, size) && off + size <= w.maxOff
      && Mapped(m) == Mapped(v.ivs)[k := Interval(k + size - 1, off)]
      && (forall x :: At(m, x).Some? <==> At(v.ivs, x).Some?)
  {
    hide Tiled, At, AllocOffset;
    var (w, off) := AllocOffset(v, addr, size);
    var free := multiset(w.free) + multiset{Node(size, off)};
    AllocOffsetTiles(v, addr, size);
    assert Node(size, off) in free;
    TileValueIsFresh(Mapped(v.ivs), free, w.maxOff, Node(size, off));
    FirstTouchEntries(v.ivs, k, size, off);
    MapBlock(Mapped(v.ivs), free, w.maxOff, Node(size, off), k, k + size - 1);
    assert free - multiset{Node(size, off)} == multiset(w.free);
  }

  lemma FirstTouchEntries(m: Intervals<u64>, k: u64, size: u64, off: u64)
    requires Canonical(m) && size != 0 && Within(m, k, k, size) && m[k].value == UNMAPPED && off != UNMAPPED
    requires forall j: u64 :: j in Mapped(m) ==> Mapped(m)[j].value != off
    ensures Canonical(FirstTouch(m, k, size, off))
    ensures k !in Mapped(m) && Mapped(FirstTouch(m, k, size, off)) == Mapped(m)[k := Interval(k + size - 1, off)]
    ensures forall x :: At(FirstTouch(m, k, size, off), x).Some? <==> At(m, x).Some?
  {
    hide At;
    assert forall j: u64 :: j in m && m[j].value == off ==> j in Mapped(m);
    ReplacedCanonical(m, k, off);
    FirstTouchCanonical(m, k, size, off);
    FirstTouchMapped(m, k, size, off);
    forall x ensures At(FirstTouch(m, k, size, off), x).Some? <==> At(m, x).Some? {
      FirstTouchCovers(m, k, size, off, x);
    }
  }

  lemma FirstTouchCanonical(m: Intervals<u64>, k: u64, size: u64, off: u64)
    requires Canonical(m) && size != 0 && Within(m, k, k, size) && m[k].value == UNMAPPED && off != UNMAPPED
    requires Canonical(Replaced(m, k, off))
    requires forall j: u64 :: j in m && m[k].end + 1 == j ==> m[j].value != UNMAPPED
    ensures Canonical(FirstTouch(m, k, size, off))
  {
    hide SplitAfter, Disjoint, Canonical;
    if size != SizeOf(k, m[k].end) {
      SplitAfterCanonical(Replaced(m, k, off), k, EndOffset(k, size), UNMAPPED);
    }
  }

  lemma FirstTouchMapped(m: Intervals<u64>, k: u64, size: u64, off: u64)
    requires Disjoint(m) && size != 0 && Within(m, k, k, size) && m[k].value == UNMAPPED && off != UNMAPPED
    ensures k !in Mapped(m) && Mapped(FirstTouch(m, k, size, off)) == Mapped(m)[k := Interval(k + size - 1, off)]
  {
    hide SplitAfter, Disjoint, Mapped, Replaced;
    var r := Replaced(m, k, off);
    ReplacedMaps(m, k, off);
    if size != SizeOf(k, m[k].end) {
      SplitUnmaps(r, k, EndOffset(k, size));
    }
  }

  lemma ReplacedMaps(m: Intervals<u64>, k: u64, off: u64)
    requires Disjoint(m) && k in m && m[k].value == UNMAPPED && off != UNMAPPED
    ensures Disjoint(Replaced(m, k, off))
    ensures k in Replaced(m, k, off) && Replaced(m, k, off)[k] == Interval(m[k].end, off)
    ensures k !in Mapped(m) && Mapped(Replaced(m, k, off)) == Mapped(m)[k := Interval(m[k].end, off)]
  {
  }

  lemma SplitUnmaps(m: Intervals<u64>, k: u64, mid: u64)
    requires Disjoint(m) && k in m && k <= mid < m[k].end && m[k].value != UNMAPPED
    ensures Mapped(SplitAfter(m, k, mid, UNMAPPED)) == Mapped(m)[k := Interval(mid, m[k].value)]
  {
    var n := SplitAfter(m, k, mid, UNMAPPED);
    assert Inc(mid) !in m;
    assert Mapped(n).Keys == Mapped(m).Keys;
  }

  lemma FirstTouchCovers(m: Intervals<u64>, k: u64, size: u64, off: u64, x: int)
    requires Disjoint(m) && size != 0 && Within(m, k, k, size)
    ensures At(FirstTouch(m, k, size, off), x).Some? <==> At(m, x).Some?
  {
    hide SplitAfter, Disjoint, Replaced;
    ReplacedCovers(m, k, off, x);
    if size != SizeOf(k, m[k].end) {
      SplitAfterCovers(Replaced(m, k, off), k, EndOffset(k, size), UNMAPPED, x);
    }
  }

  /** What every lookup that answers keeps. */
  lemma LookupKeepsTiling(v: Vam, addr: u64, size: u64, readOnly: bool)
    requires VamOk(v) && IsRange(addr, size) && RoomAt(v, addr, size)
    requires LookupOf(v, addr, size, readOnly).Some?
    ensures var w := LookupOf(v, addr, size, readOnly).value.vam;
      && VamOk(w) && v.maxOff <= w.maxOff == (if FirstTouchAt(v, addr) then NewMax(v, size) else v.maxOff)
      && (forall x :: At(w.ivs, x).Some? <==> At(v.ivs, x).Some?)
    ensures readOnly ==> LookupOf(v, addr, size, readOnly).value.vam == v
  {
    hide Tiled, Disjoint, FirstTouch;
    var k := Find(v.ivs, addr).value;
    if v.ivs[k].value == UNMAPPED {
      FirstTouchKeepsTiling(v, addr, size, k);
    }
  }

  /** A lookup leaves the translation of every address alone but for those it maps itself. */
  lemma LookupStable(v: Vam, addr: u64, size: u64, readOnly: bool, x: int)
    requires VamOk(v) && IsRange(addr, size) && RoomAt(v, addr, size)
    requires LookupOf(v, addr, size, readOnly).Some?
    ensures var k := Find(v.ivs, addr).value;
      var hit := LookupOf(v, addr, size, readOnly).value;
      if v.ivs[k].value == UNMAPPED && k <= x < k + size then
        Translate(hit.vam.ivs, x) == Some(AllocOffset(v, addr, size).1 + (x - k))
      else
        Translate(hit.vam.ivs, x) == Translate(v.ivs, x)
  {
    hide Tiled, Disjoint, FirstTouch, Translate, At;
    var k := Find(v.ivs, addr).value;
    if v.ivs[k].value == UNMAPPED {
      var (w, off) := AllocOffset(v, addr, size);
      FirstTouchKeepsTiling(v, addr, size, k);
      MappedAddedTranslate(v.ivs, FirstTouch(v.ivs, k, size, off), k, k + size - 1, off, x);
    }
  }

  /** Adding one mapped interval over unmapped addresses changes their translation only. */
  lemma MappedAddedTranslate(m: Intervals<u64>, n: Intervals<u64>, a: u64, e: u64, off: u64, x: int)
    requires Disjoint(m) && Disjoint(n) && a !in Mapped(m) && a <= e && off != UNMAPPED
    requires Mapped(n) == Mapped(m)[a := Interval(e, off)]
    ensures Translate(n, x) == if a <= x <= e then Some(off + x - a) else Translate(m, x)
  {
    assert a in Mapped(n) && n[a] == Interval(e, off);
    if a <= x <= e {
      TranslateIn(n, a, x);
    } else {
      forall k: u64 | MapsAt(m, k, x) ensures k in n && n[k] == m[k] {
        assert k in Mapped(m) && k in Mapped(n);
      }
      forall k: u64 | MapsAt(n, k, x) ensures k in m && m[k] == n[k] {
        assert k in Mapped(n) && k in Mapped(m);
      }
      TranslateMapped(m, n, x);
    }
  }

  /**
   The offset a lookup returns is where the whole range now is, if and only if the
   interval was mapped already or the range starts where the interval does: the
   first touch maps from the interval's start, not from the address asked for.
   */
  lemma LookupTranslatesIff(v: Vam, addr: u64, size: u64, readOnly: bool)
    requires VamOk(v) && IsRange(addr, size) && RoomAt(v, addr, size)
    requires LookupOf(v, addr, size, readOnly).Some?
    ensures var k := Find(v.ivs, addr).value;
      var hit := LookupOf(v, addr, size, readOnly).value;
      (forall x :: addr <= x < addr + size ==> Translate(hit.vam.ivs, x) == Some(hit.offset + (x - addr)))
      <==> (v.ivs[k].value != UNMAPPED || addr == k)
  {
    hide Tiled, Disjoint, FirstTouch, Translate, At, AllocOffset;
    var k := Find(v.ivs, addr).value;
    var hit := LookupOf(v, addr, size, readOnly).value;
    if v.ivs[k].value != UNMAPPED || addr == k {
      forall x | addr <= x < addr + size ensures Translate(hit.vam.ivs, x) == Some(hit.offset + (x - addr)) {
        LookupTranslates(v, addr, size, readOnly, x);
      }
    } else {
      var last := addr + size - 1;
      LookupStable(v, addr, size, readOnly, last);
      TranslateIn(v.ivs, k, last);
    }
  }

  /**
   A first touch in the middle of an unmapped interval: the offset handed to the client
   is not where the address is mapped.
   */
  lemma MiddleTouchExample()
    ensures var v := Vam(map[100 := Interval(199, UNMAPPED)], [], 0, 0);
      VamOk(v) && LookupOf(v, 150, 10, false).Some? &&
      var hit := LookupOf(v, 150, 10, false).value;
      hit.offset == 50 && Translate(hit.vam.ivs, 150) == None && Translate(hit.vam.ivs, 100) == Some(0)
  {
    hide Translate, FirstTouch;
    var v := Vam(map[100 := Interval(199, UNMAPPED)], [], 0, 0);
    assert Mapped(v.ivs) == map[];
    assert Covers(v.ivs, 100, 150);
    assert Find(v.ivs, 150) == Some(100);
    TranslateIn(v.ivs, 100, 150);
    LookupStable(v, 150, 10, false, 150);
    LookupStable(v, 150, 10, false, 100);
  }

  lemma LookupTranslates(v: Vam, addr: u64, size: u64, readOnly: bool, x: int)
    requires VamOk(v) && IsRange(addr, size) && RoomAt(v, addr, size) && addr <= x < addr + size
    requires LookupOf(v, addr, size, readOnly).Some?
    requires v.ivs[Find(v.ivs, addr).value].value != UNMAPPED || addr == Find(v.ivs, addr).value
    ensures var hit := LookupOf(v, addr, size, readOnly).value;
      Translate(hit.vam.ivs, x) == Some(hit.offset + (x - addr))
  {
    hide Tiled, Disjoint, FirstTouch, Translate, At, AllocOffset;
    var k := Find(v.ivs, addr).value;
    LookupStable(v, addr, size, readOnly, x);
    if v.ivs[k].value != UNMAPPED {
      TranslateIn(v.ivs, k, x);
      MappedOffsetExact(v, k, addr);
    }
  }

  lemma MappedOffsetExact(v: Vam, k: u64, addr: u64)
    requires VamOk(v) && Covers(v.ivs, k, addr) && v.ivs[k].value != UNMAPPED
    ensures Add64(v.ivs[k].value, addr - k) == v.ivs[k].value + (addr - k)
    ensures v.ivs[k].value + (addr - k) < v.maxOff
  {
    var mp := Mapped(v.ivs);
    assert k in mp && InFile(Run(mp, k), v.maxOff);
    Add64Exact(v.ivs[k].value, addr - k);
  }
}
