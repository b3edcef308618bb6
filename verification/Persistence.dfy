/**
 Closing and reopening: the mapping is stored in space taken from itself, the
 header at the start of the file says where, and opening reads both back and
 frees that space again.
 */
module Persistence {
  import opened Machine
  import opened IntervalSpec
  import opened FreeList
  import opened Tiling
  import opened MappingSpec
  import opened Erasure
  import opened Addresses
  import opened Cells
  import opened Codec
  import opened Buffers
  import opened CodecOrder
  import opened VamCodec
  import opened StorageSpec

  // ------------------------------------------------------------------- header

  function FieldBytes(fs: seq<u64>): (b: seq<byte>)
    ensures |b| == 8 * |fs|
  {
    if fs == [] then [] else LeBytes(fs[0], 8) + FieldBytes(fs[1..])
  }

  /** The 8-byte field at position `i` of a structure. */
  function FieldAt(b: seq<byte>, i: nat): u64
    requires 8 * i + 8 <= |b|
  {
    LeValue(b[8 * i..8 * i + 8]) % U64_LIMIT
  }

  lemma {:induction false} FieldBytesAt(fs: seq<u64>, i: nat)
    requires i < |fs|
    ensures FieldBytes(fs)[8 * i..8 * i + 8] == LeBytes(fs[i], 8)
  {
    hide LeBytes;
    if i == 0 {
      assert FieldBytes(fs)[0..8] == LeBytes(fs[0], 8);
    } else {
      FieldBytesAt(fs[1..], i - 1);
      var lo := 8 * (i - 1);
      assert FieldBytes(fs)[lo + 8..lo + 16] == FieldBytes(fs[1..])[lo..lo + 8];
    }
  }

  lemma FieldOfBytes(fs: seq<u64>, i: nat)
    requires i < |fs|
    ensures FieldAt(FieldBytes(fs), i) == fs[i]
  {
    hide LeBytes, LeValue, FieldBytes;
    FieldBytesAt(fs, i);
    U64RoundTrip(fs[i], []);
    assert (LeBytes(fs[i], 8) + [])[..8] == LeBytes(fs[i], 8);
  }

  /** The structure `FileMetadata`; the padding behind the 32-bit magic number is zero. */
  function MetaBytes(m: Meta): (b: seq<byte>)
    ensures |b| == META_SIZE
  {
    FieldBytes([m.magic, m.highBits, m.vaOffset, m.vaSize, m.vaAddr, m.staticAddr.addr, m.staticAddr.size])
  }

  function MagicOf(b: seq<byte>): nat
    requires META_SIZE <= |b|
  {
    LeValue(b[..4])
  }

  function ReadMeta(b: seq<byte>): Meta
    requires META_SIZE <= |b|
  {
    Meta(MagicOf(b) % U64_LIMIT, FieldAt(b, 1), FieldAt(b, 2), FieldAt(b, 3), FieldAt(b, 4),
         Addr(FieldAt(b, 5), FieldAt(b, 6)))
  }

  lemma {:induction false} LePrefix(x: nat, n: nat, k: nat)
    requires k <= n
    ensures LeBytes(x, n)[..k] == LeBytes(x, k)
  {
    if k != 0 { LePrefix(x / 256, n - 1, k - 1); }
  }

  lemma MetaRoundTrip(m: Meta, b: seq<byte>)
    requires META_SIZE <= |b| && b[..META_SIZE] == MetaBytes(m) && m.magic == MAGIC
    ensures MagicOf(b) == MAGIC && ReadMeta(b) == m
  {
    hide FieldAt, FieldBytes, LeBytes, LeValue;
    var fs := [m.magic, m.highBits, m.vaOffset, m.vaSize, m.vaAddr, m.staticAddr.addr, m.staticAddr.size];
    forall i | 0 <= i < 7 ensures FieldAt(b, i) == fs[i] {
      FieldOfBytes(fs, i);
      FieldOfPrefix(b, META_SIZE, i);
    }
    MagicRoundTrip(fs, b);
  }

  /** The header, byte by byte: the magic number, four bytes of padding, then six numbers. */
  lemma MetaLayout(m: Meta)
    requires m.magic == MAGIC
    ensures MetaBytes(m) ==
            [0xC7, 0x0C, 0x2B, 0xFE] + [0, 0, 0, 0] + LeBytes(m.highBits, 8) + LeBytes(m.vaOffset, 8) +
            LeBytes(m.vaSize, 8) + LeBytes(m.vaAddr, 8) + LeBytes(m.staticAddr.addr, 8) + LeBytes(m.staticAddr.size, 8)
  {
    MagicBytes();
    hide LeBytes;
    SevenFields([m.magic, m.highBits, m.vaOffset, m.vaSize, m.vaAddr, m.staticAddr.addr, m.staticAddr.size]);
  }

  lemma MagicBytes()
    ensures LeBytes(MAGIC, 8) == [0xC7, 0x0C, 0x2B, 0xFE] + [0, 0, 0, 0]
  {
    assert LeBytes(0, 4) == [0, 0, 0, 0];
    assert LeBytes(0xFE2B, 6) == [0x2B] + LeBytes(0xFE, 5);
    assert LeBytes(0xFE, 5) == [0xFE] + LeBytes(0, 4);
    assert LeBytes(MAGIC, 8) == [0xC7] + LeBytes(0xFE2B0C, 7);
    assert LeBytes(0xFE2B0C, 7) == [0x0C] + LeBytes(0xFE2B, 6);
  }

  lemma SevenFields(fs: seq<u64>)
    requires |fs| == 7
    ensures FieldBytes(fs) ==
            LeBytes(fs[0], 8) + LeBytes(fs[1], 8) + LeBytes(fs[2], 8) + LeBytes(fs[3], 8) +
            LeBytes(fs[4], 8) + LeBytes(fs[5], 8) + LeBytes(fs[6], 8)
  {
    hide LeBytes;
    FieldsCons(fs);
    FieldsCons(fs[1..]);
    FieldsCons(fs[2..]);
    FieldsCons(fs[3..]);
    FieldsCons(fs[4..]);
    FieldsCons(fs[5..]);
    FieldsCons(fs[6..]);
    assert fs[7..] == [];
  }

  lemma FieldsCons(fs: seq<u64>)
    requires fs != []
    ensures FieldBytes(fs) == LeBytes(fs[0], 8) + FieldBytes(fs[1..])
  {
  }

  lemma FieldOfPrefix(b: seq<byte>, n: nat, i: nat)
    requires 8 * i + 8 <= n <= |b|
    ensures FieldAt(b, i) == FieldAt(b[..n], i)
  {
    var lo := 8 * i;
    assert b[lo..lo + 8] == b[..n][lo..lo + 8];
  }

  lemma MagicRoundTrip(fs: seq<u64>, b: seq<byte>)
    requires META_SIZE <= |b| && |fs| == 7 && fs[0] == MAGIC && b[..META_SIZE] == FieldBytes(fs)
    ensures MagicOf(b) == MAGIC
  {
    FieldBytesAt(fs, 0);
    assert b[..4] == b[..META_SIZE][0..8][..4];
    LePrefix(MAGIC, 8, 4);
    assert Pow(256, 4) == 0x1_0000_0000 by { assert Pow(256, 2) == 0x1_0000; }
    LeRoundTrip(MAGIC, 4);
  }

  // -------------------------------------------------------------------- close

  /** The size set aside for the stored mapping. */
  function ReservedSize(v: Vam): nat {
    VamSize(v) + EXTRA_SPARE_SPACE
  }

  /** A kilobyte more than the mapping takes before its own region is in it. */
  lemma ReservedIs(v: Vam)
    requires Countable(v)
    ensures ReservedSize(v) == |Encode(OfVam(v))| + 1024
  {
    VamValue(v);
  }

  predicate CloseFits(s: Store) {
    ReservedSize(s.vam) < CELL && Fits(s, ReservedSize(s.vam))
  }

  /** The mapping as it is stored: with its own region allocated. */
  ghost function StoredVam(s: Store): (Vam, u64)
    requires CloseFits(s)
  {
    AllocOf(s.vam, MAP_ADDR, ReservedSize(s.vam))
  }

  /** What the stored mapping keeps of the open one, and where its region is. */
  ghost predicate RegionOk(s: Store, w: Vam, off: u64)
    requires CloseFits(s)
  {
    var size := ReservedSize(s.vam);
    && VamOk(w) && s.vam.maxOff <= w.maxOff && off + size <= w.maxOff <= |s.bytes|
    && MAP_ADDR in w.ivs && w.ivs[MAP_ADDR] == Interval(MAP_ADDR + size - 1, off)
    && Mapped(w.ivs) == Mapped(s.vam.ivs)[MAP_ADDR := w.ivs[MAP_ADDR]]
    && MAP_ADDR !in Mapped(s.vam.ivs)
    && CellsOk(w.ivs, s.meta.highBits) && SameOutside(s.vam.ivs, w.ivs, 1)
    && HeaderMapped(w.ivs) && META_SIZE <= off
  }

  /** The stored mapping fits the region allocated for it before it was known, and the region overlaps nothing. */
  lemma StoredMappingFits(s: Store)
    requires StoreOk(s) && CloseFits(s)
    ensures var (w, off) := StoredVam(s);
      RegionOk(s, w, off) && VamSize(w) <= ReservedSize(s.vam) && Countable(w)
  {
    hide Tiled, Disjoint, Assign, CellsOk, SystemCells, SameOutside, HeaderMapped;
    var size := ReservedSize(s.vam);
    var (w, off) := StoredVam(s);
    MapCellUnmapped(s, size);
    AllocKeepsTiling(s.vam, MAP_ADDR, size);
    AssignConfined(s.vam.ivs, MAP_ADDR, MAP_ADDR + size - 1, off, 1, s.meta.highBits);
    HeaderKept(s.vam.ivs, w.ivs);
    assert MAP_ADDR in Mapped(w.ivs);
    RunBehindHeader(w, MAP_ADDR);
  }

  lemma HeaderKept(m: Intervals<u64>, n: Intervals<u64>)
    requires HeaderMapped(m) && SameOutside(m, n, 1)
    ensures HeaderMapped(n)
  {
    assert HEADER / CELL == 2;
  }

  lemma MapCellUnmapped(s: Store, size: u64)
    requires StoreOk(s) && 0 < size < CELL
    ensures EndOffset(MAP_ADDR, size) == MAP_ADDR + size - 1
    ensures InCell(MAP_ADDR, MAP_ADDR + size - 1, 1)
    ensures NoneMapped(s.vam.ivs, MAP_ADDR, MAP_ADDR + size - 1)
  {
    forall k: u64 | k in s.vam.ivs && k <= MAP_ADDR + size - 1 && MAP_ADDR <= s.vam.ivs[k].end
      ensures s.vam.ivs[k].value == UNMAPPED
    {
      assert InCell(k, s.vam.ivs[k].end, k / CELL);
      CellOf(k, 1);
    }
  }

  ghost function ClosedMeta(s: Store): Meta
    requires CloseFits(s)
  {
    s.meta.(vaSize := ReservedSize(s.vam), vaOffset := StoredVam(s).1)
  }

  /** The file after the destructor has run. */
  ghost function CloseOf(s: Store): (b: seq<byte>)
    requires StoreOk(s) && CloseFits(s)
    ensures |b| == |s.bytes|
  {
    StoredMappingFits(s);
    var (w, off) := StoredVam(s);
    VamValue(w);
    Splat(Splat(s.bytes, off, Encode(OfVam(w))), 0, MetaBytes(ClosedMeta(s)))
  }

  // --------------------------------------------------------------------- open

  /** Opening a file that carries the magic number; `None` where the source throws or reads past the file. */
  ghost function ReopenOf(p: Order, b: seq<byte>, staticSize: u64): Option<Store>
    requires META_SIZE <= |b|
  {
    var meta := ReadMeta(b);
    if meta.staticAddr.size < staticSize || |b| < meta.vaOffset + meta.vaSize || meta.vaSize == 0 then None
    else match ReadVam(p, b[meta.vaOffset..meta.vaOffset + meta.vaSize])
      case None => None
      case Some(v) =>
        var (w, r) := DelAnyOf(v, meta.vaAddr, meta.vaSize);
        if r == Thrown then None else Some(Store(meta, w, b))
  }

  /** The closed file holds the header at its start and the mapping in its region, and all other bytes as they were. */
  lemma ClosedFile(s: Store)
    requires StoreOk(s) && CloseFits(s)
    ensures var (w, off) := StoredVam(s);
      var size, b := ReservedSize(s.vam), CloseOf(s);
      && off + size <= |b| && VamSize(w) <= size
      && b[..META_SIZE] == MetaBytes(ClosedMeta(s))
      && b[off..off + size] == Encode(OfVam(w)) + b[off + VamSize(w)..off + size]
      && forall i :: 0 <= i < |b| && !(i < META_SIZE) && !(off <= i < off + size) ==> b[i] == s.bytes[i]
  {
    hide MetaBytes, Encode, OfVam, RegionOk, StoreOk, VamSize;
    StoredMappingFits(s);
    var (w, off) := StoredVam(s);
    VamValue(w);
    RegionBounds(s, w, off);
    var inner := Splat(s.bytes, off, Encode(OfVam(w)));
    SplatAt(s.bytes, off, Encode(OfVam(w)));
    SplatAt(inner, 0, MetaBytes(ClosedMeta(s)));
  }

  lemma RegionBounds(s: Store, w: Vam, off: u64)
    requires StoreOk(s) && CloseFits(s) && RegionOk(s, w, off)
    ensures META_SIZE <= off && off + ReservedSize(s.vam) <= |s.bytes| && META_SIZE <= |s.bytes|
  {
  }

  /** Freeing the region gives back exactly the block it took, and exactly the mapping before. */
  lemma RegionFreed(s: Store)
    requires StoreOk(s) && CloseFits(s)
    ensures var (w, off) := StoredVam(s);
      var size := ReservedSize(s.vam);
      var v := DelOf(w, MAP_ADDR, size).0;
      && VamOk(v) && v.maxOff == w.maxOff
      && Mapped(v.ivs) == Mapped(s.vam.ivs)
      && v.free == Inserted(w.free, Node(size, off))
      && CellsOk(v.ivs, s.meta.highBits) && SameOutside(s.vam.ivs, v.ivs, 1)
  {
    hide Tiled, Disjoint, Assign, CellsOk, SystemCells, SameOutside, HeaderMapped, AddFreed, Inserted;
    hide Visited, VisitsOf, StoreOk, At;
    var size := ReservedSize(s.vam);
    var e := MAP_ADDR + size - 1;
    StoredMappingFits(s);
    MapCellUnmapped(s, size);
    var (w, off) := StoredVam(s);
    RegionVisited(w, MAP_ADDR, size);
    RegionWhole(w, s.vam.ivs, size);
    DelWholeKeepsTiling(w, MAP_ADDR, size);
    StoreBounds(s);
    AssignConfined(w.ivs, MAP_ADDR, e, UNMAPPED, 1, s.meta.highBits);
    SameOutsideTrans(s.vam.ivs, w.ivs, Assign(w.ivs, MAP_ADDR, e, UNMAPPED), 1);
  }

  lemma OneVisited(m: Intervals<u64>, a: u64, e: u64)
    requires Disjoint(m) && a in m && m[a].end == e
    ensures StartsFrom(m, a, e) == [a]
  {
    match NextKey(m, a)
    case None =>
    case Some(n) =>
      assert e < n;
      assert StartsFrom(m, n, e) == [];
  }

  lemma RegionVisited(w: Vam, a: u64, size: u64)
    requires VamOk(w) && IsRange(a, size) && size < UNMAPPED
    requires a in w.ivs && w.ivs[a].end == a + size - 1 && w.ivs[a].value != UNMAPPED
    ensures At(w.ivs, a).Some?
    ensures DelOf(w, a, size) ==
            (w.(ivs := Assign(w.ivs, a, EndOffset(a, size), UNMAPPED),
                free := Inserted(w.free, Node(size, w.ivs[a].value))), Success)
  {
    hide Tiled, Assign, Inserted;
    var e := EndOffset(a, size);
    assert e == a + size - 1;
    AtCovered(w.ivs, a, a);
    FindMeaning(w.ivs, a);
    assert Covers(w.ivs, a, a);
    assert Find(w.ivs, a) == Some(a);
    OneVisited(w.ivs, a, e);
    var c := VisitOf(w.ivs, a, a, e);
    assert CallsOf(w, a, e) == [c];
    assert Frees(c) && FreedBlock(c) == Node(size, w.ivs[a].value);
    AddFreedSnoc(w.free, [], c);
    assert [] + [c] == [c];
  }

  lemma RegionWhole(w: Vam, m: Intervals<u64>, size: u64)
    requires Disjoint(w.ivs) && 0 < size < CELL
    requires MAP_ADDR in w.ivs && w.ivs[MAP_ADDR].end == MAP_ADDR + size - 1
    requires MAP_ADDR !in Mapped(m) && Mapped(w.ivs) == Mapped(m)[MAP_ADDR := w.ivs[MAP_ADDR]]
    ensures WholeMapped(w.ivs, MAP_ADDR, MAP_ADDR + size - 1)
    ensures (map k | k in Mapped(w.ivs) && !(MAP_ADDR <= k < MAP_ADDR + size) :: w.ivs[k]) == Mapped(m)
  {
    var e := MAP_ADDR + size - 1;
    forall k: u64 | k in w.ivs && k <= e && MAP_ADDR <= w.ivs[k].end ensures k == MAP_ADDR {
      assert !(k < MAP_ADDR) && !(MAP_ADDR < k);
    }
    var mp, rest := Mapped(m), map k | k in Mapped(w.ivs) && !(MAP_ADDR <= k < MAP_ADDR + size) :: w.ivs[k];
    forall k: u64 ensures k in rest <==> k in mp {
      if k in mp {
        assert k in Mapped(w.ivs) && k <= w.ivs[k].end;
      }
    }
    forall k: u64 | k in mp ensures rest[k] == mp[k] {
      assert k in Mapped(w.ivs) && Mapped(w.ivs)[k] == mp[k];
    }
  }

  /** The storage that is reopened after a close. */
  ghost function ReopenedOf(s: Store): Store
    requires StoreOk(s) && CloseFits(s)
  {
    var (w, _) := StoredVam(s);
    Store(ClosedMeta(s), DelOf(w, MAP_ADDR, ReservedSize(s.vam)).0, CloseOf(s))
  }

  /**
   A closed file opens with exactly the mapping that was closed, its own region freed, if
   and only if the compiler evaluates arguments left to right and the static section is as
   large as it is asked to be; the macro plays no part.
   */
  lemma ReopensIff(p: Order, s: Store, staticSize: u64)
    requires StoreOk(s) && CloseFits(s)
    ensures META_SIZE <= |CloseOf(s)| && MagicOf(CloseOf(s)) == MAGIC
    ensures ReopenOf(p, CloseOf(s), staticSize) == Some(ReopenedOf(s)) <==>
            p.pairsFirst && staticSize <= s.meta.staticAddr.size
  {
    if staticSize <= s.meta.staticAddr.size {
      LargeReopensIff(p, s, staticSize);
    } else {
      LargeReopensIff(p, s, 0);
      OpenedStatic(p, CloseOf(s), staticSize);
    }
  }

  lemma LargeReopensIff(p: Order, s: Store, staticSize: u64)
    requires StoreOk(s) && CloseFits(s) && staticSize <= s.meta.staticAddr.size
    ensures META_SIZE <= |CloseOf(s)| && MagicOf(CloseOf(s)) == MAGIC
    ensures ReopenOf(p, CloseOf(s), staticSize) == Some(ReopenedOf(s)) <==> p.pairsFirst
  {
    hide MetaBytes, Encode, OfVam, CloseOf, RegionOk, DelOf, StoredVam, VamSize, StoreOk, ReopenOf;
    ClosedFile(s);
    StoredMappingFits(s);
    var (w, off) := StoredVam(s);
    StoredSorted(s, w, off);
    StoreMagic(s);
    if p.pairsFirst {
      ReopenReads(p, CloseOf(s), ClosedMeta(s), w, off, ReservedSize(s.vam), staticSize);
    } else {
      MoreBytesThanIntervals(s, w, off);
      assert ReopenedOf(s).vam.maxOff == w.maxOff;
      ReopenMisreads(p, CloseOf(s), ClosedMeta(s), w, off, ReservedSize(s.vam), staticSize);
    }
  }

  /** The mapping is stored in the file it maps, so it has fewer intervals than the file has bytes. */
  lemma MoreBytesThanIntervals(s: Store, w: Vam, off: u64)
    requires StoreOk(s) && CloseFits(s) && (w, off) == StoredVam(s) && RegionOk(s, w, off)
    ensures |w.ivs| < w.maxOff && DelOf(w, MAP_ADDR, ReservedSize(s.vam)).0.maxOff == w.maxOff
  {
    hide StoreOk, DelOf;
    StoredMappingFits(s);
    RegionFreed(s);
  }

  lemma ReopenMisreads(p: Order, b: seq<byte>, meta: Meta, w: Vam, off: u64, size: u64, staticSize: u64)
    requires !p.pairsFirst && META_SIZE <= |b| && b[..META_SIZE] == MetaBytes(meta) && meta.magic == MAGIC
    requires meta.vaOffset == off && meta.vaSize == size && size != 0
    requires Countable(w) && VamSize(w) <= size && off + size <= |b|
    requires b[off..off + size] == Encode(OfVam(w)) + b[off + VamSize(w)..off + size]
    ensures MagicOf(b) == MAGIC
    ensures ReopenOf(p, b, staticSize).Some? ==> ReopenOf(p, b, staticSize).value.vam.maxOff == |w.ivs|
  {
    hide MetaBytes, Encode, OfVam, ReadVam, ReadMeta, DelAnyOf, VamSize, MagicOf;
    MetaRoundTrip(meta, b);
    DelKeepsMax(p, b[off..off + size], meta);
    VamOutOfOrder(p, w, b[off + VamSize(w)..off + size]);
  }

  lemma DelKeepsMax(p: Order, b: seq<byte>, meta: Meta)
    requires meta.vaSize != 0
    ensures ReadVam(p, b).Some? ==>
              DelAnyOf(ReadVam(p, b).value, meta.vaAddr, meta.vaSize).0.maxOff == ReadVam(p, b).value.maxOff
  {
    hide ReadVam, AnyFrees, AddFreed;
  }

  lemma ReopenSucceeds(s: Store, staticSize: u64)
    requires StoreOk(s) && CloseFits(s) && staticSize <= s.meta.staticAddr.size
    ensures META_SIZE <= |CloseOf(s)| && MagicOf(CloseOf(s)) == MAGIC
    ensures ReopenOf(IN_ORDER, CloseOf(s), staticSize) == Some(ReopenedOf(s))
  {
    hide StoreOk, CloseOf, MagicOf, ReopenOf, ReopenedOf;
    ReopensIff(IN_ORDER, s, staticSize);
  }

  lemma ReopenReads(p: Order, b: seq<byte>, meta: Meta, w: Vam, off: u64, size: u64, staticSize: u64)
    requires p.pairsFirst && META_SIZE <= |b| && b[..META_SIZE] == MetaBytes(meta) && meta.magic == MAGIC
    requires meta.vaOffset == off && meta.vaSize == size && size != 0 && staticSize <= meta.staticAddr.size
    requires Countable(w) && Sorted(w.free) && Disjoint(w.ivs) && IsRange(meta.vaAddr, size)
    requires VamSize(w) <= size && off + size <= |b|
    requires b[off..off + size] == Encode(OfVam(w)) + b[off + VamSize(w)..off + size]
    ensures MagicOf(b) == MAGIC
    ensures ReopenOf(p, b, staticSize) == Some(Store(meta, DelOf(w, meta.vaAddr, size).0, b))
  {
    hide MetaBytes, Encode, OfVam, ReadVam, ReadMeta, DelOf, DelAnyOf, MagicOf, VamSize, Sorted, Disjoint;
    MetaRoundTrip(meta, b);
    DelAnyIsDel(w, meta.vaAddr, size);
    DelNeverThrows(w, meta.vaAddr, size);
    VamRoundTrip(p, w, b[off + VamSize(w)..off + size]);
  }

  lemma StoreMagic(s: Store)
    requires StoreOk(s)
    ensures s.meta.magic == MAGIC && s.meta.vaAddr == MAP_ADDR
  {
  }

  lemma StoredSorted(s: Store, w: Vam, off: u64)
    requires CloseFits(s) && RegionOk(s, w, off)
    ensures Sorted(w.free) && Disjoint(w.ivs)
  {
  }

  /**
   Closing and reopening is the identity for clients: every address keeps its
   translation, every byte outside the header its value, every interval outside the
   mapping's own cell its place; and the mapping's region is back in the free list.
   */
  lemma CloseReopenIdentity(s: Store)
    requires StoreOk(s) && CloseFits(s)
    ensures var t := ReopenedOf(s);
      && StoreOk(t) && |t.bytes| == |s.bytes|
      && t.meta.highBits == s.meta.highBits && t.meta.staticAddr == s.meta.staticAddr
      && SameOutside(s.vam.ivs, t.vam.ivs, 1)
      && t.vam.free == Inserted(StoredVam(s).0.free, Node(ReservedSize(s.vam), StoredVam(s).1))
    ensures forall x :: Translate(ReopenedOf(s).vam.ivs, x) == Translate(s.vam.ivs, x)
    ensures forall x :: x / CELL != 2 ==> Mem(ReopenedOf(s), x) == Mem(s, x)
  {
    hide Tiled, Disjoint, CellsOk, SystemCells, SameOutside, HeaderMapped, DelOf, CloseOf, Translate;
    hide RegionOk, Inserted, Mapped, Mem;
    var t := ReopenedOf(s);
    RegionFreed(s);
    ReopenedOk(s);
    forall x ensures Translate(t.vam.ivs, x) == Translate(s.vam.ivs, x) {
      SameMappedTranslate(s.vam.ivs, t.vam.ivs, x);
    }
    forall x | x / CELL != 2 ensures Mem(t, x) == Mem(s, x) {
      ReopenedMem(s, x);
    }
  }

  lemma ReopenedOk(s: Store)
    requires StoreOk(s) && CloseFits(s)
    ensures StoreOk(ReopenedOf(s))
  {
    hide Tiled, Disjoint, CellsOk, DelOf, CloseOf, Inserted, StoredVam, VamSize, Canonical, Sorted;
    var t := ReopenedOf(s);
    StoredMappingFits(s);
    RegionFreed(s);
    HeaderKept(s.vam.ivs, t.vam.ivs);
    forall k: u64 | k in t.vam.ivs && k / CELL == 1 ensures t.vam.ivs[k].value == UNMAPPED {
      assert t.vam.ivs[k].value != UNMAPPED ==> k in Mapped(t.vam.ivs);
    }
  }

  lemma ReopenedMem(s: Store, x: int)
    requires StoreOk(s) && CloseFits(s) && x / CELL != 2
    requires Translate(ReopenedOf(s).vam.ivs, x) == Translate(s.vam.ivs, x)
    ensures Mem(ReopenedOf(s), x) == Mem(s, x)
  {
    hide Tiled, CellsOk, DelOf, CloseOf, Translate, RegionOk;
    if Translate(s.vam.ivs, x).Some? {
      ClosedFile(s);
      ClientByteApart(s, x);
    }
  }

  /** A client's byte is neither in the header nor in the stored mapping's region. */
  lemma ClientByteApart(s: Store, x: int)
    requires StoreOk(s) && CloseFits(s) && x / CELL != 2 && Translate(s.vam.ivs, x).Some?
    ensures var o := Translate(s.vam.ivs, x).value;
      var (_, off) := StoredVam(s);
      META_SIZE <= o < |s.bytes| && !(off <= o < off + ReservedSize(s.vam))
  {
    hide Tiled, Disjoint;
    var k: u64 :| MapsAt(s.vam.ivs, k, x);
    TranslateIn(s.vam.ivs, k, x);
    StoredMappingFits(s);
    var (w, off) := StoredVam(s);
    assert InCell(k, s.vam.ivs[k].end, k / CELL);
    assert k != HEADER by {
      if k == HEADER { CellOf(x as u64, 2); }
    }
    RunBehindHeader(s.vam, k);
    assert k in Mapped(s.vam.ivs) && k in Mapped(w.ivs) && MAP_ADDR in Mapped(w.ivs) && k != MAP_ADDR;
    RunsOfTiling(Mapped(w.ivs), multiset(w.free), w.maxOff, k, MAP_ADDR);
  }

  lemma RunsOfTiling(mp: Intervals<u64>, free: multiset<Node<u64>>, max: int, j: u64, k: u64)
    requires Tiled(mp, free, max) && j in mp && k in mp && j != k
    ensures Apart(Run(mp, j), Run(mp, k))
  {
  }

  // ----------------------------------------------------------------- new file

  /** A new file's mapping: the header alone, at offset 0. */
  ghost function FormattedOf(b: seq<byte>): Store {
    var v := AllocOf(NEW_VAM, HEADER, META_SIZE).0;
    Store(Meta(MAGIC, 2, 0, 0, MAP_ADDR, Addr(U64_MAX, 0)), v, b)
  }

  /** Opening a file that does not carry the magic number; `None` where the source throws. */
  ghost function NewOf(b: seq<byte>, staticSize: u64): Option<Store> {
    if staticSize == 0 || AllocOf(NEW_VAM, HEADER, META_SIZE).1 != 0 then None
    else
      var (s, a) := AllocAddrOf(FormattedOf(b), staticSize);
      var (t, off) := WritebOf(s.(meta := s.meta.(staticAddr := a)), a.addr, a.size);
      if off.None? || |b| < off.value + a.size then None
      else Some(t.(bytes := Splat(b, off.value, Zeros(a.size))))
  }

  /** `init_simple_storage`. */
  ghost function OpenOf(p: Order, b: seq<byte>, staticSize: u64): Option<Store>
    requires META_SIZE <= |b|
  {
    if MagicOf(b) != MAGIC then NewOf(b, staticSize) else ReopenOf(p, b, staticSize)
  }

  /** Whatever file opens, new or existing, damaged or not, has a static section as large as it was asked to be. */
  lemma OpenedStatic(p: Order, b: seq<byte>, staticSize: u64)
    requires META_SIZE <= |b|
    ensures ReopenOf(p, b, staticSize).Some? ==> staticSize <= ReopenOf(p, b, staticSize).value.meta.staticAddr.size
    ensures OpenOf(p, b, staticSize).Some? ==> staticSize <= OpenOf(p, b, staticSize).value.meta.staticAddr.size
  {
    hide ReadVam, DelAnyOf, AllocOf, LookupOf, FieldAt, AllocUnmappedOf, Splat;
  }

  /** A closed file opens if and only if its static section is as large as it is asked to be. */
  lemma OpensIff(s: Store, staticSize: u64)
    requires StoreOk(s) && CloseFits(s)
    ensures META_SIZE <= |CloseOf(s)|
    ensures OpenOf(IN_ORDER, CloseOf(s), staticSize).Some? <==> staticSize <= s.meta.staticAddr.size
    ensures staticSize <= s.meta.staticAddr.size ==> OpenOf(IN_ORDER, CloseOf(s), staticSize) == Some(ReopenedOf(s))
  {
    hide StoreOk, CloseOf, ReopenOf, MagicOf, NewOf;
    ReopensIff(IN_ORDER, s, staticSize);
    ReopensIff(IN_ORDER, s, 0);
    TooSmallThrows(s, staticSize);
  }

  lemma TooSmallThrows(s: Store, staticSize: u64)
    requires StoreOk(s) && CloseFits(s)
    ensures META_SIZE <= |CloseOf(s)|
    ensures s.meta.staticAddr.size < staticSize ==> ReopenOf(IN_ORDER, CloseOf(s), staticSize).None?
  {
    hide StoreOk, CloseOf, ReadVam, DelAnyOf, ReadMeta, MagicOf;
    ReopensIff(IN_ORDER, s, 0);
  }

  lemma NewVamOk()
    ensures VamOk(NEW_VAM)
  {
    assert Mapped(NEW_VAM.ivs) == map[];
  }

  lemma FormattedOk(b: seq<byte>)
    requires META_SIZE <= |b| < UNMAPPED
    ensures AllocOf(NEW_VAM, HEADER, META_SIZE).1 == 0
    ensures StoreOk(FormattedOf(b)) && FormattedOf(b).vam.maxOff == META_SIZE && FormattedOf(b).meta.highBits == 2
    ensures FormattedOf(b).vam.ivs == map[HEADER := Interval(HEADER + META_SIZE - 1, 0)]
  {
    hide Tiled, Assign, Disjoint;
    var e := HEADER + META_SIZE - 1;
    assert EndOffset(HEADER, META_SIZE) == e;
    NewVamOk();
    AllocKeepsTiling(NEW_VAM, HEADER, META_SIZE);
    assert CellsOk(NEW_VAM.ivs, 2);
    AssignFresh(NEW_VAM.ivs, HEADER, e, 0, 2, 2);
    assert HEADER / CELL == 2;
  }

  /**
   A new file opens with its header mapped at offset 0 and a static section of zeros at
   the third address; nothing else is there.
   */
  lemma NewMeaning(b: seq<byte>, staticSize: u64)
    requires 0 < staticSize < CELL && META_SIZE + staticSize <= |b| < UNMAPPED
    ensures NewOf(b, staticSize).Some?
    ensures var s := NewOf(b, staticSize).value;
      && StoreOk(s) && s.meta.staticAddr == Addr(3 * CELL, staticSize) && s.meta.highBits == 3
      && 3 * CELL in s.vam.ivs && s.vam.ivs[3 * CELL].end == 3 * CELL + staticSize - 1
      && s.vam.ivs[3 * CELL].value != UNMAPPED && s.vam.ivs.Keys == {HEADER, 3 * CELL}
    ensures forall x :: x / CELL != 2 ==>
              Mem(NewOf(b, staticSize).value, x) ==
              if 3 * CELL <= x < 3 * CELL + staticSize then Some(0) else None
  {
    hide Tiled, Disjoint, Translate, AllocOf, WritebOf, WriteOf, LookupOf, StoreOk, Mem, FormattedOf, AllocAddrOf;
    FormattedOk(b);
    var s := WithStatic(FormattedOf(b), staticSize);
    FreshStatic(b, staticSize);
    var a := 3 * CELL;
    WritebIsWrite(s, a, a, staticSize, Zeros(staticSize));
    WriteWithin(s, a, a, staticSize, Zeros(staticSize));
    WritebEntry(s, a, staticSize);
    var t := NewOf(b, staticSize).value;
    assert t == WriteOf(s, a, staticSize, Zeros(staticSize)).0;
    forall x | x / CELL != 2
      ensures Mem(t, x) == if 3 * CELL <= x < 3 * CELL + staticSize then Some(0) else None
    {
      assert WriteSeen(s, t, a, staticSize, Zeros(staticSize), x);
    }
  }

  /** Clearing the static section is the last step of making a new file. */
  lemma NewIsClear(b: seq<byte>, staticSize: u64)
    requires 0 < staticSize < CELL && META_SIZE + staticSize <= |b| < UNMAPPED
    ensures var (t, off) := WritebOf(WithStatic(FormattedOf(b), staticSize), 3 * CELL, staticSize);
      && off.Some? && off.value + staticSize <= |b| && t.bytes == b
      && NewOf(b, staticSize) == Some(t.(bytes := Splat(b, off.value, Zeros(staticSize))))
  {
    hide StoreOk, AllocOf, AllocAddrOf, FormattedOf, WritebOf, WriteOf, Splat;
    FormattedOk(b);
    FreshStatic(b, staticSize);
    WritebIsWrite(WithStatic(FormattedOf(b), staticSize), 3 * CELL, 3 * CELL, staticSize, Zeros(staticSize));
  }

  /** The static section just handed out, before it is cleared. */
  ghost function WithStatic(s: Store, staticSize: u64): Store
    requires staticSize != 0
  {
    var (t, a) := AllocAddrOf(s, staticSize);
    t.(meta := t.meta.(staticAddr := a))
  }

  lemma FreshStatic(b: seq<byte>, staticSize: u64)
    requires 0 < staticSize < CELL && META_SIZE + staticSize <= |b| < UNMAPPED
    ensures var s := WithStatic(FormattedOf(b), staticSize);
      && StoreOk(s) && s.bytes == b && Addressable(s, 3 * CELL, 3 * CELL, staticSize) && FitsAt(s, 3 * CELL, staticSize)
      && AllocAddrOf(FormattedOf(b), staticSize).1 == Addr(3 * CELL, staticSize)
      && s.meta.staticAddr == Addr(3 * CELL, staticSize) && s.meta.highBits == 3
      && s.vam.ivs.Keys == {HEADER, 3 * CELL} && s.vam.ivs[3 * CELL].end == 3 * CELL + staticSize - 1
    ensures forall x :: x / CELL != 2 ==> Mem(WithStatic(FormattedOf(b), staticSize), x) == None
  {
    hide Tiled, Disjoint, Translate, AllocAddrOf, CellsOk, SystemCells, HeaderMapped;
    FormattedOk(b);
    var s0 := FormattedOf(b);
    AllocAddrMeaning(s0, staticSize);
    var s := WithStatic(s0, staticSize);
    assert (3 * CELL) / CELL == 3;
    forall x | x / CELL != 2 ensures Mem(s, x) == None {
      NothingBesidesHeader(s0, x);
      SameMemMeta(AllocAddrOf(s0, staticSize).0, s, x);
    }
  }

  lemma SameMemMeta(s: Store, t: Store, x: int)
    requires t == s.(meta := t.meta)
    ensures Mem(t, x) == Mem(s, x)
  {
  }

  lemma NothingBesidesHeader(s: Store, x: int)
    requires s.vam.ivs == map[HEADER := Interval(HEADER + META_SIZE - 1, 0)] && x / CELL != 2
    ensures Mem(s, x) == None
  {
    if k: u64 :| MapsAt(s.vam.ivs, k, x) {
      assert k == HEADER;
      CellOf(x as u64, 2);
    }
  }

  /** A first write to a whole interval keeps its entry. */
  lemma WritebEntry(s: Store, a: u64, size: u64)
    requires StoreOk(s) && Addressable(s, a, a, size) && FitsAt(s, a, size)
    requires s.vam.ivs[a].end == a + size - 1
    ensures var t := WritebOf(s, a, size).0;
      && a in t.vam.ivs && t.vam.ivs[a].end == a + size - 1 && t.vam.ivs[a].value != UNMAPPED
      && t.vam.ivs.Keys == s.vam.ivs.Keys
  {
    hide Tiled, Disjoint, AllocOffset, FirstTouch, CellsOk, SystemCells, HeaderMapped;
    LookupFindsWithin(s.vam, a, a, size);
    AvailFits(s, a, a);
    if s.vam.ivs[a].value == UNMAPPED {
      AllocOffsetTiles(s.vam, a, size);
      TouchedWhole(s.vam.ivs, a, size, AllocOffset(s.vam, a, size).1);
    }
  }

  lemma TouchedWhole(m: Intervals<u64>, k: u64, size: u64, off: u64)
    requires k in m && k <= m[k].end && size != 0 && size == SizeOf(k, m[k].end)
    ensures FirstTouch(m, k, size, off) == m[k := Interval(m[k].end, off)]
  {
  }
}
