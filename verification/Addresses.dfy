/** `RandomAddressRange` of include/storage/StorageUtils.hpp: every call opens a cell of 2^36 addresses. */
module Addresses {
  import opened Machine

  const BITS_OFFSET: nat := 36
  const CELL: u64 := 0x10_0000_0000
  const CELLS: u64 := 0x1000_0000

  function BitLength(x: nat): nat {
    if x == 0 then 0 else 1 + BitLength(x / 2)
  }

  /** Leading zeros of a 32-bit number. */
  function Clz32(x: nat): int {
    32 - BitLength(x)
  }

  /** `high_bits << BITS_OFFSET` on 64 bits. */
  function AddressOf(highBits: u64): u64 {
    (highBits % CELLS) * CELL
  }

  class RandomAddressRange {
    var highBits: u64

    constructor (h: u64)
      ensures highBits == h
    {
      highBits := h;
    }

    /**
     `__builtin_clz` takes 32 bits of the size, so it never exceeds 32 and the branch
     for an offset above 36 is never taken, whatever the size.
     */
    method GetRandomAddress(size: u64) returns (address: u64)
      modifies this
      ensures highBits == Inc(old(highBits)) && address == AddressOf(highBits)
    {
      var maxOffset := Clz32(size % 0x1_0000_0000);
      if maxOffset > BITS_OFFSET {
        assert false;
      } else {
        highBits := Inc(highBits);
      }
      address := AddressOf(highBits);
    }
  }

  /** The addresses handed out by a run of calls, in order. */
  function AddressesOf(highBits: u64, sizes: seq<u64>): (addrs: seq<u64>)
    ensures |addrs| == |sizes|
    decreases |sizes|
  {
    if sizes == [] then [] else [AddressOf(Inc(highBits))] + AddressesOf(Inc(highBits), sizes[1..])
  }

  /** Disjoint, with at least one address between. */
  predicate Separate(a: u64, m: u64, b: u64, n: u64) {
    a + m < b || b + n < a
  }

  lemma {:induction false} AddressAt(highBits: u64, sizes: seq<u64>, i: nat)
    requires i < |sizes|
    ensures AddressesOf(highBits, sizes)[i] == ((highBits + i + 1) % CELLS) * CELL
    decreases i
  {
    WrapKeepsCell(i);
    if i != 0 {
      AddressAt(Inc(highBits), sizes[1..], i - 1);
      assert (Inc(highBits) + i) % CELLS == (highBits + i + 1) % CELLS;
    }
  }

  lemma WrapKeepsCell(x: nat)
    ensures (x + U64_LIMIT) % CELLS == x % CELLS
  {
    assert U64_LIMIT == CELLS * 0x10_0000_0000;
    assert x + U64_LIMIT == x + CELLS * 0x10_0000_0000;
  }

  /**
   In a run of any number of calls with sizes below 2^36, two ranges do not overlap or
   touch if and only if the calls are not a multiple of 2^28 apart.
   */
  lemma FreshAddressesSeparateIff(highBits: u64, sizes: seq<u64>, i: nat, j: nat)
    requires i < j < |sizes| && sizes[i] < CELL && sizes[j] < CELL
    ensures var addrs := AddressesOf(highBits, sizes);
      Separate(addrs[i], sizes[i], addrs[j], sizes[j]) <==> (j - i) % CELLS != 0
  {
    AddressAt(highBits, sizes, i);
    AddressAt(highBits, sizes, j);
    var a, b := highBits + i + 1, highBits + j + 1;
    ModDiffers(a, b);
    if a % CELLS != b % CELLS {
      CellsApart(a % CELLS, b % CELLS, sizes[i], sizes[j]);
    }
  }

  lemma ModDiffers(a: nat, b: nat)
    requires a < b
    ensures a % CELLS != b % CELLS <==> (b - a) % CELLS != 0
  {
  }

  lemma CellsApart(c: nat, d: nat, m: u64, n: u64)
    requires c < CELLS && d < CELLS && c != d && m < CELL && n < CELL
    ensures Separate(c * CELL, m, d * CELL, n)
  {
  }

  /** The bound on sizes is sharp: a range touches or overlaps the next cell's exactly when it is 2^36 or longer. */
  lemma NextCellSeparateIff(highBits: u64, m: u64, n: u64)
    requires highBits + 1 < CELLS && 0 < n
    ensures Separate(AddressOf(highBits), m, AddressOf(highBits + 1), n) <==> m < CELL
  {
    assert AddressOf(highBits + 1) == AddressOf(highBits) + CELL;
  }

  /** A range of 2^36 addresses reaches the next one, and the cells come round after 2^28 calls. */
  lemma AddressExamples()
    ensures !Separate(AddressOf(1), CELL, AddressOf(2), 1)
    ensures AddressOf(1) == AddressOf(CELLS + 1)
  {
  }
}
