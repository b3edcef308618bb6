/**
 The address blocks of an object store: live objects, unused blocks and the tail
 of the base range are disjoint, through every way a block changes hands.
 */
module ObjectBlocks {
  import opened Machine
  import opened FreeList
  import opened StorageSpec

  ghost predicate AddrsApart(a: Addr, b: Addr) {
    a.addr + a.size <= b.addr || b.addr + b.size <= a.addr
  }

  ghost predicate InRange(a: Addr, lo: int, hi: int) {
    lo <= a.addr && 0 < a.size && a.addr + a.size <= hi
  }

  /**
   Live blocks and unused blocks are non-empty, lie in [lo, hi) and are pairwise
   disjoint; an unused block's key is its size.
   */
  ghost predicate ObjectsApart(live: map<u64, Addr>, unused: multiset<Node<Addr>>, lo: int, hi: int) {
    && (forall i :: i in live ==> InRange(live[i], lo, hi))
    && (forall n :: n in unused ==> unused[n] == 1 && n.size == n.item.size && InRange(n.item, lo, hi))
    && (forall i, j :: i in live && j in live && i != j ==> AddrsApart(live[i], live[j]))
    && (forall n, o :: n in unused && o in unused && n != o ==> AddrsApart(n.item, o.item))
    && (forall i, n :: i in live && n in unused ==> AddrsApart(live[i], n.item))
  }

  lemma HandOut(live: map<u64, Addr>, unused: multiset<Node<Addr>>, lo: int, hi: int, n: Node<Addr>, index: u64)
    requires ObjectsApart(live, unused, lo, hi) && n in unused && index !in live
    ensures ObjectsApart(live[index := n.item], unused - multiset{n}, lo, hi)
  {
  }

  lemma TakeBack(live: map<u64, Addr>, unused: multiset<Node<Addr>>, lo: int, hi: int, index: u64)
    requires ObjectsApart(live, unused, lo, hi) && index in live
    ensures ObjectsApart(live - {index}, unused + multiset{Node(live[index].size, live[index])}, lo, hi)
  {
    var n := Node(live[index].size, live[index]);
    assert n in unused ==> AddrsApart(live[index], n.item);
  }

  lemma Forget(live: map<u64, Addr>, unused: multiset<Node<Addr>>, lo: int, hi: int, index: u64)
    requires ObjectsApart(live, unused, lo, hi)
    ensures ObjectsApart(live - {index}, unused, lo, hi)
  {
  }

  lemma CutBlock(live: map<u64, Addr>, unused: multiset<Node<Addr>>, lo: int, hi: int,
                 n: Node<Addr>, a: Node<Addr>, b: Node<Addr>)
    requires ObjectsApart(live, unused, lo, hi) && n in unused
    requires a.size == a.item.size && b.size == b.item.size && 0 < a.size && 0 < b.size
    requires a.item.addr == n.item.addr && b.item.addr == n.item.addr + a.size && a.size + b.size == n.size
    ensures ObjectsApart(live, unused - multiset{n} + multiset{b} + multiset{a}, lo, hi)
  {
    var rest := unused - multiset{n};
    assert n !in rest;
    assert ObjectsApart(live, rest, lo, hi);
    forall o | o in rest ensures AddrsApart(o.item, a.item) && AddrsApart(o.item, b.item) {
      assert AddrsApart(o.item, n.item);
    }
    forall i | i in live ensures AddrsApart(live[i], a.item) && AddrsApart(live[i], b.item) {
      assert AddrsApart(live[i], n.item);
    }
    AddBlock(live, rest, lo, hi, b);
    AddBlock(live, rest + multiset{b}, lo, hi, a);
  }

  lemma AddBlock(live: map<u64, Addr>, unused: multiset<Node<Addr>>, lo: int, hi: int, n: Node<Addr>)
    requires ObjectsApart(live, unused, lo, hi) && n.size == n.item.size && InRange(n.item, lo, hi)
    requires forall o :: o in unused ==> AddrsApart(o.item, n.item)
    requires forall i :: i in live ==> AddrsApart(live[i], n.item)
    ensures ObjectsApart(live, unused + multiset{n}, lo, hi)
  {
    assert n !in unused;
  }

  lemma GrowTail(live: map<u64, Addr>, unused: multiset<Node<Addr>>, lo: int, hi: int, n: Node<Addr>)
    requires ObjectsApart(live, unused, lo, hi) && lo <= hi
    requires n.size == n.item.size && 0 < n.size && n.item.addr == hi
    ensures ObjectsApart(live, unused + multiset{n}, lo, hi + n.size)
  {
    forall o | o in unused ensures AddrsApart(o.item, n.item) {
    }
  }
}
