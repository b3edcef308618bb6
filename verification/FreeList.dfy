/**
 The size-ordered list of include/storage/StorageHelpers.hpp. Its multimap is
 the sequence of its nodes in order: an insertion goes after equal keys.
 */
module FreeList {
  import opened Machine

  datatype Node<+T> = Node(size: u64, item: T)

  ghost predicate Sorted<T>(d: seq<Node<T>>) {
    forall i, j :: 0 <= i <= j < |d| ==> d[i].size <= d[j].size
  }

  ghost function TotalSize<T>(d: seq<Node<T>>): nat {
    if d == [] then 0 else d[0].size + TotalSize(d[1..])
  }

  lemma {:induction false} TotalSizeAppend<T>(a: seq<Node<T>>, b: seq<Node<T>>)
    ensures TotalSize(a + b) == TotalSize(a) + TotalSize(b)
  {
    if a == [] {
      assert a + b == b;
    } else {
      TotalSizeAppend(a[1..], b);
      assert (a + b)[1..] == a[1..] + b;
    }
  }

  /** `lower_bound`: the first node of at least the given size. */
  function LowerBound<T>(d: seq<Node<T>>, size: u64): (i: nat)
    ensures i <= |d|
    ensures forall j :: 0 <= j < i ==> d[j].size < size
    ensures i < |d| ==> size <= d[i].size
  {
    if d == [] || size <= d[0].size then 0 else 1 + LowerBound(d[1..], size)
  }

  /** Insertion goes to `upper_bound`: after every node of the same size. */
  function Inserted<T>(d: seq<Node<T>>, n: Node<T>): seq<Node<T>> {
    if d == [] || n.size < d[0].size then [n] + d else [d[0]] + Inserted(d[1..], n)
  }

  function Erased<T>(d: seq<Node<T>>, i: nat): seq<Node<T>>
    requires i < |d|
  {
    d[..i] + d[i + 1..]
  }

  lemma {:induction false} InsertedMultiset<T>(d: seq<Node<T>>, n: Node<T>)
    ensures multiset(Inserted(d, n)) == multiset(d) + multiset{n}
    ensures |Inserted(d, n)| == |d| + 1
    ensures TotalSize(Inserted(d, n)) == TotalSize(d) + n.size
  {
    if d != [] && d[0].size <= n.size {
      InsertedMultiset(d[1..], n);
      assert d == [d[0]] + d[1..];
    }
  }

  lemma {:induction false} InsertedSorted<T>(d: seq<Node<T>>, n: Node<T>)
    requires Sorted(d)
    ensures Sorted(Inserted(d, n))
  {
    if d != [] && d[0].size <= n.size {
      InsertedSorted(d[1..], n);
      InsertedMultiset(d[1..], n);
      var rest := Inserted(d[1..], n);
      forall m | m in rest ensures d[0].size <= m.size {
        assert m in multiset(rest);
      }
      SortedCons(d[0], rest);
    } else {
      SortedCons(n, d);
    }
  }

  lemma InsertedMeaning<T>(d: seq<Node<T>>, n: Node<T>)
    requires Sorted(d)
    ensures Sorted(Inserted(d, n))
    ensures multiset(Inserted(d, n)) == multiset(d) + multiset{n}
    ensures |Inserted(d, n)| == |d| + 1
    ensures TotalSize(Inserted(d, n)) == TotalSize(d) + n.size
  {
    InsertedSorted(d, n);
    InsertedMultiset(d, n);
  }

  lemma SortedCons<T>(n: Node<T>, d: seq<Node<T>>)
    requires Sorted(d)
    requires (forall m :: m in d ==> n.size <= m.size) || (d != [] && n.size <= d[0].size) || d == []
    ensures Sorted([n] + d)
  {
    assert forall i :: 0 <= i < |d| ==> d[i] in d && d[0].size <= d[i].size;
  }

  lemma ErasedSorted<T>(d: seq<Node<T>>, i: nat)
    requires Sorted(d) && i < |d|
    ensures Sorted(Erased(d, i))
  {
    var e := Erased(d, i);
    forall j, k | 0 <= j < k < |e| ensures e[j].size <= e[k].size {
      assert e[j] == d[if j < i then j else j + 1];
      assert e[k] == d[if k < i then k else k + 1];
    }
  }

  lemma ErasedMeaning<T>(d: seq<Node<T>>, i: nat)
    requires Sorted(d) && i < |d|
    ensures Sorted(Erased(d, i))
    ensures multiset(Erased(d, i)) == multiset(d) - multiset{d[i]}
    ensures |Erased(d, i)| == |d| - 1
    ensures TotalSize(Erased(d, i)) == TotalSize(d) - d[i].size
  {
    ErasedSorted(d, i);
    assert d == d[..i] + ([d[i]] + d[i + 1..]);
    TotalSizeAppend(d[..i], [d[i]] + d[i + 1..]);
    TotalSizeAppend(d[..i], d[i + 1..]);
  }

  /** The node `splice` and `get` choose, if any. */
  function Chosen<T>(d: seq<Node<T>>, size: u64, atmost: u64): (r: Option<nat>)
    ensures r.Some? ==> r.value < |d|
  {
    var i := LowerBound(d, size);
    if i < |d| && d[i].size <= atmost then Some(i) else None
  }

  /** Best fit: a node is chosen iff one lies between the bounds, and none of those is smaller. */
  lemma ChosenIsBestFit<T>(d: seq<Node<T>>, size: u64, atmost: u64)
    requires Sorted(d)
    ensures Chosen(d, size, atmost).Some? <==> exists n :: n in d && size <= n.size <= atmost
    ensures Chosen(d, size, atmost).Some? ==>
              var c := d[Chosen(d, size, atmost).value];
              size <= c.size <= atmost && forall n :: n in d && size <= n.size ==> c.size <= n.size
  {
    var i := LowerBound(d, size);
    forall n | n in d && size <= n.size ensures i < |d| && d[i].size <= n.size {
      var j :| 0 <= j < |d| && d[j] == n;
      assert i <= j;
    }
    if Chosen(d, size, atmost).Some? {
      assert d[i] in d;
    }
  }

  /** What is left after `splice` took `size` from the chosen node. */
  function SplicedRest<T>(d: seq<Node<T>>, i: nat, size: u64, advance: (T, u64) -> (T, T)): seq<Node<T>>
    requires i < |d| && size <= d[i].size
  {
    if d[i].size == size then Erased(d, i)
    else Inserted(Erased(d, i), Node(d[i].size - size, advance(d[i].item, size).0))
  }

  function SplicedItem<T>(d: seq<Node<T>>, i: nat, size: u64, advance: (T, u64) -> (T, T)): T
    requires i < |d|
  {
    if d[i].size == size then d[i].item else advance(d[i].item, size).1
  }

  /**
   `splice` takes the chosen node out and puts back what exceeds `size`, under its true length.
   It never adds a node, and what it hands out is exactly what the list loses.
   */
  lemma SplicedMeaning<T>(d: seq<Node<T>>, i: nat, size: u64, advance: (T, u64) -> (T, T))
    requires Sorted(d) && i < |d| && size <= d[i].size
    ensures Sorted(SplicedRest(d, i, size, advance))
    ensures multiset(SplicedRest(d, i, size, advance)) ==
            multiset(d) - multiset{d[i]} +
            (if d[i].size == size then multiset{} else multiset{Node(d[i].size - size, advance(d[i].item, size).0)})
    ensures |SplicedRest(d, i, size, advance)| <= |d|
    ensures TotalSize(SplicedRest(d, i, size, advance)) + size == TotalSize(d)
  {
    ErasedMeaning(d, i);
    if d[i].size != size {
      InsertedMeaning(Erased(d, i), Node(d[i].size - size, advance(d[i].item, size).0));
    }
  }

  class SetOrderedBySize<T> {
    var data: seq<Node<T>>

    constructor ()
      ensures data == []
    {
      data := [];
    }

    method Add(size: u64, t: T)
      requires Sorted(data)
      modifies this
      ensures data == Inserted(old(data), Node(size, t))
      ensures Sorted(data) && multiset(data) == old(multiset(data)) + multiset{Node(size, t)}
    {
      InsertedMeaning(data, Node(size, t));
      data := Inserted(data, Node(size, t));
    }

    method Has(size: u64, atmost: u64) returns (b: bool)
      requires Sorted(data)
      ensures b <==> exists n :: n in data && size <= n.size <= atmost
    {
      ChosenIsBestFit(data, size, atmost);
      var i := LowerBound(data, size);
      if i == |data| || data[i].size > atmost {
        return false;
      }
      b := true;
    }

    /** Takes a smallest node between the bounds out of the set. */
    method Get(size: u64, atmost: u64) returns (r: Option<Node<T>>)
      requires Sorted(data)
      modifies this
      ensures Sorted(data)
      ensures r.None? ==> data == old(data) && forall n :: n in old(data) ==> !(size <= n.size <= atmost)
      ensures r.Some? ==> var i := LowerBound(old(data), size);
                          i < |old(data)| && r.value == old(data)[i] && data == Erased(old(data), i)
      ensures r.Some? ==> size <= r.value.size <= atmost
      ensures r.Some? ==> r.value in old(data) && multiset(data) == old(multiset(data)) - multiset{r.value}
      ensures r.Some? ==> forall n :: n in old(data) && size <= n.size ==> r.value.size <= n.size
    {
      ChosenIsBestFit(data, size, atmost);
      var i := LowerBound(data, size);
      if i == |data| || data[i].size > atmost {
        return None;
      }
      ErasedMeaning(data, i);
      r := Some(data[i]);
      data := Erased(data, i);
    }

    /**
     Takes `size` from the front of a smallest node that has it; `advance` moves a
     node's item past its first `size` bytes and returns (what is left, what was taken).
     */
    method Splice(size: u64, advance: (T, u64) -> (T, T), atmost: u64) returns (r: Option<T>)
      requires Sorted(data)
      modifies this
      ensures Sorted(data)
      ensures var c := Chosen(old(data), size, atmost);
        if c.None? then
          r == None && data == old(data)
        else
          r == Some(SplicedItem(old(data), c.value, size, advance)) &&
          data == SplicedRest(old(data), c.value, size, advance)
    {
      hide Inserted, Erased, Sorted;
      var i := LowerBound(data, size);
      if i == |data| || data[i].size > atmost {
        return None;
      }
      SplicedMeaning(data, i, size, advance);
      if data[i].size == size {
        r := Some(data[i].item);
        data := Erased(data, i);
        return;
      }
      var node := data[i];
      var (left, taken) := advance(node.item, size);
      var others := Erased(data, i);
      ghost var d0 := data;
      data := Inserted(others, Node(node.size - size, left));
      assert data == SplicedRest(d0, i, size, advance);
      r := Some(taken);
    }
  }
}
