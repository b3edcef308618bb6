/**
 Intervals that keep to their address cells: assignments inside one cell leave
 the entries of every other cell as they are.
 */
module Cells {
  import opened Machine
  import opened IntervalSpec
  import opened Addresses

  /** [s, e] lies in one cell and leaves the last address of the cell free. */
  predicate InCell(s: u64, e: u64, c: nat) {
    c * CELL <= s && s <= e && e < c * CELL + CELL - 1
  }

  /** Every interval lies in one of the cells 1 to `last`. */
  ghost predicate CellsOk<V>(m: Intervals<V>, last: nat) {
    forall k: u64 :: k in m ==> 1 <= k / CELL <= last && InCell(k, m[k].end, k / CELL)
  }

  lemma CellOf(x: u64, c: nat)
    requires c * CELL <= x < c * CELL + CELL
    ensures x / CELL == c
  {
  }

  /** One interval a cell: they neither overlap nor touch. */
  lemma AloneCanonical<V>(m: Intervals<V>, last: nat)
    requires CellsOk(m, last)
    requires forall j: u64, k: u64 :: j in m && k in m && j / CELL == k / CELL ==> j == k
    ensures Canonical(m)
  {
    forall j: u64, k: u64 | j in m && k in m && j < k ensures m[j].end + 1 < k {
      assert InCell(j, m[j].end, j / CELL) && InCell(k, m[k].end, k / CELL);
    }
    forall k: u64 | k in m ensures k <= m[k].end {
      assert InCell(k, m[k].end, k / CELL);
    }
  }

  /** Entries outside the cell are the same in both maps. */
  ghost predicate SameOutside<V>(m: Intervals<V>, n: Intervals<V>, c: nat) {
    forall k: u64 :: k / CELL != c ==> (k in m <==> k in n) && (k in m ==> n[k] == m[k])
  }

  lemma CutOutside<V>(m: Intervals<V>, s: u64, e: u64, c: nat, last: nat)
    requires Disjoint(m) && CellsOk(m, last) && InCell(s, e, c)
    ensures SameOutside(m, Cut(m, s, e), c)
  {
    hide Disjoint;
    if SplitAt(m, e) {
      SplitterUnique(m, Splitter(m, e), e);
      CellOf(Inc(e), c);
    }
    CellOf(s, c);
    CellOf(e, c);
    forall k: u64 | k in m && k / CELL != c ensures m[k].end < s || e < k {
      assert InCell(k, m[k].end, k / CELL);
    }
  }

  lemma CutConfined<V>(m: Intervals<V>, s: u64, e: u64, c: nat, last: nat)
    requires Disjoint(m) && CellsOk(m, last) && InCell(s, e, c) && 1 <= c <= last
    ensures CellsOk(Cut(m, s, e), last) && SameOutside(m, Cut(m, s, e), c)
  {
    hide Disjoint;
    var n := Cut(m, s, e);
    CutOutside(m, s, e, c, last);
    if SplitAt(m, e) {
      var j := Splitter(m, e);
      SplitterUnique(m, j, e);
      CellOf(Inc(e), c);
      assert InCell(j, m[j].end, j / CELL);
      CellOf(e, j / CELL);
      CellOf(e, c);
    }
    forall k: u64 | k in n ensures 1 <= k / CELL <= last && InCell(k, n[k].end, k / CELL) {
      assert k in m ==> InCell(k, m[k].end, k / CELL);
    }
  }

  lemma CoalesceConfined<V>(m: Intervals<V>, s: u64, e: u64, v: V, c: nat, last: nat)
    requires Disjoint(m) && CellsOk(m, last) && InCell(s, e, c) && 1 <= c <= last
    ensures CellsOk(Coalesce(m, s, e, v), last) && SameOutside(m, Coalesce(m, s, e, v), c)
  {
    hide Coalesce, JoinedStart, SameOutside, CellsOk, Disjoint;
    JoinedInCell(m, s, e, v, c, last);
    CoalesceInCell(m, s, e, v, c, last);
  }

  lemma CoalesceInCell<V>(m: Intervals<V>, s: u64, e: u64, v: V, c: nat, last: nat)
    requires CellsOk(m, last) && 1 <= c <= last
    requires InCell(JoinedStart(m, s, v), if StartsAfter(m, e, v) then m[Inc(e)].end else e, c)
    requires StartsAfter(m, e, v) ==> InCell(Inc(e), Inc(e), c)
    ensures CellsOk(Coalesce(m, s, e, v), last) && SameOutside(m, Coalesce(m, s, e, v), c)
  {
    hide JoinedStart;
    CellOf(JoinedStart(m, s, v), c);
    if StartsAfter(m, e, v) { CellOf(Inc(e), c); }
  }

  lemma JoinedInCell<V>(m: Intervals<V>, s: u64, e: u64, v: V, c: nat, last: nat)
    requires Disjoint(m) && CellsOk(m, last) && InCell(s, e, c) && 1 <= c <= last
    ensures InCell(JoinedStart(m, s, v), if StartsAfter(m, e, v) then m[Inc(e)].end else e, c)
    ensures StartsAfter(m, e, v) ==> InCell(Inc(e), Inc(e), c)
  {
    var lo := JoinedStart(m, s, v);
    CellOf(s, c);
    CellOf(e, c);
    if EndsBefore(m, lo, s, v) {
      assert InCell(lo, m[lo].end, lo / CELL);
      CellOf(lo, c);
    }
    if StartsAfter(m, e, v) {
      CellOf(Inc(e), c);
      assert InCell(Inc(e), m[Inc(e)].end, c);
    }
  }

  /** Assigning inside a cell keeps every interval in its cell and all other cells as they were. */
  lemma AssignConfined<V>(m: Intervals<V>, s: u64, e: u64, v: V, c: nat, last: nat)
    requires Disjoint(m) && CellsOk(m, last) && InCell(s, e, c) && 1 <= c <= last
    ensures CellsOk(Assign(m, s, e, v), last) && SameOutside(m, Assign(m, s, e, v), c)
  {
    hide Cut, Coalesce;
    CutConfined(m, s, e, c, last);
    CutDisjoint(m, s, e);
    CoalesceConfined(Cut(m, s, e), s, e, v, c, last);
  }

  /** In a cell without intervals, an assignment adds exactly one entry. */
  lemma AssignFresh<V>(m: Intervals<V>, s: u64, e: u64, v: V, c: nat, last: nat)
    requires Disjoint(m) && CellsOk(m, last) && InCell(s, e, c)
    requires forall k: u64 :: k in m ==> k / CELL != c
    ensures FreeRange(m, s, e) && Assign(m, s, e, v) == m[s := Interval(e, v)]
  {
    CellOf(s, c);
    CellOf(e, c);
    forall k: u64 | k in m ensures m[k].end + 1 < s || e + 1 < k {
      assert InCell(k, m[k].end, k / CELL);
    }
    CutFree(m, s, e);
  }

  /** Where a cell holds one interval, assigning that interval's range only changes its value. */
  lemma AssignAlone<V>(m: Intervals<V>, s: u64, v: V, c: nat, last: nat)
    requires Disjoint(m) && CellsOk(m, last) && s in m && InCell(s, m[s].end, c)
    requires forall k: u64 :: k in m && k != s ==> k / CELL != c
    ensures Assign(m, s, m[s].end, v) == Replaced(m, s, v)
  {
    var e := m[s].end;
    CellOf(s, c);
    CellOf(e, c);
    forall k: u64 | k in m && k != s ensures m[k].end + 1 < s || e + 1 < k {
      assert InCell(k, m[k].end, k / CELL);
    }
    assert !SplitAt(m, e);
    var n := Cut(m, s, e);
    assert n.Keys == m.Keys - {s};
    assert n == m - {s};
  }

  lemma ReplacedConfined<V>(m: Intervals<V>, k: u64, v: V, last: nat)
    requires CellsOk(m, last) && k in m
    ensures CellsOk(Replaced(m, k, v), last) && SameOutside(m, Replaced(m, k, v), k / CELL)
  {
  }

  lemma SplitAfterConfined<V>(m: Intervals<V>, k: u64, mid: u64, right: V, last: nat)
    requires CellsOk(m, last) && k in m && k <= mid < m[k].end
    ensures CellsOk(SplitAfter(m, k, mid, right), last) && SameOutside(m, SplitAfter(m, k, mid, right), k / CELL)
  {
    assert InCell(k, m[k].end, k / CELL);
    CellOf(Inc(mid), k / CELL);
  }

  lemma SameOutsideTrans<V>(m: Intervals<V>, n: Intervals<V>, o: Intervals<V>, c: nat)
    requires SameOutside(m, n, c) && SameOutside(n, o, c)
    ensures SameOutside(m, o, c)
  {
  }
}
