/**
 What an interval map means, independently of how it is edited: a partial
 function from points to values. `Cut` and `Coalesce` are closed forms of range
 deletion and of insertion into a free range; the class in IntervalMap.dfy is
 proved to compute them, and the lemmas below say what they mean.
 */
module IntervalSpec {
  import opened Machine

  /** The `std::pair<K, V>` stored under an interval's start. */
  datatype Interval<+V> = Interval(end: u64, value: V)

  type Intervals<V> = map<u64, Interval<V>>

  /** Every interval is non-empty and no two share a point. */
  ghost predicate Disjoint<V>(m: Intervals<V>) {
    && (forall k: u64 :: k in m ==> k <= m[k].end)
    && (forall j: u64, k: u64 :: j in m && k in m && j < k ==> m[j].end < k)
  }

  /** Disjoint, and neighbours that touch have different values. */
  ghost predicate Canonical<V>(m: Intervals<V>) {
    && Disjoint(m)
    && (forall j: u64, k: u64 :: j in m && k in m && m[j].end + 1 == k ==> m[j].value != m[k].value)
  }

  predicate Covers<V>(m: Intervals<V>, k: u64, p: int) {
    k in m && k <= p <= m[k].end
  }

  /** The value at point `p`. */
  ghost function At<V>(m: Intervals<V>, p: int): Option<V> {
    if exists k: u64 :: Covers(m, k, p) then
      var k: u64 :| Covers(m, k, p);
      Some(m[k].value)
    else None
  }

  ghost predicate FreeRange<V>(m: Intervals<V>, s: u64, e: u64) {
    forall k: u64 :: k in m ==> m[k].end < s || e < k
  }

  lemma AtCovered<V>(m: Intervals<V>, k: u64, p: int)
    requires Disjoint(m) && Covers(m, k, p)
    ensures At(m, p) == Some(m[k].value)
  {
    forall j: u64 | Covers(m, j, p) ensures j == k {
      assert !(j < k) && !(k < j);
    }
  }

  lemma CoverUnique<V>(m: Intervals<V>, j: u64, k: u64, p: int)
    requires Disjoint(m) && Covers(m, j, p) && Covers(m, k, p)
    ensures j == k
  {
    assert !(j < k) && !(k < j);
  }

  /** The start found by `find`: the interval that covers `p`, if any. */
  function Find<V>(m: Intervals<V>, p: u64): (r: Option<u64>)
    ensures r.Some? ==> Covers(m, r.value, p)
    ensures Disjoint(m) && r.None? ==> forall k: u64 :: !Covers(m, k, p)
  {
    match FloorKey(m, p)
    case None => None
    case Some(k) => if p <= m[k].end then Some(k) else None
  }

  lemma FindMeaning<V>(m: Intervals<V>, p: u64)
    requires Disjoint(m)
    ensures Find(m, p).Some? <==> At(m, p).Some?
    ensures forall k: u64 :: Covers(m, k, p) <==> Find(m, p) == Some(k)
  {
    if Find(m, p).Some? {
      var k := Find(m, p).value;
      AtCovered(m, k, p);
      forall j: u64 | Covers(m, j, p) ensures j == k { CoverUnique(m, j, k, p); }
    }
  }

  /** Whether some point of [s, e] is covered. */
  ghost predicate Meets<V>(m: Intervals<V>, s: u64, e: u64) {
    exists p :: s <= p <= e && At(m, p).Some?
  }

  lemma MeetsIffNotFree<V>(m: Intervals<V>, s: u64, e: u64)
    requires Disjoint(m) && s <= e
    ensures Meets(m, s, e) <==> !FreeRange(m, s, e)
  {
    if !FreeRange(m, s, e) {
      var k: u64 :| k in m && !(m[k].end < s || e < k);
      AtCovered(m, k, Max(k, s));
      assert At(m, Max(k, s)).Some?;
    }
  }

  // ---------------------------------------------------------------- deletion

  ghost predicate Straddles<V>(m: Intervals<V>, k: u64, e: u64) {
    k in m && k <= e < m[k].end
  }

  /** Some interval contains both `e` and `e + 1`. */
  ghost predicate SplitAt<V>(m: Intervals<V>, e: u64) {
    exists k: u64 :: Straddles(m, k, e)
  }

  ghost function Splitter<V>(m: Intervals<V>, e: u64): (k: u64)
    requires SplitAt(m, e)
    ensures Straddles(m, k, e)
  {
    var k: u64 :| Straddles(m, k, e);
    k
  }

  ghost function CutKeys<V>(m: Intervals<V>, s: u64, e: u64): set<u64> {
    (set k | k in m && (k < s || e < k)) + (if SplitAt(m, e) then {Inc(e)} else {})
  }

  ghost function CutEntry<V>(m: Intervals<V>, s: u64, e: u64, k: u64): Interval<V>
    requires k in CutKeys(m, s, e)
  {
    if k !in m then m[Splitter(m, e)]
    else if k < s <= m[k].end then Interval(s - 1, m[k].value)
    else m[k]
  }

  /**
   `m` without the points of [s, e]: intervals to the left are trimmed at `s`, those to
   the right stay whole, and an interval reaching past `e` keeps its piece after `e`.
   */
  ghost function Cut<V>(m: Intervals<V>, s: u64, e: u64): Intervals<V> {
    map k | k in CutKeys(m, s, e) :: CutEntry(m, s, e, k)
  }

  lemma SplitterUnique<V>(m: Intervals<V>, j: u64, e: u64)
    requires Disjoint(m) && Straddles(m, j, e)
    ensures SplitAt(m, e) && Splitter(m, e) == j
    ensures Inc(e) == e + 1 && Inc(e) !in m
  {
    CoverUnique(m, Splitter(m, e), j, e);
  }

  lemma CutDisjoint<V>(m: Intervals<V>, s: u64, e: u64)
    requires Disjoint(m) && s <= e
    ensures Disjoint(Cut(m, s, e)) && FreeRange(Cut(m, s, e), s, e)
  {
    var c := Cut(m, s, e);
    if SplitAt(m, e) { SplitterUnique(m, Splitter(m, e), e); }
    forall k: u64 | k in c ensures k <= c[k].end && (c[k].end < s || e < k) {
    }
    forall j: u64, k: u64 | j in c && k in c && j < k ensures c[j].end < k {
      assert k == e + 1 || k in m;
      assert j in m || j == e + 1;
      assert j in m ==> c[j].end <= m[j].end;
      if j in m && k !in m {
        assert m[Splitter(m, e)].end > e;
      }
    }
  }

  /** Deletion empties exactly [s, e]. */
  lemma CutAt<V>(m: Intervals<V>, s: u64, e: u64)
    requires Disjoint(m) && s <= e
    ensures Disjoint(Cut(m, s, e)) && FreeRange(Cut(m, s, e), s, e)
    ensures forall p :: At(Cut(m, s, e), p) == if s <= p <= e then None else At(m, p)
  {
    CutDisjoint(m, s, e);
    forall p ensures At(Cut(m, s, e), p) == if s <= p <= e then None else At(m, p) {
      CutAtPoint(m, s, e, p);
    }
  }

  lemma CutAtPoint<V>(m: Intervals<V>, s: u64, e: u64, p: int)
    requires Disjoint(m) && s <= e
    ensures At(Cut(m, s, e), p) == if s <= p <= e then None else At(m, p)
  {
    var c := Cut(m, s, e);
    CutDisjoint(m, s, e);
    if j: u64 :| Covers(m, j, p) && !(s <= p <= e) {
      AtCovered(m, j, p);
      if p < s || e < j {
        AtCovered(c, j, p);
      } else {
        SplitterUnique(m, j, e);
        AtCovered(c, Inc(e), p);
      }
    } else if j: u64 :| Covers(c, j, p) {
      assert Covers(m, if j in m then j else Splitter(m, e), p);
    }
  }

  /** What straddles `e` once [s, x] is gone is what straddled it before. */
  lemma CutStraddles<V>(m: Intervals<V>, s: u64, x: u64, e: u64)
    requires Disjoint(m) && s <= x < e
    ensures SplitAt(m, e) <==> SplitAt(Cut(m, s, x), e)
    ensures SplitAt(m, e) ==> Cut(m, s, x)[Splitter(Cut(m, s, x), e)] == m[Splitter(m, e)]
  {
    var c := Cut(m, s, x);
    CutDisjoint(m, s, x);
    if SplitAt(c, e) {
      var i := Splitter(c, e);
      assert Straddles(m, if i in m then i else Splitter(m, x), e);
    }
    if SplitAt(m, e) {
      var j := Splitter(m, e);
      if j <= x {
        SplitterUnique(m, j, x);
        SplitterUnique(c, Inc(x), e);
      } else {
        SplitterUnique(c, j, e);
      }
    }
  }

  ghost predicate SplitKeyFree<V>(m: Intervals<V>, e: u64) {
    SplitAt(m, e) ==> Inc(e) == e + 1 && Inc(e) !in m
  }

  lemma CutCutEntries<V>(m: Intervals<V>, c: Intervals<V>, s: u64, x: u64, e: u64)
    requires s <= x < e && c == Cut(m, s, x)
    requires SplitKeyFree(m, x) && SplitKeyFree(m, e)
    requires SplitAt(m, e) <==> SplitAt(c, e)
    requires SplitAt(m, e) ==> c[Splitter(c, e)] == m[Splitter(m, e)]
    ensures Cut(c, Inc(x), e) == Cut(m, s, e)
  {
    assert CutKeys(c, Inc(x), e) == CutKeys(m, s, e);
    forall k | k in CutKeys(m, s, e) ensures CutEntry(c, Inc(x), e, k) == CutEntry(m, s, e, k) {
      if k in m && k < s {
        assert c[k] == CutEntry(m, s, x, k);
      } else if k in m {
        assert c[k] == m[k];
      }
    }
  }

  /** Deleting [s, x] and then [x + 1, e] is deleting [s, e]. */
  lemma CutCut<V>(m: Intervals<V>, s: u64, x: u64, e: u64)
    requires Disjoint(m) && s <= x < e
    ensures Cut(Cut(m, s, x), Inc(x), e) == Cut(m, s, e)
  {
    CutStraddles(m, s, x, e);
    if SplitAt(m, e) { SplitterUnique(m, Splitter(m, e), e); }
    if SplitAt(m, x) { SplitterUnique(m, Splitter(m, x), x); }
    CutCutEntries(m, Cut(m, s, x), s, x, e);
  }

  lemma CutFree<V>(m: Intervals<V>, s: u64, e: u64)
    requires Disjoint(m) && s <= e && FreeRange(m, s, e)
    ensures Cut(m, s, e) == m
  {
    assert forall j: u64 :: !Straddles(m, j, e);
    assert CutKeys(m, s, e) == m.Keys;
  }

  /** Deletion keeps a canonical map canonical. */
  lemma CutCanonical<V>(m: Intervals<V>, s: u64, e: u64)
    requires Canonical(m) && s <= e
    ensures Canonical(Cut(m, s, e))
  {
    CutDisjoint(m, s, e);
    if SplitAt(m, e) { SplitterUnique(m, Splitter(m, e), e); }
  }

  /** One deletion adds at most one entry, and none when it does not split an interval. */
  lemma CutGrowth<V>(m: Intervals<V>, s: u64, e: u64)
    requires Disjoint(m) && s <= e
    ensures |Cut(m, s, e)| <= |m| + 1
  {
    var keys := CutKeys(m, s, e);
    assert Cut(m, s, e).Keys == keys;
    SubsetSize(keys - {Inc(e)}, m.Keys);
    assert |keys| <= |keys - {Inc(e)}| + 1;
  }

  lemma SubsetSize<T>(a: set<T>, b: set<T>)
    requires a <= b
    ensures |a| <= |b|
  {
    assert b == a + (b - a);
    assert |a + (b - a)| == |a| + |b - a|;
  }

  // --------------------------------------------------------------- insertion

  /** `k` starts an interval that ends just before `s` with value `v`. */
  predicate EndsBefore<V(==)>(m: Intervals<V>, k: u64, s: u64, v: V) {
    k in m && m[k].end + 1 == s && m[k].value == v
  }

  /** An interval with value `v` starts just after `e`. */
  predicate StartsAfter<V(==)>(m: Intervals<V>, e: u64, v: V) {
    e < U64_MAX && Inc(e) in m && m[Inc(e)].value == v
  }

  /** Where the interval that takes in [s, e] starts: at its left neighbour if that has value `v`. */
  ghost function JoinedStart<V>(m: Intervals<V>, s: u64, v: V): u64 {
    if exists k: u64 :: EndsBefore(m, k, s, v) then var k: u64 :| EndsBefore(m, k, s, v); k else s
  }

  /** `m` with the free range [s, e] given the value `v`, joined to equal neighbours on either side. */
  ghost function Coalesce<V>(m: Intervals<V>, s: u64, e: u64, v: V): Intervals<V> {
    if StartsAfter(m, e, v) then
      (m - {Inc(e)})[JoinedStart(m, s, v) := Interval(m[Inc(e)].end, v)]
    else
      m[JoinedStart(m, s, v) := Interval(e, v)]
  }

  lemma EndsBeforeUnique<V>(m: Intervals<V>, j: u64, k: u64, s: u64, v: V)
    requires Disjoint(m) && EndsBefore(m, j, s, v) && EndsBefore(m, k, s, v)
    ensures j == k
  {
    CoverUnique(m, j, k, s - 1);
  }

  lemma CoalesceDisjoint<V>(m: Intervals<V>, s: u64, e: u64, v: V)
    requires Disjoint(m) && s <= e && FreeRange(m, s, e)
    ensures Disjoint(Coalesce(m, s, e, v))
  {
    var c, lo := Coalesce(m, s, e, v), JoinedStart(m, s, v);
    forall j: u64, k: u64 | j in c && k in c && j < k ensures c[j].end < k {
      assert k == lo ==> j in m && (k == s || k in m);
      assert j == lo ==> k in m && (StartsAfter(m, e, v) ==> k != Inc(e));
    }
  }

  lemma CoalesceAtPoint<V>(m: Intervals<V>, s: u64, e: u64, v: V, p: int)
    requires Disjoint(m) && s <= e && FreeRange(m, s, e)
    ensures At(Coalesce(m, s, e, v), p) == if s <= p <= e then Some(v) else At(m, p)
  {
    var c, lo := Coalesce(m, s, e, v), JoinedStart(m, s, v);
    CoalesceDisjoint(m, s, e, v);
    if Covers(c, lo, p) {
      AtCovered(c, lo, p);
      if p < s {
        AtCovered(m, lo, p);
      } else if p > e {
        AtCovered(m, Inc(e), p);
      }
    } else if j: u64 :| Covers(m, j, p) {
      AtCovered(m, j, p);
      AtCovered(c, j, p);
    } else if j: u64 :| Covers(c, j, p) {
      assert Covers(m, j, p);
    }
  }

  /** Insertion gives exactly [s, e] the value `v`, whichever neighbours it joins. */
  lemma CoalesceAt<V>(m: Intervals<V>, s: u64, e: u64, v: V)
    requires Disjoint(m) && s <= e && FreeRange(m, s, e)
    ensures Disjoint(Coalesce(m, s, e, v))
    ensures forall p :: At(Coalesce(m, s, e, v), p) == if s <= p <= e then Some(v) else At(m, p)
  {
    CoalesceDisjoint(m, s, e, v);
    forall p ensures At(Coalesce(m, s, e, v), p) == if s <= p <= e then Some(v) else At(m, p) {
      CoalesceAtPoint(m, s, e, v, p);
    }
  }

  /** Insertion into a canonical map leaves no equal neighbours behind. */
  lemma CoalesceCanonical<V>(m: Intervals<V>, s: u64, e: u64, v: V)
    requires Canonical(m) && s <= e && FreeRange(m, s, e)
    ensures Canonical(Coalesce(m, s, e, v))
  {
    CoalesceDisjoint(m, s, e, v);
    var c, lo := Coalesce(m, s, e, v), JoinedStart(m, s, v);
    forall j: u64, k: u64 | j in c && k in c && c[j].end + 1 == k ensures c[j].value != c[k].value {
      if k == lo {
        assert k == s ==> !EndsBefore(m, j, s, v);
      } else if j == lo {
        assert k in m;
        if StartsAfter(m, e, v) {
          assert m[Inc(e)].end + 1 == k;
        } else {
          assert k == e + 1 && m[k].value != v;
        }
      }
    }
  }

  lemma CoalesceGrowth<V>(m: Intervals<V>, s: u64, e: u64, v: V)
    ensures |Coalesce(m, s, e, v)| <= |m| + 1
  {
    var c := Coalesce(m, s, e, v);
    if StartsAfter(m, e, v) {
      SubsetSize((m - {Inc(e)}).Keys, m.Keys);
    }
  }

  // -------------------------------------------------------------- assignment

  /** `set`: delete the range, then insert it. */
  ghost function Assign<V>(m: Intervals<V>, s: u64, e: u64, v: V): Intervals<V> {
    Coalesce(Cut(m, s, e), s, e, v)
  }

  /** After `set`, every point of [s, e] has value `v` and every other point is unchanged. */
  lemma AssignAt<V>(m: Intervals<V>, s: u64, e: u64, v: V)
    requires Disjoint(m) && s <= e
    ensures Disjoint(Assign(m, s, e, v))
    ensures forall p :: At(Assign(m, s, e, v), p) == if s <= p <= e then Some(v) else At(m, p)
  {
    CutAt(m, s, e);
    CoalesceAt(Cut(m, s, e), s, e, v);
  }

  lemma AssignDisjoint<V>(m: Intervals<V>, s: u64, e: u64, v: V)
    requires Disjoint(m) && s <= e
    ensures Disjoint(Assign(m, s, e, v))
  {
    CutDisjoint(m, s, e);
    CoalesceDisjoint(Cut(m, s, e), s, e, v);
  }

  lemma AssignCanonical<V>(m: Intervals<V>, s: u64, e: u64, v: V)
    requires Canonical(m) && s <= e
    ensures Canonical(Assign(m, s, e, v))
  {
    CutAt(m, s, e);
    CutCanonical(m, s, e);
    CoalesceCanonical(Cut(m, s, e), s, e, v);
  }

  /** One `set` adds at most two entries. */
  lemma AssignGrowth<V>(m: Intervals<V>, s: u64, e: u64, v: V)
    requires Disjoint(m) && s <= e
    ensures |Assign(m, s, e, v)| <= |m| + 2
  {
    CutGrowth(m, s, e);
    CoalesceGrowth(Cut(m, s, e), s, e, v);
  }

  // ------------------------------------------------- in-place value and split

  ghost function Replaced<V>(m: Intervals<V>, k: u64, v: V): Intervals<V>
    requires k in m
  {
    m[k := Interval(m[k].end, v)]
  }

  /** The interval at `k` cut after `mid`; the right half gets a value of its own. */
  ghost function SplitAfter<V>(m: Intervals<V>, k: u64, mid: u64, right: V): Intervals<V>
    requires k in m
  {
    var left: Intervals<V> := m[k := Interval(mid, m[k].value)];
    left[Inc(mid) := Interval(m[k].end, right)]
  }

  lemma ReplacedCanonical<V>(m: Intervals<V>, k: u64, v: V)
    requires Canonical(m) && k in m
    requires forall j: u64 :: j in m ==> m[j].value != v
    ensures Canonical(Replaced(m, k, v))
    ensures forall j: u64 :: j in m && m[k].end + 1 == j ==> m[j].value != m[k].value
  {
  }

  /** Cutting an interval keeps a map canonical if the new right half differs from both its neighbours. */
  lemma SplitAfterCanonical<V>(m: Intervals<V>, k: u64, mid: u64, right: V)
    requires Canonical(m) && k in m && k <= mid < m[k].end && right != m[k].value
    requires forall j: u64 :: j in m && m[k].end + 1 == j ==> m[j].value != right
    ensures Inc(mid) == mid + 1 && Inc(mid) !in m
    ensures Canonical(SplitAfter(m, k, mid, right))
  {
    var n := SplitAfter(m, k, mid, right);
    forall i: u64, j: u64 | i in n && j in n && i < j
      ensures n[i].end < j && (n[i].end + 1 == j ==> n[i].value != n[j].value)
    {
      assert i == mid + 1 || i in m;
      assert j == mid + 1 || j in m;
    }
  }

  lemma ReplacedCovers<V>(m: Intervals<V>, k: u64, v: V, x: int)
    requires Disjoint(m) && k in m
    ensures Disjoint(Replaced(m, k, v)) && k in Replaced(m, k, v) && Replaced(m, k, v)[k].end == m[k].end
    ensures At(Replaced(m, k, v), x).Some? <==> At(m, x).Some?
  {
    var n := Replaced(m, k, v);
    assert forall j: u64 :: Covers(n, j, x) <==> Covers(m, j, x);
  }

  /** Cutting an interval changes the value of its right part only. */
  lemma SplitAfterAt<V>(m: Intervals<V>, k: u64, mid: u64, right: V, x: int)
    requires Disjoint(m) && k in m && k <= mid < m[k].end
    ensures Disjoint(SplitAfter(m, k, mid, right))
    ensures At(SplitAfter(m, k, mid, right), x) == if mid < x <= m[k].end then Some(right) else At(m, x)
  {
    var n := SplitAfter(m, k, mid, right);
    SplitterUnique(m, k, mid);
    assert Disjoint(n);
    SplitAfterCovers(m, k, mid, right, x);
    if mid < x <= m[k].end {
      AtCovered(n, mid + 1, x);
    } else if i: u64 :| Covers(m, i, x) {
      AtCovered(m, i, x);
      AtCovered(n, i, x);
    }
  }

  lemma SplitAfterCovers<V>(m: Intervals<V>, k: u64, mid: u64, right: V, x: int)
    requires Disjoint(m) && k in m && k <= mid < m[k].end
    ensures At(SplitAfter(m, k, mid, right), x).Some? <==> At(m, x).Some?
  {
    var n := SplitAfter(m, k, mid, right);
    assert Inc(mid) !in m;
    if j: u64 :| Covers(m, j, x) {
      assert Covers(n, if j == k && mid < x then Inc(mid) else j, x);
    }
    if j: u64 :| Covers(n, j, x) {
      assert Covers(m, if j in m then j else k, x);
    }
  }

  // ------------------------------------------------------------- canonicity

  /** [k, e] is a longest run of points with value `v`. */
  ghost predicate MaximalRun<V(!new)>(m: Intervals<V>, k: int, e: int, v: V) {
    && k <= e
    && (forall p :: k <= p <= e ==> At(m, p) == Some(v))
    && At(m, k - 1) != Some(v)
    && At(m, e + 1) != Some(v)
  }

  lemma EntryIsRun<V(!new)>(m: Intervals<V>, k: u64)
    requires Canonical(m) && k in m
    ensures MaximalRun(m, k, m[k].end, m[k].value)
  {
    var e: int, v := m[k].end, m[k].value;
    forall p | k <= p <= e ensures At(m, p) == Some(v) { AtCovered(m, k, p); }
    forall q: int | q == k - 1 || q == e + 1 ensures At(m, q) != Some(v) {
      if j: u64 :| Covers(m, j, q) {
        AtCovered(m, j, q);
        assert q == k - 1 ==> j < k && m[j].end == q;
        assert q == e + 1 ==> k < j && j == q;
      }
    }
  }

  lemma NoRunPastEnd<V>(m: Intervals<V>, j: u64, v: V)
    requires Canonical(m) && j in m && m[j].value == v
    ensures At(m, m[j].end as int + 1) != Some(v)
  {
    var q: int := m[j].end + 1;
    if i: u64 :| Covers(m, i, q) {
      AtCovered(m, i, q);
      assert i == q;
    }
  }

  lemma RunIsEntry<V(!new)>(m: Intervals<V>, k: u64, e: u64, v: V)
    requires Canonical(m) && MaximalRun(m, k, e, v)
    ensures k in m && m[k] == Interval(e, v)
  {
    assert At(m, k) == Some(v);
    var j: u64 :| Covers(m, j, k);
    AtCovered(m, j, k);
    if j < k { AtCovered(m, j, k - 1); }
    if e < m[j].end { AtCovered(m, j, e + 1); }
    if m[j].end < e { NoRunPastEnd(m, j, v); }
  }

  /** The entries of a canonical map are exactly the maximal runs of its point function. */
  lemma EntriesAreRuns<V(!new)>(m: Intervals<V>, k: u64, e: u64, v: V)
    requires Canonical(m)
    ensures (k in m && m[k] == Interval(e, v)) <==> MaximalRun(m, k, e, v)
  {
    if MaximalRun(m, k, e, v) { RunIsEntry(m, k, e, v); }
    if k in m && m[k] == Interval(e, v) { EntryIsRun(m, k); }
  }

  /** Two canonical maps with the same point function are the same map. */
  lemma CanonicalUnique<V(!new)>(m: Intervals<V>, n: Intervals<V>)
    requires Canonical(m) && Canonical(n)
    requires forall p :: At(m, p) == At(n, p)
    ensures m == n
  {
    forall k: u64 | k in m ensures k in n && n[k] == m[k] {
      EntriesAreRuns(m, k, m[k].end, m[k].value);
      EntriesAreRuns(n, k, m[k].end, m[k].value);
    }
    forall k: u64 | k in n ensures k in m {
      EntriesAreRuns(n, k, n[k].end, n[k].value);
      EntriesAreRuns(m, k, n[k].end, n[k].value);
    }
    assert m.Keys == n.Keys;
  }

  // --------------------------------------------------------------- visiting

  /** One call of the function given to `for_each_interval`. */
  datatype Visit<+V> = Visit(lo: u64, hi: u64, value: V)

  /** The starts from `k` onwards that do not lie beyond `e`, in order. */
  ghost function StartsFrom<V>(m: Intervals<V>, k: u64, e: u64): seq<u64>
    decreases U64_MAX - k
  {
    if e < k then []
    else match NextKey(m, k)
      case None => [k]
      case Some(n) => [k] + StartsFrom(m, n, e)
  }

  ghost function VisitOf<V>(m: Intervals<V>, k: u64, s: u64, e: u64): Visit<V>
    requires k in m
  {
    Visit(Max(k, s), Min(m[k].end, e), m[k].value)
  }

  ghost function VisitsOf<V>(m: Intervals<V>, ks: seq<u64>, s: u64, e: u64): (vs: seq<Visit<V>>)
    ensures (forall k :: k in ks ==> k in m) ==>
              |vs| == |ks| && forall i :: 0 <= i < |ks| ==> vs[i] == VisitOf(m, ks[i], s, e)
  {
    if ks == [] then []
    else if ks[0] in m then [VisitOf(m, ks[0], s, e)] + VisitsOf(m, ks[1..], s, e)
    else VisitsOf(m, ks[1..], s, e)
  }

  /** The intervals that meet [s, e], provided `s` itself lies in one. */
  ghost function Visited<V>(m: Intervals<V>, s: u64, e: u64): seq<u64> {
    match Find(m, s)
    case None => []
    case Some(k) => StartsFrom(m, k, e)
  }

  ghost predicate Increasing(ks: seq<u64>) {
    forall a, b :: 0 <= a < b < |ks| ==> ks[a] < ks[b]
  }

  lemma IncreasingCons(k: u64, rest: seq<u64>)
    requires Increasing(rest) && forall j :: j in rest ==> k < j
    ensures Increasing([k] + rest)
  {
    assert forall b :: 0 <= b < |rest| ==> rest[b] in rest;
  }

  lemma {:induction false} StartsFromExact<V>(m: Intervals<V>, k: u64, e: u64)
    requires k in m
    ensures forall j :: j in StartsFrom(m, k, e) <==> j in m && k <= j <= e
    ensures Increasing(StartsFrom(m, k, e))
    decreases U64_MAX - k
  {
    if k <= e && NextKey(m, k).Some? {
      var n := NextKey(m, k).value;
      StartsFromExact(m, n, e);
      IncreasingCons(k, StartsFrom(m, n, e));
    }
  }

  /** From a covered start, `for_each_interval` visits every interval that meets the range, once, in order. */
  lemma VisitedExact<V>(m: Intervals<V>, s: u64, e: u64)
    requires Disjoint(m) && s <= e
    ensures At(m, s).None? ==> Visited(m, s, e) == []
    ensures At(m, s).Some? ==> forall j :: j in Visited(m, s, e) <==> j in m && j <= e && s <= m[j].end
    ensures forall j :: j in Visited(m, s, e) ==> j in m
    ensures Increasing(Visited(m, s, e))
  {
    FindMeaning(m, s);
    if Find(m, s).Some? {
      StartsFromExact(m, Find(m, s).value, e);
    }
  }

  /** What the calls of `for_each_interval` come to. */
  ghost function Calls<V>(m: Intervals<V>, s: u64, e: u64): seq<Visit<V>> {
    VisitsOf(m, Visited(m, s, e), s, e)
  }

  ghost predicate InCall<V>(calls: seq<Visit<V>>, i: int, x: int) {
    0 <= i < |calls| && calls[i].lo <= x <= calls[i].hi
  }

  /** Every call lies in the range, holds at least one point, and they are in order without overlap. */
  ghost predicate InOrder<V>(calls: seq<Visit<V>>, s: u64, e: u64) {
    && (forall i :: 0 <= i < |calls| ==> s <= calls[i].lo <= calls[i].hi <= e)
    && (forall i, j :: 0 <= i < j < |calls| ==> calls[i].hi < calls[j].lo)
  }

  /**
   From a covered start the calls are the values of the range, cut to it: they are in
   order, a call's points are those of its interval in the range, and a point of the
   range has a value iff one call holds it, with that value. From an uncovered start
   there are none.
   */
  lemma CallsExact<V>(m: Intervals<V>, s: u64, e: u64)
    requires Disjoint(m) && s <= e
    ensures At(m, s).None? ==> Calls(m, s, e) == []
    ensures InOrder(Calls(m, s, e), s, e) && |Calls(m, s, e)| == |Visited(m, s, e)|
    ensures forall i, x: int :: 0 <= i < |Calls(m, s, e)| ==>
              (InCall(Calls(m, s, e), i, x) <==> s <= x <= e && Covers(m, Visited(m, s, e)[i], x))
    ensures forall i, x: int :: InCall(Calls(m, s, e), i, x) ==> At(m, x) == Some(Calls(m, s, e)[i].value)
    ensures At(m, s).Some? ==>
              forall x: int :: s <= x <= e && At(m, x).Some? ==> exists i :: InCall(Calls(m, s, e), i, x)
  {
    hide At, VisitsOf, Visited, Disjoint;
    VisitedExact(m, s, e);
    VisitedMeet(m, s, e);
    var ks, calls := Visited(m, s, e), Calls(m, s, e);
    forall i, j | 0 <= i < j < |calls| ensures calls[i].hi < calls[j].lo {
      KeysApart(m, ks[i], ks[j]);
    }
    forall i, x: int | InCall(calls, i, x) ensures At(m, x) == Some(calls[i].value) {
      AtCovered(m, ks[i], x);
    }
    if At(m, s).Some? {
      forall x: int | s <= x <= e && At(m, x).Some? ensures exists i :: InCall(calls, i, x) {
        var i := CallOf(m, s, e, x);
      }
    }
  }

  lemma CallOf<V>(m: Intervals<V>, s: u64, e: u64, x: int) returns (i: int)
    requires Disjoint(m) && s <= x <= e && At(m, s).Some? && At(m, x).Some?
    ensures InCall(Calls(m, s, e), i, x)
  {
    hide At, VisitsOf, Visited, Disjoint;
    VisitedExact(m, s, e);
    var k := AtCoverer(m, x);
    var ks := Visited(m, s, e);
    assert k in ks;
    i :| 0 <= i < |ks| && ks[i] == k;
  }

  lemma VisitedMeet<V>(m: Intervals<V>, s: u64, e: u64)
    requires Disjoint(m) && s <= e
    ensures forall j :: j in Visited(m, s, e) ==> j in m && j <= m[j].end && j <= e && s <= m[j].end
  {
    hide At;
    VisitedExact(m, s, e);
  }

  lemma KeysApart<V>(m: Intervals<V>, j: u64, k: u64)
    requires Disjoint(m) && j in m && k in m && j < k
    ensures m[j].end < k
  {
  }

  lemma AtCoverer<V>(m: Intervals<V>, x: int) returns (k: u64)
    requires At(m, x).Some?
    ensures Covers(m, k, x)
  {
    k :| Covers(m, k, x);
  }
}
