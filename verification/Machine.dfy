/** Machine integers, results and the ordered-key primitives of `std::map`. */
module Machine {

  const U64_LIMIT: int := 0x1_0000_0000_0000_0000
  const U64_MAX: u64 := 0xFFFF_FFFF_FFFF_FFFF

  type u64 = x: int | 0 <= x < 0x1_0000_0000_0000_0000
  type byte = x: int | 0 <= x < 256

  datatype Option<+T> = None | Some(value: T)

  /** `Thrown` stands for an ASSERT_ON that raised std::logic_error. */
  datatype Result = Success | Failure | Thrown

  /** `k++` on an unsigned 64-bit key. */
  function Inc(k: u64): u64 {
    if k == U64_MAX then 0 else k + 1
  }

  /** `k--` on an unsigned 64-bit key. */
  function Dec(k: u64): u64 {
    if k == 0 then U64_MAX else k - 1
  }

  /** Unsigned 64-bit addition. */
  function Add64(a: u64, b: u64): u64 {
    (a + b) % U64_LIMIT
  }

  lemma Add64Exact(a: u64, b: u64)
    ensures a + b < U64_LIMIT ==> Add64(a, b) == a + b
    ensures U64_LIMIT <= a + b ==> Add64(a, b) == a + b - U64_LIMIT
  {
  }

  function Min(a: u64, b: u64): u64 {
    if a < b then a else b
  }

  function Max(a: u64, b: u64): u64 {
    if a < b then b else a
  }

  lemma GreatestOf(s: set<int>, x: int) returns (w: int)
    requires x in s
    ensures w in s && forall y :: y in s ==> y <= w
    decreases |s|
  {
    w := x;
    var rest := s - {x};
    if z :| z in rest {
      var best := GreatestOf(rest, z);
      w := if x <= best then best else x;
    }
    forall y | y in s ensures y <= w {
      assert y == x || y in rest;
    }
  }

  lemma LeastOf(s: set<int>, x: int) returns (w: int)
    requires x in s
    ensures w in s && forall y :: y in s ==> w <= y
    decreases |s|
  {
    w := x;
    var rest := s - {x};
    if z :| z in rest {
      var best := LeastOf(rest, z);
      w := if best <= x then best else x;
    }
    forall y | y in s ensures w <= y {
      assert y == x || y in rest;
    }
  }

  /** `x` is the greatest key that is at most `k`. */
  predicate IsFloor<T>(m: map<u64, T>, k: u64, x: u64) {
    x in m && x <= k && forall j :: j in m && j <= k ==> j <= x
  }

  /** The key before `upper_bound(k)`: the greatest key that is at most `k`. */
  function FloorKey<T>(m: map<u64, T>, k: u64): (r: Option<u64>)
    ensures r.None? ==> forall j :: j in m ==> k < j
    ensures r.Some? ==> r.value in m && r.value <= k && forall j :: j in m && j <= k ==> j <= r.value
  {
    if exists j :: j in m && j <= k then
      FloorExists(m, k);
      var x :| x in m && IsFloor(m, k, x);
      Some(x)
    else None
  }

  lemma FloorExists<T>(m: map<u64, T>, k: u64)
    requires exists j :: j in m && j <= k
    ensures exists x :: x in m && IsFloor(m, k, x)
  {
    var below := set j | j in m && j <= k;
    var j :| j in m && j <= k;
    var w := GreatestOf(below, j);
    FloorOfSet(m, k, below, w);
  }

  lemma FloorOfSet<T>(m: map<u64, T>, k: u64, below: set<int>, w: int)
    requires forall j: int :: j in below <==> j in m && j <= k
    requires w in below && forall j :: j in below ==> j <= w
    ensures w in m && IsFloor(m, k, w)
  {
  }

  /** `x` is the least key above `k`. */
  predicate IsNext<T>(m: map<u64, T>, k: int, x: u64) {
    x in m && k < x && forall j :: j in m && k < j ==> x <= j
  }

  /** `upper_bound(k)`: the least key above `k`; from a key of the map, `std::next`. */
  function NextKey<T>(m: map<u64, T>, k: int): (r: Option<u64>)
    ensures r.None? ==> forall j :: j in m ==> j <= k
    ensures r.Some? ==> r.value in m && k < r.value && forall j :: j in m && k < j ==> r.value <= j
  {
    if exists j :: j in m && k < j then
      NextExists(m, k);
      var x :| x in m && IsNext(m, k, x);
      Some(x)
    else None
  }

  lemma NextExists<T>(m: map<u64, T>, k: int)
    requires exists j :: j in m && k < j
    ensures exists x :: x in m && IsNext(m, k, x)
  {
    var above := set j | j in m && k < j;
    var j :| j in m && k < j;
    var w := LeastOf(above, j);
    NextOfSet(m, k, above, w);
  }

  lemma NextOfSet<T>(m: map<u64, T>, k: int, above: set<int>, w: int)
    requires forall j: int :: j in above <==> j in m && k < j
    requires w in above && forall j :: j in above ==> w <= j
    ensures w in m && IsNext(m, k, w)
  {
  }

  /** `begin()`: the least key. */
  function FirstKey<T>(m: map<u64, T>): (r: Option<u64>)
    ensures r.None? ==> m == map[] && forall j :: j !in m
    ensures r.Some? ==> r.value in m && m != map[] && forall j :: j in m ==> r.value <= j
  {
    NextKey(m, -1)
  }
}
