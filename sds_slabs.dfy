/** How the HDF4-to-HDF5 converter reads a scientific dataset (SDS): in one
    piece when it fits the slab budget, otherwise as a grid of hyperslabs,
    N per dimension, visited odometer-style with the first dimension moving
    fastest. */
module SdsSlabs {
  import opened Common

  // -----------------------------------------------------------------------
  // Arithmetic helpers
  // -----------------------------------------------------------------------

  /** C integer division, which truncates toward zero. */
  function CDiv(a: int, b: int): (q: int)
    requires b != 0
    ensures a >= 0 && b > 0 ==> q == a / b
  {
    if (a >= 0) == (b > 0) then Abs(a) / Abs(b) else -(Abs(a) / Abs(b))
  }

  function Abs(a: int): nat
  {
    if a < 0 then -a else a
  }

  /** num^k, as the converter's power loop computes it. */
  function Pow(num: int, k: nat): (p: int)
    ensures num >= 1 ==> p >= 1
  {
    if k == 0 then 1
    else
      var rest := Pow(num, k - 1);
      if num >= 1 then MulAtLeast(rest, num); rest * num
      else rest * num
  }

  lemma MulAtLeast(x: int, y: int)
    requires x >= 1 && y >= 1
    ensures x * y >= x && x * y >= y
  {
  }

  lemma PowAtLeastBase(b: int, k: nat)
    requires b >= 1 && k >= 1
    ensures Pow(b, k) >= b
  {
    MulAtLeast(Pow(b, k - 1), b);
  }

  /** The quotient and remainder of a division by a positive divisor are
      the only pair with that sum. */
  lemma DivUnique(x: int, m: int, q: int, r: int)
    requires m > 0 && 0 <= r < m && x == q * m + r
    ensures x / m == q && x % m == r
  {
    var q', r' := x / m, x % m;
    assert q' * m + r' == q * m + r;
    assert (q' - q) * m == r - r';
    if q' > q {
      MulAtLeastM(q' - q, m);
    } else if q' < q {
      MulAtLeastM(q - q', m);
    }
  }

  lemma MulAtLeastM(d: int, m: int)
    requires d >= 1 && m > 0
    ensures d * m >= m
  {
  }

  /** Digit i of c in base N: how many times slab i's length the i-th origin
      is at iteration c. */
  function Digit(c: nat, n: nat, i: nat): (d: nat)
    requires n >= 1
    ensures d < n
  {
    if i == 0 then c % n else Digit(c / n, n, i - 1)
  }

  lemma DivModSplit(x: int, m: int)
    requires m > 0
    ensures x == (x / m) * m + x % m
  {
  }

  lemma Distribute(a: int, b: int, c: int)
    ensures (a + b) * c == a * c + b * c
  {
  }

  lemma Associate(a: int, b: int, c: int)
    ensures (a * b) * c == a * (b * c)
  {
  }

  /** Divisibility by N^(k+1) peels one factor N off. */
  lemma DivisibleStep(c: nat, n: nat, k: nat)
    requires n >= 1
    ensures c % Pow(n, k + 1) == 0 <==> c % n == 0 && (c / n) % Pow(n, k) == 0
  {
    var m := Pow(n, k);
    assert Pow(n, k + 1) == m * n;
    var q, r := c / n, c % n;
    var q2, r2 := q / m, q % m;
    assert c == q * n + r;
    assert q == q2 * m + r2;
    Distribute(q2 * m, r2, n);
    Associate(q2, m, n);
    assert c == q2 * (m * n) + (r2 * n + r);
    MulMonotoneInt(r2, m - 1, n);
    Distribute(m, -1, n);
    assert 0 <= r2 * n + r < m * n;
    DivUnique(c, m * n, q2, r2 * n + r);
    if r2 * n + r == 0 {
      assert r == 0 && r2 == 0;
    }
  }

  /** The carry of the odometer: if c is a multiple of N^k but not of
      N^(k+1), then c - 1 has N - 1 in the k low digits, one less than c in
      digit k, and the same digits as c above; c has zeros below digit k. */
  lemma {:induction false} Carry(c: nat, n: nat, k: nat, i: nat)
    requires n >= 1 && c >= 1
    requires c % Pow(n, k) == 0 && c % Pow(n, k + 1) != 0
    ensures i < k ==> Digit(c, n, i) == 0 && Digit(c - 1, n, i) == n - 1
    ensures i == k ==> Digit(c, n, i) >= 1 && Digit(c - 1, n, i) == Digit(c, n, i) - 1
    ensures i > k ==> Digit(c - 1, n, i) == Digit(c, n, i)
    decreases k
  {
    DivisibleStep(c, n, k);
    if k == 0 {
      assert c % n != 0;
      DivUnique(c - 1, n, c / n, c % n - 1);
    } else {
      DivisibleStep(c, n, k - 1);
      var c' := c / n;
      BorrowStep(c, n);
      if i > 0 {
        Carry(c', n, k - 1, i - 1);
        assert Digit(c, n, i) == Digit(c', n, i - 1);
        assert Digit(c - 1, n, i) == Digit(c' - 1, n, i - 1);
      } else {
        assert Digit(c, n, 0) == 0 && Digit(c - 1, n, 0) == n - 1;
      }
    }
  }

  /** Counting down from a positive multiple of N borrows: the last digit
      becomes N - 1 and the rest drops by one. */
  lemma BorrowStep(c: nat, n: nat)
    requires n >= 1 && c >= 1 && c % n == 0
    ensures c / n >= 1 && (c - 1) / n == c / n - 1 && (c - 1) % n == n - 1
  {
    var c' := c / n;
    DivModSplit(c, n);
    assert c == c' * n;
    Distribute(c', -1, n);
    DivUnique(c - 1, n, c' - 1, n - 1);
  }

  lemma MulMonotoneInt(a: int, b: int, m: int)
    requires 0 <= a <= b && m >= 0
    ensures a * m <= b * m
  {
  }

  lemma {:induction false} ZeroDigits(n: nat, i: nat)
    requires n >= 1
    ensures Digit(0, n, i) == 0
  {
    if i > 0 {
      ZeroDigits(n, i - 1);
    }
  }

  /** The number whose base-N digits, lowest first, are `a`. */
  function Encode(a: seq<nat>, n: nat): nat
  {
    if |a| == 0 then 0 else a[0] + n * Encode(a[1..], n)
  }

  lemma {:induction false} EncodeDigits(a: seq<nat>, n: nat, i: nat)
    requires n >= 1 && i < |a|
    requires forall j :: 0 <= j < |a| ==> a[j] < n
    ensures Digit(Encode(a, n), n, i) == a[i]
    decreases i
  {
    var e := Encode(a[1..], n);
    DivUnique(Encode(a, n), n, e, a[0]);
    if i > 0 {
      EncodeDigits(a[1..], n, i - 1);
    }
  }

  lemma {:induction false} EncodeBelow(a: seq<nat>, n: nat)
    requires n >= 1
    requires forall j :: 0 <= j < |a| ==> a[j] < n
    ensures Encode(a, n) < Pow(n, |a|)
    decreases |a|
  {
    if |a| > 0 {
      var e := Encode(a[1..], n);
      EncodeBelow(a[1..], n);
      var p := Pow(n, |a| - 1);
      MulMonotoneInt(e, p - 1, n);
      Distribute(p, -1, n);
      assert Pow(n, |a|) == p * n;
    }
  }

  // -----------------------------------------------------------------------
  // The converter's helpers
  // -----------------------------------------------------------------------

  /** h5ceil: the quotient rounded up, computed from C's truncating
      division.  A positive size over a positive divisor gives at least 1,
      and a size of 0 gives 0 (CeilIsCeiling states the ceiling itself). */
  function H5Ceil(m: int, n: int): (q: int)
    requires n != 0
    ensures m >= 0 && n > 0 ==> (q >= 1 <==> m > 0) && q >= 0
  {
    DivBounds(m, n);
    if CDiv(m, n) * n < m then CDiv(m, n) + 1 else CDiv(m, n)
  }

  /** The floor quotient brackets the dividend. */
  lemma DivBounds(m: int, n: int)
    ensures n > 0 ==> && (m / n) * n <= m < (m / n) * n + n
                      && (m / n + 1) * n == (m / n) * n + n
                      && (m / n - 1) * n == (m / n) * n - n
  {
    if n > 0 {
      assert m == (m / n) * n + m % n;
      Distribute(m / n, 1, n);
      Distribute(m / n, -1, n);
    }
  }

  /** For a non-negative size and a positive divisor, h5ceil is the
      ceiling: the least q with q * n >= m. */
  lemma CeilIsCeiling(m: int, n: int)
    requires m >= 0 && n > 0
    ensures H5Ceil(m, n) * n >= m
    ensures (H5Ceil(m, n) - 1) * n < m
    ensures H5Ceil(m, n) == (m + n - 1) / n
  {
    var q, r := m / n, m % n;
    assert m == q * n + r;
    Distribute(q, 1, n);
    Distribute(q, -1, n);
    if r == 0 {
      DivUnique(m + n - 1, n, q, n - 1);
    } else {
      DivUnique(m + n - 1, n, q + 1, r - 1);
    }
  }

  /** h4toh5pow: multiplies `num` into an accumulator `index` times. */
  method PowLoop(num: int, index: int) returns (total: int)
    ensures index <= 0 ==> total == 1
    ensures index >= 0 ==> total == Pow(num, index)
  {
    total := 1;
    var i := 1;
    while i <= index
      invariant 1 <= i && (index >= 0 ==> i <= index + 1) && (index < 1 ==> i == 1)
      invariant total == Pow(num, i - 1)
    {
      total := total * num;
      i := i + 1;
    }
  }

  /** The least number of slabs per dimension for which the data divided by
      (slabs per dimension)^rank fits the slab budget. */
  predicate IsSlabCount(totalsize: nat, slabsize: int, rank: nat, n: int)
  {
    && n >= 1
    && totalsize / Pow(n, rank) <= slabsize
    && forall m :: 1 <= m < n ==> totalsize / Pow(m, rank) > slabsize
  }

  lemma QuotientVanishes(totalsize: nat, n: int, rank: nat)
    requires n == totalsize + 1 && rank >= 1
    ensures totalsize / Pow(n, rank) == 0
  {
    PowAtLeastBase(n, rank);
    DivUnique(totalsize, Pow(n, rank), 0, totalsize);
  }

  /** get_numslab_perD: tries 1, 2, ... slabs per dimension until the
      quotient fits.  A rank of at least one and a non-negative budget make
      the search stop at totalsize + 1 at the latest. */
  method NumSlabsPerDim(totalsize: nat, slabsize: int, rank: nat) returns (n: int)
    requires rank >= 1 && slabsize >= 0
    ensures IsSlabCount(totalsize, slabsize, rank, n)
  {
    n := 1;
    var flag := false;
    while !flag
      invariant 1 <= n <= totalsize + 1
      invariant forall m :: 1 <= m < n ==> totalsize / Pow(m, rank) > slabsize
      invariant flag ==> totalsize / Pow(n, rank) <= slabsize
      decreases (if flag then 0 else 1), totalsize + 1 - n
    {
      var tempsize := 1;
      var i := 0;
      while i < rank
        invariant 0 <= i <= rank
        invariant tempsize == Pow(n, i)
      {
        tempsize := tempsize * n;
        i := i + 1;
      }
      if totalsize / tempsize <= slabsize {
        flag := true;
      } else {
        if n == totalsize + 1 {
          QuotientVanishes(totalsize, n, rank);
          assert false;
        }
        n := n + 1;
      }
    }
  }

  /** Product of the first k entries, accumulated left to right. */
  function ProductPrefix(xs: seq<int>, k: nat): int
    requires k <= |xs|
  {
    if k == 0 then 1 else ProductPrefix(xs, k - 1) * xs[k - 1]
  }

  /** The product of a prefix depends on that prefix only. */
  lemma {:induction false} ProductPrefixAgree(a: seq<int>, b: seq<int>, k: nat)
    requires k <= |a| && k <= |b| && a[..k] == b[..k]
    ensures ProductPrefix(a, k) == ProductPrefix(b, k)
  {
    if k > 0 {
      assert a[k - 1] == a[..k][k - 1] == b[..k][k - 1] == b[k - 1];
      assert a[..k - 1] == a[..k][..k - 1];
      assert b[..k - 1] == b[..k][..k - 1];
      ProductPrefixAgree(a, b, k - 1);
    }
  }

  function Product(xs: seq<int>): int
  {
    ProductPrefix(xs, |xs|)
  }

  /** Record SDSs get an unlimited first dimension in HDF5. */
  const H5SUnlimited: int := U64 - 1

  /** The parameters of a read of the whole SDS. */
  datatype WholeRead = WholeRead(
    start: seq<int>, stride: seq<int>, edge: seq<int>, count: int,
    h5dims: seq<int>, maxDims: seq<int>)

  /** The whole-array read: origin 0, stride 1, the full extent, and the
      element count; a record SDS is created with an unlimited first
      dimension. */
  method PlanWholeRead(dimsizes: seq<int>, isRecord: bool) returns (w: WholeRead)
    requires |dimsizes| >= 1
    ensures |w.start| == |w.stride| == |w.edge| == |w.h5dims| == |w.maxDims| == |dimsizes|
    ensures forall i :: 0 <= i < |dimsizes| ==> w.start[i] == 0 && w.stride[i] == 1
    ensures w.edge == dimsizes && w.h5dims == dimsizes
    ensures w.count == Product(dimsizes)
    ensures w.maxDims[0] == (if isRecord then H5SUnlimited else dimsizes[0])
    ensures w.maxDims[1..] == dimsizes[1..]
  {
    var rank := |dimsizes|;
    var start, stride, edge := [], [], [];
    var count := 1;
    var i := 0;
    while i < rank
      invariant 0 <= i <= rank
      invariant |start| == |stride| == |edge| == i
      invariant forall j :: 0 <= j < i ==> start[j] == 0 && stride[j] == 1
      invariant edge == dimsizes[..i]
      invariant count == ProductPrefix(dimsizes, i)
    {
      stride := stride + [1];
      start := start + [0];
      edge := edge + [dimsizes[i]];
      count := count * dimsizes[i];
      i := i + 1;
    }
    assert dimsizes[..rank] == dimsizes;
    var h5dims, maxDims := [], [];
    i := 0;
    while i < rank
      invariant 0 <= i <= rank
      invariant h5dims == maxDims == seq(i, j requires 0 <= j < i => edge[j] - start[j])
    {
      h5dims := h5dims + [edge[i] - start[i]];
      maxDims := maxDims + [edge[i] - start[i]];
      i := i + 1;
    }
    assert h5dims == dimsizes;
    if isRecord {
      maxDims := maxDims[0 := H5SUnlimited];
    }
    w := WholeRead(start, stride, edge, count, h5dims, maxDims);
  }

  // -----------------------------------------------------------------------
  // The slab grid
  // -----------------------------------------------------------------------

  /** What one pass of the slab loop reads and writes. */
  datatype Slab = Slab(start: seq<int>, edges: seq<int>, bytes: int)

  function Min(a: int, b: int): int
  {
    if a <= b then a else b
  }

  /** The slab length of every dimension: ceil(dimsize / N). */
  function SlabLengths(d: seq<int>, n: int): (lens: seq<int>)
    requires n >= 1
    ensures |lens| == |d| && forall i :: 0 <= i < |d| ==> lens[i] == H5Ceil(d[i], n)
  {
    seq(|d|, i requires 0 <= i < |d| => H5Ceil(d[i], n))
  }

  /** The slab of iteration c as the loop computes it: origins Digit(c, i)
      times the slab length, stops clamped to the dimension size, edges
      stop - origin, and bytes the product of the edges times the element
      size. */
  function SlabAt(d: seq<int>, n: int, memsize: int, c: nat): (s: Slab)
    requires n >= 1
    ensures |s.start| == |s.edges| == |d|
  {
    var lens := SlabLengths(d, n);
    var origin := seq(|d|, i requires 0 <= i < |d| => Digit(c, n, i) * lens[i]);
    var edges := seq(|d|, i requires 0 <= i < |d| => Min(origin[i] + lens[i], d[i]) - origin[i]);
    Slab(origin, edges, Product(edges) * memsize)
  }

  /** Position of the last dimension i < k whose block size N^(i+1) divides
      the counter, or -1. */
  function LastDividing(c: nat, n: int, k: nat): (idx: int)
    requires n >= 1
    ensures -1 <= idx < k
    ensures idx >= 0 ==> c % Pow(n, idx + 1) == 0
    ensures forall j :: idx + 1 < j <= k ==> c % Pow(n, j) != 0
  {
    if k == 0 then -1
    else if c % Pow(n, k) == 0 then k - 1
    else LastDividing(c, n, k - 1)
  }

  /** One step of the counter, seen digit by digit: the dimensions up to the
      last one dividing the counter restart at digit 0, the next one moves
      on by one, and the others keep their digit. */
  lemma OdometerStep(c: nat, n: int, rank: nat)
    requires n >= 1 && 1 <= c < Pow(n, rank)
    ensures var idx := LastDividing(c, n, rank);
            && idx < rank - 1
            && (forall j :: 0 <= j <= idx ==> Digit(c, n, j) == 0)
            && Digit(c, n, idx + 1) == Digit(c - 1, n, idx + 1) + 1
            && (forall j :: idx + 1 < j ==> Digit(c, n, j) == Digit(c - 1, n, j))
  {
    var idx := LastDividing(c, n, rank);
    if idx == rank - 1 {
      DivUnique(c, Pow(n, rank), 0, c);
      assert false;
    }
    var k := idx + 1;
    assert c % Pow(n, k) == 0;
    assert c % Pow(n, k + 1) != 0;
    forall j | 0 <= j
      ensures j < k ==> Digit(c, n, j) == 0
      ensures j == k ==> Digit(c, n, j) == Digit(c - 1, n, j) + 1
      ensures j > k ==> Digit(c, n, j) == Digit(c - 1, n, j)
    {
      Carry(c, n, k, j);
    }
  }

  /** The first pass: a counter of 0 is divisible by every block size. */
  lemma FirstPass(n: int, rank: nat)
    requires n >= 1 && rank >= 1
    ensures LastDividing(0, n, rank) == rank - 1
  {
  }

  /** The inner scan of one pass: the last dimension whose block size
      N^(i+1) divides the counter. */
  method FindIndex(count: nat, n: int, rank: nat) returns (index: int)
    requires n >= 1
    ensures index == LastDividing(count, n, rank)
  {
    index := -1;
    var i := 0;
    while i < rank
      invariant 0 <= i <= rank
      invariant index == LastDividing(count, n, i)
    {
      var p := PowLoop(n, i + 1);
      if count % p == 0 {
        index := i;
      }
      i := i + 1;
    }
  }

  /** Moves the slab origin to the next slab: every dimension up to `index`
      restarts at 0 and the next one moves on by one slab length; nothing
      moves when `index` is -1 or the last dimension. */
  method AdvanceStart(start: array<int>, dims: array<int>, index: int)
    requires start != dims && start.Length == dims.Length
    requires -1 <= index < start.Length
    modifies start
    ensures forall j :: 0 <= j < start.Length ==>
              start[j] == (if index == -1 || index == start.Length - 1 then old(start[j])
                           else if j <= index then 0
                           else if j == index + 1 then old(start[j]) + dims[j]
                           else old(start[j]))
  {
    if index != -1 && index != start.Length - 1 {
      var j := 0;
      while j <= index
        invariant 0 <= j <= index + 1
        invariant forall k :: 0 <= k < start.Length ==>
                    start[k] == (if k < j then 0 else old(start[k]))
      {
        start[j] := 0;
        j := j + 1;
      }
      start[j] := start[j] + dims[j];
    }
  }

  /** The stop, the edge and the byte count of the slab at `start`. */
  method SlabBounds(start: array<int>, dims: array<int>, dimsizes: seq<int>,
                    stop: array<int>, edges: array<int>, memsize: int)
    returns (bytes: int)
    requires start.Length == dims.Length == stop.Length == edges.Length == |dimsizes|
    requires stop != edges && stop != start && stop != dims && edges != start && edges != dims
    modifies stop, edges
    ensures forall i :: 0 <= i < |dimsizes| ==>
              stop[i] == Min(start[i] + dims[i], dimsizes[i]) && edges[i] == stop[i] - start[i]
    ensures bytes == Product(edges[..]) * memsize
  {
    var rank := |dimsizes|;
    var i := 0;
    while i < rank
      invariant 0 <= i <= rank
      invariant forall k :: 0 <= k < i ==> stop[k] == Min(start[k] + dims[k], dimsizes[k])
      modifies stop
    {
      stop[i] := start[i] + dims[i];
      if stop[i] > dimsizes[i] {
        stop[i] := dimsizes[i];
      }
      i := i + 1;
    }
    bytes := 1;
    i := 0;
    while i < rank
      invariant 0 <= i <= rank
      invariant forall k :: 0 <= k < i ==> edges[k] == stop[k] - start[k]
      invariant bytes == ProductPrefix(edges[..], i)
      modifies edges
    {
      bytes := bytes * (stop[i] - start[i]);
      ghost var before := edges[..];
      edges[i] := stop[i] - start[i];
      ProductPrefixAgree(before, edges[..], i);
      i := i + 1;
    }
    bytes := bytes * memsize;
  }

  /** The origins before a pass (the previous slab's, with dimension 0
      already moved on) turn into the digits of the counter times the slab
      lengths once the pass has moved them. */
  lemma NextOrigins(c: nat, n: int, lens: seq<int>, prev: seq<int>, next: seq<int>)
    requires n >= 1 && 1 <= c < Pow(n, |lens|) && |prev| == |next| == |lens|
    requires prev[0] == (Digit(c - 1, n, 0) + 1) * lens[0]
    requires forall j :: 1 <= j < |lens| ==> prev[j] == Digit(c - 1, n, j) * lens[j]
    requires var idx := LastDividing(c, n, |lens|);
             forall j :: 0 <= j < |lens| ==>
               next[j] == (if idx == -1 || idx == |lens| - 1 then prev[j]
                           else if j <= idx then 0
                           else if j == idx + 1 then prev[j] + lens[j]
                           else prev[j])
    ensures forall j :: 0 <= j < |lens| ==> next[j] == Digit(c, n, j) * lens[j]
  {
    var idx := LastDividing(c, n, |lens|);
    OdometerStep(c, n, |lens|);
    forall j | 0 <= j < |lens|
      ensures next[j] == Digit(c, n, j) * lens[j]
    {
      if j == idx + 1 {
        Distribute(Digit(c - 1, n, j), 1, lens[j]);
      }
    }
  }

  /** The slab origins at the head of the loop after pass c: dimension 0 has
      already moved on by one slab length; before the first pass (c = -1)
      every origin is 0. */
  predicate MovedOn(origins: seq<int>, lens: seq<int>, n: int, c: int)
    requires n >= 1 && c >= -1 && |origins| == |lens| >= 1
  {
    if c == -1 then forall j :: 0 <= j < |lens| ==> origins[j] == 0
    else
      && origins[0] == (Digit(c, n, 0) + 1) * lens[0]
      && forall j :: 1 <= j < |lens| ==> origins[j] == Digit(c, n, j) * lens[j]
  }

  /** Moving the origins as a pass does turns the head-of-loop origins into
      the digits of the new counter times the slab lengths. */
  lemma OriginsAfterAdvance(c: nat, n: int, lens: seq<int>, prev: seq<int>, next: seq<int>)
    requires n >= 1 && c < Pow(n, |lens|) && |prev| == |next| == |lens| >= 1
    requires MovedOn(prev, lens, n, c - 1)
    requires var idx := LastDividing(c, n, |lens|);
             forall j :: 0 <= j < |lens| ==>
               next[j] == (if idx == -1 || idx == |lens| - 1 then prev[j]
                           else if j <= idx then 0
                           else if j == idx + 1 then prev[j] + lens[j]
                           else prev[j])
    ensures forall j :: 0 <= j < |lens| ==> next[j] == Digit(c, n, j) * lens[j]
  {
    if c == 0 {
      FirstPass(n, |lens|);
      forall j | 0 <= j < |lens|
        ensures next[j] == Digit(0, n, j) * lens[j]
      {
        assert next[j] == prev[j] == 0;
        ZeroDigits(n, j);
      }
    } else {
      assert prev[0] == (Digit(c - 1, n, 0) + 1) * lens[0];
      assert forall j :: 1 <= j < |lens| ==> prev[j] == Digit(c - 1, n, j) * lens[j];
      NextOrigins(c, n, lens, prev, next);
    }
  }

  /** Origins at the digits of c, stops and edges as the pass computes them,
      make up SlabAt(c). */
  lemma SlabFromOrigins(dimsizes: seq<int>, n: int, memsize: int, c: nat,
                        origins: seq<int>, edges: seq<int>, bytes: int)
    requires n >= 1 && |origins| == |edges| == |dimsizes|
    requires forall j :: 0 <= j < |dimsizes| ==>
               origins[j] == Digit(c, n, j) * SlabLengths(dimsizes, n)[j]
    requires forall j :: 0 <= j < |dimsizes| ==>
               edges[j] == Min(origins[j] + SlabLengths(dimsizes, n)[j], dimsizes[j]) - origins[j]
    requires bytes == Product(edges) * memsize
    ensures Slab(origins, edges, bytes) == SlabAt(dimsizes, n, memsize, c)
  {
    var s := SlabAt(dimsizes, n, memsize, c);
    assert origins == s.start;
    assert edges == s.edges;
  }

  /** The last step of a pass keeps the head-of-loop description. */
  lemma MovedOnAfter(c: nat, n: int, lens: seq<int>, origins: seq<int>, next: seq<int>)
    requires n >= 1 && |origins| == |lens| >= 1
    requires forall j :: 0 <= j < |lens| ==> origins[j] == Digit(c, n, j) * lens[j]
    requires next == origins[0 := origins[0] + lens[0]]
    ensures MovedOn(next, lens, n, c)
  {
    Distribute(Digit(c, n, 0), 1, lens[0]);
  }

  /** One pass of the slab loop: find the dimension to carry into, move the
      origins, and compute the slab's stop, edges and byte count. */
  method Pass(start: array<int>, stop: array<int>, dims: array<int>, edges: array<int>,
              dimsizes: seq<int>, memsize: int, n: int, count: nat)
    returns (slab: Slab)
    requires n >= 1 && |dimsizes| >= 1 && count < Pow(n, |dimsizes|)
    requires start.Length == stop.Length == dims.Length == edges.Length == |dimsizes|
    requires start != stop && start != dims && start != edges
    requires stop != dims && stop != edges && dims != edges
    requires dims[..] == SlabLengths(dimsizes, n)
    requires MovedOn(start[..], dims[..], n, count - 1)
    modifies start, stop, edges
    ensures slab == SlabAt(dimsizes, n, memsize, count)
    ensures MovedOn(start[..], dims[..], n, count)
  {
    ghost var lens := dims[..];
    var index := FindIndex(count, n, |dimsizes|);
    ghost var prev := start[..];
    AdvanceStart(start, dims, index);
    OriginsAfterAdvance(count, n, lens, prev, start[..]);
    var bytes := SlabBounds(start, dims, dimsizes, stop, edges, memsize);
    SlabFromOrigins(dimsizes, n, memsize, count, start[..], edges[..], bytes);
    slab := Slab(start[..], edges[..], bytes);
    ghost var origins := start[..];
    start[0] := start[0] + dims[0];
    MovedOnAfter(count, n, lens, origins, start[..]);
  }

  /** The slab arrays before the loop: every origin 0 and every slab length
      ceil(dimsize / N). */
  method NewSlabArrays(dimsizes: seq<int>, n: int)
    returns (start: array<int>, stop: array<int>, dims: array<int>, edges: array<int>)
    requires |dimsizes| >= 1 && n >= 1
    ensures fresh(start) && fresh(stop) && fresh(dims) && fresh(edges)
    ensures start.Length == stop.Length == dims.Length == edges.Length == |dimsizes|
    ensures start != stop && start != dims && start != edges
    ensures stop != dims && stop != edges && dims != edges
    ensures dims[..] == SlabLengths(dimsizes, n)
    ensures MovedOn(start[..], dims[..], n, -1)
  {
    var rank := |dimsizes|;
    start := new int[rank];
    stop := new int[rank];
    dims := new int[rank];
    edges := new int[rank];
    var i := 0;
    while i < rank
      invariant 0 <= i <= rank
      invariant forall j :: 0 <= j < i ==> start[j] == 0 && dims[j] == H5Ceil(dimsizes[j], n)
      modifies start, stop, dims
    {
      start[i] := 0;
      stop[i] := 0;
      dims[i] := H5Ceil(dimsizes[i], n);
      i := i + 1;
    }
    assert dims[..] == SlabLengths(dimsizes, n);
  }

  /** The first of the first k passes whose byte count is negative, if any.
      The converter hands that count to malloc, which cannot allocate it,
      and gives up on the SDS there. */
  function FirstFailing(d: seq<int>, n: int, memsize: int, k: nat): (r: Option<nat>)
    requires n >= 1
    ensures r.Some? ==> r.value < k && SlabAt(d, n, memsize, r.value).bytes < 0
    ensures r.Some? ==> forall c :: 0 <= c < r.value ==> SlabAt(d, n, memsize, c).bytes >= 0
    ensures r.None? ==> forall c :: 0 <= c < k ==> SlabAt(d, n, memsize, c).bytes >= 0
  {
    if k == 0 then None
    else
      var before := FirstFailing(d, n, memsize, k - 1);
      if before.Some? then before
      else if SlabAt(d, n, memsize, k - 1).bytes < 0 then Some(k - 1)
      else None
  }

  /** A pass with a negative byte count after only non-negative ones is the
      first failing pass among any number of passes that includes it. */
  lemma FirstFailingAt(d: seq<int>, n: int, memsize: int, k: nat, c: nat)
    requires n >= 1 && c < k && SlabAt(d, n, memsize, c).bytes < 0
    requires forall j :: 0 <= j < c ==> SlabAt(d, n, memsize, j).bytes >= 0
    ensures FirstFailing(d, n, memsize, k) == Some(c)
  {
  }

  /** The slab loop of the converter: N^rank passes of an odometer over the
      slab grid, dimension 0 turning fastest.  Pass c reads and writes
      exactly SlabAt(c), unless its byte count is negative: the buffer for
      it cannot be allocated and the conversion fails at that pass. */
  method SlabLoop(dimsizes: seq<int>, memsize: int, n: int)
    returns (slabs: seq<Slab>, failedAt: Option<nat>)
    requires |dimsizes| >= 1 && n >= 1
    ensures failedAt == FirstFailing(dimsizes, n, memsize, Pow(n, |dimsizes|))
    ensures |slabs| == if failedAt.Some? then failedAt.value else Pow(n, |dimsizes|)
    ensures forall c :: 0 <= c < |slabs| ==> slabs[c] == SlabAt(dimsizes, n, memsize, c)
  {
    var rank := |dimsizes|;
    var start, stop, dims, edges := NewSlabArrays(dimsizes, n);
    var passes := PowLoop(n, rank);
    var count := -1;
    slabs := [];
    while count != passes - 1
      invariant -1 <= count <= passes - 1
      invariant |slabs| == count + 1
      invariant forall c :: 0 <= c < |slabs| ==> slabs[c] == SlabAt(dimsizes, n, memsize, c)
      invariant forall c :: 0 <= c < |slabs| ==> slabs[c].bytes >= 0
      invariant dims[..] == SlabLengths(dimsizes, n)
      invariant MovedOn(start[..], dims[..], n, count)
      decreases passes - 1 - count
      modifies start, stop, edges
    {
      count := count + 1;
      var slab := Pass(start, stop, dims, edges, dimsizes, memsize, n, count);
      if slab.bytes < 0 {
        FirstFailingAt(dimsizes, n, memsize, passes, count);
        failedAt := Some(count);
        return;
      }
      slabs := slabs + [slab];
    }
    failedAt := None;
  }

  // -----------------------------------------------------------------------
  // Where the slab grid runs past the array
  // -----------------------------------------------------------------------

  /** A slab whose every edge is positive: something to read. */
  predicate NonEmpty(s: Slab)
  {
    forall i :: 0 <= i < |s.edges| ==> s.edges[i] > 0
  }

  /** A one-dimensional SDS of 5 four-byte values with a 5-byte slab budget
      gets 4 slabs of length 2; the fourth starts at 6, past the end, and
      its edge is -1, so its byte count is -4 and the loop as written fails
      there, after three slabs, although every element was already read. */
  lemma NegativeEdgeExample()
    ensures IsSlabCount(20, 5, 1, 4)
    ensures SlabLengths([5], 4) == [2]
    ensures SlabAt([5], 4, 4, 3).start == [6]
    ensures SlabAt([5], 4, 4, 3).edges == [-1]
    ensures SlabAt([5], 4, 4, 3).bytes == -4
    ensures FirstFailing([5], 4, 4, Pow(4, 1)) == Some(3)
  {
    assert Pow(1, 1) == 1 && Pow(2, 1) == 2 && Pow(3, 1) == 3 && Pow(4, 1) == 4;
    assert forall m :: 1 <= m < 4 ==> 20 / Pow(m, 1) > 5;
    assert Digit(3, 4, 0) == 3;
    var s := SlabAt([5], 4, 4, 3);
    assert ProductPrefix(s.edges, 1) == -1;
    forall j | 0 <= j < 3
      ensures SlabAt([5], 4, 4, j).bytes >= 0
    {
      assert Digit(j, 4, 0) == j;
      var t := SlabAt([5], 4, 4, j);
      assert t.edges[0] >= 0;
      assert ProductPrefix(t.edges, 1) == t.edges[0];
    }
    FirstFailingAt([5], 4, 4, Pow(4, 1), 3);
  }

  /** Scans the edges of a slab for one that is not positive. */
  method HasEmptyEdge(slab: Slab) returns (empty: bool)
    ensures empty <==> !NonEmpty(slab)
  {
    empty := false;
    var i := 0;
    while i < |slab.edges|
      invariant 0 <= i <= |slab.edges|
      invariant empty <==> exists j :: 0 <= j < i && slab.edges[j] <= 0
    {
      if slab.edges[i] <= 0 {
        empty := true;
      }
      i := i + 1;
    }
  }

  /** The corrected pass's test: a slab with an edge that is not positive
      is dropped, any other is appended. */
  method KeepNonEmpty(kept: seq<Slab>, slab: Slab) returns (r: seq<Slab>)
    ensures r == kept + (if NonEmpty(slab) then [slab] else [])
  {
    var empty := HasEmptyEdge(slab);
    if empty {
      r := kept;
    } else {
      r := kept + [slab];
    }
  }

  /** The passes that have something to read, among the first k. */
  function KeptSlabs(d: seq<int>, n: int, memsize: int, k: nat): seq<Slab>
    requires n >= 1
  {
    if k == 0 then []
    else
      var s := SlabAt(d, n, memsize, k - 1);
      KeptSlabs(d, n, memsize, k - 1) + (if NonEmpty(s) then [s] else [])
  }

  /** The slab loop with the evident intent: a pass whose slab lies past the
      end of some dimension reads and writes nothing. */
  method CorrectedSlabLoop(dimsizes: seq<int>, memsize: int, n: int) returns (slabs: seq<Slab>)
    requires |dimsizes| >= 1 && n >= 1
    ensures slabs == KeptSlabs(dimsizes, n, memsize, Pow(n, |dimsizes|))
  {
    var rank := |dimsizes|;
    var start, stop, dims, edges := NewSlabArrays(dimsizes, n);
    var passes := PowLoop(n, rank);
    var count := -1;
    slabs := [];
    while count != passes - 1
      invariant -1 <= count <= passes - 1
      invariant slabs == KeptSlabs(dimsizes, n, memsize, count + 1)
      invariant dims[..] == SlabLengths(dimsizes, n)
      invariant MovedOn(start[..], dims[..], n, count)
      decreases passes - 1 - count
      modifies start, stop, edges
    {
      count := count + 1;
      var slab := Pass(start, stop, dims, edges, dimsizes, memsize, n, count);
      slabs := KeepNonEmpty(slabs, slab);
    }
  }

  /** Component i of the slab of pass c, as SlabAt builds it. */
  lemma SlabAtComponent(d: seq<int>, n: int, memsize: int, c: nat, i: nat)
    requires n >= 1 && i < |d|
    ensures SlabAt(d, n, memsize, c).start[i] == Digit(c, n, i) * SlabLengths(d, n)[i]
    ensures SlabAt(d, n, memsize, c).edges[i]
            == Min(SlabAt(d, n, memsize, c).start[i] + SlabLengths(d, n)[i], d[i])
               - SlabAt(d, n, memsize, c).start[i]
  {
  }

  /** No slab of any pass reaches past the end of the array or is longer
      than the slab length, wherever it starts. */
  lemma SlabEndsInside(d: seq<int>, n: int, memsize: int, c: nat)
    requires n >= 1
    ensures forall i :: 0 <= i < |d| ==>
              && SlabAt(d, n, memsize, c).edges[i] <= SlabLengths(d, n)[i]
              && SlabAt(d, n, memsize, c).start[i] + SlabAt(d, n, memsize, c).edges[i] <= d[i]
  {
  }

  /** A slab lies inside an array of sizes d read in slabs of lengths
      lens: each origin is at least 0 and each edge is between 1 and the
      slab length, ending no later than the dimension size. */
  predicate Inside(d: seq<int>, lens: seq<int>, s: Slab)
    requires |lens| == |d|
  {
    && |s.start| == |s.edges| == |d|
    && forall i :: 0 <= i < |d| ==>
         && 0 <= s.start[i]
         && 1 <= s.edges[i] <= lens[i]
         && s.start[i] + s.edges[i] <= d[i]
  }

  /** A non-empty slab of any pass lies inside the array. */
  lemma NonEmptyInside(d: seq<int>, n: int, memsize: int, c: nat)
    requires n >= 1 && forall i :: 0 <= i < |d| ==> d[i] >= 0
    requires NonEmpty(SlabAt(d, n, memsize, c))
    ensures Inside(d, SlabLengths(d, n), SlabAt(d, n, memsize, c))
  {
    var s := SlabAt(d, n, memsize, c);
    var lens := SlabLengths(d, n);
    forall i | 0 <= i < |d|
      ensures && 0 <= s.start[i]
              && 1 <= s.edges[i] <= lens[i]
              && s.start[i] + s.edges[i] <= d[i]
    {
      CeilIsCeiling(d[i], n);
      SlabAtComponent(d, n, memsize, c, i);
      MulMonotoneInt(0, Digit(c, n, i), lens[i]);
      assert s.edges[i] > 0;
    }
  }

  /** Each slab the corrected loop keeps is the non-empty slab of one of
      the passes so far. */
  lemma {:induction false} KeptSlabIndex(d: seq<int>, n: int, memsize: int, k: nat, s: Slab)
    returns (c: nat)
    requires n >= 1 && s in KeptSlabs(d, n, memsize, k)
    ensures c < k && s == SlabAt(d, n, memsize, c) && NonEmpty(s)
  {
    var before := KeptSlabs(d, n, memsize, k - 1);
    var last := SlabAt(d, n, memsize, k - 1);
    assert KeptSlabs(d, n, memsize, k) == before + (if NonEmpty(last) then [last] else []);
    if s in before {
      c := KeptSlabIndex(d, n, memsize, k - 1, s);
    } else {
      c := k - 1;
    }
  }

  /** Every slab the corrected loop reads lies inside the array. */
  lemma KeptSlabsInside(d: seq<int>, n: int, memsize: int, k: nat, s: Slab)
    requires n >= 1 && forall i :: 0 <= i < |d| ==> d[i] >= 0
    requires s in KeptSlabs(d, n, memsize, k)
    ensures Inside(d, SlabLengths(d, n), s)
  {
    var c := KeptSlabIndex(d, n, memsize, k, s);
    NonEmptyInside(d, n, memsize, c);
  }

  lemma {:induction false} KeptSlabsContain(d: seq<int>, n: int, memsize: int, k: nat, c: nat)
    requires n >= 1 && c < k && NonEmpty(SlabAt(d, n, memsize, c))
    ensures SlabAt(d, n, memsize, c) in KeptSlabs(d, n, memsize, k)
  {
    var s, last := SlabAt(d, n, memsize, c), SlabAt(d, n, memsize, k - 1);
    var before := KeptSlabs(d, n, memsize, k - 1);
    assert KeptSlabs(d, n, memsize, k) == before + (if NonEmpty(last) then [last] else []);
    if c < k - 1 {
      KeptSlabsContain(d, n, memsize, k - 1, c);
      assert s in before;
    } else {
      assert s == last;
    }
  }

  /** An index below the dimension size, divided by the slab length, is a
      valid digit. */
  lemma SlabDigit(d: int, n: int, x: int)
    requires n >= 1 && 0 <= x < d
    ensures H5Ceil(d, n) >= 1 && 0 <= x / H5Ceil(d, n) < n
  {
    CeilIsCeiling(d, n);
    var l := H5Ceil(d, n);
    var q := x / l;
    DivBounds(x, l);
    if q >= n {
      MulMonotoneInt(n, q, l);
      assert false;
    }
  }

  /** The slab holds the element at index x. */
  predicate Holds(s: Slab, x: seq<int>)
  {
    && |s.start| == |s.edges| == |x|
    && forall i :: 0 <= i < |x| ==> s.start[i] <= x[i] < s.start[i] + s.edges[i]
  }

  /** The slab whose digits are the element's index divided by the slab
      lengths holds the element and is not empty. */
  lemma SlabHoldsPoint(d: seq<int>, n: int, memsize: int, c: nat, x: seq<int>)
    requires n >= 1 && |x| == |d|
    requires forall i :: 0 <= i < |d| ==> 0 <= x[i] < d[i]
    requires forall i :: 0 <= i < |d| ==> SlabLengths(d, n)[i] >= 1
    requires forall i :: 0 <= i < |d| ==> Digit(c, n, i) == x[i] / SlabLengths(d, n)[i]
    ensures NonEmpty(SlabAt(d, n, memsize, c))
    ensures Holds(SlabAt(d, n, memsize, c), x)
  {
    var lens := SlabLengths(d, n);
    var s := SlabAt(d, n, memsize, c);
    forall i | 0 <= i < |d|
      ensures s.start[i] <= x[i] < s.start[i] + s.edges[i] && s.edges[i] > 0
    {
      assert s.start[i] == (x[i] / lens[i]) * lens[i];
      assert s.edges[i] == Min(s.start[i] + lens[i], d[i]) - s.start[i];
      PointInInterval(x[i], lens[i], d[i]);
    }
  }

  /** The interval of length l that holds x, cut off at d, is not empty and
      holds x. */
  lemma PointInInterval(x: int, l: int, d: int)
    requires l >= 1 && 0 <= x < d
    ensures var o := (x / l) * l; o <= x < Min(o + l, d) && Min(o + l, d) - o > 0
  {
    DivUnique(x, l, x / l, x % l);
  }

  /** The pass number of the slab holding an element: the number whose
      base-N digits are the element's index divided by the slab lengths. */
  lemma GridIndex(d: seq<int>, n: int, x: seq<int>) returns (c: nat)
    requires n >= 1 && |x| == |d|
    requires forall i :: 0 <= i < |d| ==> 0 <= x[i] < d[i]
    ensures c < Pow(n, |d|)
    ensures forall i :: 0 <= i < |d| ==> SlabLengths(d, n)[i] >= 1
    ensures forall i :: 0 <= i < |d| ==> Digit(c, n, i) == x[i] / SlabLengths(d, n)[i]
  {
    var lens := SlabLengths(d, n);
    forall i | 0 <= i < |d|
      ensures lens[i] >= 1 && 0 <= x[i] / lens[i] < n
    {
      SlabDigit(d[i], n, x[i]);
    }
    var a: seq<nat> := seq(|d|, i requires 0 <= i < |d| => x[i] / lens[i]);
    c := Encode(a, n);
    EncodeBelow(a, n);
    forall i | 0 <= i < |d|
      ensures Digit(c, n, i) == x[i] / lens[i]
    {
      EncodeDigits(a, n, i);
    }
  }

  /** Every element of the array lies in one of the slabs the corrected loop
      reads. */
  lemma Coverage(d: seq<int>, n: int, memsize: int, x: seq<int>)
    requires n >= 1 && |x| == |d|
    requires forall i :: 0 <= i < |d| ==> 0 <= x[i] < d[i]
    ensures exists s :: s in KeptSlabs(d, n, memsize, Pow(n, |d|)) && Holds(s, x)
  {
    var c := GridIndex(d, n, x);
    SlabHoldsPoint(d, n, memsize, c, x);
    KeptSlabsContain(d, n, memsize, Pow(n, |d|), c);
    var s := SlabAt(d, n, memsize, c);
    assert s in KeptSlabs(d, n, memsize, Pow(n, |d|));
  }

  /** With one slab per dimension the slab is the whole array: the slab
      path and the whole read agree. */
  lemma OneSlabIsWholeRead(d: seq<int>, memsize: int)
    requires forall i :: 0 <= i < |d| ==> d[i] >= 0
    ensures SlabAt(d, 1, memsize, 0).start == seq(|d|, i => 0)
    ensures SlabAt(d, 1, memsize, 0).edges == d
    ensures SlabAt(d, 1, memsize, 0).bytes == Product(d) * memsize
  {
    var s := SlabAt(d, 1, memsize, 0);
    forall i | 0 <= i < |d|
      ensures s.start[i] == 0 && s.edges[i] == d[i]
    {
      CeilIsCeiling(d[i], 1);
      ZeroDigits(1, i);
    }
  }

  // -----------------------------------------------------------------------
  // The choice between the two paths
  // -----------------------------------------------------------------------

  datatype ReadPlan =
    | Whole(w: WholeRead)
    | Slabbed(slabsPerDim: int, slabs: seq<Slab>, failedAt: Option<nat>)

  /** How the SDS data is moved: in one read when it fits the slab budget or
      the memory option is off, and otherwise slab by slab.  The budget is
      an int32 compared with an unsigned byte count, so a negative budget
      becomes a huge unsigned value and also selects the single read.  The
      slab path uses the least number of slabs per dimension that fits the
      budget; the slabs moved are the passes in order up to the first with a
      negative byte count, where the conversion fails. */
  method PlanSdsTransfer(dimsizes: seq<int>, memsize: int, slabsize: int, memopt: int,
                         isRecord: bool)
    returns (plan: ReadPlan)
    requires |dimsizes| >= 1 && memsize >= 0 && forall i :: 0 <= i < |dimsizes| ==> dimsizes[i] >= 0
    ensures plan.Whole? <==> slabsize < 0 || Product(dimsizes) * memsize <= slabsize || memopt != 1
    ensures plan.Whole? ==> plan.w.edge == dimsizes && plan.w.count == Product(dimsizes)
    ensures plan.Whole? ==>
              && |plan.w.start| == |plan.w.stride| == |plan.w.maxDims| == |dimsizes|
              && (forall i :: 0 <= i < |dimsizes| ==> plan.w.start[i] == 0 && plan.w.stride[i] == 1)
              && plan.w.h5dims == dimsizes
              && plan.w.maxDims[0] == (if isRecord then H5SUnlimited else dimsizes[0])
              && plan.w.maxDims[1..] == dimsizes[1..]
    ensures plan.Slabbed? ==>
              && IsSlabCount(Product(dimsizes) * memsize, slabsize, |dimsizes|, plan.slabsPerDim)
              && plan.failedAt == FirstFailing(dimsizes, plan.slabsPerDim, memsize,
                                               Pow(plan.slabsPerDim, |dimsizes|))
              && |plan.slabs| == (if plan.failedAt.Some? then plan.failedAt.value
                                  else Pow(plan.slabsPerDim, |dimsizes|))
              && forall c :: 0 <= c < |plan.slabs| ==>
                   plan.slabs[c] == SlabAt(dimsizes, plan.slabsPerDim, memsize, c)
  {
    var w := PlanWholeRead(dimsizes, isRecord);
    if slabsize < 0 || w.count * memsize <= slabsize || memopt != 1 {
      plan := Whole(w);
    } else {
      ProductNonNegative(dimsizes, |dimsizes|);
      var n := NumSlabsPerDim(memsize * w.count, slabsize, |dimsizes|);
      var slabs, failedAt := SlabLoop(dimsizes, memsize, n);
      plan := Slabbed(n, slabs, failedAt);
    }
  }

  lemma {:induction false} ProductNonNegative(xs: seq<int>, k: nat)
    requires k <= |xs| && forall i :: 0 <= i < |xs| ==> xs[i] >= 0
    ensures ProductPrefix(xs, k) >= 0
  {
    if k > 0 {
      ProductNonNegative(xs, k - 1);
      MulMonotoneInt(0, ProductPrefix(xs, k - 1), xs[k - 1]);
    }
  }
}
