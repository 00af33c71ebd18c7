/** The arithmetic of the parallel multi-dataset test: each rank's block of
    rows, the value written at each element, the comparison of a read-back
    dataset, and which groups each rank reads in the independent read. */
module Mdset {
  import opened Common

  /** The datasets are SIZE by SIZE. */
  const Size: nat := 32

  /** Which output arrays the caller passes; a `false` is a NULL pointer. */
  datatype Wanted = Wanted(origin: bool, dims: bool, count: bool, fileDims: bool)

  /** What get_slab writes; `None` for an array it was not given. */
  datatype SlabOut = SlabOut(
    origin: Option<(int, int)>, dims: Option<(int, int)>,
    count: Option<(int, int)>, fileDims: Option<(int, int)>)

  /** get_slab: a rank's block is SIZE/size whole rows starting at row
      rank * (SIZE/size), with one block and a SIZE by SIZE file. */
  function GetSlab(rank: nat, size: nat, want: Wanted): (s: SlabOut)
    requires size >= 1
    ensures want.origin <==> s.origin.Some?
    ensures want.dims <==> s.dims.Some?
    ensures want.count <==> s.count.Some?
    ensures want.fileDims <==> s.fileDims.Some?
  {
    SlabOut(
      if want.origin then Some((rank * (Size / size), 0)) else None,
      if want.dims then Some((Size / size, Size)) else None,
      if want.count then Some((1, 1)) else None,
      if want.fileDims then Some((Size, Size)) else None)
  }

  const All: Wanted := Wanted(true, true, true, true)

  /** The rows of a rank's block. */
  function RowsOf(rank: nat, size: nat): (rows: (int, int))
    requires size >= 1
  {
    var s := GetSlab(rank, size, All);
    (s.origin.value.0, s.origin.value.0 + s.dims.value.0)
  }

  lemma MulLe(a: nat, b: nat, c: nat)
    requires a <= b
    ensures a * c <= b * c
  {
  }

  /** Every rank's block lies inside the dataset and spans all columns. */
  lemma SlabInside(rank: nat, size: nat)
    requires size >= 1 && rank < size
    ensures 0 <= RowsOf(rank, size).0 <= RowsOf(rank, size).1 <= Size
    ensures GetSlab(rank, size, All).origin.value.1 == 0
    ensures GetSlab(rank, size, All).dims.value.1 == Size
  {
    var q := Size / size;
    MulLe(rank + 1, size, q);
    assert size * q <= Size;
  }

  /** Distinct ranks get disjoint blocks of rows. */
  lemma SlabsDisjoint(r1: nat, r2: nat, size: nat)
    requires size >= 1 && r1 < r2
    ensures RowsOf(r1, size).1 <= RowsOf(r2, size).0
  {
    MulLe(r1 + 1, r2, Size / size);
  }

  /** When the number of ranks divides SIZE the blocks tile the rows: rank r
      ends where rank r + 1 starts, and the last rank ends at SIZE. */
  lemma SlabsTile(rank: nat, size: nat)
    requires size >= 1 && rank < size && Size % size == 0
    ensures rank + 1 < size ==> RowsOf(rank, size).1 == RowsOf(rank + 1, size).0
    ensures rank + 1 == size ==> RowsOf(rank, size).1 == Size
  {
    var q := Size / size;
    assert (rank + 1) * q == rank * q + q;
    if rank + 1 == size {
      assert size * q == Size;
    }
  }

  /** The value the test writes at (i, j) and later expects there. */
  function Expected(i: int, j: int, rank: int): int
  {
    (i + j) * 1000 + rank
  }

  /** For ranks below 1000 the value tells the anti-diagonal and the rank
      apart: it determines both. */
  lemma ExpectedDecodes(i: nat, j: nat, rank: nat)
    requires rank < 1000
    ensures Expected(i, j, rank) / 1000 == i + j
    ensures Expected(i, j, rank) % 1000 == rank
  {
  }

  lemma ExpectedSeparatesRanks(i: nat, j: nat, r1: nat, r2: nat)
    requires r1 < 1000 && r2 < 1000 && r1 != r2
    ensures Expected(i, j, r1) != Expected(i, j, r2)
  {
    ExpectedDecodes(i, j, r1);
    ExpectedDecodes(i, j, r2);
  }

  /** The reference buffer group_dataset_read fills, row by row. */
  method FillExpected(rank: int) returns (outdata: array<int>)
    ensures outdata.Length == Size * Size
    ensures forall i, j :: 0 <= i < Size && 0 <= j < Size ==> outdata[i * Size + j] == Expected(i, j, rank)
  {
    outdata := new int[Size * Size];
    var i := 0;
    while i < Size
      invariant 0 <= i <= Size
      invariant forall i', j :: 0 <= i' < i && 0 <= j < Size ==> outdata[i' * Size + j] == Expected(i', j, rank)
    {
      var j := 0;
      while j < Size
        invariant 0 <= j <= Size
        invariant forall i', j' :: 0 <= i' < i && 0 <= j' < Size ==> outdata[i' * Size + j'] == Expected(i', j', rank)
        invariant forall j' :: 0 <= j' < j ==> outdata[i * Size + j'] == Expected(i, j', rank)
      {
        outdata[i * Size + j] := Expected(i, j, rank);
        j := j + 1;
      }
      i := i + 1;
    }
  }

  // -----------------------------------------------------------------------
  // check_value
  // -----------------------------------------------------------------------

  /** The number of positions in [lo, hi) where the buffers differ: at most
      one per position. */
  function Mismatches(a: seq<int>, b: seq<int>, lo: nat, hi: nat): (r: nat)
    requires lo <= hi <= |a| && hi <= |b|
    ensures r <= hi - lo
    decreases hi
  {
    if lo == hi then 0
    else Mismatches(a, b, lo, hi - 1) + (if a[hi - 1] != b[hi - 1] then 1 else 0)
  }

  lemma {:induction false} NoMismatchesMeansEqual(a: seq<int>, b: seq<int>, lo: nat, hi: nat)
    requires lo <= hi <= |a| && hi <= |b|
    ensures Mismatches(a, b, lo, hi) == 0 <==> a[lo..hi] == b[lo..hi]
    decreases hi
  {
    if lo < hi {
      NoMismatchesMeansEqual(a, b, lo, hi - 1);
      assert a[lo..hi] == a[lo..hi - 1] + [a[hi - 1]];
      assert b[lo..hi] == b[lo..hi - 1] + [b[hi - 1]];
      if a[lo..hi] == b[lo..hi] {
        assert a[lo..hi - 1] == a[lo..hi][..hi - 1 - lo];
        assert b[lo..hi - 1] == b[lo..hi][..hi - 1 - lo];
        assert a[hi - 1] == a[lo..hi][hi - 1 - lo];
      }
    }
  }

  /** check_value as written: the two pointers are moved to the rank's first
      row but never advanced inside the loop, so every pass compares the
      same pair of elements.  The count is 0 when that one pair agrees and
      the size of the block otherwise. */
  method CheckValueAsWritten(indata: array<int>, outdata: array<int>, rank: nat, size: nat)
    returns (errNum: nat)
    requires size >= 1 && rank < size
    requires indata.Length == Size * Size && outdata.Length == Size * Size
    ensures var rows := Size / size;
            var at := rank * rows * Size;
            rows == 0 ==> errNum == 0
    ensures var rows := Size / size;
            var at := rank * rows * Size;
            rows > 0 ==> (at < Size * Size &&
              errNum == (if indata[at] == outdata[at] then 0 else rows * Size))
  {
    var slab := GetSlab(rank, size, Wanted(true, true, true, false));
    var origin, dims := slab.origin.value, slab.dims.value;
    SlabInside(rank, size);
    var at := origin.0 * Size;
    errNum := 0;
    var i := origin.0;
    while i < origin.0 + dims.0
      invariant origin.0 <= i <= origin.0 + dims.0
      invariant errNum == (if dims.0 > 0 && indata[at] != outdata[at] then (i - origin.0) * Size else 0)
    {
      var j := origin.1;
      while j < origin.1 + dims.1
        invariant origin.1 <= j <= origin.1 + dims.1
        invariant errNum == (if indata[at] != outdata[at] then (i - origin.0) * Size + j else 0)
      {
        if indata[at] != outdata[at] {
          errNum := errNum + 1;
        }
        j := j + 1;
      }
      i := i + 1;
    }
  }

  /** check_value with the evident intent: each pass compares the element
      at (i, j) and moves on, so the count is the number of differing
      elements in the rank's block. */
  method CheckValue(indata: array<int>, outdata: array<int>, rank: nat, size: nat)
    returns (errNum: nat)
    requires size >= 1 && rank < size
    requires indata.Length == Size * Size && outdata.Length == Size * Size
    ensures RowsOf(rank, size).1 * Size <= Size * Size
    ensures errNum == Mismatches(indata[..], outdata[..], RowsOf(rank, size).0 * Size, RowsOf(rank, size).1 * Size)
  {
    var slab := GetSlab(rank, size, Wanted(true, true, true, false));
    var origin, dims := slab.origin.value, slab.dims.value;
    SlabInside(rank, size);
    var p := origin.0 * Size;
    errNum := 0;
    var i := origin.0;
    while i < origin.0 + dims.0
      invariant origin.0 <= i <= origin.0 + dims.0
      invariant p == i * Size
      invariant errNum == Mismatches(indata[..], outdata[..], origin.0 * Size, p)
    {
      var j := origin.1;
      while j < origin.1 + dims.1
        invariant origin.1 <= j <= origin.1 + dims.1
        invariant p == i * Size + j
        invariant errNum == Mismatches(indata[..], outdata[..], origin.0 * Size, p)
      {
        if indata[p] != outdata[p] {
          errNum := errNum + 1;
        }
        p := p + 1;
        j := j + 1;
      }
      i := i + 1;
    }
  }

  /** The corrected check finds no error exactly when the rank's rows of the
      two buffers are equal. */
  lemma CheckValueDetectsAll(indata: seq<int>, outdata: seq<int>, rank: nat, size: nat)
    requires size >= 1 && rank < size && |indata| == |outdata| == Size * Size
    ensures RowsOf(rank, size).1 * Size <= Size * Size
    ensures var lo, hi := RowsOf(rank, size).0 * Size, RowsOf(rank, size).1 * Size;
            Mismatches(indata, outdata, lo, hi) == 0 <==> indata[lo..hi] == outdata[lo..hi]
  {
    SlabInside(rank, size);
    var lo, hi := RowsOf(rank, size).0 * Size, RowsOf(rank, size).1 * Size;
    NoMismatchesMeansEqual(indata, outdata, lo, hi);
  }

  /** Rank 0 of one: buffers that agree in their first element and differ
      in their second.  The as-written check looks only at the first element
      and reports no error; the corrected count is 1. */
  lemma CheckValueMissesMismatch()
    ensures var indata := seq(Size * Size, k => 0);
            var outdata := seq(Size * Size, k => if k == 1 then 1 else 0);
            && indata[0] == outdata[0]
            && indata[1] != outdata[1]
            && Mismatches(indata, outdata, RowsOf(0, 1).0 * Size, RowsOf(0, 1).1 * Size) == 1
  {
    var indata := seq(Size * Size, k => 0);
    var outdata := seq(Size * Size, k => if k == 1 then 1 else 0);
    MismatchesOnlyAtOne(indata, outdata, Size * Size);
  }

  lemma {:induction false} MismatchesOnlyAtOne(a: seq<int>, b: seq<int>, n: nat)
    requires 2 <= n <= |a| && n <= |b|
    requires forall k :: 0 <= k < |a| && k < |b| ==> (a[k] != b[k] <==> k == 1)
    ensures Mismatches(a, b, 0, n) == 1
    decreases n
  {
    if 2 < n {
      MismatchesOnlyAtOne(a, b, n - 1);
    } else {
      assert Mismatches(a, b, 0, 1) == 0;
    }
  }

  // -----------------------------------------------------------------------
  // independent_group_read
  // -----------------------------------------------------------------------

  lemma HalfUp(n: int, c: nat)
    requires n > 0 ==> n <= 2 * c <= n + 1
    requires n <= 0 ==> c == 0
    ensures c == (if n <= 0 then 0 else (n + 1) / 2)
  {
  }

  /** The odd-rank loop: groups 0, 2, 4, ... below ngroups. */
  method OddRankGroups(ngroups: int) returns (groups: seq<int>)
    ensures |groups| == (if ngroups <= 0 then 0 else (ngroups + 1) / 2)
    ensures forall k :: 0 <= k < |groups| ==> groups[k] == 2 * k
    ensures forall k :: 0 <= k < |groups| ==> 0 <= groups[k] < ngroups
  {
    groups := [];
    var m := 0;
    while m < ngroups
      invariant m == 2 * |groups| && (ngroups > 0 ==> m <= ngroups + 1) && (ngroups <= 0 ==> groups == [])
      invariant forall k :: 0 <= k < |groups| ==> groups[k] == 2 * k && groups[k] < ngroups
    {
      groups := groups + [m];
      m := m + 2;
    }
    HalfUp(ngroups, |groups|);
  }

  /** The even-rank loop as written: it starts at the last group and runs
      while the group number is 0, so it reads group 0 when there is exactly
      one group and nothing otherwise. */
  method EvenRankGroupsAsWritten(ngroups: int) returns (groups: seq<int>)
    ensures groups == (if ngroups == 1 then [0] else [])
  {
    groups := [];
    var m := ngroups - 1;
    while m == 0
      invariant (m == ngroups - 1 && groups == []) || (m == -2 && ngroups == 1 && groups == [0])
      decreases if m == 0 then 1 else 0
    {
      groups := groups + [m];
      m := m - 2;
    }
  }

  /** The even-rank loop with the evident intent (`m >= 0`): the groups
      ngroups - 1, ngroups - 3, ... down to 0 or 1. */
  method EvenRankGroups(ngroups: int) returns (groups: seq<int>)
    ensures |groups| == (if ngroups <= 0 then 0 else (ngroups + 1) / 2)
    ensures forall k :: 0 <= k < |groups| ==> groups[k] == ngroups - 1 - 2 * k
    ensures forall k :: 0 <= k < |groups| ==> 0 <= groups[k] < ngroups
  {
    groups := [];
    var m := ngroups - 1;
    while m >= 0
      invariant m == ngroups - 1 - 2 * |groups| && (ngroups > 0 ==> m >= -2) && (ngroups <= 0 ==> groups == [])
      invariant forall k :: 0 <= k < |groups| ==> groups[k] == ngroups - 1 - 2 * k && groups[k] >= 0
      decreases m + 2
    {
      groups := groups + [m];
      m := m - 2;
    }
    HalfUp(ngroups, |groups|);
  }

  /** Whether a rank whose loop produced `groups` reads group g. */
  predicate ReadBy(groups: seq<int>, g: int)
  {
    exists k :: 0 <= k < |groups| && groups[k] == g
  }

  /** With an even number of groups the corrected loops split the groups:
      every group is read by exactly one of the two kinds of rank. */
  lemma ReadsSplitGroups(ngroups: nat, odd: seq<int>, even: seq<int>, g: nat)
    requires ngroups % 2 == 0 && g < ngroups
    requires |odd| == |even| == ngroups / 2
    requires forall k :: 0 <= k < |odd| ==> odd[k] == 2 * k
    requires forall k :: 0 <= k < |even| ==> even[k] == ngroups - 1 - 2 * k
    ensures ReadBy(odd, g) != ReadBy(even, g)
  {
    if g % 2 == 0 {
      assert odd[g / 2] == g;
      assert !ReadBy(even, g) by {
        forall k | 0 <= k < |even| ensures even[k] != g {
          assert (ngroups - 1 - 2 * k) % 2 == 1;
        }
      }
    } else {
      var k := (ngroups - 1 - g) / 2;
      assert even[k] == g;
      assert !ReadBy(odd, g) by {
        forall k' | 0 <= k' < |odd| ensures odd[k'] != g {
        }
      }
    }
  }

  /** As written, with more than one group the even ranks read none of
      them, where the corrected loop reads the last group and every second
      one before it. */
  lemma EvenRanksReadNothing(ngroups: int, asWritten: seq<int>, corrected: seq<int>)
    requires ngroups >= 2
    requires asWritten == (if ngroups == 1 then [0] else [])
    requires |corrected| == (if ngroups <= 0 then 0 else (ngroups + 1) / 2)
    requires forall k :: 0 <= k < |corrected| ==> corrected[k] == ngroups - 1 - 2 * k
    ensures forall g :: !ReadBy(asWritten, g)
    ensures ReadBy(corrected, ngroups - 1) && ReadBy(corrected, ngroups - 1 - 2 * ((ngroups - 1) / 2))
  {
    assert corrected[0] == ngroups - 1;
    assert corrected[(ngroups - 1) / 2] == ngroups - 1 - 2 * ((ngroups - 1) / 2);
  }
}
