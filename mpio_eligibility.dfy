/** The collective-I/O eligibility decision of the parallel dataset driver
    (H5D_mpio_opt_possible), with the process group made explicit.

    Every process runs the same chain of early exits.  The first checks are
    local; in the chunked branch the processes then combine one boolean with a
    logical AND and one chunk count with MIN and MAX, and rank 0 broadcasts
    the combined value.  Here the group is a sequence of per-rank inputs, the
    reductions are folds over that sequence, and a rank's answer is a function
    of its own input and of the broadcast values it receives. */
module MpioEligibility {
  import opened Common

  /** The library's three-valued answer (htri_t): TRUE, FALSE or FAIL. */
  datatype Tri = True | False | Fail

  /** Extent class of a dataspace. Only simple and scalar extents qualify. */
  datatype ExtentClass = Scalar | Simple | NoExtent

  /** Selection class of a dataspace. */
  datatype SelectionClass = SelNone | SelPoints | SelHyperslabs | SelAll

  /** The storage bits of the conversion flag word. */
  datatype StorageKind = Contiguous | Chunked | OtherStorage

  /** What the dataspace queries report about one side (memory or file). */
  datatype Space = Space(
    extent: ExtentClass,
    selection: SelectionClass,
    isRegular: Tri,   // the "selection is regular" query
    isSingle: Tri)    // the "selection is one block" query

  /** Bounding box of a selection: inclusive `start` and `end` per dimension. */
  datatype Bounds = Bounds(start: seq<nat>, end: seq<nat>)

  /** Everything one rank feeds into the decision. */
  datatype RankInput = RankInput(
    parIoPossible: bool,      // the parallel-I/O-possible bit of the flag word
    storage: StorageKind,     // the storage bits of the flag word
    filtersUsed: nat,         // number of filters in the dataset's pipeline
    commOk: bool,             // the file's communicator could be retrieved
    rankOk: bool,             // the process rank could be retrieved
    mem: Space,
    file: Space,
    fileBounds: Option<Bounds>,  // bounds of the file selection; None when the query fails
    chunkDims: seq<nat>)

  /** The chunk shape covers every dimension of the bounds with a positive
      extent, and each bound is an ordered pair (what the layout and the
      selection code guarantee before the division by the chunk extent). */
  predicate BoundsFit(b: Bounds, chunk: seq<nat>)
  {
    && |b.start| == |b.end| <= |chunk|
    && (forall u :: 0 <= u < |b.start| ==> chunk[u] > 0)
    && (forall u :: 0 <= u < |b.start| ==> b.start[u] <= b.end[u])
  }

  predicate WellFormed(r: RankInput)
  {
    r.fileBounds.Some? ==> BoundsFit(r.fileBounds.value, r.chunkDims)
  }

  // ---------------------------------------------------------------------
  // The single-chunk test and the chunk count of one rank
  // ---------------------------------------------------------------------

  /** The rank's file selection lies within one chunk: in every dimension the
      first and the last selected coordinate fall into the same chunk. */
  predicate InOneChunk(b: Bounds, chunk: seq<nat>)
    requires BoundsFit(b, chunk)
  {
    forall u :: 0 <= u < |b.start| ==> b.end[u] / chunk[u] == b.start[u] / chunk[u]
  }

  /** The scan of the source: stop at the first dimension whose first and
      last coordinates fall into different chunks. */
  method ScanOneChunk(b: Bounds, chunk: seq<nat>) returns (pcheck: bool)
    requires BoundsFit(b, chunk)
    ensures pcheck <==> InOneChunk(b, chunk)
  {
    pcheck := true;
    var u := 0;
    while u < |b.start|
      invariant 0 <= u <= |b.start|
      invariant pcheck
      invariant forall v :: 0 <= v < u ==> b.end[v] / chunk[v] == b.start[v] / chunk[v]
    {
      if b.end[u] / chunk[u] != b.start[u] / chunk[u] {
        pcheck := false;
        return;
      }
      u := u + 1;
    }
  }

  lemma MulMonotone(a: nat, b: nat, c: nat)
    requires a <= b
    ensures a * c <= b * c
  {
  }

  lemma DivMonotone(x: nat, y: nat, c: nat)
    requires x <= y && c > 0
    ensures x / c <= y / c
  {
    var qx, qy := x / c, y / c;
    if qx > qy {
      MulMonotone(qy + 1, qx, c);
      assert false;
    }
  }

  /** Number of chunks the selection spans in dimension `u`. */
  function DimChunks(b: Bounds, chunk: seq<nat>, u: nat): (n: nat)
    requires BoundsFit(b, chunk) && u < |b.start|
    ensures n >= 1
  {
    DivMonotone(b.start[u], b.end[u], chunk[u]);
    b.end[u] / chunk[u] - b.start[u] / chunk[u] + 1
  }

  /** Exact number of chunks the bounding box spans in dimensions [0, k). */
  function ChunkProduct(b: Bounds, chunk: seq<nat>, k: nat): (p: nat)
    requires BoundsFit(b, chunk) && k <= |b.start|
    ensures p >= 1
  {
    if k == 0 then 1
    else
      var d, rest := DimChunks(b, chunk, k - 1), ChunkProduct(b, chunk, k - 1);
      MulMonotone(1, d, rest);
      d * rest
  }

  /** The same product as the source computes it: every factor is truncated to
      32-bit `unsigned` and every partial product wraps modulo 2^32. */
  function ChunkProductU32(b: Bounds, chunk: seq<nat>, k: nat): (p: nat)
    requires BoundsFit(b, chunk) && k <= |b.start|
    ensures p < U32
  {
    if k == 0 then 1
    else ((DimChunks(b, chunk, k - 1) % U32) * ChunkProductU32(b, chunk, k - 1)) % U32
  }

  /** The rank's chunk count as stored in the `int` that enters the reductions. */
  function ChunkCount(b: Bounds, chunk: seq<nat>): int
    requires BoundsFit(b, chunk)
  {
    ToInt32(ChunkProductU32(b, chunk, |b.start|))
  }

  /** The source's accumulation loop over the dimensions of the file space. */
  method CountChunks(b: Bounds, chunk: seq<nat>) returns (tnum: int)
    requires BoundsFit(b, chunk)
    ensures tnum == ChunkCount(b, chunk)
  {
    var acc: nat := 1;
    var u := 0;
    while u < |b.start|
      invariant 0 <= u <= |b.start|
      invariant acc == ChunkProductU32(b, chunk, u)
    {
      var dimChunks := (b.end[u] / chunk[u] - b.start[u] / chunk[u] + 1) % U32;
      acc := (dimChunks * acc) % U32;
      u := u + 1;
    }
    tnum := ToInt32(acc);
  }

  lemma {:induction false} ChunkProductGrows(b: Bounds, chunk: seq<nat>, j: nat, k: nat)
    requires BoundsFit(b, chunk) && j <= k <= |b.start|
    ensures ChunkProduct(b, chunk, j) <= ChunkProduct(b, chunk, k)
    decreases k
  {
    if j < k {
      ChunkProductGrows(b, chunk, j, k - 1);
      var d := DimChunks(b, chunk, k - 1);
      var p := ChunkProduct(b, chunk, k - 1);
      MulMonotone(1, d, p);
    }
  }

  lemma ModOfSmall(x: nat, m: nat)
    requires x < m
    ensures x % m == x
  {
  }

  lemma {:induction false} ChunkProductNoWrap(b: Bounds, chunk: seq<nat>, k: nat)
    requires BoundsFit(b, chunk) && k <= |b.start|
    requires ChunkProduct(b, chunk, |b.start|) < I32Limit
    ensures ChunkProductU32(b, chunk, k) == ChunkProduct(b, chunk, k)
  {
    if k > 0 {
      ChunkProductNoWrap(b, chunk, k - 1);
      ChunkProductGrows(b, chunk, k, |b.start|);
      var d := DimChunks(b, chunk, k - 1);
      var p := ChunkProduct(b, chunk, k - 1);
      assert ChunkProduct(b, chunk, k) == d * p;
      MulMonotone(1, p, d);
      ModOfSmall(d, U32);
      ModOfSmall(d * p, U32);
      assert ChunkProductU32(b, chunk, k) == ((d % U32) * p) % U32;
    }
  }

  /** While the true product fits in an `int`, the rank's chunk count is the
      product over the dimensions of (end/chunk - start/chunk + 1). */
  lemma ChunkCountIsProduct(b: Bounds, chunk: seq<nat>)
    requires BoundsFit(b, chunk)
    requires ChunkProduct(b, chunk, |b.start|) < I32Limit
    ensures ChunkCount(b, chunk) == ChunkProduct(b, chunk, |b.start|)
  {
    ChunkProductNoWrap(b, chunk, |b.start|);
  }

  /** A box inside one chunk spans exactly one chunk. */
  lemma {:induction false} OneChunkCountsOne(b: Bounds, chunk: seq<nat>, k: nat)
    requires BoundsFit(b, chunk) && k <= |b.start|
    requires InOneChunk(b, chunk)
    ensures ChunkProduct(b, chunk, k) == 1
  {
    if k > 0 {
      OneChunkCountsOne(b, chunk, k - 1);
    }
  }

  // ---------------------------------------------------------------------
  // The reductions, as rank 0 sees their results
  // ---------------------------------------------------------------------

  /** MPI_LAND over the group. */
  function AndAll(bs: seq<bool>): (r: bool)
    ensures r <==> forall i :: 0 <= i < |bs| ==> bs[i]
  {
    if |bs| == 0 then true else bs[0] && AndAll(bs[1..])
  }

  /** MPI_MIN over the group. */
  function MinAll(xs: seq<int>): (m: int)
    requires |xs| > 0
    ensures (exists i :: 0 <= i < |xs| && xs[i] == m)
    ensures forall i :: 0 <= i < |xs| ==> m <= xs[i]
  {
    if |xs| == 1 then xs[0]
    else
      var rest := MinAll(xs[1..]);
      assert forall i :: 1 <= i < |xs| ==> xs[i] == xs[1..][i - 1];
      if xs[0] <= rest then xs[0] else rest
  }

  /** MPI_MAX over the group. */
  function MaxAll(xs: seq<int>): (m: int)
    requires |xs| > 0
    ensures (exists i :: 0 <= i < |xs| && xs[i] == m)
    ensures forall i :: 0 <= i < |xs| ==> xs[i] <= m
  {
    if |xs| == 1 then xs[0]
    else
      var rest := MaxAll(xs[1..]);
      assert forall i :: 1 <= i < |xs| ==> xs[i] == xs[1..][i - 1];
      if xs[0] >= rest then xs[0] else rest
  }

  /** Rank 0's comparison of the reduced minimum and maximum holds exactly when
      every rank contributed the same count. */
  lemma MinMaxAgree(xs: seq<int>)
    requires |xs| > 0
    ensures MinAll(xs) == MaxAll(xs) <==> forall i, j :: 0 <= i < |xs| && 0 <= j < |xs| ==> xs[i] == xs[j]
  {
    var lo, hi := MinAll(xs), MaxAll(xs);
    if forall i, j :: 0 <= i < |xs| && 0 <= j < |xs| ==> xs[i] == xs[j] {
      var a :| 0 <= a < |xs| && xs[a] == lo;
      var z :| 0 <= z < |xs| && xs[z] == hi;
      assert xs[a] == xs[z];
    }
  }

  /** Two different contributions make the reduced minimum and maximum differ. */
  lemma MinMaxSplit(xs: seq<int>, a: nat, z: nat)
    requires a < |xs| && z < |xs| && xs[a] != xs[z]
    ensures MinAll(xs) < MaxAll(xs)
  {
    MinMaxAgree(xs);
  }

  // ---------------------------------------------------------------------
  // One rank's chain of checks
  // ---------------------------------------------------------------------

  /** Where a rank stands before the first reduction: either it has already
      decided, or it enters the AND-reduction with its single-chunk flag. */
  datatype Prefix = Decided(result: Tri) | EntersAnd(pcheck: bool, bounds: Bounds)

  /** Where a rank stands after a false AND: either it has decided, or it
      enters the MIN/MAX reductions with its chunk count. */
  datatype Middle = DecidedLate(result: Tri) | EntersMinMax(count: int)

  /** The local checks, in the order the source makes them. */
  function LocalPrefix(r: RankInput): (p: Prefix)
    requires WellFormed(r)
    ensures p.EntersAnd? ==> r.fileBounds == Some(p.bounds) && BoundsFit(p.bounds, r.chunkDims)
    ensures p.EntersAnd? ==> p.pcheck == InOneChunk(p.bounds, r.chunkDims)
  {
    if !r.parIoPossible then Decided(False)
    else if !((r.mem.extent == Simple || r.mem.extent == Scalar)
              && (r.file.extent == Simple || r.file.extent == Scalar)) then Decided(False)
    else if r.file.isRegular == Fail || r.mem.isRegular == Fail then Decided(Fail)
    else if r.file.isRegular == False || r.mem.isRegular == False then Decided(False)
    else if r.mem.selection == SelPoints || r.file.selection == SelPoints then Decided(False)
    else if r.storage == OtherStorage then Decided(False)
    else if r.storage == Contiguous then Decided(True)
    else if r.filtersUsed > 0 then Decided(False)
    else if !r.commOk || !r.rankOk then Decided(Fail)
    else if r.mem.extent == Scalar || r.file.extent == Scalar then
      Decided(if r.mem.extent == Scalar && r.file.extent == Scalar then True else False)
    else if r.fileBounds.None? then Decided(Fail)
    else EntersAnd(InOneChunk(r.fileBounds.value, r.chunkDims), r.fileBounds.value)
  }

  /** The "one block" checks that follow a false AND, then the chunk count. */
  function AfterAnd(r: RankInput, b: Bounds): (m: Middle)
    requires BoundsFit(b, r.chunkDims)
    ensures m.EntersMinMax? ==> m.count == ChunkCount(b, r.chunkDims)
  {
    if r.file.isSingle == Fail || r.mem.isSingle == Fail then DecidedLate(Fail)
    else if r.file.isSingle == False || r.mem.isSingle == False then DecidedLate(False)
    else EntersMinMax(ChunkCount(b, r.chunkDims))
  }

  /** One rank's answer, given the two values rank 0 broadcasts: the AND of
      the single-chunk flags and the "same number of chunks" flag.  TRUE is
      only ever the answer of a rank that passes the local checks on
      contiguous storage or on unfiltered chunked storage. */
  function RankDecision(r: RankInput, checkHyper: bool, sameCount: bool): (t: Tri)
    requires WellFormed(r)
    ensures t == True ==> && PassesLocalChecks(r)
                          && (r.storage == Contiguous
                              || (r.storage == Chunked && r.filtersUsed == 0 && r.commOk && r.rankOk))
  {
    match LocalPrefix(r)
    case Decided(t) => t
    case EntersAnd(_, b) =>
      if checkHyper then True
      else match AfterAnd(r, b)
        case DecidedLate(t) => t
        case EntersMinMax(_) => if sameCount then True else False
  }

  // ---------------------------------------------------------------------
  // The whole group
  // ---------------------------------------------------------------------

  /** Outcome for the group: the collective calls either line up on every
      rank, giving one answer per rank, or some rank skips a reduction the
      others enter and the group blocks. */
  datatype GroupOutcome = Blocked | Answers(results: seq<Tri>)

  predicate AllWellFormed(ranks: seq<RankInput>)
  {
    forall i :: 0 <= i < |ranks| ==> WellFormed(ranks[i])
  }

  function Prefixes(ranks: seq<RankInput>): (ps: seq<Prefix>)
    requires AllWellFormed(ranks)
    ensures |ps| == |ranks|
    ensures forall i :: 0 <= i < |ranks| ==> ps[i] == LocalPrefix(ranks[i])
  {
    seq(|ranks|, i requires 0 <= i < |ranks| => LocalPrefix(ranks[i]))
  }

  /** Every rank reaches the AND-reduction (the chunked branch). */
  predicate AllEnterAnd(ps: seq<Prefix>)
  {
    forall i :: 0 <= i < |ps| ==> ps[i].EntersAnd?
  }

  predicate NoneEntersAnd(ps: seq<Prefix>)
  {
    forall i :: 0 <= i < |ps| ==> ps[i].Decided?
  }

  function Middles(ranks: seq<RankInput>, ps: seq<Prefix>): (ms: seq<Middle>)
    requires AllWellFormed(ranks) && ps == Prefixes(ranks) && AllEnterAnd(ps)
    ensures |ms| == |ranks|
    ensures forall i :: 0 <= i < |ranks| ==> ms[i] == AfterAnd(ranks[i], ps[i].bounds)
  {
    seq(|ranks|, i requires 0 <= i < |ranks| => AfterAnd(ranks[i], ps[i].bounds))
  }

  predicate AllEnterMinMax(ms: seq<Middle>)
  {
    forall i :: 0 <= i < |ms| ==> ms[i].EntersMinMax?
  }

  predicate NoneEntersMinMax(ms: seq<Middle>)
  {
    forall i :: 0 <= i < |ms| ==> ms[i].DecidedLate?
  }

  function Flags(ps: seq<Prefix>): (fs: seq<bool>)
    requires AllEnterAnd(ps)
    ensures |fs| == |ps| && forall i :: 0 <= i < |ps| ==> fs[i] == ps[i].pcheck
  {
    seq(|ps|, i requires 0 <= i < |ps| => ps[i].pcheck)
  }

  function Counts(ms: seq<Middle>): (cs: seq<int>)
    requires AllEnterMinMax(ms)
    ensures |cs| == |ms| && forall i :: 0 <= i < |ms| ==> cs[i] == ms[i].count
  {
    seq(|ms|, i requires 0 <= i < |ms| => ms[i].count)
  }

  function Each(ranks: seq<RankInput>, checkHyper: bool, sameCount: bool): (ts: seq<Tri>)
    requires AllWellFormed(ranks)
    ensures |ts| == |ranks|
    ensures forall i :: 0 <= i < |ranks| ==> ts[i] == RankDecision(ranks[i], checkHyper, sameCount)
  {
    seq(|ranks|, i requires 0 <= i < |ranks| => RankDecision(ranks[i], checkHyper, sameCount))
  }

  /** The protocol run by the whole group.  A reduction completes only when
      every rank enters it; the broadcast values are rank 0's. */
  function Negotiate(ranks: seq<RankInput>): (o: GroupOutcome)
    requires |ranks| > 0 && AllWellFormed(ranks)
    ensures o.Answers? ==> |o.results| == |ranks|
    ensures o.Answers? ==> forall i :: 0 <= i < |ranks| && !ReachesAnd(ranks[i]) ==>
                             o.results[i] == RankDecision(ranks[i], false, false)
  {
    var ps := Prefixes(ranks);
    if NoneEntersAnd(ps) then Answers(Each(ranks, false, false))
    else if !AllEnterAnd(ps) then Blocked
    else
      var checkHyper := AndAll(Flags(ps));
      if checkHyper then Answers(Each(ranks, true, false))
      else
        var ms := Middles(ranks, ps);
        if NoneEntersMinMax(ms) then Answers(Each(ranks, false, false))
        else if !AllEnterMinMax(ms) then Blocked
        else
          var cs := Counts(ms);
          Answers(Each(ranks, false, MinAll(cs) == MaxAll(cs)))
  }

  // ---------------------------------------------------------------------
  // Properties of one rank's decision
  // ---------------------------------------------------------------------

  /** Regularity, extents, point selections and the flag bit all act before
      any reduction and never involve other ranks. */
  lemma LocalChecksDecide(r: RankInput, c: bool, s: bool)
    requires WellFormed(r)
    ensures !r.parIoPossible ==> RankDecision(r, c, s) == False
    ensures (r.parIoPossible && (r.mem.extent == NoExtent || r.file.extent == NoExtent))
            ==> RankDecision(r, c, s) == False
    ensures (r.parIoPossible && r.mem.extent != NoExtent && r.file.extent != NoExtent
             && (r.mem.isRegular == Fail || r.file.isRegular == Fail))
            ==> RankDecision(r, c, s) == Fail
    ensures (r.parIoPossible && r.mem.extent != NoExtent && r.file.extent != NoExtent
             && r.mem.isRegular != Fail && r.file.isRegular != Fail
             && (r.mem.isRegular == False || r.file.isRegular == False))
            ==> RankDecision(r, c, s) == False
    ensures (r.parIoPossible && r.mem.extent != NoExtent && r.file.extent != NoExtent
             && r.mem.isRegular == True && r.file.isRegular == True
             && (r.mem.selection == SelPoints || r.file.selection == SelPoints))
            ==> RankDecision(r, c, s) == False
  {
  }

  /** The conditions, common to all branches, that every rank passes before
      the storage kind is looked at. */
  predicate PassesLocalChecks(r: RankInput)
  {
    && r.parIoPossible
    && r.mem.extent != NoExtent && r.file.extent != NoExtent
    && r.mem.isRegular == True && r.file.isRegular == True
    && r.mem.selection != SelPoints && r.file.selection != SelPoints
  }

  /** Storage kind and filters: other storage is refused, contiguous storage
      keeps the initial TRUE, a filtered chunked dataset is refused, and a
      scalar side in the chunked branch is accepted only if both sides are. */
  lemma StorageChecksDecide(r: RankInput, c: bool, s: bool)
    requires WellFormed(r) && PassesLocalChecks(r)
    ensures r.storage == OtherStorage ==> RankDecision(r, c, s) == False
    ensures r.storage == Contiguous ==> RankDecision(r, c, s) == True
    ensures r.storage == Chunked && r.filtersUsed > 0 ==> RankDecision(r, c, s) == False
    ensures (r.storage == Chunked && r.filtersUsed == 0 && r.commOk && r.rankOk
             && (r.mem.extent == Scalar || r.file.extent == Scalar))
            ==> (RankDecision(r, c, s) == True <==> r.mem.extent == Scalar && r.file.extent == Scalar)
  {
  }

  /** The chunked branch proper: a rank reaches the AND-reduction exactly when
      it passes every local check on unfiltered chunked storage with two
      non-scalar extents and readable bounds. */
  predicate ReachesAnd(r: RankInput)
  {
    && PassesLocalChecks(r)
    && r.storage == Chunked && r.filtersUsed == 0 && r.commOk && r.rankOk
    && r.mem.extent == Simple && r.file.extent == Simple
    && r.fileBounds.Some?
  }

  /** The chunk count a rank with readable bounds contributes. */
  function RankCount(r: RankInput): int
    requires WellFormed(r) && r.fileBounds.Some?
  {
    ChunkCount(r.fileBounds.value, r.chunkDims)
  }

  lemma ReachesAndExactly(r: RankInput)
    requires WellFormed(r)
    ensures LocalPrefix(r).EntersAnd? <==> ReachesAnd(r)
  {
  }

  /** A rank in the chunked branch whose "one block" queries both answer TRUE
      follows the broadcast values: TRUE when the AND held, otherwise TRUE
      exactly when the counts were the same. */
  lemma DecisionFollowsBroadcast(r: RankInput, checkHyper: bool, sameCount: bool)
    requires WellFormed(r) && ReachesAnd(r)
    requires r.mem.isSingle == True && r.file.isSingle == True
    ensures RankDecision(r, checkHyper, sameCount) == (if checkHyper || sameCount then True else False)
  {
    ReachesAndExactly(r);
  }

  // ---------------------------------------------------------------------
  // Properties of the group
  // ---------------------------------------------------------------------

  /** When every rank passes the chunked-branch checks, every rank enters
      the AND-reduction. */
  lemma AllReachAnd(ranks: seq<RankInput>)
    requires AllWellFormed(ranks)
    requires forall i :: 0 <= i < |ranks| ==> ReachesAnd(ranks[i])
    ensures AllEnterAnd(Prefixes(ranks))
  {
    var ps := Prefixes(ranks);
    forall i | 0 <= i < |ranks| ensures ps[i].EntersAnd? {
      ReachesAndExactly(ranks[i]);
    }
  }

  /** After a false AND, ranks whose "one block" queries all answer TRUE all
      enter MIN/MAX with their own chunk counts. */
  lemma AllEnterCounting(ranks: seq<RankInput>)
    requires AllWellFormed(ranks)
    requires forall i :: 0 <= i < |ranks| ==> ReachesAnd(ranks[i])
    requires forall i :: 0 <= i < |ranks| ==> ranks[i].mem.isSingle == True && ranks[i].file.isSingle == True
    ensures AllEnterAnd(Prefixes(ranks))
    ensures AllEnterMinMax(Middles(ranks, Prefixes(ranks)))
    ensures forall i :: 0 <= i < |ranks| ==> Counts(Middles(ranks, Prefixes(ranks)))[i] == RankCount(ranks[i])
  {
    AllReachAnd(ranks);
    var ps := Prefixes(ranks);
    var ms := Middles(ranks, ps);
    forall i | 0 <= i < |ranks| ensures ms[i].EntersMinMax? && ms[i].count == RankCount(ranks[i]) {
      assert ps[i].bounds == ranks[i].fileBounds.value;
    }
  }

  /** Single-chunk case: when every rank reaches the AND-reduction and every
      rank's file selection lies in one chunk, every rank answers TRUE,
      whatever its offset inside its chunk. */
  lemma AllInOneChunkIsEligible(ranks: seq<RankInput>)
    requires |ranks| > 0 && AllWellFormed(ranks)
    requires forall i :: 0 <= i < |ranks| ==>
               ReachesAnd(ranks[i]) && InOneChunk(ranks[i].fileBounds.value, ranks[i].chunkDims)
    ensures Negotiate(ranks) == Answers(seq(|ranks|, _ => True))
  {
    AllReachAnd(ranks);
    var ps := Prefixes(ranks);
    assert AndAll(Flags(ps));
    assert Each(ranks, true, false) == seq(|ranks|, _ => True);
  }

  /** Two ranks that span different numbers of chunks cannot both lie in a
      single chunk, so the AND of the single-chunk flags is false. */
  lemma UnequalCountsFailAnd(ranks: seq<RankInput>, a: nat, z: nat)
    requires AllWellFormed(ranks)
    requires forall i :: 0 <= i < |ranks| ==> ReachesAnd(ranks[i])
    requires a < |ranks| && z < |ranks| && ReachesAnd(ranks[a]) && ReachesAnd(ranks[z])
    requires RankCount(ranks[a]) != RankCount(ranks[z])
    ensures AllEnterAnd(Prefixes(ranks))
    ensures !AndAll(Flags(Prefixes(ranks)))
  {
    AllReachAnd(ranks);
    var ps := Prefixes(ranks);
    var ba, bz := ranks[a].fileBounds.value, ranks[z].fileBounds.value;
    if InOneChunk(ba, ranks[a].chunkDims) && InOneChunk(bz, ranks[z].chunkDims) {
      OneChunkCountsOne(ba, ranks[a].chunkDims, |ba.start|);
      ChunkCountIsProduct(ba, ranks[a].chunkDims);
      OneChunkCountsOne(bz, ranks[z].chunkDims, |bz.start|);
      ChunkCountIsProduct(bz, ranks[z].chunkDims);
      assert false;
    }
    assert !ps[a].pcheck || !ps[z].pcheck;
  }

  /** Every rank in the chunked branch with TRUE "one block" answers gives
      the answer the broadcast values dictate. */
  lemma EachFollowsBroadcast(ranks: seq<RankInput>, checkHyper: bool, sameCount: bool)
    requires AllWellFormed(ranks)
    requires forall i :: 0 <= i < |ranks| ==> ReachesAnd(ranks[i])
    requires forall i :: 0 <= i < |ranks| ==> ranks[i].mem.isSingle == True && ranks[i].file.isSingle == True
    ensures Each(ranks, checkHyper, sameCount) == seq(|ranks|, _ => if checkHyper || sameCount then True else False)
  {
    forall i | 0 <= i < |ranks|
      ensures RankDecision(ranks[i], checkHyper, sameCount) == (if checkHyper || sameCount then True else False)
    {
      DecisionFollowsBroadcast(ranks[i], checkHyper, sameCount);
    }
  }

  /** With a false AND and every rank counting, the group compares the
      reduced minimum and maximum. */
  lemma CountingGroupCompares(ranks: seq<RankInput>)
    requires |ranks| > 0 && AllWellFormed(ranks)
    requires forall i :: 0 <= i < |ranks| ==> ReachesAnd(ranks[i])
    requires forall i :: 0 <= i < |ranks| ==> ranks[i].mem.isSingle == True && ranks[i].file.isSingle == True
    requires AllEnterAnd(Prefixes(ranks)) && !AndAll(Flags(Prefixes(ranks)))
    ensures AllEnterMinMax(Middles(ranks, Prefixes(ranks)))
    ensures var cs := Counts(Middles(ranks, Prefixes(ranks)));
            Negotiate(ranks) == Answers(Each(ranks, false, MinAll(cs) == MaxAll(cs)))
  {
    AllEnterCounting(ranks);
    var ps := Prefixes(ranks);
    var ms := Middles(ranks, ps);
    assert !NoneEntersAnd(ps) && !NoneEntersMinMax(ms);
  }

  /** Unequal chunk counts: when every rank enters the MIN/MAX reductions and
      two ranks span different numbers of chunks, every rank answers FALSE. */
  lemma UnequalCountsAreIneligible(ranks: seq<RankInput>, a: nat, z: nat)
    requires |ranks| > 0 && AllWellFormed(ranks)
    requires forall i :: 0 <= i < |ranks| ==> ReachesAnd(ranks[i])
    requires forall i :: 0 <= i < |ranks| ==> ranks[i].mem.isSingle == True && ranks[i].file.isSingle == True
    requires a < |ranks| && z < |ranks| && ReachesAnd(ranks[a]) && ReachesAnd(ranks[z])
    requires RankCount(ranks[a]) != RankCount(ranks[z])
    ensures Negotiate(ranks) == Answers(seq(|ranks|, _ => False))
  {
    UnequalCountsFailAnd(ranks, a, z);
    CountingGroupCompares(ranks);
    AllEnterCounting(ranks);
    var cs := Counts(Middles(ranks, Prefixes(ranks)));
    MinMaxSplit(cs, a, z);
    EachFollowsBroadcast(ranks, false, false);
  }

  /** Equal chunk counts: every rank answers TRUE. */
  lemma EqualCountsAreEligible(ranks: seq<RankInput>)
    requires |ranks| > 0 && AllWellFormed(ranks)
    requires forall i :: 0 <= i < |ranks| ==> ReachesAnd(ranks[i])
    requires forall i :: 0 <= i < |ranks| ==> ranks[i].mem.isSingle == True && ranks[i].file.isSingle == True
    requires forall i, j :: 0 <= i < |ranks| && 0 <= j < |ranks| ==>
               ReachesAnd(ranks[i]) && ReachesAnd(ranks[j]) && RankCount(ranks[i]) == RankCount(ranks[j])
    ensures Negotiate(ranks) == Answers(seq(|ranks|, _ => True))
  {
    AllReachAnd(ranks);
    if AndAll(Flags(Prefixes(ranks))) {
      EachFollowsBroadcast(ranks, true, false);
    } else {
      CountingGroupCompares(ranks);
      AllEnterCounting(ranks);
      var cs := Counts(Middles(ranks, Prefixes(ranks)));
      MinMaxAgree(cs);
      EachFollowsBroadcast(ranks, false, true);
    }
  }

  /** The central invariant: in the chunked branch every rank's answer depends
      only on the broadcast values, so once the ranks agree on the local
      "one block" queries the whole group gives one answer and no reduction
      is left unmatched. */
  lemma GroupAgrees(ranks: seq<RankInput>)
    requires |ranks| > 0 && AllWellFormed(ranks)
    requires forall i :: 0 <= i < |ranks| ==> ReachesAnd(ranks[i])
    requires forall i :: 0 <= i < |ranks| ==>
               ranks[i].mem.isSingle == ranks[0].mem.isSingle && ranks[i].file.isSingle == ranks[0].file.isSingle
    ensures Negotiate(ranks).Answers?
    ensures forall i :: 0 <= i < |ranks| ==> Negotiate(ranks).results[i] == Negotiate(ranks).results[0]
  {
    AllReachAnd(ranks);
    var ps := Prefixes(ranks);
    if !AndAll(Flags(ps)) {
      var ms := Middles(ranks, ps);
      if ms[0].EntersMinMax? {
        assert AllEnterMinMax(ms);
      } else {
        assert NoneEntersMinMax(ms);
      }
    }
  }

  /** When the local checks split the group (some ranks stop before the
      AND-reduction while others enter it) the reduction is never matched. */
  lemma SplitPrefixBlocks(ranks: seq<RankInput>, a: nat, z: nat)
    requires |ranks| > 0 && AllWellFormed(ranks)
    requires a < |ranks| && z < |ranks|
    requires ReachesAnd(ranks[a]) && !ReachesAnd(ranks[z])
    ensures Negotiate(ranks) == Blocked
  {
    ReachesAndExactly(ranks[a]);
    ReachesAndExactly(ranks[z]);
  }
}
