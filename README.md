# HDF5 parallel I/O decision, property lists and tool helpers, in Dafny

This project models a slice of the HDF5 library and its tools, taken from an
early-2000s version of the code base:

- **Collective-I/O eligibility** (`H5D_mpio_opt_possible`). Each rank runs a
  chain of local checks. In the chunked branch the group then takes an AND
  of a per-rank "selection inside one chunk" flag and a MIN/MAX of
  per-rank chunk counts. The process group is a sequence of per-rank
  inputs, and the MPI reductions and broadcasts are folds over it as rank 0
  sees them. The main property is that in the chunked branch every rank
  ends with the same answer (`MpioEligibility`).
- **The collective transfer** (`H5D_mpio_spaces_xfer`). It picks the file
  address for contiguous or chunked storage and advances the buffer. Its
  cleanup block undoes exactly what was set up. The effects it requests
  are recorded, in order, in a trace (`MpioTransfer`).
- **Property lists** (`H5P.c`). These are setters and getters on file-creation,
  file-access, dataset-creation and dataset-transfer lists, each a class
  with the C struct's fields. Each setter validates before it writes, and
  each getter round-trips with its setter. The external-file list is a slot
  array that grows in place (`Plist`).
- **The HDF4-to-HDF5 converter's SDS reader** (`h4toh5sds.c`). It either
  reads the whole array, or cuts it into N slabs per dimension and walks
  them like an odometer (`SdsSlabs`).
- **The HDF5-to-HDF4 converter's helpers** (`h5toh4.c`): output file names,
  the mapping of atomic types, and the packing of compound members
  (`H5ToH4`).
- **h5diff's command line**: the argument validators and the option and
  positional-name logic of `parse_command_line` (`DiffArgs`).
- **The parallel multi-dataset test** (`t_mdset.c`): each rank's block of rows,
  the expected values, the read-back checker, and which groups each rank
  reads (`Mdset`).
- **The counting memory manager of the variable-length string test**
  (`tvlstr.c`): a size header per block and a shared byte counter
  (`VlstrAlloc`).

`Common` holds the shared `Option` type and the integer-width constants.
MPI, file I/O, and the HDF4/HDF5 library calls the tools make are outside
the model: their results are inputs.

## Model

| member | source | states |
|---|---|---|
| MpioEligibility.ScanOneChunk | src/H5Dmpio.c:169-175 | The per-dimension scan reports "one chunk" exactly when, in every dimension, the end and start of the file selection divide to the same chunk index. |
| MpioEligibility.DimChunks | src/H5Dmpio.c:203 | A selection spans at least one chunk in every dimension. |
| MpioEligibility.ChunkProduct | src/H5Dmpio.c:200-205 | The exact number of chunks a bounding box spans is at least 1. |
| MpioEligibility.ChunkProductU32 | src/H5Dmpio.c:202-205 | The product as the source accumulates it, with `unsigned` factors, always stays below 2^32. |
| MpioEligibility.CountChunks | src/H5Dmpio.c:200-205 | The accumulation loop returns the rank's chunk count as it lands in the `int` that enters the reductions. |
| MpioEligibility.ChunkProductGrows | src/H5Dmpio.c:200-205 | Taking more dimensions into the product never lowers the chunk count. |
| MpioEligibility.ChunkProductNoWrap | src/H5Dmpio.c:200-205 | While the true product fits in an `int`, the truncated accumulation equals it at every step. |
| MpioEligibility.ChunkCountIsProduct | src/H5Dmpio.c:200-205 | While it fits in an `int`, the count a rank contributes is the exact number of chunks its box spans. |
| MpioEligibility.OneChunkCountsOne | src/H5Dmpio.c:169-205 | A box that passes the one-chunk test spans exactly one chunk. |
| MpioEligibility.AndAll | src/H5Dmpio.c:177-180 | The MPI_LAND result is true exactly when every rank's flag is true. |
| MpioEligibility.MinAll | src/H5Dmpio.c:210-211 | The MPI_MIN result is some rank's count and is no larger than any rank's count. |
| MpioEligibility.MaxAll | src/H5Dmpio.c:208-209 | The MPI_MAX result is some rank's count and is no smaller than any rank's count. |
| MpioEligibility.MinMaxAgree | src/H5Dmpio.c:213-215 | Rank 0's test `max == min` holds exactly when all ranks contribute the same count. |
| MpioEligibility.MinMaxSplit | src/H5Dmpio.c:207-223 | Two ranks with different counts make the minimum strictly below the maximum. |
| MpioEligibility.LocalPrefix | src/H5Dmpio.c:81-175 | A rank that reaches the AND reduction carries the bounds it read and the one-chunk flag of those bounds. |
| MpioEligibility.RankDecision | src/H5Dmpio.c:81-223 | A rank answers TRUE only after passing its local checks, and only with contiguous storage or with unfiltered chunked storage whose collective calls completed and whose rank-level tests held. |
| MpioEligibility.Negotiate | src/H5Dmpio.c:108-223 | A completed group gives one answer per rank. A rank that stops before the AND reduction answers as its local checks alone decide. |
| MpioEligibility.AfterAnd | src/H5Dmpio.c:192-205 | A rank that reaches the MIN/MAX reductions contributes its chunk count. |
| MpioEligibility.LocalChecksDecide | src/H5Dmpio.c:81-101 | A clear flag bit gives FALSE before anything else. A non-simple, non-scalar extent gives FALSE. A regularity query that fails gives FAIL, and an irregular selection gives FALSE. A point selection gives FALSE. |
| MpioEligibility.StorageChecksDecide | src/H5Dmpio.c:103-155 | After the local checks: storage that is neither contiguous nor chunked gives FALSE, and contiguous storage keeps TRUE. Chunked storage with filters gives FALSE. With a scalar side, the answer is TRUE exactly when both sides are scalar. |
| MpioEligibility.ReachesAndExactly | src/H5Dmpio.c:81-180 | A rank enters the AND reduction exactly when it passes every earlier check and its bounds can be read. |
| MpioEligibility.DecisionFollowsBroadcast | src/H5Dmpio.c:177-223 | For a rank in the chunked branch whose selections are single blocks, the answer depends only on the two broadcast values. It is TRUE if either holds, FALSE otherwise. |
| MpioEligibility.AllReachAnd | src/H5Dmpio.c:108-180 | When every rank passes the chunked-branch checks, every rank enters the AND reduction. |
| MpioEligibility.AllEnterCounting | src/H5Dmpio.c:192-211 | When every rank reaches the AND reduction and both its selections are single blocks, the ranks that do not stop after the broadcast all enter the MIN/MAX reductions, each with its own chunk count. |
| MpioEligibility.AllInOneChunkIsEligible | src/H5Dmpio.c:169-185 | When every rank's selection lies in one chunk, the group completes and every rank answers TRUE. |
| MpioEligibility.UnequalCountsFailAnd | src/H5Dmpio.c:169-185 | Two ranks that span different numbers of chunks make the AND false. |
| MpioEligibility.EachFollowsBroadcast | src/H5Dmpio.c:177-223 | Every rank of such a group gives the same answer, the one the broadcast values dictate. |
| MpioEligibility.CountingGroupCompares | src/H5Dmpio.c:207-219 | The group compares the MIN and MAX of exactly the ranks' chunk counts. |
| MpioEligibility.UnequalCountsAreIneligible | src/H5Dmpio.c:207-223 | Different chunk counts on two ranks make every rank answer FALSE. |
| MpioEligibility.EqualCountsAreEligible | src/H5Dmpio.c:207-223 | Equal chunk counts on all ranks make every rank answer TRUE. |
| MpioEligibility.GroupAgrees | src/H5Dmpio.c:108-223 | When every rank reaches the AND reduction and all ranks agree on whether their selections are single blocks, the collective calls all complete and every rank's answer equals rank 0's. |
| MpioEligibility.SplitPrefixBlocks | src/H5Dmpio.c:81-180 | If the local checks stop some ranks before the AND reduction while others enter it, the reduction is never matched. |
| MpioTransfer.SelectionAddress | src/H5Dmpio.c:320-329 | The file address is the contiguous base plus the file offset, or the file base plus the chunk address plus the file offset. |
| MpioTransfer.SpacesXfer | src/H5Dmpio.c:274-369 | The routine requests exactly the effects of the reference trace. It succeeds exactly when both types were built, setup, the transfer and teardown succeeded, and each derived type was freed. |
| MpioTransfer.CleanupMatchesAcquisition | src/H5Dmpio.c:335-366 | Teardown happens exactly when setup happened. Each MPI type is freed exactly when it was built as a derived type. |
| MpioTransfer.TransferAddressing | src/H5Dmpio.c:320-349 | The transfer happens exactly when both types and setup succeed. It uses the layout's address, the memory type's count, and the buffer advanced by the memory offset. |
| MpioTransfer.EffectOrder | src/H5Dmpio.c:335-366 | Only setup precedes the transfer. Setup is never requested after another effect. Cleanup effects come last, each at most once, in the order teardown, memory type, file type. |
| Plist.UserblockMinimum | src/H5P.c:722-731 | Every non-zero user-block size the setter accepts is a multiple of 512, so 512 is the smallest. |
| Plist.Pow2Multiple512 | src/H5P.c:722-731 | From 2^9 on, every power of two is at least 512 and a multiple of it. |
| Plist.FileCreatePlist.GetUserblock | src/H5P.c:754-770 | The stored user-block size is always 0 or a power of two of at least 512. |
| Plist.FileCreatePlist.SetUserblock | src/H5P.c:708-733 | The setter succeeds exactly for 0 or 2^i with 9 <= i < 64, and the getter then returns the size. Otherwise it reports a bad value and changes nothing. |
| Plist.FileCreatePlist.GetSizes | src/H5P.c:939-959 | Both stored widths are 2, 4, 8 or 16. |
| Plist.FileCreatePlist.SetSizes | src/H5P.c:884-917 | The setter succeeds exactly when each argument is 0 or a valid width. Zero keeps that width. A failure writes neither width. |
| Plist.FileCreatePlist.GetSymK | src/H5P.c:1031-1050 | Both stored symbol-table ranks are positive. |
| Plist.FileCreatePlist.SetSymK | src/H5P.c:990-1010 | Each rank is replaced only by a positive argument, and nothing else changes. |
| Plist.FileCreatePlist.GetIstoreK | src/H5P.c:1112-1129 | The stored chunk B-tree rank is positive. |
| Plist.FileCreatePlist.SetIstoreK | src/H5P.c:1070-1090 | The setter succeeds exactly for a positive rank, which the getter then returns. Otherwise nothing changes. |
| Plist.FileAccessPlist.GetAlignment | src/H5P.c:844-863 | The stored alignment is at least 1. |
| Plist.FileAccessPlist.SetAlignment | src/H5P.c:801-823 | The setter succeeds exactly when the alignment is at least 1, and the getter then returns both values. Otherwise nothing changes. |
| Plist.FileAccessPlist.GetGcReferences | src/H5P.c:3222-3237 | The stored flag is 0 or 1. |
| Plist.FileAccessPlist.SetGcReferences | src/H5P.c:3187-3202 | The getter returns 1 exactly when the argument was non-zero. |
| Plist.FileAccessPlist.GetFamily | src/H5P.c:2000-2030 | The query succeeds exactly when the family driver is selected, and returns the stored member size and member list. |
| Plist.SetFamily | src/H5P.c:1943-1975 | A non-zero member size below 1024 is a range error, checked first. A member argument that is not a file-access list is a type error. On success the driver settings land in the member list when one is named, otherwise in the list itself. A failure changes nothing. |
| Plist.FamilyQuirkWitness | src/H5P.c:1962-1973 | Naming a separate member list leaves the list being configured with its old driver, while the member list gets the family driver. |
| Plist.XferPlist.GetXfer | src/H5P.c:3140-3156 | The stored transfer mode is independent, collective or default. |
| Plist.XferPlist.SetXfer | src/H5P.c:3092-3117 | The setter succeeds exactly for those three modes, and the getter then returns the mode. Otherwise nothing changes. |
| Plist.XferPlist.GetHyperCache | src/H5P.c:2294-2313 | The stored cache flag is 0 or 1. |
| Plist.XferPlist.SetHyperCache | src/H5P.c:2257-2275 | The getter returns a cache flag of 1 exactly when the argument was positive, and the limit as given. |
| Plist.SumSizesAppend | src/H5P.c:1370-1397 | Appending a file adds its size to the total of the list. |
| Plist.SumSizesPrefix | src/H5P.c:1370-1378 | The running total over a prefix of the list never exceeds the whole total. |
| Plist.WrapTest | src/H5P.c:1370-1378 | The unsigned test `total + size <= total` detects exactly the sums that reach 2^64. |
| Plist.AppendKeepsValid | src/H5P.c:1353-1397 | Appending a file the setter accepts keeps every entry named, with a non-negative offset, and keeps the sizes within range. |
| Plist.Strncpy | src/H5P.c:1486-1488 | The copied name has the buffer's length: the source's prefix followed by NUL padding. |
| Plist.DatasetCreatePlist.GetLayout | src/H5P.c:1187-1200 | The stored layout is one of the valid layout values. |
| Plist.DatasetCreatePlist.SetLayout | src/H5P.c:1147-1167 | The setter succeeds exactly for a valid layout, which the getter then returns. Otherwise it reports a range error and changes nothing. |
| Plist.DatasetCreatePlist.ChunkShape | src/H5P.c:1300-1308 | The stored chunk shape has the stored rank as its length. |
| Plist.DatasetCreatePlist.SetChunk | src/H5P.c:1223-1263 | A rank outside [1, 32] or a non-positive extent is a range error, and a missing shape is a bad value. All of these leave everything unchanged. On success the layout is chunked and the shape is the first `ndims` extents. |
| Plist.DatasetCreatePlist.GetChunk | src/H5P.c:1286-1308 | The query returns the chunk rank, or -1 when the layout is not chunked. It copies the first min(rank, max_ndims) extents and writes nothing else. |
| Plist.DatasetCreatePlist.ExternalFiles | src/H5P.c:1392-1397 | The recorded files are exactly the used slots, each of them valid. |
| Plist.DatasetCreatePlist.GetExternalCount | src/H5P.c:1420-1435 | The count is the number of recorded files. |
| Plist.DatasetCreatePlist.GetExternal | src/H5P.c:1466-1492 | The query succeeds exactly for an index in [0, nused). It then reports that slot's offset and size, with the stored name copied into a buffer of the given length as `strncpy` does: the name's prefix, padded with NULs. |
| Plist.DatasetCreatePlist.TotalFits | src/H5P.c:1370-1378 | The overflow loop accepts exactly when the new size plus the recorded sizes stays below 2^64. |
| Plist.DatasetCreatePlist.GrowSlots | src/H5P.c:1381-1391 | Growing the slot array adds 16 slots and keeps the recorded files. |
| Plist.DatasetCreatePlist.StoreSlot | src/H5P.c:1392-1397 | Storing a slot appends exactly that file, which the query then reports at the old count. |
| Plist.DatasetCreatePlist.SetExternal | src/H5P.c:1338-1399 | The setter rejects a missing or empty name, a negative offset, a zero size, a file after an unlimited one, and an overflowing total. On success it appends exactly one file, growing the array by 16 when it is full. A failure leaves the list as it was. |
| Plist.DatasetCreatePlist.CheckExternal | src/H5P.c:1352-1378 | The argument checks pass exactly when the list accepts the file. They report an overflow exactly when the arguments are otherwise valid and the sizes no longer fit in 64 bits, and report a bad value in every other failing case. They change nothing. |
| Plist.DatasetCreatePlist.SetDeflate | src/H5P.c:2633-2662 | A level above 9 is a bad value. Otherwise the pipeline gains one optional deflate stage carrying the level, unless the append fails. |
| Plist.DatasetCreatePlist.GetFilter | src/H5P.c:2542-2608 | The query fails for an index outside [0, nfilters), for a requested count above 256, and for a positive requested count without a buffer. On success it copies min(stored, requested) client values and reports the stored count. |
| SdsSlabs.CeilIsCeiling | tools/h4toh5/h4toh5sds.c:2306-2309 | For m >= 0 and n > 0, h5ceil(m, n) is the least multiple count covering m, that is, the quotient rounded up. |
| SdsSlabs.H5Ceil | tools/h4toh5/h4toh5sds.c:2306-2309 | For m >= 0 and n > 0, the rounded-up quotient is non-negative, and it is at least 1 exactly when m is positive. |
| SdsSlabs.PowLoop | tools/h4toh5/h4toh5sds.c:2312-2319 | The loop computes num^k, and 1 for any k <= 0. |
| SdsSlabs.Pow | tools/h4toh5/h4toh5sds.c:2312-2319 | A power of a positive base is at least 1, so the slab count N^rank is a positive number of passes. |
| SdsSlabs.NumSlabsPerDim | tools/h4toh5/h4toh5sds.c:2283-2303 | The search returns the least n >= 1 for which totalsize / n^rank fits the slab budget. |
| SdsSlabs.QuotientVanishes | tools/h4toh5/h4toh5sds.c:2291-2300 | A large enough n makes the quotient 0, which is why the search ends for a non-negative budget. |
| SdsSlabs.PlanWholeRead | tools/h4toh5/h4toh5sds.c:207-221 | The whole-array read has start 0, stride 1, the full extents, and a count equal to the product of the sizes. Its first maximum dimension is unlimited for record SDSs. |
| SdsSlabs.SlabLengths | tools/h4toh5/h4toh5sds.c:557-562 | Each slab length is the dimension size divided by N, rounded up. |
| SdsSlabs.LastDividing | tools/h4toh5/h4toh5sds.c:576-582 | The index is the last dimension i whose block size N^(i+1) divides the counter, or -1 when there is none. |
| SdsSlabs.Carry | tools/h4toh5/h4toh5sds.c:574-588 | Going from counter c-1 to c resets the digits below the carry position and raises the digit at it by one. Higher digits are kept. |
| SdsSlabs.OdometerStep | tools/h4toh5/h4toh5sds.c:576-588 | The reset-and-advance of one pass turns the digits of c-1 into the digits of c. |
| SdsSlabs.FirstPass | tools/h4toh5/h4toh5sds.c:564-582 | On the first pass every block size divides the counter, so the scan picks the last dimension and nothing is reset. |
| SdsSlabs.FindIndex | tools/h4toh5/h4toh5sds.c:576-582 | The inner scan returns exactly that last dividing dimension. |
| SdsSlabs.EncodeDigits | tools/h4toh5/h4toh5sds.c:566-588 | Any digit vector is the digits of some counter, so every slab position is visited. |
| SdsSlabs.EncodeBelow | tools/h4toh5/h4toh5sds.c:574 | That counter is below N^rank, so it is reached within the loop. |
| SdsSlabs.AdvanceStart | tools/h4toh5/h4toh5sds.c:583-588 | With no carry position, or one at the last dimension, nothing changes. Otherwise the origins of dimensions up to the carry position go to 0, the next one moves on by its slab length, and the rest are kept. |
| SdsSlabs.SlabBounds | tools/h4toh5/h4toh5sds.c:590-600 | Each stop is the origin plus the slab length, clamped to the dimension size. The edge is stop minus origin, and the byte count is the product of the edges times memsize. |
| SdsSlabs.SlabAt | tools/h4toh5/h4toh5sds.c:583-600 | The slab of pass c has one origin and one edge per dimension. |
| SdsSlabs.SlabEndsInside | tools/h4toh5/h4toh5sds.c:590-600 | Because the stop is clamped, no slab of any pass is longer than the slab length or ends past the dimension size, wherever it starts. |
| SdsSlabs.FirstFailing | tools/h4toh5/h4toh5sds.c:595-607 | The first of the first k passes whose byte count is negative, so that malloc fails and the conversion returns FAIL there: every earlier pass has a non-negative count, and none means every pass has one. |
| SdsSlabs.FirstFailingAt | tools/h4toh5/h4toh5sds.c:595-607 | A pass with a negative byte count after only non-negative ones is the one where the conversion fails, however many passes follow. |
| SdsSlabs.Pass | tools/h4toh5/h4toh5sds.c:575-661 | One pass reads exactly the slab of its counter, and leaves the origins ready for the next pass. |
| SdsSlabs.NewSlabArrays | tools/h4toh5/h4toh5sds.c:548-562 | Before the loop the four arrays are fresh and distinct, every origin is 0, and every slab length is the dimension size divided by N, rounded up. |
| SdsSlabs.SlabLoop | tools/h4toh5/h4toh5sds.c:564-662 | The loop as written runs the N^rank passes in order. Pass c reads the slab whose origins are the base-N digits of c times the slab lengths. It stops with FAIL at the first pass whose byte count is negative, after reading exactly the passes before it. |
| SdsSlabs.NegativeEdgeExample | tools/h4toh5/h4toh5sds.c:590-607 | A 5-element array with a budget of 5 bytes is cut into 4 slabs of length 2. The fourth slab starts at 6, past the end, with edge -1 and a byte count of -4, so the conversion fails at that pass after reading the first three. |
| SdsSlabs.HasEmptyEdge | tools/h4toh5/h4toh5sds.c:596-600 | The scan finds a non-positive edge exactly when the slab has nothing to read. |
| SdsSlabs.CorrectedSlabLoop | tools/h4toh5/h4toh5sds.c:564-662 | The corrected loop reads, in order, exactly the slabs of the N^rank passes that have something to read. |
| SdsSlabs.KeptSlabsInside | tools/h4toh5/h4toh5sds.c:590-600 | Every slab the corrected loop reads lies inside the array: a non-negative origin, and an edge between 1 and the slab length that ends within the dimension. |
| SdsSlabs.KeptSlabsContain | tools/h4toh5/h4toh5sds.c:564-662 | Every non-empty slab of the first k passes is among the slabs kept. |
| SdsSlabs.SlabHoldsPoint | tools/h4toh5/h4toh5sds.c:583-600 | The pass whose digits are an element's index divided by the slab lengths reads a non-empty slab that holds that element. |
| SdsSlabs.GridIndex | tools/h4toh5/h4toh5sds.c:564-588 | Every element's slab position is the digit vector of a counter below N^rank. |
| SdsSlabs.Coverage | tools/h4toh5/h4toh5sds.c:564-662 | Every element of the array lies in some slab the corrected loop reads. |
| SdsSlabs.OneSlabIsWholeRead | tools/h4toh5/h4toh5sds.c:207-221 | With one slab per dimension, the single slab is the whole-array read. |
| SdsSlabs.PlanSdsTransfer | tools/h4toh5/h4toh5sds.c:489-662 | The data is read whole exactly when the budget is negative, the data fits the budget, or the memory option is off. A negative `int32` budget becomes a huge value in the unsigned comparison. The whole read then has start 0, stride 1, the full extents and element count, and an unlimited first maximum for a record SDS. Otherwise N comes from the slab-count search, and the passes are read in order as the loop as written reads them, up to the first with a negative byte count, where the conversion fails. |
| SdsSlabs.ProductNonNegative | tools/h4toh5/h4toh5sds.c:207-213 | The element count of non-negative sizes is non-negative. |
| H5ToH4.LastIndexOf | tools/h5toh4/h5toh4.c:2614-2615 | `strrchr`: the result is the last position holding the character, or none when it does not occur. |
| H5ToH4.RootLength | tools/h5toh4/h5toh4.c:2617-2621 | The kept root never exceeds the name's length. |
| H5ToH4.BuildFilename | tools/h5toh4/h5toh4.c:2606-2630 | The buffer holds root_len + strlen(ext) + 2 characters. It contains the root, ".", the extension and a terminating NUL in the last cell. |
| H5ToH4.NoDotKeepsWholeName | tools/h5toh4/h5toh4.c:2617-2618 | A name without a '.' after its last '/' gets ".ext" appended to the whole name. |
| H5ToH4.ExtensionReplaced | tools/h5toh4/h5toh4.c:2619-2621 | A last '.' after the last '/' is where the name is cut before ".ext" is appended. |
| H5ToH4.DirectoryDotExample | tools/h5toh4/h5toh4.c:2617-2618 | "a.b/c" becomes "a.b/c.hdf": a '.' in a directory part is not an extension. |
| H5ToH4.RebuildIsStable | tools/h5toh4/h5toh4.c:2614-2627 | For an extension without '.' or '/', rebuilding an output name gives it back unchanged. |
| H5ToH4.IntegerMapping | tools/h5toh4/h5toh4.c:2231-2293 | With a readable sign, integer sizes 1, 2 and 4 give INT8/16/32 for two's-complement sign and UINT8/16/32 otherwise. Any other size fails with nothing written. |
| H5ToH4.FloatMapping | tools/h5toh4/h5toh4.c:2295-2333 | Float sizes 4 and 8 give FLOAT32 and FLOAT64. Other float sizes and every other class fail with nothing written. |
| H5ToH4.MapAtomicType | tools/h5toh4/h5toh4.c:2244-2338 | The mapping succeeds exactly when it reports a memory type. It then also reports an HDF4 type, the class is integer or float, and the memory type's native size, the HDF4 type's size and the HDF5 type's size are all equal. |
| H5ToH4.CommonPlatformMapsAll | tools/h5toh4/h5toh4.c:2244-2333 | On a platform with 1/2/4/8-byte char/short/int/long and 4/8-byte float/double, every supported integer and float type maps. |
| H5ToH4.RankGuardAdmitsOverflow | tools/h5toh4/h5toh4.c:818-823 | The rank guard admits ranks up to 32, while dimf and permf (declared at lines 612-613) hold 4 entries: a 5-dimensional array member passes the guard and overflows both arrays. |
| H5ToH4.MemberOrder | tools/h5toh4/h5toh4.c:871-883 | For a member of rank at most 4, the order is the product of its dimensions taken in permutation order, over all of them. |
| H5ToH4.PackedOffset | tools/h5toh4/h5toh4.c:885-889 | Member k starts after the bytes of the member before it. |
| H5ToH4.FirstUnpacked | tools/h5toh4/h5toh4.c:785-870 | The first member whose array rank or type the loop cannot handle, with every earlier member handled. |
| H5ToH4.OffsetsUpTo | tools/h5toh4/h5toh4.c:886-889 | Each member's recorded offset is the running sum of order times type size over the earlier members. |
| H5ToH4.OrdersUpTo | tools/h5toh4/h5toh4.c:871-887 | Each member's recorded order is its order. |
| H5ToH4.PackCompound | tools/h5toh4/h5toh4.c:777-890 | No members ends the conversion before any vdata is built. Otherwise the loop stops at the first member it cannot handle, reporting a rank beyond the 4 slots of dimf/permf or a type failure. It fills the offset and order arrays up to there and nothing beyond, and its final offset is the packed size of the members handled. |
| H5ToH4.RecordMember | tools/h5toh4/h5toh4.c:869-887 | Handling one packable member records its offset and element count in the two arrays, extends both recorded prefixes by it, returns the next packed offset and changes no other cell. |
| H5ToH4.PrefixExtends | tools/h5toh4/h5toh4.c:884-889 | Handling one more packable member extends the recorded offsets by its offset and the orders by its order, and moves the offset on by order times type size. |
| H5ToH4.CheckMember | tools/h5toh4/h5toh4.c:812-862 | A member is rejected exactly when its array rank exceeds the 4 entries of dimf and permf. Otherwise a size is returned exactly when its base type maps to a native type, and that size is the member's element size. |
| H5ToH4.FirstUnpackedStays | tools/h5toh4/h5toh4.c:785-870 | Once a member the loop cannot handle is reached, it stays the first such member however many members follow. |
| H5ToH4.MembersDoNotOverlap | tools/h5toh4/h5toh4.c:871-889 | A member's packed bytes end at or before the offset of every later member. |
| H5ToH4.OffsetsIncrease | tools/h5toh4/h5toh4.c:885-889 | Offsets never move backwards: a later member starts no earlier. |
| DiffArgs.CheckNInput | tools/h5diff/h5diff_common.c:253-272 | The check returns 1 exactly when the first character is 1-9 and the rest are 0-9, including the empty string, and -1 otherwise. |
| DiffArgs.DecimalPasses | tools/h5diff/h5diff_common.c:253-272 | The decimal text of any number passes the check when the number is positive, and reads back as that number. |
| DiffArgs.PassingTextIsDecimal | tools/h5diff/h5diff_common.c:253-272 | Every non-empty text that passes the check is the decimal text of a positive number. |
| DiffArgs.CheckRealInput | tools/h5diff/h5diff_common.c:289-340 | The -p and -d checks reject text longer than 2 characters that starts with "0x", before its value is looked at, and reject a negative value. Everything else passes. |
| DiffArgs.ApplyOne | tools/h5diff/h5diff_common.c:78-163 | The switch body behaves as the option step: -h and -V end with success. -d, -p and -n take their argument. The flag letters set their switch, and -N clears do_nans. Any other letter ends with failure. |
| DiffArgs.ApplyOption | tools/h5diff/h5diff_common.c:78-163 | An option ends with success exactly for -h and -V. An option that lets the parse go on never changes `contents` and never clears a switch that was set. |
| DiffArgs.ToleranceOption | tools/h5diff/h5diff_common.c:107-139 | -d and -p go on exactly when the text is not hexadecimal-looking and the value is not negative, so a negative value is a failure exit. Otherwise a value of 0 leaves that tolerance off, any other value turns it on, and nothing else changes. |
| DiffArgs.AtolValue | tools/h5diff/h5diff_common.c:150 | The count atol gives is the number the digits spell, held at LONG_MAX when that number does not fit a long. |
| DiffArgs.ApplyValued | tools/h5diff/h5diff_common.c:107-152 | -d and -p fail on an argument that fails `check_d_input`/`check_p_input`. Otherwise they store the number and set the flag only when it is non-zero. -n fails on text that fails `check_n_input`, and otherwise sets the flag and stores the count atol gives. |
| DiffArgs.ParseCommandLine | tools/h5diff/h5diff_common.c:57-198 | The parse applies the options in order from the defaults and stops at the first exit. It clears -d and -p when -e is set, and then reads two file names and up to two object names. |
| DiffArgs.ParseSpec | tools/h5diff/h5diff_common.c:57-198 | A parse that yields names applied every option without an exit and had at least two names, the first two being the files. With use_system_epsilon set, neither -d nor -p is in effect. |
| DiffArgs.Defaults | tools/h5diff/h5diff_common.c:69-75 | With no options, the settings start zeroed except contents and do_nans, which start at 1. |
| DiffArgs.OptionsKeepContents | tools/h5diff/h5diff_common.c:78-163 | No option changes `contents`, and none clears use_system_epsilon once it is set. |
| DiffArgs.EpsilonClearsTolerances | tools/h5diff/h5diff_common.c:166-168 | When use_system_epsilon is set, neither -d nor -p is in effect after the parse. |
| DiffArgs.PositionalNames | tools/h5diff/h5diff_common.c:170-195 | Fewer than two names is a failure exit. Otherwise the names are the first two, objname2 is absent when objname1 is, and objname2 is the fourth name if given, else objname1. |
| DiffArgs.BadArgumentExits | tools/h5diff/h5diff_common.c:107-152 | A -n argument that fails its check, or a hexadecimal-looking -d or -p argument, always ends the parse with an exit. The exit is a failure when no -h or -V came before it. |
| DiffArgs.CountOption | tools/h5diff/h5diff_common.c:141-152 | A valid -n argument is all digits and sets a count between 1 and LONG_MAX. Below LONG_MAX the count's decimal text is the argument, and the count is LONG_MAX exactly when the argument spells LONG_MAX or more. |
| Mdset.GetSlab | testpar/t_mdset.c:520-540 | Each output is written exactly when its array is given. |
| Mdset.SlabInside | testpar/t_mdset.c:528-534 | Rank r's block covers rows r*(SIZE/size) up to (r+1)*(SIZE/size), inside [0, SIZE]. Its column origin is 0 and its column extent is SIZE. |
| Mdset.SlabsDisjoint | testpar/t_mdset.c:528-534 | Distinct ranks get disjoint row ranges. |
| Mdset.SlabsTile | testpar/t_mdset.c:528-534 | When the number of ranks divides SIZE, the blocks tile the rows with no gap. |
| Mdset.ExpectedDecodes | testpar/t_mdset.c:141-143 | For ranks below 1000 the value (i+j)*1000 + rank gives back i+j and the rank. |
| Mdset.ExpectedSeparatesRanks | testpar/t_mdset.c:141-143 | Two ranks below 1000 write different values at the same element. |
| Mdset.FillExpected | testpar/t_mdset.c:217-223 | The reference buffer holds (i+j)*1000 + rank at row-major position (i, j). |
| Mdset.Mismatches | testpar/t_mdset.c:506-516 | The number of differing positions in a range is at most its length. |
| Mdset.NoMismatchesMeansEqual | testpar/t_mdset.c:506-516 | No differing position in a range means the buffers agree on it, and conversely. |
| Mdset.CheckValueAsWritten | testpar/t_mdset.c:492-517 | As written, an empty block reports 0 errors. Otherwise the count depends only on the element at row-major index origin0*SIZE: 0 when it matches, the block's element count when it does not. |
| Mdset.CheckValue | testpar/t_mdset.c:492-517 | With the pointers advanced, the error count is the number of differing elements in the rank's rows. |
| Mdset.CheckValueDetectsAll | testpar/t_mdset.c:492-517 | The corrected count is 0 exactly when the rank's rows of the two buffers are equal. |
| Mdset.CheckValueMissesMismatch | testpar/t_mdset.c:504-511 | Buffers that agree at element 0 and differ at element 1 pass the check as written, while the corrected count is 1. |
| Mdset.OddRankGroups | testpar/t_mdset.c:187-188 | Odd ranks read groups 0, 2, 4, ... below ngroups. |
| Mdset.EvenRankGroupsAsWritten | testpar/t_mdset.c:183-185 | As written, even ranks read group 0 when there is exactly one group and nothing otherwise. |
| Mdset.EvenRankGroups | testpar/t_mdset.c:183-185 | With the loop condition `m >= 0`, even ranks read ngroups-1, ngroups-3, ... down to 0 or 1. |
| Mdset.ReadsSplitGroups | testpar/t_mdset.c:180-189 | With an even number of groups, the corrected loops give every group to exactly one parity of rank. |
| Mdset.EvenRanksReadNothing | testpar/t_mdset.c:183-185 | With two or more groups, even ranks as written read nothing, while the corrected loop reads the last group and its parity's first group. |
| VlstrAlloc.TotalRemove | test/tvlstr.c:99-103 | Releasing a block takes exactly its recorded size off the total of live blocks. |
| VlstrAlloc.TotalAdd | test/tvlstr.c:71-74 | A new block adds exactly its size to the total of live blocks. |
| VlstrAlloc.AllocThenFreeRestores | test/tvlstr.c:59-104 | Freeing a block just allocated restores the blocks and the total. |
| VlstrAlloc.UserPointer | test/tvlstr.c:74-99 | The pointer handed out lies `extra` bytes past the block, and stepping back `extra` bytes finds the block again. |
| VlstrAlloc.StringBytesTotal | test/tvlstr.c:172-174 | The bytes of a set of strings are their lengths plus one NUL each. |
| VlstrAlloc.Manager.Alloc | test/tvlstr.c:59-77 | On success the size is recorded in a new block and added to the counter. On malloc failure nothing changes and the result is NULL + extra. The counter stays the start value plus the live sizes. |
| VlstrAlloc.Manager.Free | test/tvlstr.c:87-104 | NULL changes nothing. Otherwise the recorded size is subtracted and the block released, keeping the same invariant. |
| VlstrAlloc.Manager.ReadStrings | test/tvlstr.c:172-183 | Allocating strlen + 1 bytes per string raises the counter by the sum of those sizes. It hands out distinct pointers, each just past a new live block. The new blocks are the old ones plus exactly `StringBlocks`: each string's address with its own strlen + 1 size. |
| VlstrAlloc.StringBlocksLookup | test/tvlstr.c:172-183 | At distinct addresses the read places a block at each string's address holding that string's strlen + 1, and no block anywhere else. |
| VlstrAlloc.StringBlocksBeside | test/tvlstr.c:172-183 | After the read every earlier block is still there with its size, each string's block has its own size, and there is no other block. |
| VlstrAlloc.Manager.Reclaim | test/tvlstr.c:200-204 | Freeing every pointer the read handed out leaves exactly the old blocks minus `FreedBases`, the pointers stepped back over the header. Each surviving block keeps its size. |
| VlstrAlloc.FreedBasesHold | test/tvlstr.c:87-104 | The block behind every freed pointer is among the released bases. |
| VlstrAlloc.FreedBasesOnly | test/tvlstr.c:87-104 | Every released base is a freed pointer stepped back over the header, so no other block is released. |
| VlstrAlloc.Manager.ReclaimRead | test/tvlstr.c:200-204 | Reclaiming after a read into an empty manager leaves no block and the counter back at its start value. |
| VlstrAlloc.ReadAndReclaim | test/tvlstr.c:172-204 | Starting from 0, the counter equals the string bytes after the read and returns to 0 after the reclaim. |

## Left out

- MPI itself is not modelled: a failed reduction or broadcast, the communicator and rank queries, and MPI datatype construction. Their results are inputs, and a mismatch in which ranks reach a collective is reported as a blocked group.
- The flag word of the eligibility decision is modelled by its decoded fields, because the bit values are defined outside the files modelled.
- `H5D_mpio_spaces_span_xfer` and its read and write wrappers are not modelled: the source marks them as not to be called.
- The block read and write, the chunk-address lookup and the property-list setup and teardown in the transfer routine are inputs: those calls are outside the model.
- MpioTransfer.SpacesXfer: the trace records a setup only when it succeeded. A setup that is called and fails appears only as the failure status.
- MpioEligibility.CountChunks: the per-dimension factor is truncated to 32 bits and the product wraps as the source's `int` would. Only while the true product is below 2^31 is it proved to equal the exact chunk count.
- Property lists: interface initialisation, identifier registration, the deep copy of a list, fill-value conversion, MPI communicator storage, the floating-point knobs and the function pointers of the variable-length memory manager are left out. They are outside the validate-then-write logic.
- Plist.DatasetCreatePlist.SetExternal: whether `realloc` succeeds is a parameter. The name's heap offset is always 0, as the setter stores it. `size_t` is taken to be 64 bits wide, so a size must be below 2^64. Names are C strings and so are required to hold no NUL character.
- Plist.DatasetCreatePlist.SetDeflate: whether the pipeline append succeeds is a parameter, since the filter module is outside the model.
- Plist.DatasetCreatePlist.GetFilter: the filter's name output and the filter-table lookup are not modelled.
- The growth step of 16 slots, the layout values and the transfer-mode values (independent 0, collective 1, default 2) are written into the model as constants, since the header defining them is not part of this model.
- SdsSlabs.NumSlabsPerDim: requires a rank of at least one and a non-negative slab budget. With rank 0 the quotient never shrinks. A negative budget never reaches the search: the unsigned comparison before it turns that budget into a huge value and picks the whole-array read.
- SdsSlabs.PlanSdsTransfer: a negative budget always selects the whole-array read. The source's `size_t` comparison would not do so for a byte count within 2^31 of 2^64, and that case is not modelled.
- SdsSlabs.SlabLoop: a pass whose byte count is 0 calls `malloc(0)`, whose result is implementation-defined. The model lets that pass through, and what `SDreaddata` and `H5Dwrite` then do is not modelled.
- SdsSlabs: 32-bit overflow of `int32` products, the HDF4/HDF5 calls that read and write each slab, and the `parafile` read that supplies the budget and memory option are not modelled.
- The atomic-type mapping writes the HDF4 type before the native lookup, as the source does, so that type is reported even when the lookup fails.
- H5ToH4.PackCompound: a compound with more members than the fixed arrays hold is not modelled. The HDF4 calls that follow the loop are left out. The order is an `int32` and the offset an `off_t` in the source; both are unbounded integers here, so their overflow is not modelled.
- H5ToH4: the compiled-out conversion routines (the `NEWWAY` branch not taken) are not modelled.
- DiffArgs: `get_option` is outside the model. Options arrive already split into letter and argument, and the value `atof` gives for an argument is a parameter, since floating-point parsing is not modelled. That value is a `real`, so the NaN and infinities that texts like "nan" or "inf" give are not represented.
- DiffArgs: printing the usage and version, and the exit call, are modelled only by the exit code they produce.
- DiffArgs.CountOption: `long` is taken to be 64 bits wide. C leaves the result of `atol` undefined when the number does not fit; the model holds it at LONG_MAX, as glibc's `strtol` does. The declared width of the `count` field is in a header that is not part of this model.
- Mdset: the dataset creation, write and read through the library are left out. The test's buffers are the inputs of the checker.
- VlstrAlloc.Manager: the counter is an unbounded integer. The C `int` overflow and the alignment behind the header size are not modelled, and the header size is a parameter.
- VlstrAlloc.Manager.Free: the pointer NULL + extra that a failed allocation hands out is excluded. The source would step back from it and read a header at NULL.
- VlstrAlloc.Manager.ReadStrings: how the library decides to allocate strlen + 1 bytes per string is outside the model. The method performs those allocations, as the test expects.

## Findings

| source | as written | input that shows it | evidently intended | confidence | as-written member | corrected member |
|---|---|---|---|---|---|---|
| tools/h4toh5/h4toh5sds.c:590-607 | The stop is clamped to the dimension size, but the origin is not, so a slab can start past the end. Its edge and byte count are then negative, `malloc` of that count fails, and the conversion returns FAIL although the array was already read in full. | One dimension of 5 elements of 4 bytes and a slab budget of 5 give 4 slabs of length 2. The fourth starts at 6 with edge -1 and -4 bytes, and the conversion fails at that pass. | Skip slabs with nothing to read, so that every slab read lies inside the array and the slabs read still cover it. | high (not executed) | SdsSlabs.SlabLoop, SdsSlabs.NegativeEdgeExample | SdsSlabs.CorrectedSlabLoop, SdsSlabs.KeptSlabsInside, SdsSlabs.Coverage |
| tools/h5toh4/h5toh4.c:818-823 | The guard lets array members of rank up to 32 through, but `H5Tget_array_dims` writes their dimensions and permutation into `dimf[4]` and `permf[4]`. | A compound member that is a 5-dimensional array: the guard passes it and the fifth entries are written past both arrays. | Reject array members of rank above 4, the entries the arrays hold, before reading the dimensions. | high (not executed) | H5ToH4.RankGuardAdmitsOverflow | H5ToH4.CheckMember, H5ToH4.PackCompound, H5ToH4.MembersDoNotOverlap |
| testpar/t_mdset.c:504-511 | The loop never advances `indata` or `outdata`, so it compares one element over and over. | Rank 0 of 1, with buffers equal at element 0 and different at element 1: no error is reported. | Compare element (i, j) on each pass and count every differing element of the rank's rows. | high (not executed) | Mdset.CheckValueAsWritten, Mdset.CheckValueMissesMismatch | Mdset.CheckValue, Mdset.CheckValueDetectsAll |
| testpar/t_mdset.c:183-185 | The even-rank loop runs while `m == 0` from `m = ngroups-1`, so even ranks read nothing unless there is exactly one group. | ngroups = 3: even ranks read no group. | Loop while `m >= 0`, reading ngroups-1, ngroups-3, ... | high (not executed) | Mdset.EvenRankGroupsAsWritten, Mdset.EvenRanksReadNothing | Mdset.EvenRankGroups, Mdset.ReadsSplitGroups |

The comment at testpar/t_mdset.c:180-182 says odd ranks read from the end
and even ranks from the beginning. The code does the reverse, and the
model follows the code.
