/** Property lists: the setters and getters of file-creation, file-access,
    dataset-creation and dataset-transfer lists.  Every setter validates its
    arguments before it writes anything, so a rejected call leaves the list
    as it was; every getter hands back what the matching setter stored.

    Each kind of list is a class whose fields are the members of the C
    struct.  The class check every entry point makes on its identifier ("not
    a file creation property list") is carried by the Dafny class of the
    receiver. */
module Plist {
  import opened Common

  /** The error classes the entry points report. */
  datatype ErrKind = BadType | BadValue | BadRange | Overflow | NoSpace | CantInit
  datatype Herr = Succeed | Fail(err: ErrKind)

  /** 2^k. */
  function Pow2(k: nat): (p: nat)
    ensures p >= 1
  {
    if k == 0 then 1 else 2 * Pow2(k - 1)
  }

  /** From 2^9 on, every power of two is a multiple of 512. */
  lemma {:induction false} Pow2Multiple512(k: nat)
    requires k >= 9
    ensures Pow2(k) >= 512 && Pow2(k) % 512 == 0
    decreases k
  {
    if k == 9 {
      assert Pow2(3) == 8;
      assert Pow2(6) == 8 * Pow2(3);
      assert Pow2(9) == 8 * Pow2(6);
    } else {
      Pow2Multiple512(k - 1);
      var q := Pow2(k - 1) / 512;
      assert Pow2(k - 1) == 512 * q;
      assert Pow2(k) == 512 * (2 * q);
    }
  }

  /** Bits in an `hsize_t`. */
  const HsizeBits: nat := 64

  /** The loop candidate at position i: 0 stands in for i = 8, otherwise 2^i. */
  function UserblockCandidate(i: nat): nat
  {
    if i == 8 then 0 else Pow2(i)
  }

  /** A user block is either absent or a power of two of at least 512 bytes
      that an `hsize_t` can hold. */
  predicate ValidUserblock(size: nat)
  {
    size == 0 || exists k :: 9 <= k < HsizeBits && size == Pow2(k)
  }

  /** The smallest non-empty user block is 512 bytes, and every valid size
      is a multiple of 512. */
  lemma UserblockMinimum(size: nat)
    requires ValidUserblock(size) && size != 0
    ensures size >= 512 && size % 512 == 0
  {
    var k :| 9 <= k < HsizeBits && size == Pow2(k);
    Pow2Multiple512(k);
  }

  /** The two width codes of a file-creation list: each is 2, 4, 8 or 16. */
  predicate ValidSizeCode(s: nat)
  {
    s == 2 || s == 4 || s == 8 || s == 16
  }

  // -----------------------------------------------------------------------
  // File-creation lists
  // -----------------------------------------------------------------------

  class FileCreatePlist {
    var userblockSize: nat
    var sizeofAddr: nat
    var sizeofSize: nat
    var symIk: int      // B-tree rank for symbol-table nodes
    var symLeafK: int   // symbol-table leaf rank
    var istoreIk: int   // B-tree rank for chunked-storage indices

    ghost predicate Valid()
      reads this
    {
      && ValidUserblock(userblockSize)
      && ValidSizeCode(sizeofAddr) && ValidSizeCode(sizeofSize)
      && symIk > 0 && symLeafK > 0 && istoreIk > 0
    }

    constructor (userblock: nat, addr: nat, size: nat, ik: int, lk: int, istore: int)
      requires ValidUserblock(userblock) && ValidSizeCode(addr) && ValidSizeCode(size)
      requires ik > 0 && lk > 0 && istore > 0
      ensures Valid()
      ensures userblockSize == userblock && sizeofAddr == addr && sizeofSize == size
      ensures symIk == ik && symLeafK == lk && istoreIk == istore
    {
      userblockSize, sizeofAddr, sizeofSize := userblock, addr, size;
      symIk, symLeafK, istoreIk := ik, lk, istore;
    }

    function GetUserblock(): (size: nat)
      reads this
      requires Valid()
      ensures ValidUserblock(size)
    {
      userblockSize
    }

    /** Searches the candidates 0, 2^9, ..., 2^63 for the requested size. */
    method SetUserblock(size: nat) returns (r: Herr)
      requires Valid()
      modifies this
      ensures Valid()
      ensures r == Succeed <==> ValidUserblock(size)
      ensures r == Succeed ==> GetUserblock() == size
      ensures r != Succeed ==> r == Fail(BadValue) && userblockSize == old(userblockSize)
      ensures sizeofAddr == old(sizeofAddr) && sizeofSize == old(sizeofSize)
      ensures symIk == old(symIk) && symLeafK == old(symLeafK) && istoreIk == old(istoreIk)
    {
      var i := 8;
      while i < HsizeBits
        invariant 8 <= i <= HsizeBits
        invariant forall k :: 8 <= k < i ==> size != UserblockCandidate(k)
      {
        if size == UserblockCandidate(i) {
          break;
        }
        i := i + 1;
      }
      if i >= HsizeBits {
        assert size != UserblockCandidate(8);
        assert forall k :: 9 <= k < HsizeBits ==> size != Pow2(k) by {
          forall k | 9 <= k < HsizeBits ensures size != Pow2(k) {
            assert UserblockCandidate(k) == Pow2(k);
          }
        }
        return Fail(BadValue);
      }
      assert ValidUserblock(size) by {
        if i != 8 {
          assert size == Pow2(i);
        }
      }
      userblockSize := size;
      r := Succeed;
    }

    function GetSizes(): (sizes: (nat, nat))
      reads this
      requires Valid()
      ensures ValidSizeCode(sizes.0) && ValidSizeCode(sizes.1)
    {
      (sizeofAddr, sizeofSize)
    }

    /** Zero keeps a width; both arguments are checked before either is
        written. */
    method SetSizes(addr: nat, size: nat) returns (r: Herr)
      requires Valid()
      modifies this
      ensures Valid()
      ensures r == Succeed <==> (addr == 0 || ValidSizeCode(addr)) && (size == 0 || ValidSizeCode(size))
      ensures r != Succeed ==> r == Fail(BadValue)
      ensures r == Succeed ==> GetSizes() == (if addr == 0 then old(sizeofAddr) else addr,
                                              if size == 0 then old(sizeofSize) else size)
      ensures r != Succeed ==> sizeofAddr == old(sizeofAddr) && sizeofSize == old(sizeofSize)
      ensures userblockSize == old(userblockSize)
      ensures symIk == old(symIk) && symLeafK == old(symLeafK) && istoreIk == old(istoreIk)
    {
      if addr != 0 && !ValidSizeCode(addr) {
        return Fail(BadValue);
      }
      if size != 0 && !ValidSizeCode(size) {
        return Fail(BadValue);
      }
      if addr != 0 {
        sizeofAddr := addr;
      }
      if size != 0 {
        sizeofSize := size;
      }
      r := Succeed;
    }

    function GetSymK(): (ks: (int, int))
      reads this
      requires Valid()
      ensures ks.0 > 0 && ks.1 > 0
    {
      (symIk, symLeafK)
    }

    /** A rank that is not positive leaves the stored rank alone; the call
        always succeeds. */
    method SetSymK(ik: int, lk: int)
      requires Valid()
      modifies this
      ensures Valid()
      ensures GetSymK() == (if ik > 0 then ik else old(symIk), if lk > 0 then lk else old(symLeafK))
      ensures userblockSize == old(userblockSize) && istoreIk == old(istoreIk)
      ensures sizeofAddr == old(sizeofAddr) && sizeofSize == old(sizeofSize)
    {
      if ik > 0 {
        symIk := ik;
      }
      if lk > 0 {
        symLeafK := lk;
      }
    }

    function GetIstoreK(): (ik: int)
      reads this
      requires Valid()
      ensures ik > 0
    {
      istoreIk
    }

    method SetIstoreK(ik: int) returns (r: Herr)
      requires Valid()
      modifies this
      ensures Valid()
      ensures r == Succeed <==> ik > 0
      ensures r != Succeed ==> r == Fail(BadValue)
      ensures GetIstoreK() == (if ik > 0 then ik else old(istoreIk))
      ensures userblockSize == old(userblockSize) && symIk == old(symIk) && symLeafK == old(symLeafK)
      ensures sizeofAddr == old(sizeofAddr) && sizeofSize == old(sizeofSize)
    {
      if ik <= 0 {
        return Fail(BadValue);
      }
      istoreIk := ik;
      r := Succeed;
    }
  }

  // -----------------------------------------------------------------------
  // File-access lists
  // -----------------------------------------------------------------------

  /** The low-level file driver a file-access list selects. */
  datatype Driver = SecTwo | Family | OtherDriver

  /** What the family driver keeps for its members: nothing yet, or a copy
      of the library's default file-access list. */
  datatype MemberAccess = NoMemberAccess | DefaultAccessCopy

  const MinFamilyMember: nat := 1024

  class FileAccessPlist {
    var threshold: nat
    var alignment: nat
    var driver: Driver
    var famMembSize: nat
    var famMembAccess: MemberAccess
    var gcRef: nat

    ghost predicate Valid()
      reads this
    {
      alignment >= 1 && gcRef <= 1
    }

    constructor (thresh: nat, align: nat, drv: Driver, gc: nat)
      requires align >= 1 && gc <= 1
      ensures Valid()
      ensures threshold == thresh && alignment == align && driver == drv && gcRef == gc
      ensures famMembSize == 0 && famMembAccess == NoMemberAccess
    {
      threshold, alignment, driver, gcRef := thresh, align, drv, gc;
      famMembSize, famMembAccess := 0, NoMemberAccess;
    }

    function GetAlignment(): (ta: (nat, nat))
      reads this
      requires Valid()
      ensures ta.1 >= 1
    {
      (threshold, alignment)
    }

    method SetAlignment(thresh: nat, align: nat) returns (r: Herr)
      requires Valid()
      modifies this
      ensures Valid()
      ensures r == Succeed <==> align >= 1
      ensures r != Succeed ==> r == Fail(BadValue)
      ensures GetAlignment() == (if align >= 1 then (thresh, align) else (old(threshold), old(alignment)))
      ensures driver == old(driver) && famMembSize == old(famMembSize)
      ensures famMembAccess == old(famMembAccess) && gcRef == old(gcRef)
    {
      if align < 1 {
        return Fail(BadValue);
      }
      threshold := thresh;
      alignment := align;
      r := Succeed;
    }

    function GetGcReferences(): (gc: nat)
      reads this
      requires Valid()
      ensures gc <= 1
    {
      gcRef
    }

    /** Stores the flag normalised to 0 or 1. */
    method SetGcReferences(gc: nat)
      requires Valid()
      modifies this
      ensures Valid()
      ensures GetGcReferences() == 1 <==> gc != 0
      ensures threshold == old(threshold) && alignment == old(alignment) && driver == old(driver)
      ensures famMembSize == old(famMembSize) && famMembAccess == old(famMembAccess)
    {
      gcRef := if gc != 0 then 1 else 0;
    }

    /** The family settings: the member size and the member list. */
    function GetFamily(): (r: Option<(nat, MemberAccess)>)
      reads this
      ensures r.Some? <==> driver == Family
      ensures r.Some? ==> r.value == (famMembSize, famMembAccess)
    {
      if driver != Family then None else Some((famMembSize, famMembAccess))
    }
  }

  /** The member-list argument of the family setter. */
  datatype MemberArg =
    | DefaultMember                         // the default-list identifier
    | MemberList(fapl: FileAccessPlist)     // a file-access list
    | NotFileAccess                         // any other identifier

  function MemberObjects(m: MemberArg): set<object>
  {
    if m.MemberList? then {m.fapl} else {}
  }

  /** Selects the family driver.  The member-size check comes first; then a
      non-default member argument must name a file-access list, and when it
      does the driver settings are written into THAT list, not into
      `plist`: the identifier check reuses the variable that held `plist`.
      The stored member list is always a copy of the library default. */
  method SetFamily(plist: FileAccessPlist, membSize: nat, member: MemberArg) returns (r: Herr)
    requires plist.Valid()
    requires member.MemberList? ==> member.fapl.Valid()
    modifies plist, MemberObjects(member)
    ensures plist.Valid()
    ensures member.MemberList? ==> member.fapl.Valid()
    ensures r == Succeed <==> (membSize == 0 || membSize >= MinFamilyMember) && !member.NotFileAccess?
    ensures membSize != 0 && membSize < MinFamilyMember ==> r == Fail(BadRange)
    ensures (membSize == 0 || membSize >= MinFamilyMember) && member.NotFileAccess? ==> r == Fail(BadType)
    ensures r != Succeed ==> unchanged(plist) && unchanged(MemberObjects(member))
    ensures r == Succeed ==>
              var target := if member.MemberList? then member.fapl else plist;
              target.GetFamily() == Some((membSize, DefaultAccessCopy))
    ensures r == Succeed && member.MemberList? && member.fapl != plist ==> unchanged(plist)
  {
    if membSize != 0 && membSize < MinFamilyMember {
      return Fail(BadRange);
    }
    var target := plist;
    if !member.DefaultMember? {
      if member.NotFileAccess? {
        return Fail(BadType);
      }
      target := member.fapl;
    }
    target.driver := Family;
    target.famMembSize := membSize;
    target.famMembAccess := DefaultAccessCopy;
    r := Succeed;
  }

  /** The family quirk: naming a separate member list leaves the list being
      configured without the family driver. */
  method FamilyQuirkWitness() returns (plist: FileAccessPlist, member: FileAccessPlist)
    ensures plist.driver == SecTwo && member.driver == Family
  {
    plist := new FileAccessPlist(0, 1, SecTwo, 0);
    member := new FileAccessPlist(0, 1, SecTwo, 0);
    var r := SetFamily(plist, 0, MemberList(member));
    assert member.GetFamily().Some?;
  }

  // -----------------------------------------------------------------------
  // Dataset-transfer lists
  // -----------------------------------------------------------------------

  /** The transfer modes: independent, collective, and the default. */
  const XferIndependent: int := 0
  const XferCollective: int := 1
  const XferDefault: int := 2

  predicate ValidXferMode(m: int)
  {
    m == XferIndependent || m == XferCollective || m == XferDefault
  }

  class XferPlist {
    var xferMode: int
    var cacheHyper: nat
    var blockLimit: nat

    ghost predicate Valid()
      reads this
    {
      ValidXferMode(xferMode) && cacheHyper <= 1
    }

    constructor (mode: int, cache: nat, limit: nat)
      requires ValidXferMode(mode) && cache <= 1
      ensures Valid() && xferMode == mode && cacheHyper == cache && blockLimit == limit
    {
      xferMode, cacheHyper, blockLimit := mode, cache, limit;
    }

    function GetXfer(): (m: int)
      reads this
      requires Valid()
      ensures ValidXferMode(m)
    {
      xferMode
    }

    method SetXfer(mode: int) returns (r: Herr)
      requires Valid()
      modifies this
      ensures Valid()
      ensures r == Succeed <==> ValidXferMode(mode)
      ensures r != Succeed ==> r == Fail(BadValue)
      ensures GetXfer() == (if ValidXferMode(mode) then mode else old(xferMode))
      ensures cacheHyper == old(cacheHyper) && blockLimit == old(blockLimit)
    {
      if mode == XferIndependent || mode == XferCollective || mode == XferDefault {
        xferMode := mode;
        r := Succeed;
      } else {
        r := Fail(BadValue);
      }
    }

    function GetHyperCache(): (cl: (nat, nat))
      reads this
      requires Valid()
      ensures cl.0 <= 1
    {
      (cacheHyper, blockLimit)
    }

    /** Stores the cache flag normalised to 0 or 1 and the limit as given. */
    method SetHyperCache(cache: nat, limit: nat)
      requires Valid()
      modifies this
      ensures Valid()
      ensures GetHyperCache().0 == 1 <==> cache > 0
      ensures GetHyperCache().1 == limit
      ensures xferMode == old(xferMode)
    {
      cacheHyper := if cache > 0 then 1 else 0;
      blockLimit := limit;
    }
  }

  // -----------------------------------------------------------------------
  // Dataset-creation lists: layout, chunk shape, external files, filters
  // -----------------------------------------------------------------------

  /** Storage layouts; valid values lie in [0, NLayouts). */
  const LayoutCompact: int := 0
  const LayoutContiguous: int := 1
  const LayoutChunked: int := 2
  const NLayouts: int := 3

  /** Largest dataspace rank, and the length of the chunk-shape array (one
      more, for the element size dimension). */
  const MaxRank: int := 32
  const LayoutNdims: nat := 33

  /** The largest external file size an `hsize_t` can describe; it means
      "unlimited". */
  const EflUnlimited: nat := U64 - 1
  /** Slots by which the external-file array grows when full. */
  const EflAlloc: nat := 16

  /** One external file: its heap offset (0 until the name is written to a
      heap), its name, the byte offset of the data in it and its size. */
  datatype EflEntry = EflEntry(nameOffset: nat, name: seq<char>, offset: int, size: nat)

  /** One stage of the filter pipeline. */
  datatype Filter = Filter(id: int, flags: nat, cdValues: seq<nat>)

  const FilterDeflate: int := 1
  const FlagOptional: nat := 1
  /** The identifier a failed filter query returns. */
  const FilterError: int := -1
  /** Largest client-data count the filter query trusts as initialised. */
  const MaxCdNelmts: nat := 256

  /** Sum of the sizes of a run of external files. */
  function SumSizes(slots: seq<EflEntry>): nat
  {
    if |slots| == 0 then 0 else SumSizes(slots[..|slots| - 1]) + slots[|slots| - 1].size
  }

  lemma SumSizesAppend(slots: seq<EflEntry>, e: EflEntry)
    ensures SumSizes(slots + [e]) == SumSizes(slots) + e.size
  {
    assert (slots + [e])[..|slots|] == slots;
  }

  /** The sizes of the external files before the last one, and the last one
      unless it is unlimited, add up to a representable total. */
  predicate EflSizesFit(slots: seq<EflEntry>)
  {
    if |slots| > 0 && slots[|slots| - 1].size == EflUnlimited
    then SumSizes(slots[..|slots| - 1]) < U64
    else SumSizes(slots) < U64
  }

  /** The characters of a C string, which stop at the first NUL. */
  predicate NulFree(s: seq<char>)
  {
    forall i :: 0 <= i < |s| ==> s[i] != 0 as char
  }

  /** Every entry has a name, a non-negative offset and a positive size that
      fits an `hsize_t`; only the last entry may be unlimited. */
  predicate EflEntriesValid(slots: seq<EflEntry>)
  {
    && (forall i :: 0 <= i < |slots| ==>
          && |slots[i].name| > 0 && NulFree(slots[i].name)
          && slots[i].offset >= 0 && 0 < slots[i].size < U64)
    && (forall i :: 0 <= i < |slots| - 1 ==> slots[i].size != EflUnlimited)
    && EflSizesFit(slots)
  }

  /** The test the setter applies before appending a limited file. */
  predicate FitsTotal(size: nat, slots: seq<EflEntry>)
  {
    size + SumSizes(slots) < U64
  }

  /** What the external-file setter accepts: a name, a non-negative offset,
      a positive size, no unlimited file before it, and (for a limited file)
      a representable total. */
  predicate AcceptsExternal(slots: seq<EflEntry>, name: Option<seq<char>>, offset: int, size: nat)
  {
    && name.Some? && |name.value| > 0
    && offset >= 0 && size > 0
    && (|slots| == 0 || slots[|slots| - 1].size != EflUnlimited)
    && (size != EflUnlimited ==> FitsTotal(size, slots))
  }

  /** `strncpy` into a buffer of n characters: the prefix of the source,
      padded with NULs when the source is shorter. */
  function Strncpy(src: seq<char>, n: nat): (dst: seq<char>)
    ensures |dst| == n
    ensures forall i :: 0 <= i < n && i < |src| ==> dst[i] == src[i]
    ensures forall i :: |src| <= i < n ==> dst[i] == 0 as char
  {
    if n <= |src| then src[..n] else src + seq(n - |src|, _ => 0 as char)
  }

  /** What the external-file query reports for one slot. */
  datatype ExternalInfo = ExternalInfo(name: seq<char>, offset: int, size: nat)

  /** The unsigned wrap test of the overflow loop: for a positive addend
      below 2^64, the wrapped sum is not above the running total exactly
      when the true sum does not fit. */
  lemma WrapTest(total: nat, s: nat)
    requires total < U64 && 0 < s < U64
    ensures ((total + s) % U64 <= total) <==> total + s >= U64
    ensures total + s < U64 ==> (total + s) % U64 == total + s
  {
    if total + s >= U64 {
      assert (total + s) % U64 == total + s - U64;
    }
  }

  lemma {:induction false} SumSizesPrefix(slots: seq<EflEntry>, k: nat)
    requires k <= |slots|
    ensures SumSizes(slots[..k]) <= SumSizes(slots)
    decreases |slots|
  {
    if k < |slots| {
      var init := slots[..|slots| - 1];
      assert init[..k] == slots[..k];
      SumSizesPrefix(init, k);
    } else {
      assert slots[..k] == slots;
    }
  }

  /** One step of the overflow loop: a wrapped sum that does not exceed
      the running total means the sizes do not fit; otherwise the sum is
      the running total of one more file. */
  lemma OverflowStep(size: nat, slots: seq<EflEntry>, idx: nat, total: nat)
    requires idx < |slots| && 0 < slots[idx].size < U64
    requires total == size + SumSizes(slots[..idx]) && total < U64
    ensures (total + slots[idx].size) % U64 <= total ==> !FitsTotal(size, slots)
    ensures (total + slots[idx].size) % U64 > total ==>
              (total + slots[idx].size) % U64 == size + SumSizes(slots[..idx + 1]) < U64
  {
    WrapTest(total, slots[idx].size);
    assert slots[..idx + 1] == slots[..idx] + [slots[idx]];
    SumSizesAppend(slots[..idx], slots[idx]);
    SumSizesPrefix(slots, idx + 1);
  }

  /** Appending an accepted file keeps the list well formed. */
  lemma AppendKeepsValid(slots: seq<EflEntry>, e: EflEntry)
    requires EflEntriesValid(slots)
    requires AcceptsExternal(slots, Some(e.name), e.offset, e.size) && e.size < U64
    requires NulFree(e.name)
    ensures EflEntriesValid(slots + [e])
  {
    var t := slots + [e];
    SumSizesAppend(slots, e);
    assert t[..|slots|] == slots;
  }

  class DatasetCreatePlist {
    var layout: int
    var chunkNdims: int
    var chunkSize: array<nat>
    var pline: seq<Filter>
    var eflSlots: array<EflEntry>   // nalloc is the length of this array
    var eflUsed: nat

    ghost predicate Valid()
      reads this, eflSlots
    {
      && 0 <= layout < NLayouts
      && 1 <= chunkNdims <= MaxRank
      && chunkSize.Length == LayoutNdims
      && (forall i :: 0 <= i < |pline| ==> pline[i].id >= 0)
      && eflUsed <= eflSlots.Length
      && EflEntriesValid(eflSlots[..eflUsed])
    }

    /** A fresh list: contiguous layout, a one-dimensional chunk shape of
        size 1, no filters and no external files. */
    constructor ()
      ensures Valid()
      ensures layout == LayoutContiguous && chunkNdims == 1 && pline == []
      ensures eflUsed == 0 && eflSlots.Length == 0
      ensures fresh(chunkSize) && fresh(eflSlots)
    {
      layout := LayoutContiguous;
      chunkNdims := 1;
      chunkSize := new nat[LayoutNdims](_ => 1);
      pline := [];
      eflSlots := new EflEntry[0];
      eflUsed := 0;
    }

    function GetLayout(): (l: int)
      reads this, eflSlots
      requires Valid()
      ensures 0 <= l < NLayouts
    {
      layout
    }

    method SetLayout(l: int) returns (r: Herr)
      requires Valid()
      modifies this
      ensures Valid()
      ensures r == Succeed <==> 0 <= l < NLayouts
      ensures r != Succeed ==> r == Fail(BadRange)
      ensures GetLayout() == (if 0 <= l < NLayouts then l else old(layout))
      ensures chunkNdims == old(chunkNdims) && chunkSize == old(chunkSize) && pline == old(pline)
      ensures eflSlots == old(eflSlots) && eflUsed == old(eflUsed)
    {
      if l < 0 || l >= NLayouts {
        return Fail(BadRange);
      }
      layout := l;
      r := Succeed;
    }

    /** The stored chunk shape. */
    function ChunkShape(): (dims: seq<nat>)
      reads this, chunkSize, eflSlots
      requires Valid()
      ensures |dims| == chunkNdims
    {
      chunkSize[..chunkNdims]
    }

    /** Rejects a rank outside [1, MaxRank], a missing shape and any zero
        extent before writing; then records the chunked layout and the
        shape. */
    method SetChunk(ndims: int, dim: Option<seq<nat>>) returns (r: Herr)
      requires Valid()
      requires dim.Some? && 0 < ndims <= MaxRank ==> ndims <= |dim.value|
      modifies this, chunkSize
      ensures Valid()
      ensures r == Succeed <==>
                0 < ndims <= MaxRank && dim.Some? && forall i :: 0 <= i < ndims ==> dim.value[i] > 0
      ensures (ndims <= 0 || ndims > MaxRank) ==> r == Fail(BadRange)
      ensures 0 < ndims <= MaxRank && dim.None? ==> r == Fail(BadValue)
      ensures 0 < ndims <= MaxRank && dim.Some? && r != Succeed ==> r == Fail(BadRange)
      ensures r == Succeed ==> layout == LayoutChunked && ChunkShape() == dim.value[..ndims]
      ensures r != Succeed ==> layout == old(layout) && chunkNdims == old(chunkNdims)
                               && chunkSize[..] == old(chunkSize[..])
      ensures chunkSize == old(chunkSize) && pline == old(pline)
      ensures eflSlots == old(eflSlots) && eflUsed == old(eflUsed)
    {
      if ndims <= 0 {
        return Fail(BadRange);
      }
      if ndims > MaxRank {
        return Fail(BadRange);
      }
      if dim.None? {
        return Fail(BadValue);
      }
      var d := dim.value;
      var i := 0;
      while i < ndims
        invariant 0 <= i <= ndims
        invariant forall j :: 0 <= j < i ==> d[j] > 0
        modifies {}
      {
        if d[i] <= 0 {
          return Fail(BadRange);
        }
        i := i + 1;
      }
      layout := LayoutChunked;
      chunkNdims := ndims;
      i := 0;
      while i < ndims
        invariant 0 <= i <= ndims
        invariant forall j :: 0 <= j < i ==> chunkSize[j] == d[j]
        modifies chunkSize
      {
        chunkSize[i] := d[i];
        i := i + 1;
      }
      r := Succeed;
    }

    /** Copies at most `maxNdims` extents of the chunk shape into `dim` and
        returns the stored rank; fails (-1) unless the layout is chunked. */
    method GetChunk(maxNdims: int, dim: array?<nat>) returns (n: int)
      requires Valid()
      requires dim != null ==> maxNdims <= dim.Length && dim != chunkSize
      modifies dim
      ensures n == (if layout == LayoutChunked then chunkNdims else -1)
      ensures dim != null && layout == LayoutChunked ==>
                forall i :: 0 <= i < dim.Length ==>
                  dim[i] == (if i < chunkNdims && i < maxNdims then chunkSize[i] else old(dim[i]))
      ensures dim != null && layout != LayoutChunked ==> dim[..] == old(dim[..])
    {
      if layout != LayoutChunked {
        return -1;
      }
      var i := 0;
      while dim != null && i < chunkNdims && i < maxNdims
        invariant 0 <= i <= chunkNdims
        invariant i == 0 || i <= maxNdims
        invariant dim != null ==> i <= dim.Length
        invariant dim != null ==> forall j :: 0 <= j < dim.Length ==>
                    dim[j] == (if j < i then chunkSize[j] else old(dim[j]))
      {
        dim[i] := chunkSize[i];
        i := i + 1;
      }
      n := chunkNdims;
    }

    /** The external files recorded so far. */
    function ExternalFiles(): (slots: seq<EflEntry>)
      reads this, eflSlots
      requires Valid()
      ensures |slots| == eflUsed
      ensures EflEntriesValid(slots)
    {
      eflSlots[..eflUsed]
    }

    function GetExternalCount(): (n: nat)
      reads this, eflSlots
      requires Valid()
      ensures n == |ExternalFiles()|
    {
      eflUsed
    }

    /** One external file: its name as `strncpy` leaves it in a buffer of
        `nameSize` characters, its offset and its size. */
    function GetExternal(idx: int, nameSize: nat): (r: Option<ExternalInfo>)
      reads this, eflSlots
      requires Valid()
      ensures r.Some? <==> 0 <= idx < |ExternalFiles()|
      ensures r.Some? ==> r.value.offset == ExternalFiles()[idx].offset
                          && r.value.size == ExternalFiles()[idx].size
                          && |r.value.name| == nameSize
      ensures r.Some? ==> forall i :: 0 <= i < nameSize ==>
                            r.value.name[i] == (if i < |ExternalFiles()[idx].name|
                                                then ExternalFiles()[idx].name[i] else 0 as char)
    {
      if idx < 0 || idx >= eflUsed then None
      else
        var e := eflSlots[idx];
        Some(ExternalInfo(Strncpy(e.name, nameSize), e.offset, e.size))
    }

    /** The overflow loop: starting from the new size, adds each recorded
        size with 64-bit wrap-around and stops at the first sum that does not
        exceed the running total. */
    method TotalFits(size: nat) returns (fits: bool)
      requires Valid()
      requires 0 < size < U64
      ensures fits <==> FitsTotal(size, ExternalFiles())
    {
      ghost var slots := ExternalFiles();
      var idx := 0;
      var total := size;
      while idx < eflUsed
        invariant 0 <= idx <= eflUsed
        invariant total == size + SumSizes(slots[..idx]) && total < U64
      {
        var s := eflSlots[idx].size;
        assert s == slots[idx].size;
        OverflowStep(size, slots, idx, total);
        var tmp := (total + s) % U64;
        if tmp <= total {
          return false;
        }
        total := tmp;
        idx := idx + 1;
      }
      assert slots[..eflUsed] == slots;
      fits := true;
    }

    /** The reallocation: a slot array EflAlloc slots longer that starts
        with the old slots. */
    method GrowSlots()
      requires Valid()
      modifies this
      ensures Valid()
      ensures fresh(eflSlots) && eflSlots.Length == old(eflSlots.Length) + EflAlloc
      ensures ExternalFiles() == old(ExternalFiles())
      ensures layout == old(layout) && chunkNdims == old(chunkNdims) && chunkSize == old(chunkSize)
      ensures pline == old(pline) && eflUsed == old(eflUsed)
    {
      var x := new EflEntry[eflSlots.Length + EflAlloc];
      var j := 0;
      while j < eflSlots.Length
        invariant 0 <= j <= eflSlots.Length
        invariant forall k :: 0 <= k < j ==> x[k] == eflSlots[k]
        modifies x
      {
        x[j] := eflSlots[j];
        j := j + 1;
      }
      assert x[..eflUsed] == eflSlots[..eflUsed];
      eflSlots := x;
    }

    /** Writes the next free slot and counts it. */
    method StoreSlot(e: EflEntry)
      requires Valid() && eflUsed < eflSlots.Length
      requires EflEntriesValid(ExternalFiles() + [e])
      modifies this, eflSlots
      ensures Valid()
      ensures ExternalFiles() == old(ExternalFiles()) + [e]
      ensures GetExternal(old(eflUsed), |e.name|) == Some(ExternalInfo(e.name, e.offset, e.size))
      ensures eflSlots == old(eflSlots) && eflUsed == old(eflUsed) + 1
      ensures layout == old(layout) && chunkNdims == old(chunkNdims) && chunkSize == old(chunkSize)
      ensures pline == old(pline)
    {
      ghost var slots := ExternalFiles();
      eflSlots[eflUsed] := e;
      eflUsed := eflUsed + 1;
      assert eflSlots[..eflUsed] == slots + [e];
      assert e.name[..|e.name|] == e.name;
    }

    /** Appends one external file.  A full slot array grows by EflAlloc
        slots; `reallocOk` is the outcome of that reallocation. */
    method SetExternal(name: Option<seq<char>>, offset: int, size: nat, reallocOk: bool) returns (r: Herr)
      requires Valid()
      requires size < U64 && (name.Some? ==> NulFree(name.value))
      modifies this, eflSlots
      ensures Valid()
      ensures var accepted := AcceptsExternal(old(ExternalFiles()), name, offset, size);
              r == Succeed <==> accepted && (old(eflUsed) < old(eflSlots.Length) || reallocOk)
      ensures r == Fail(Overflow) <==>
                && name.Some? && |name.value| > 0 && offset >= 0 && size > 0
                && (old(eflUsed) == 0 || old(ExternalFiles())[old(eflUsed) - 1].size != EflUnlimited)
                && size != EflUnlimited && !FitsTotal(size, old(ExternalFiles()))
      ensures r == Succeed ==> ExternalFiles() == old(ExternalFiles()) + [EflEntry(0, name.value, offset, size)]
      ensures r == Succeed ==> GetExternal(old(eflUsed), |name.value|) == Some(ExternalInfo(name.value, offset, size))
      ensures r != Succeed ==> ExternalFiles() == old(ExternalFiles())
      ensures eflSlots.Length == (if r == Succeed && old(eflUsed) >= old(eflSlots.Length)
                                  then old(eflSlots.Length) + EflAlloc else old(eflSlots.Length))
      ensures layout == old(layout) && chunkNdims == old(chunkNdims) && chunkSize == old(chunkSize)
      ensures pline == old(pline)
    {
      ghost var slots := ExternalFiles();
      var err := CheckExternal(name, offset, size);
      if err.Some? {
        return err.value;
      }
      if eflUsed >= eflSlots.Length {
        if !reallocOk {
          return Fail(NoSpace);
        }
        GrowSlots();
      }
      var e := EflEntry(0, name.value, offset, size);
      AppendKeepsValid(slots, e);
      StoreSlot(e);
      r := Succeed;
    }

    /** The argument checks of the external-file setter, in the source's
        order: a name, a non-negative offset, a positive size, no unlimited
        file already last, and a total that does not overflow. */
    method CheckExternal(name: Option<seq<char>>, offset: int, size: nat) returns (err: Option<Herr>)
      requires Valid()
      requires size < U64 && (name.Some? ==> NulFree(name.value))
      ensures err.None? <==> AcceptsExternal(ExternalFiles(), name, offset, size)
      ensures err.Some? ==> err.value.Fail?
      ensures err == Some(Fail(Overflow)) <==>
                && name.Some? && |name.value| > 0 && offset >= 0 && size > 0
                && (eflUsed == 0 || ExternalFiles()[eflUsed - 1].size != EflUnlimited)
                && size != EflUnlimited && !FitsTotal(size, ExternalFiles())
      ensures err.Some? && err != Some(Fail(Overflow)) ==> err == Some(Fail(BadValue))
    {
      if name.None? || |name.value| == 0 {
        return Some(Fail(BadValue));
      }
      if offset < 0 {
        return Some(Fail(BadValue));
      }
      if size <= 0 {
        return Some(Fail(BadValue));
      }
      if eflUsed > 0 && eflSlots[eflUsed - 1].size == EflUnlimited {
        return Some(Fail(BadValue));
      }
      if size != EflUnlimited {
        var fits := TotalFits(size);
        if !fits {
          return Some(Fail(Overflow));
        }
      }
      return None;
    }
  
    /** Adds the deflate filter, optional, with the level as its one client
        value.  The pipeline append itself is outside the model:
        `appendOk` is its outcome. */
    method SetDeflate(level: nat, appendOk: bool) returns (r: Herr)
      requires Valid()
      modifies this
      ensures Valid()
      ensures r == Succeed <==> level <= 9 && appendOk
      ensures level > 9 ==> r == Fail(BadValue)
      ensures level <= 9 && !appendOk ==> r == Fail(CantInit)
      ensures pline == (if r == Succeed then old(pline) + [Filter(FilterDeflate, FlagOptional, [level])]
                        else old(pline))
      ensures layout == old(layout) && chunkNdims == old(chunkNdims) && chunkSize == old(chunkSize)
      ensures eflSlots == old(eflSlots) && eflUsed == old(eflUsed)
    {
      if level > 9 {
        return Fail(BadValue);
      }
      if !appendOk {
        return Fail(CantInit);
      }
      pline := pline + [Filter(FilterDeflate, FlagOptional, [level])];
      r := Succeed;
    }

    /** Reports filter `idx`: its identifier (FilterError on failure), its
        flags and the stored client-data count, and copies at most the
        requested number of client values into `cdValues`.  A missing count
        makes the value buffer ignored. */
    method GetFilter(idx: int, cdNelmts: Option<nat>, cdValues: array?<nat>)
      returns (id: int, flags: nat, nelmtsOut: Option<nat>)
      requires Valid()
      requires cdValues != null && cdNelmts.Some? && cdNelmts.value <= MaxCdNelmts ==>
                 cdNelmts.value <= cdValues.Length
      modifies cdValues
      ensures id == FilterError <==>
                || idx < 0 || idx >= |pline|
                || (cdNelmts.Some? && cdNelmts.value > MaxCdNelmts)
                || (cdNelmts.Some? && cdNelmts.value > 0 && cdValues == null)
      ensures id != FilterError ==>
                && id == pline[idx].id && flags == pline[idx].flags
                && nelmtsOut == (if cdNelmts.Some? then Some(|pline[idx].cdValues|) else None)
      ensures id == FilterError ==> nelmtsOut == cdNelmts
      ensures cdValues != null && id != FilterError && cdNelmts.Some? ==>
                forall i :: 0 <= i < cdValues.Length ==>
                  cdValues[i] == (if i < |pline[idx].cdValues| && i < cdNelmts.value
                                  then pline[idx].cdValues[i] else old(cdValues[i]))
      ensures cdValues != null && (id == FilterError || cdNelmts.None?) ==> cdValues[..] == old(cdValues[..])
    {
      flags, nelmtsOut := 0, cdNelmts;
      if idx < 0 || idx >= |pline| {
        return FilterError, flags, nelmtsOut;
      }
      var values := cdValues;
      if cdNelmts.Some? || cdValues != null {
        if cdNelmts.Some? && cdNelmts.value > MaxCdNelmts {
          return FilterError, flags, nelmtsOut;
        }
        if cdNelmts.Some? && cdNelmts.value > 0 && cdValues == null {
          return FilterError, flags, nelmtsOut;
        }
        if cdNelmts.None? {
          values := null;
        }
      }
      var f := pline[idx];
      flags := f.flags;
      if values != null {
        var i := 0;
        while i < |f.cdValues| && i < cdNelmts.value
          invariant 0 <= i <= |f.cdValues| && i <= cdNelmts.value
          invariant forall j :: 0 <= j < values.Length ==>
                      values[j] == (if j < i then f.cdValues[j] else old(values[j]))
        {
          values[i] := f.cdValues[i];
          i := i + 1;
        }
      }
      if cdNelmts.Some? {
        nelmtsOut := Some(|f.cdValues|);
      }
      id := f.id;
    }
  }
}
