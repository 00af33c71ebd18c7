/** Pieces of the HDF5-to-HDF4 converter: the output file name, the mapping
    of an atomic HDF5 type to an HDF4 number type and a native memory type,
    and the packing of compound members into a vdata record. */
module H5ToH4 {
  import opened Common

  // -----------------------------------------------------------------------
  // BuildFilename
  // -----------------------------------------------------------------------

  /** strrchr: the position of the last occurrence of `c`, if any. */
  function LastIndexOf(s: seq<char>, c: char): (r: Option<nat>)
    ensures r.Some? ==> r.value < |s| && s[r.value] == c
    ensures r.Some? ==> forall i :: r.value < i < |s| ==> s[i] != c
    ensures r.None? ==> forall i :: 0 <= i < |s| ==> s[i] != c
  {
    if |s| == 0 then None
    else if s[|s| - 1] == c then Some(|s| - 1)
    else LastIndexOf(s[..|s| - 1], c)
  }

  /** The pointer comparison `lastper <= lastdir`, with a missing character
      as the null pointer, which compares below every position. */
  predicate NoExtension(lastPer: Option<nat>, lastDir: Option<nat>)
  {
    lastPer.None? || (lastDir.Some? && lastPer.value <= lastDir.value)
  }

  /** The length of the part of the name that is kept. */
  function RootLength(filename: seq<char>): (n: nat)
    ensures n <= |filename|
  {
    var per, dir := LastIndexOf(filename, '.'), LastIndexOf(filename, '/');
    if NoExtension(per, dir) then |filename| else per.value
  }

  /** The outgoing name: the root, a dot and the new extension, written into
      a buffer of root length + extension length + 2 characters and ended by
      a NUL. */
  method BuildFilename(filename: seq<char>, ext: seq<char>) returns (buf: array<char>, len: nat)
    ensures fresh(buf)
    ensures buf.Length == RootLength(filename) + |ext| + 2
    ensures len == RootLength(filename) + 1 + |ext| && len < buf.Length
    ensures buf[..len] == filename[..RootLength(filename)] + "." + ext
    ensures buf[len] == '\0'
  {
    var lastPer := LastIndexOf(filename, '.');
    var lastDir := LastIndexOf(filename, '/');
    var rootLen: nat;
    if NoExtension(lastPer, lastDir) {
      rootLen := |filename|;
    } else {
      rootLen := lastPer.value;
    }
    buf := new char[rootLen + |ext| + 2];
    var i := 0;
    while i < rootLen
      invariant 0 <= i <= rootLen
      invariant forall k :: 0 <= k < i ==> buf[k] == filename[k]
    {
      buf[i] := filename[i];
      i := i + 1;
    }
    buf[rootLen] := '.';
    var j := 0;
    while j < |ext|
      invariant 0 <= j <= |ext|
      invariant forall k :: 0 <= k < rootLen ==> buf[k] == filename[k]
      invariant buf[rootLen] == '.'
      invariant forall k :: 0 <= k < j ==> buf[rootLen + 1 + k] == ext[k]
    {
      buf[rootLen + 1 + j] := ext[j];
      j := j + 1;
    }
    len := rootLen + 1 + |ext|;
    buf[len] := '\0';
    ghost var name := filename[..rootLen] + "." + ext;
    assert forall k :: 0 <= k < len ==> buf[k] == name[k] by {
      forall k | 0 <= k < len
        ensures buf[k] == name[k]
      {
        if k > rootLen {
          assert buf[rootLen + 1 + (k - rootLen - 1)] == ext[k - rootLen - 1];
        }
      }
    }
    assert buf[..len] == name;
  }

  /** The name that BuildFilename produces, as a value. */
  function OutputName(filename: seq<char>, ext: seq<char>): seq<char>
  {
    filename[..RootLength(filename)] + "." + ext
  }

  /** A name with no '.' after its last '/' keeps every character and gets
      the extension appended. */
  lemma NoDotKeepsWholeName(filename: seq<char>, ext: seq<char>)
    requires forall i :: 0 <= i < |filename| && filename[i] == '.' ==>
               exists j :: i < j < |filename| && filename[j] == '/'
    ensures OutputName(filename, ext) == filename + "." + ext
  {
    var per, dir := LastIndexOf(filename, '.'), LastIndexOf(filename, '/');
    if per.Some? {
      var j :| per.value < j < |filename| && filename[j] == '/';
      assert dir.Some? && dir.value >= j;
    }
    assert filename[..|filename|] == filename;
  }

  /** A name with a '.' after its last '/' loses the text from that '.'. */
  lemma ExtensionReplaced(filename: seq<char>, ext: seq<char>, k: nat)
    requires k < |filename| && filename[k] == '.'
    requires forall i :: k < i < |filename| ==> filename[i] != '.' && filename[i] != '/'
    ensures OutputName(filename, ext) == filename[..k] + "." + ext
  {
    var per, dir := LastIndexOf(filename, '.'), LastIndexOf(filename, '/');
    assert per == Some(k);
  }

  /** The directory part's dot is not an extension. */
  lemma DirectoryDotExample()
    ensures OutputName("a.b/c", "hdf") == "a.b/c.hdf"
  {
    var name := "a.b/c";
    forall i | 0 <= i < |name| && name[i] == '.'
      ensures exists j :: i < j < |name| && name[j] == '/'
    {
      assert name[3] == '/';
    }
    NoDotKeepsWholeName(name, "hdf");
  }

  /** Rebuilding with the same extension changes nothing, provided the
      extension holds neither '.' nor '/'. */
  lemma RebuildIsStable(filename: seq<char>, ext: seq<char>)
    requires forall i :: 0 <= i < |ext| ==> ext[i] != '.' && ext[i] != '/'
    ensures OutputName(OutputName(filename, ext), ext) == OutputName(filename, ext)
  {
    var root := filename[..RootLength(filename)];
    var out := OutputName(filename, ext);
    var k := |root|;
    assert out[k] == '.';
    forall i | k < i < |out|
      ensures out[i] != '.' && out[i] != '/'
    {
      assert out[i] == ext[i - k - 1];
    }
    var per, dir := LastIndexOf(filename, '.'), LastIndexOf(filename, '/');
    if NoExtension(per, dir) {
      forall i | 0 <= i < |root| && root[i] == '/'
        ensures i < k
      {
      }
    }
    ExtensionReplaced(out, ext, k);
    assert out[..k] == root;
  }

  // -----------------------------------------------------------------------
  // h5atomic_type_to_h4type
  // -----------------------------------------------------------------------

  datatype Sign = Sgn2 | SgnNone | SgnError

  /** An HDF5 type as far as the mapping looks at it: its class, size and
      sign.  A size of 0 is the size query's error value. */
  datatype H5Type =
    | IntegerType(size: nat, sign: Sign)
    | FloatType(size: nat)
    | OtherClass

  datatype H4Type = Int8 | UInt8 | Int16 | UInt16 | Int32 | UInt32 | Float32 | Float64

  datatype MemType =
    | NativeSChar | NativeUChar | NativeShort | NativeUShort | NativeInt | NativeUInt
    | NativeLong | NativeULong | NativeFloat | NativeDouble

  /** The sizes of the platform's native types. */
  datatype NativeSizes = NativeSizes(charSize: nat, shortSize: nat, intSize: nat, longSize: nat, floatSize: nat, doubleSize: nat)

  /** sizeof of the HDF4 number types. */
  function H4Size(t: H4Type): nat
  {
    match t
    case Int8 => 1
    case UInt8 => 1
    case Int16 => 2
    case UInt16 => 2
    case Int32 => 4
    case UInt32 => 4
    case Float32 => 4
    case Float64 => 8
  }

  function NativeSize(m: MemType, p: NativeSizes): nat
  {
    match m
    case NativeSChar => p.charSize
    case NativeUChar => p.charSize
    case NativeShort => p.shortSize
    case NativeUShort => p.shortSize
    case NativeInt => p.intSize
    case NativeUInt => p.intSize
    case NativeLong => p.longSize
    case NativeULong => p.longSize
    case NativeFloat => p.floatSize
    case NativeDouble => p.doubleSize
  }

  /** What the mapping leaves in its out-parameters: whether it succeeded,
      the HDF4 type if it got as far as writing it, and the memory type with
      its size, written only on success. */
  datatype TypeMap = TypeMap(ok: bool, h4type: Option<H4Type>, mem: Option<(MemType, nat)>)

  /** The first native integer type whose size matches, in the order char,
      short, int, long. */
  function NativeInteger(size: nat, signed: bool, p: NativeSizes): Option<MemType>
  {
    if size == p.charSize then Some(if signed then NativeSChar else NativeUChar)
    else if size == p.shortSize then Some(if signed then NativeShort else NativeUShort)
    else if size == p.intSize then Some(if signed then NativeInt else NativeUInt)
    else if size == p.longSize then Some(if signed then NativeLong else NativeULong)
    else None
  }

  function NativeFloating(size: nat, p: NativeSizes): Option<MemType>
  {
    if size == p.floatSize then Some(NativeFloat)
    else if size == p.doubleSize then Some(NativeDouble)
    else None
  }

  /** The HDF4 type an integer of a supported size maps to. */
  function IntegerH4Type(size: nat, signed: bool): Option<H4Type>
  {
    if size == 1 then Some(if signed then Int8 else UInt8)
    else if size == 2 then Some(if signed then Int16 else UInt16)
    else if size == 4 then Some(if signed then Int32 else UInt32)
    else None
  }

  function FloatH4Type(size: nat): Option<H4Type>
  {
    if size == 4 then Some(Float32) else if size == 8 then Some(Float64) else None
  }

  /** Writes the HDF4 type, then looks for a native memory type of the HDF4
      type's size; the memory type and size are written only on success. */
  function Finish(h4: H4Type, native: Option<MemType>): TypeMap
  {
    if native.None? then TypeMap(false, Some(h4), None)
    else TypeMap(true, Some(h4), Some((native.value, H4Size(h4))))
  }

  /** On success the memory size is the HDF4 type's size, which is also the
      HDF5 type's size, and the chosen native type has exactly that size; on
      failure the memory type and size are not written. */
  function MapAtomicType(t: H5Type, p: NativeSizes): (m: TypeMap)
    ensures m.ok <==> m.mem.Some?
    ensures m.ok ==> && m.h4type.Some?
                     && m.mem.value.1 == H4Size(m.h4type.value)
                     && !t.OtherClass? && m.mem.value.1 == t.size
                     && NativeSize(m.mem.value.0, p) == m.mem.value.1
  {
    match t
    case IntegerType(size, sign) =>
      if size == 0 || sign == SgnError then TypeMap(false, None, None)
      else
        var h4 := IntegerH4Type(size, sign == Sgn2);
        if h4.None? then TypeMap(false, None, None)
        else Finish(h4.value, NativeInteger(H4Size(h4.value), sign == Sgn2, p))
    case FloatType(size) =>
      if size == 0 then TypeMap(false, None, None)
      else
        var h4 := FloatH4Type(size);
        if h4.None? then TypeMap(false, None, None)
        else Finish(h4.value, NativeFloating(H4Size(h4.value), p))
    case OtherClass => TypeMap(false, None, None)
  }

  /** Integers: sizes 1, 2 and 4 map to the signed HDF4 type of that size
      for two's-complement sign and to the unsigned one otherwise; any other
      size fails with nothing written. */
  lemma IntegerMapping(size: nat, sign: Sign, p: NativeSizes)
    requires sign != SgnError
    ensures var m := MapAtomicType(IntegerType(size, sign), p);
            && (size !in {1, 2, 4} ==> m == TypeMap(false, None, None))
            && (size == 1 ==> m.h4type == Some(if sign == Sgn2 then Int8 else UInt8))
            && (size == 2 ==> m.h4type == Some(if sign == Sgn2 then Int16 else UInt16))
            && (size == 4 ==> m.h4type == Some(if sign == Sgn2 then Int32 else UInt32))
  {
  }

  /** Floats: size 4 maps to FLOAT32 and size 8 to FLOAT64; other sizes and
      every other class fail with nothing written. */
  lemma FloatMapping(size: nat, p: NativeSizes)
    ensures var m := MapAtomicType(FloatType(size), p);
            && (size !in {4, 8} ==> m == TypeMap(false, None, None))
            && (size == 4 ==> m.h4type == Some(Float32))
            && (size == 8 ==> m.h4type == Some(Float64))
    ensures MapAtomicType(OtherClass, p) == TypeMap(false, None, None)
  {
  }

  /** On a platform with 1-, 2-, 4- and 8-byte char, short, int and long and
      4- and 8-byte float and double, every supported integer and float size
      maps successfully. */
  lemma CommonPlatformMapsAll(t: H5Type)
    requires t.IntegerType? ==> t.size in {1, 2, 4} && t.sign != SgnError
    requires t.FloatType? ==> t.size in {4, 8}
    requires !t.OtherClass?
    ensures MapAtomicType(t, NativeSizes(1, 2, 4, 8, 4, 8)).ok
  {
  }

  // -----------------------------------------------------------------------
  // Packing of compound members
  // -----------------------------------------------------------------------

  /** The largest array rank the library allows. */
  const MaxRank: nat := 32

  /** The entries of the buffers the array dimensions and their permutation
      are read into. */
  const DimSlots: nat := 4

  /** A compound member: its array dimensions and their permutation (both
      empty for a non-array member) and its base type. */
  datatype Member = Member(dims: seq<nat>, perm: seq<nat>, base: H5Type)

  /** The permutation indices name dimensions, as the library guarantees. */
  predicate WellFormedMember(m: Member)
  {
    |m.perm| == |m.dims| && forall k :: 0 <= k < |m.perm| ==> m.perm[k] < |m.dims|
  }

  /** The product of the dimensions named by the first k permutation
      indices. */
  function PermutedProduct(dims: seq<nat>, perm: seq<nat>, k: nat): nat
    requires k <= |perm| && forall i :: 0 <= i < |perm| ==> perm[i] < |dims|
  {
    if k == 0 then 1 else PermutedProduct(dims, perm, k - 1) * dims[perm[k - 1]]
  }

  /** The vdata order of a member, computed for up to four dimensions as the
      converter does: 1 for a non-array member, else the product of its
      dimensions the permutation names, in its order. */
  function MemberOrder(m: Member): (r: nat)
    requires WellFormedMember(m) && |m.dims| <= DimSlots
    ensures r == PermutedProduct(m.dims, m.perm, |m.dims|)
  {
    var n := |m.dims|;
    if n == 0 then 1
    else
      var o1 := m.dims[m.perm[0]];
      assert o1 == PermutedProduct(m.dims, m.perm, 1);
      if n == 1 then o1
      else
        var o2 := o1 * m.dims[m.perm[1]];
        assert o2 == PermutedProduct(m.dims, m.perm, 2);
        if n == 2 then o2
        else
          var o3 := o2 * m.dims[m.perm[2]];
          assert o3 == PermutedProduct(m.dims, m.perm, 3);
          if n == 3 then o3 else o3 * m.dims[m.perm[3]]
  }

  /** The rank guard as written: any rank the library allows passes, also
      those whose dimensions do not fit the four-entry buffers. */
  predicate RankGuardAsWritten(m: Member)
  {
    |m.dims| <= MaxRank
  }

  /** A five-dimensional array member passes the guard as written, although
      its dimensions and permutation overrun the buffers they are read into. */
  lemma RankGuardAdmitsOverflow()
    ensures var m := Member([1, 1, 1, 1, 1], [0, 1, 2, 3, 4], FloatType(4));
            WellFormedMember(m) && RankGuardAsWritten(m) && |m.dims| > DimSlots
  {
  }

  /** A member is packed when its dimensions fit the buffers and its base
      type maps (the corrected guard). */
  predicate Packs(m: Member, p: NativeSizes)
  {
    |m.dims| <= DimSlots && MapAtomicType(m.base, p).ok
  }

  function MemberSize(m: Member, p: NativeSizes): nat
    requires Packs(m, p)
  {
    MapAtomicType(m.base, p).mem.value.1
  }

  /** The bytes a packed member takes up in the record: its order times
      the size of its base type. */
  function MemberBytes(m: Member, p: NativeSizes): nat
    requires WellFormedMember(m) && Packs(m, p)
  {
    MemberOrder(m) * MemberSize(m, p)
  }

  /** The offset of member k in the packed record: the sum of the bytes of
      the members before it, so the last of them ends within it. */
  function PackedOffset(ms: seq<Member>, p: NativeSizes, k: nat): (r: nat)
    requires k <= |ms|
    requires forall i :: 0 <= i < k ==> WellFormedMember(ms[i]) && Packs(ms[i], p)
    ensures k > 0 ==> MemberBytes(ms[k - 1], p) <= r
  {
    if k == 0 then 0
    else PackedOffset(ms, p, k - 1) + MemberBytes(ms[k - 1], p)
  }

  datatype PackStatus =
    | Packed
    | NoMembers               // no vdata is built
    | RankTooLarge(at: nat)   // returns FAIL at once
    | TypeFailed(at: nat)     // sets status to FAIL and leaves the loop

  /** The index of the first member that does not pack, if any. */
  function FirstUnpacked(ms: seq<Member>, p: NativeSizes, k: nat): (r: Option<nat>)
    requires k <= |ms|
    ensures r.Some? ==> r.value < k && !Packs(ms[r.value], p)
    ensures r.Some? ==> forall i :: 0 <= i < r.value ==> Packs(ms[i], p)
    ensures r.None? ==> forall i :: 0 <= i < k ==> Packs(ms[i], p)
  {
    if k == 0 then None
    else
      var before := FirstUnpacked(ms, p, k - 1);
      if before.Some? then before
      else if !Packs(ms[k - 1], p) then Some(k - 1)
      else None
  }

  /** Once member idx is the first that does not pack, it stays the first
      however many members follow. */
  lemma {:induction false} FirstUnpackedStays(ms: seq<Member>, p: NativeSizes, idx: nat, k: nat)
    requires idx < k <= |ms|
    requires FirstUnpacked(ms, p, idx).None? && !Packs(ms[idx], p)
    ensures FirstUnpacked(ms, p, k) == Some(idx)
    decreases k
  {
    if k > idx + 1 {
      FirstUnpackedStays(ms, p, idx, k - 1);
    }
  }

  /** The offsets the loop records for the first k members. */
  function OffsetsUpTo(ms: seq<Member>, p: NativeSizes, k: nat): (r: seq<nat>)
    requires k <= |ms|
    requires forall i :: 0 <= i < k ==> WellFormedMember(ms[i]) && Packs(ms[i], p)
    ensures |r| == k
    ensures forall i :: 0 <= i < k ==> r[i] == PackedOffset(ms, p, i)
  {
    if k == 0 then []
    else
      var before := OffsetsUpTo(ms, p, k - 1);
      var r := before + [PackedOffset(ms, p, k - 1)];
      assert forall i :: 0 <= i < k - 1 ==> r[i] == before[i];
      r
  }

  /** The orders the loop records for the first k members. */
  function OrdersUpTo(ms: seq<Member>, k: nat): (r: seq<nat>)
    requires k <= |ms|
    requires forall i :: 0 <= i < k ==> WellFormedMember(ms[i]) && |ms[i].dims| <= DimSlots
    ensures |r| == k
    ensures forall i :: 0 <= i < k ==> r[i] == MemberOrder(ms[i])
  {
    if k == 0 then [] else OrdersUpTo(ms, k - 1) + [MemberOrder(ms[k - 1])]
  }

  /** How many members the loop gets through. */
  function Done(status: PackStatus, total: nat): nat
  {
    match status
    case Packed => total
    case NoMembers => 0
    case RankTooLarge(at) => at
    case TypeFailed(at) => at
  }

  /** The member loop: a compound without members is refused; otherwise,
      for each member in turn, its order and offset are recorded and the
      offset moves on by order times size; the loop stops at the first
      member whose rank is too large or whose type does not map. */
  method PackCompound(ms: seq<Member>, p: NativeSizes, offsets: array<nat>, orders: array<nat>)
    returns (status: PackStatus, offset: nat)
    requires offsets != orders && |ms| <= offsets.Length && |ms| <= orders.Length
    requires forall i :: 0 <= i < |ms| ==> WellFormedMember(ms[i])
    modifies offsets, orders
    ensures var bad := FirstUnpacked(ms, p, |ms|);
            && (status == NoMembers <==> |ms| == 0)
            && (status == Packed <==> |ms| > 0 && bad.None?)
            && (bad.Some? && |ms[bad.value].dims| > DimSlots ==> status == RankTooLarge(bad.value))
            && (bad.Some? && |ms[bad.value].dims| <= DimSlots ==> status == TypeFailed(bad.value))
    ensures Done(status, |ms|) <= |ms|
    ensures offset == PackedOffset(ms, p, Done(status, |ms|))
    ensures offsets[..Done(status, |ms|)] == OffsetsUpTo(ms, p, Done(status, |ms|))
    ensures orders[..Done(status, |ms|)] == OrdersUpTo(ms, Done(status, |ms|))
    ensures forall i :: Done(status, |ms|) <= i < offsets.Length ==> offsets[i] == old(offsets[i])
    ensures forall i :: Done(status, |ms|) <= i < orders.Length ==> orders[i] == old(orders[i])
  {
    offset := 0;
    if |ms| == 0 {
      return NoMembers, offset;
    }
    var idx := 0;
    while idx < |ms|
      invariant 0 <= idx <= |ms|
      invariant FirstUnpacked(ms, p, idx).None?
      invariant offset == PackedOffset(ms, p, idx)
      invariant offsets[..idx] == OffsetsUpTo(ms, p, idx)
      invariant orders[..idx] == OrdersUpTo(ms, idx)
      invariant forall i :: idx <= i < offsets.Length ==> offsets[i] == old(offsets[i])
      invariant forall i :: idx <= i < orders.Length ==> orders[i] == old(orders[i])
    {
      var rankOk, typesize := CheckMember(ms[idx], p);
      if !rankOk {
        FirstUnpackedStays(ms, p, idx, |ms|);
        return RankTooLarge(idx), offset;
      }
      if typesize.None? {
        FirstUnpackedStays(ms, p, idx, |ms|);
        return TypeFailed(idx), offset;
      }
      offset := RecordMember(ms, p, offsets, orders, idx, offset, typesize.value);
      idx := idx + 1;
    }
    status := Packed;
  }

  /** The two checks of one pass: the array rank against the buffers'
      size, then the mapping of the base type, which gives its size. */
  method CheckMember(m: Member, p: NativeSizes) returns (rankOk: bool, typesize: Option<nat>)
    ensures rankOk <==> |m.dims| <= DimSlots
    ensures rankOk ==> (typesize.Some? <==> Packs(m, p))
    ensures rankOk && typesize.Some? ==> typesize.value == MemberSize(m, p)
  {
    if |m.dims| > DimSlots {
      return false, None;
    }
    var typeMap := MapAtomicType(m.base, p);
    if !typeMap.ok {
      return true, None;
    }
    return true, Some(typeMap.mem.value.1);
  }

  /** One pass of the member loop for a member that packs: records its
      offset and order and returns the offset of the next member. */
  method RecordMember(ms: seq<Member>, p: NativeSizes, offsets: array<nat>, orders: array<nat>,
                      idx: nat, offset: nat, typesize: nat)
    returns (next: nat)
    requires offsets != orders && idx < |ms| <= offsets.Length && |ms| <= orders.Length
    requires forall i :: 0 <= i < |ms| ==> WellFormedMember(ms[i])
    requires FirstUnpacked(ms, p, idx).None? && Packs(ms[idx], p)
    requires typesize == MemberSize(ms[idx], p)
    requires offset == PackedOffset(ms, p, idx)
    requires offsets[..idx] == OffsetsUpTo(ms, p, idx) && orders[..idx] == OrdersUpTo(ms, idx)
    modifies offsets, orders
    ensures FirstUnpacked(ms, p, idx + 1).None?
    ensures next == PackedOffset(ms, p, idx + 1)
    ensures offsets[..idx + 1] == OffsetsUpTo(ms, p, idx + 1)
    ensures orders[..idx + 1] == OrdersUpTo(ms, idx + 1)
    ensures forall i :: 0 <= i < offsets.Length && i != idx ==> offsets[i] == old(offsets[i])
    ensures forall i :: 0 <= i < orders.Length && i != idx ==> orders[i] == old(orders[i])
  {
    var order := MemberOrder(ms[idx]);
    PrefixExtends(ms, p, idx);
    offsets[idx] := offset;
    orders[idx] := order;
    assert offsets[..idx + 1] == offsets[..idx] + [offset];
    assert orders[..idx + 1] == orders[..idx] + [order];
    NatProduct(order, typesize);
    next := offset + order * typesize;
  }

  /** Taking one more packable member extends the recorded prefixes by its
      offset and order and moves the offset on by its bytes. */
  lemma PrefixExtends(ms: seq<Member>, p: NativeSizes, idx: nat)
    requires idx < |ms| && forall i :: 0 <= i < |ms| ==> WellFormedMember(ms[i])
    requires FirstUnpacked(ms, p, idx).None? && Packs(ms[idx], p)
    ensures FirstUnpacked(ms, p, idx + 1).None?
    ensures OffsetsUpTo(ms, p, idx + 1) == OffsetsUpTo(ms, p, idx) + [PackedOffset(ms, p, idx)]
    ensures OrdersUpTo(ms, idx + 1) == OrdersUpTo(ms, idx) + [MemberOrder(ms[idx])]
    ensures PackedOffset(ms, p, idx + 1)
            == PackedOffset(ms, p, idx) + MemberOrder(ms[idx]) * MemberSize(ms[idx], p)
  {
    assert forall i :: 0 <= i < idx + 1 ==> WellFormedMember(ms[i]) && Packs(ms[i], p);
  }

  /** Members occupy disjoint, increasing byte ranges: member i ends no later
      than member j starts. */
  lemma MembersDoNotOverlap(ms: seq<Member>, p: NativeSizes, i: nat, j: nat)
    requires i < j <= |ms|
    requires forall k :: 0 <= k < |ms| ==> WellFormedMember(ms[k]) && Packs(ms[k], p)
    ensures PackedOffset(ms, p, i) + MemberBytes(ms[i], p) <= PackedOffset(ms, p, j)
  {
    assert PackedOffset(ms, p, i + 1) == PackedOffset(ms, p, i) + MemberBytes(ms[i], p);
    OffsetsIncrease(ms, p, i + 1, j);
  }

  /** Offsets never move backwards: a later member starts no earlier. */
  lemma OffsetsIncrease(ms: seq<Member>, p: NativeSizes, a: nat, b: nat)
    requires a <= b <= |ms|
    requires forall k :: 0 <= k < |ms| ==> WellFormedMember(ms[k]) && Packs(ms[k], p)
    ensures PackedOffset(ms, p, a) <= PackedOffset(ms, p, b)
  {
    var c := a;
    while c < b
      invariant a <= c <= b
      invariant PackedOffset(ms, p, a) <= PackedOffset(ms, p, c)
    {
      OffsetStep(ms, p, c + 1);
      c := c + 1;
    }
  }

  lemma OffsetStep(ms: seq<Member>, p: NativeSizes, b: nat)
    requires 0 < b <= |ms|
    requires forall k :: 0 <= k < |ms| ==> WellFormedMember(ms[k]) && Packs(ms[k], p)
    ensures PackedOffset(ms, p, b - 1) <= PackedOffset(ms, p, b)
  {
  }

  lemma NatProduct(a: nat, b: nat)
    ensures a * b >= 0
  {
  }
}
