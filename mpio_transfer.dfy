/** The collective transfer of one selection (H5D_mpio_spaces_xfer): build
    the memory and file MPI types, pick the file address, customise the
    transfer property list, move the data, and always run the cleanup block.

    The MPI type builder, the property-list customisation, the block read or
    write and the freeing of MPI types are outside the model: their results
    are inputs, and the effects the routine asks for are recorded, in order,
    in a trace. */
module MpioTransfer {
  import opened Common

  /** What the MPI type builder reports for one dataspace. */
  datatype MpiTypeInfo = MpiTypeInfo(count: nat, offset: nat, derived: bool)

  /** Where the dataset's data lives in the file. */
  datatype LayoutAddr =
    | ContiguousAt(contigAddr: nat)               // address of the contiguous storage
    | ChunkedAt(fileBase: nat, chunkAddr: nat)    // base address of the file and of the chunk

  /** The results of the calls the routine makes; `None` means the type
      builder failed. */
  datatype XferEnv = XferEnv(
    memType: Option<MpiTypeInfo>,
    fileType: Option<MpiTypeInfo>,
    layout: LayoutAddr,
    setupOk: bool,
    ioOk: bool,
    teardownOk: bool,
    freeMemOk: bool,
    freeFileOk: bool)

  datatype Side = MemSide | FileSide

  /** The external effects, in the order the routine requests them. */
  datatype Action =
    | Setup
    | Transfer(write: bool, addr: nat, count: nat, bufPos: nat)
    | Teardown
    | FreeType(side: Side)

  datatype Status = Succeed | Fail

  /** The file address of the first byte of the selection. */
  function SelectionAddress(layout: LayoutAddr, fileOffset: nat): (addr: nat)
    ensures layout.ContiguousAt? ==> addr - fileOffset == layout.contigAddr
    ensures layout.ChunkedAt? ==> addr - fileOffset == layout.fileBase + layout.chunkAddr
  {
    match layout
    case ContiguousAt(a) => a + fileOffset
    case ChunkedAt(base, chunk) => base + chunk + fileOffset
  }

  predicate IsCleanup(a: Action)
  {
    a.Teardown? || a.FreeType?
  }

  /** The order of the cleanup block: teardown, then the memory type, then
      the file type. */
  function CleanupStep(a: Action): nat
  {
    match a
    case Teardown => 0
    case FreeType(MemSide) => 1
    case FreeType(FileSide) => 2
    case _ => 0
  }

  /** Both MPI types were built and the property list was customised. */
  predicate ReachesTransfer(env: XferEnv)
  {
    env.memType.Some? && env.fileType.Some? && env.setupOk
  }

  /** The effects before the cleanup block. */
  function MainPhase(env: XferEnv, doWrite: bool): seq<Action>
  {
    if ReachesTransfer(env) then
      [Setup, Transfer(doWrite, SelectionAddress(env.layout, env.fileType.value.offset),
                       env.memType.value.count, env.memType.value.offset)]
    else []
  }

  /** The effects of the cleanup block, given how far the body got. */
  function CleanupPhase(env: XferEnv): seq<Action>
  {
    (if ReachesTransfer(env) then [Teardown] else [])
    + (if env.memType.Some? && env.memType.value.derived then [FreeType(MemSide)] else [])
    + (if env.memType.Some? && env.fileType.Some? && env.fileType.value.derived then [FreeType(FileSide)] else [])
  }

  /** Every effect the routine requests, in order. */
  function XferTrace(env: XferEnv, doWrite: bool): seq<Action>
  {
    MainPhase(env, doWrite) + CleanupPhase(env)
  }

  /** The routine.  Failures jump to the cleanup block, which resets the
      property list only if it was customised and frees each MPI type only
      if it is derived; a cleanup failure turns the status into a failure but
      never stops the remaining cleanup. */
  method SpacesXfer(env: XferEnv, doWrite: bool) returns (status: Status, trace: seq<Action>)
    ensures trace == XferTrace(env, doWrite)
    ensures status == Succeed <==>
              && ReachesTransfer(env) && env.ioOk && env.teardownOk
              && (env.memType.value.derived ==> env.freeMemOk)
              && (env.fileType.value.derived ==> env.freeFileOk)
  {
    var ok := true;
    var mbtIsDerived, mftIsDerived, plistIsSetup := false, false, false;
    var bufPos: nat := 0;
    trace := [];

    if env.memType.None? {
      ok := false;
    } else {
      var memT := env.memType.value;
      mbtIsDerived := memT.derived;
      if env.fileType.None? {
        ok := false;
      } else {
        var fileT := env.fileType.value;
        mftIsDerived := fileT.derived;
        var addr := SelectionAddress(env.layout, fileT.offset);
        if !env.setupOk {
          ok := false;
        } else {
          trace := trace + [Setup];
          plistIsSetup := true;
          bufPos := bufPos + memT.offset;
          trace := trace + [Transfer(doWrite, addr, memT.count, bufPos)];
          if !env.ioOk {
            ok := false;
          }
        }
      }
    }

    // the cleanup block
    if plistIsSetup {
      trace := trace + [Teardown];
      if !env.teardownOk {
        ok := false;
      }
    }
    if mbtIsDerived {
      trace := trace + [FreeType(MemSide)];
      if !env.freeMemOk {
        ok := false;
      }
    }
    if mftIsDerived {
      trace := trace + [FreeType(FileSide)];
      if !env.freeFileOk {
        ok := false;
      }
    }
    status := if ok then Succeed else Fail;
  }

  /** The cleanup discipline: the property list is reset exactly when it was
      customised, and each MPI type is freed exactly when it was built as a
      derived type. */
  lemma CleanupMatchesAcquisition(env: XferEnv, doWrite: bool)
    ensures var t := XferTrace(env, doWrite);
            && ((Setup in t) <==> ReachesTransfer(env))
            && ((Teardown in t) <==> (Setup in t))
            && ((FreeType(MemSide) in t) <==> (env.memType.Some? && env.memType.value.derived))
            && ((FreeType(FileSide) in t) <==>
                (env.memType.Some? && env.fileType.Some? && env.fileType.value.derived))
  {
    var t := XferTrace(env, doWrite);
    var m, c := MainPhase(env, doWrite), CleanupPhase(env);
    assert t == m + c;
    assert forall a :: a in c ==> IsCleanup(a);
    assert forall a :: a in m ==> !IsCleanup(a);
  }

  /** The transfer happens exactly when the body reaches it, moves
      `count` objects from the buffer advanced by the memory offset, and
      addresses the file at the layout's base plus the file offset. */
  lemma TransferAddressing(env: XferEnv, doWrite: bool)
    ensures var t := XferTrace(env, doWrite);
            (exists i :: 0 <= i < |t| && t[i].Transfer?) <==> ReachesTransfer(env)
    ensures var t := XferTrace(env, doWrite);
            forall i :: 0 <= i < |t| && t[i].Transfer? ==>
              && env.memType.Some? && env.fileType.Some?
              && t[i] == Transfer(doWrite,
                                  SelectionAddress(env.layout, env.fileType.value.offset),
                                  env.memType.value.count,
                                  env.memType.value.offset)
  {
    var t := XferTrace(env, doWrite);
    var m, c := MainPhase(env, doWrite), CleanupPhase(env);
    assert forall i :: 0 <= i < |c| ==> IsCleanup(c[i]);
    assert forall i :: |m| <= i < |t| ==> t[i] == c[i - |m|];
    if ReachesTransfer(env) {
      assert t[1].Transfer?;
    }
  }

  /** Order: setup comes first and once, the transfer follows it, and the
      cleanup effects come last, in the order teardown, memory type, file
      type, each at most once. */
  lemma EffectOrder(env: XferEnv, doWrite: bool)
    ensures var t := XferTrace(env, doWrite);
            forall i, j :: 0 <= i < j < |t| && t[j].Transfer? ==> t[i] == Setup
    ensures var t := XferTrace(env, doWrite);
            forall i, j :: 0 <= i < j < |t| && !IsCleanup(t[i]) ==> t[j] != Setup
    ensures var t := XferTrace(env, doWrite);
            forall i, j :: 0 <= i < j < |t| && IsCleanup(t[i]) ==>
              IsCleanup(t[j]) && CleanupStep(t[i]) < CleanupStep(t[j])
  {
    var t := XferTrace(env, doWrite);
    var m, c := MainPhase(env, doWrite), CleanupPhase(env);
    assert forall i :: 0 <= i < |c| ==> IsCleanup(c[i]);
    assert forall i, j :: 0 <= i < j < |c| ==> CleanupStep(c[i]) < CleanupStep(c[j]);
    assert forall i :: |m| <= i < |t| ==> t[i] == c[i - |m|];
  }
}
