/** The counting allocator the variable-length string test installs as the
    dataset-transfer memory manager: each block carries a header holding
    its requested size, and a shared counter tracks the bytes handed out. */
module VlstrAlloc {
  import opened Common

  /** The address 0 stands for NULL. */
  const Null: nat := 0

  /** The total of the sizes recorded in the headers of live blocks. */
  ghost function Total(blocks: map<nat, nat>): nat
    decreases |blocks|
  {
    if blocks == map[] then 0
    else
      var k :| k in blocks;
      blocks[k] + Total(blocks - {k})
  }

  /** Removing one block takes its size off the total, whichever block the
      total happened to pick first. */
  lemma {:induction false} TotalRemove(blocks: map<nat, nat>, k: nat)
    requires k in blocks
    ensures Total(blocks) == blocks[k] + Total(blocks - {k})
    decreases |blocks|
  {
    var k0 :| k0 in blocks && Total(blocks) == blocks[k0] + Total(blocks - {k0});
    if k0 != k {
      var rest0, rest := blocks - {k0}, blocks - {k};
      assert |rest0| < |blocks| && |rest| < |blocks| by {
        assert rest0.Keys < blocks.Keys && rest.Keys < blocks.Keys;
        assert |rest0.Keys| < |blocks.Keys| && |rest.Keys| < |blocks.Keys|;
      }
      TotalRemove(rest0, k);
      TotalRemove(rest, k0);
      assert rest0 - {k} == rest - {k0};
    }
  }

  /** Adding a block at a fresh address adds its size to the total. */
  lemma TotalAdd(blocks: map<nat, nat>, a: nat, size: nat)
    requires a !in blocks
    ensures Total(blocks[a := size]) == Total(blocks) + size
  {
    TotalRemove(blocks[a := size], a);
    assert blocks[a := size] - {a} == blocks;
  }

  /** Freeing a block just allocated restores both the blocks and the
      total. */
  lemma AllocThenFreeRestores(blocks: map<nat, nat>, a: nat, size: nat)
    requires a !in blocks
    ensures blocks[a := size] - {a} == blocks
    ensures Total(blocks[a := size] - {a}) == Total(blocks)
  {
    assert blocks[a := size] - {a} == blocks;
  }

  /** The pointer handed to the caller lies just past the header, and the
      free routine steps back over the header to find the block. */
  function UserPointer(base: nat, extra: nat): (p: nat)
    ensures p >= extra && p - extra == base
  {
    base + extra
  }

  /** The sum of the sizes of a run of allocations. */
  function SumSizes(sizes: seq<nat>): nat
  {
    if sizes == [] then 0 else SumSizes(sizes[..|sizes| - 1]) + sizes[|sizes| - 1]
  }

  /** One more allocation adds its size to the running sum. */
  lemma SumSizesStep(sizes: seq<nat>, k: nat)
    requires k < |sizes|
    ensures SumSizes(sizes[..k + 1]) == SumSizes(sizes[..k]) + sizes[k]
  {
    assert sizes[..k + 1][..k] == sizes[..k];
  }

  /** The blocks the read of the first k strings places: a block of each
      string's length plus one byte, at the address malloc returned for
      it. */
  function StringBlocks(addrs: seq<nat>, lengths: seq<nat>, k: nat): map<nat, nat>
    requires |addrs| == |lengths| && k <= |addrs|
  {
    if k == 0 then map[] else StringBlocks(addrs, lengths, k - 1)[addrs[k - 1] := lengths[k - 1] + 1]
  }

  /** At distinct addresses the read of the first k strings places exactly
      their addresses, each holding its own string's bytes. */
  lemma {:induction false} StringBlocksLookup(addrs: seq<nat>, lengths: seq<nat>, k: nat)
    requires |addrs| == |lengths| && k <= |addrs|
    requires forall i, j :: 0 <= i < j < |addrs| ==> addrs[i] != addrs[j]
    ensures forall i :: 0 <= i < k ==>
              addrs[i] in StringBlocks(addrs, lengths, k) && StringBlocks(addrs, lengths, k)[addrs[i]] == lengths[i] + 1
    ensures forall a :: a in StringBlocks(addrs, lengths, k) ==> exists i :: 0 <= i < k && addrs[i] == a
  {
    if k > 0 {
      StringBlocksLookup(addrs, lengths, k - 1);
    }
  }

  /** Reading one more string adds its block to those already there. */
  lemma StringBlocksStep(before: map<nat, nat>, addrs: seq<nat>, lengths: seq<nat>, k: nat)
    requires |addrs| == |lengths| && k < |addrs|
    ensures (before + StringBlocks(addrs, lengths, k))[addrs[k] := lengths[k] + 1]
            == before + StringBlocks(addrs, lengths, k + 1)
  {
  }

  /** The address of the next string is not yet among the blocks. */
  lemma StringBlocksFresh(before: map<nat, nat>, addrs: seq<nat>, lengths: seq<nat>, k: nat)
    requires |addrs| == |lengths| && k < |addrs|
    requires forall i :: 0 <= i < |addrs| ==> addrs[i] !in before
    requires forall i, j :: 0 <= i < j < |addrs| ==> addrs[i] != addrs[j]
    ensures addrs[k] !in before + StringBlocks(addrs, lengths, k)
  {
    StringBlocksLookup(addrs, lengths, k);
  }

  /** Adding the read's blocks at fresh, distinct addresses keeps every
      block there before, adds each string's block and nothing else. */
  lemma StringBlocksBeside(before: map<nat, nat>, addrs: seq<nat>, lengths: seq<nat>)
    requires |addrs| == |lengths|
    requires forall i :: 0 <= i < |addrs| ==> addrs[i] !in before
    requires forall i, j :: 0 <= i < j < |addrs| ==> addrs[i] != addrs[j]
    ensures forall b :: b in before ==>
              b in before + StringBlocks(addrs, lengths, |addrs|)
              && (before + StringBlocks(addrs, lengths, |addrs|))[b] == before[b]
    ensures forall i :: 0 <= i < |addrs| ==>
              addrs[i] in before + StringBlocks(addrs, lengths, |addrs|)
              && (before + StringBlocks(addrs, lengths, |addrs|))[addrs[i]] == lengths[i] + 1
    ensures forall b :: b in before + StringBlocks(addrs, lengths, |addrs|) ==> b in before || b in addrs
  {
    StringBlocksLookup(addrs, lengths, |addrs|);
  }

  /** The blocks behind the first k pointers handed back to the free
      routine: each pointer stepped back over the header. */
  function FreedBases(ptrs: seq<nat>, extra: nat, k: nat): set<int>
    requires k <= |ptrs|
  {
    if k == 0 then {} else FreedBases(ptrs, extra, k - 1) + {ptrs[k - 1] - extra}
  }

  /** The block behind each of the first k pointers is among the bases
      freed. */
  lemma {:induction false} FreedBasesHold(ptrs: seq<nat>, extra: nat, k: nat)
    requires k <= |ptrs|
    ensures forall i :: 0 <= i < k ==> ptrs[i] - extra in FreedBases(ptrs, extra, k)
  {
    if k > 0 {
      FreedBasesHold(ptrs, extra, k - 1);
    }
  }

  /** Every base freed is one of the first k pointers stepped back over the
      header, so no other block is released. */
  lemma {:induction false} FreedBasesOnly(ptrs: seq<nat>, extra: nat, k: nat)
    requires k <= |ptrs|
    ensures forall b :: b in FreedBases(ptrs, extra, k) ==> b + extra in ptrs[..k]
  {
    if k > 0 {
      FreedBasesOnly(ptrs, extra, k - 1);
      assert ptrs[..k] == ptrs[..k - 1] + [ptrs[k - 1]];
    }
  }

  /** Freeing one more pointer removes its block from those left. */
  lemma FreedBasesStep(before: map<nat, nat>, ptrs: seq<nat>, extra: nat, k: nat)
    requires k < |ptrs| && ptrs[k] >= extra
    ensures (before - FreedBases(ptrs, extra, k)) - {ptrs[k] - extra}
            == before - FreedBases(ptrs, extra, k + 1)
  {
  }

  /** The byte counts the test expects the read to allocate: each string's
      length plus its terminating NUL. */
  function StringBytes(lengths: seq<nat>): (bytes: seq<nat>)
    ensures |bytes| == |lengths|
    ensures forall i :: 0 <= i < |lengths| ==> bytes[i] == lengths[i] + 1
  {
    seq(|lengths|, i requires 0 <= i < |lengths| => lengths[i] + 1)
  }

  /** Strings each take their length and one more byte. */
  lemma {:induction false} StringBytesTotal(lengths: seq<nat>)
    ensures SumSizes(StringBytes(lengths)) == SumSizes(lengths) + |lengths|
  {
    if lengths != [] {
      var init := lengths[..|lengths| - 1];
      StringBytesTotal(init);
      assert StringBytes(lengths)[..|lengths| - 1] == StringBytes(init);
    }
  }

  /** The allocator's shared state: the `mem_used` counter passed as the
      info pointer to both routines, and the live blocks by base address
      with the size stored in each header. */
  class Manager {
    var memUsed: int
    var blocks: map<nat, nat>
    /** max(sizeof(void *), sizeof(size_t)), a property of the platform. */
    const extra: nat
    /** The counter's value when the manager was installed. */
    ghost const start: int

    /** The counter always exceeds its start value by the sizes of the
        live blocks, and no live block sits at NULL. */
    ghost predicate Valid()
      reads this
    {
      memUsed == start + Total(blocks) && Null !in blocks
    }

    constructor (extra: nat, memUsed: int)
      ensures Valid() && this.extra == extra && this.memUsed == memUsed
      ensures start == memUsed && blocks == map[]
    {
      this.extra := extra;
      this.memUsed := memUsed;
      this.blocks := map[];
      this.start := memUsed;
    }

    /** test_vlstr_alloc_custom.  `malloc` is the address malloc returns
        for extra + size bytes, NULL when it fails.  On success the header
        records the size and the counter grows by it; either way the result
        is the returned address plus the header size, so a failure yields
        NULL + extra rather than NULL. */
    method Alloc(size: nat, malloc: nat) returns (p: nat)
      requires Valid()
      requires malloc != Null ==> malloc !in blocks
      modifies this
      ensures Valid()
      ensures p == UserPointer(malloc, extra)
      ensures malloc != Null ==> blocks == old(blocks)[malloc := size] && memUsed == old(memUsed) + size
      ensures malloc == Null ==> blocks == old(blocks) && memUsed == old(memUsed)
    {
      if malloc != Null {
        TotalAdd(blocks, malloc, size);
        blocks := blocks[malloc := size];
        memUsed := memUsed + size;
      }
      p := UserPointer(malloc, extra);
    }

    /** test_vlstr_free_custom.  NULL changes nothing; any other pointer
        must be one Alloc returned, and its block's recorded size is taken
        off the counter before the block is released. */
    method Free(mem: nat)
      requires Valid()
      requires mem != Null ==> mem >= extra && mem - extra in blocks
      modifies this
      ensures Valid()
      ensures mem == Null ==> blocks == old(blocks) && memUsed == old(memUsed)
      ensures mem != Null ==>
                blocks == old(blocks) - {mem - extra} && memUsed == old(memUsed) - old(blocks)[mem - extra]
    {
      if mem != Null {
        var base := mem - extra;
        TotalRemove(blocks, base);
        memUsed := memUsed - blocks[base];
        blocks := blocks - {base};
      }
    }

    /** The read: one allocation per string of its length plus one byte,
        at the addresses malloc returns.  Afterwards the counter has grown
        by the bytes of the strings, as the test demands, and the blocks
        are the earlier ones together with exactly the strings' blocks
        (`StringBlocksBeside` spells this out block by block). */
    method ReadStrings(lengths: seq<nat>, addrs: seq<nat>) returns (ptrs: seq<nat>)
      requires Valid()
      requires |addrs| == |lengths|
      requires forall i :: 0 <= i < |addrs| ==> addrs[i] != Null && addrs[i] !in blocks
      requires forall i, j :: 0 <= i < j < |addrs| ==> addrs[i] != addrs[j]
      modifies this
      ensures Valid()
      ensures memUsed == old(memUsed) + SumSizes(lengths) + |lengths|
      ensures |ptrs| == |lengths|
      ensures forall i :: 0 <= i < |ptrs| ==> ptrs[i] == UserPointer(addrs[i], extra) && addrs[i] in blocks
      ensures forall i, j :: 0 <= i < j < |ptrs| ==> ptrs[i] != ptrs[j]
      ensures forall b :: b in blocks ==> b in old(blocks) || b in addrs
      ensures blocks == old(blocks) + StringBlocks(addrs, lengths, |addrs|)
    {
      ptrs := [];
      var k := 0;
      while k < |lengths|
        invariant 0 <= k <= |lengths| && |ptrs| == k
        invariant Valid()
        invariant memUsed == old(memUsed) + SumSizes(lengths[..k]) + k
        invariant forall i :: 0 <= i < k ==> ptrs[i] == addrs[i] + extra
        invariant blocks == old(blocks) + StringBlocks(addrs, lengths, k)
      {
        StringBlocksFresh(old(blocks), addrs, lengths, k);
        var p := Alloc(lengths[k] + 1, addrs[k]);
        SumSizesStep(lengths, k);
        StringBlocksStep(old(blocks), addrs, lengths, k);
        ptrs := ptrs + [p];
        k := k + 1;
      }
      assert lengths[..k] == lengths;
      StringBlocksBeside(old(blocks), addrs, lengths);
    }

    /** The reclaim: freeing every pointer the read handed out releases
        exactly the blocks behind them (`FreedBasesHold`, `FreedBasesOnly`)
        and leaves the others as they were. */
    method Reclaim(ptrs: seq<nat>)
      requires Valid()
      requires forall i :: 0 <= i < |ptrs| ==> ptrs[i] >= extra && ptrs[i] - extra in blocks
      requires forall i, j :: 0 <= i < j < |ptrs| ==> ptrs[i] != ptrs[j]
      modifies this
      ensures Valid()
      ensures forall i :: 0 <= i < |ptrs| ==> ptrs[i] - extra !in blocks
      ensures forall b :: b in blocks ==> b in old(blocks) && blocks[b] == old(blocks)[b]
      ensures blocks == old(blocks) - FreedBases(ptrs, extra, |ptrs|)
    {
      var k := 0;
      while k < |ptrs|
        invariant 0 <= k <= |ptrs|
        invariant Valid()
        invariant forall i :: 0 <= i < k ==> ptrs[i] - extra !in blocks
        invariant forall j :: k <= j < |ptrs| ==> ptrs[j] - extra in blocks
        invariant forall b :: b in blocks ==> b in old(blocks) && blocks[b] == old(blocks)[b]
        invariant blocks == old(blocks) - FreedBases(ptrs, extra, k)
      {
        assert ptrs[k] != Null;
        Free(ptrs[k]);
        FreedBasesStep(old(blocks), ptrs, extra, k);
        k := k + 1;
      }
    }

    /** The reclaim after a read into an empty manager: freeing the pointers
        the read handed out leaves no block, and the counter back at its
        start value. */
    method ReclaimRead(ptrs: seq<nat>, addrs: seq<nat>)
      requires Valid()
      requires |ptrs| == |addrs|
      requires forall i :: 0 <= i < |ptrs| ==> ptrs[i] == UserPointer(addrs[i], extra) && addrs[i] in blocks
      requires forall i, j :: 0 <= i < j < |ptrs| ==> ptrs[i] != ptrs[j]
      requires forall b :: b in blocks ==> b in addrs
      modifies this
      ensures Valid() && blocks == map[] && memUsed == start
    {
      NothingLeft(blocks, addrs, ptrs, extra);
      Reclaim(ptrs);
    }
  }

  /** When every block came from the read, freeing every pointer the read
      handed out leaves no block. */
  lemma NothingLeft(blocks: map<nat, nat>, addrs: seq<nat>, ptrs: seq<nat>, extra: nat)
    requires |ptrs| == |addrs|
    requires forall i :: 0 <= i < |ptrs| ==> ptrs[i] == UserPointer(addrs[i], extra)
    requires forall b :: b in blocks ==> b in addrs
    ensures blocks - FreedBases(ptrs, extra, |ptrs|) == map[]
  {
    FreedBasesHold(ptrs, extra, |ptrs|);
    forall b | b in blocks
      ensures b in FreedBases(ptrs, extra, |ptrs|)
    {
      var i :| 0 <= i < |addrs| && addrs[i] == b;
      assert ptrs[i] - extra == b;
    }
  }

  /** The test's scenario: a counter starting at 0, a read of strings, and
      the reclaim of what the read allocated.  After the read the counter
      equals the bytes of the strings; after the reclaim it is 0 again. */
  method ReadAndReclaim(extra: nat, lengths: seq<nat>, addrs: seq<nat>)
    returns (afterRead: int, afterReclaim: int)
    requires |addrs| == |lengths|
    requires forall i :: 0 <= i < |addrs| ==> addrs[i] != Null
    requires forall i, j :: 0 <= i < j < |addrs| ==> addrs[i] != addrs[j]
    ensures afterRead == SumSizes(StringBytes(lengths))
    ensures afterReclaim == 0
  {
    var m := new Manager(extra, 0);
    var ptrs := m.ReadStrings(lengths, addrs);
    StringBytesTotal(lengths);
    afterRead := m.memUsed;
    m.ReclaimRead(ptrs, addrs);
    afterReclaim := m.memUsed;
  }
}
