/**
 * One heap block: a stretch of memory managed through the id bitmap at its start.
 */
module HeapChunk {
  import opened Division
  import opened HeapIds
  import opened HeapRuns
  import opened HeapSearch

  datatype Placement = Placed(run: Run, address: nat) | Nothing | Endless

  /** Every fitting gap leaves enough free bytes, so counting them loses none. */
  lemma {:induction false} PruneSound(q: Query, ids: seq<Id>, memSize: nat, t: nat)
    requires WellFormed(q, ids) && |ids| == memSize / q.blockSize && RoomAt(q, ids, t)
    ensures memSize - Used(ids) * q.blockSize >= q.size
  {
    hide Used, CeilDiv, AlignOffset, CanAlign;
    var n := Needed(q, t);
    UsedBound(ids, t, t + n);
    BlocksFit(memSize, q.blockSize);
    EnoughBytes(Used(ids), n, |ids|, q.blockSize);
  }

  lemma {:induction false} EnoughBytes(used: nat, n: nat, total: nat, blockSize: nat)
    requires used + n <= total
    ensures used * blockSize + n * blockSize <= total * blockSize
  {
    MulMono(used + n, total, blockSize);
  }

  /** The heap block is skipped for too few free bytes, or its search gives up having tried all but `last`. */
  ghost predicate FindsNothing(q: Query, ids: seq<Id>, memSize: nat)
    requires WellFormed(q, ids)
  {
    memSize - Used(ids) * q.blockSize < q.size || (!StepsOver(q, ids) && OnlyAtLast(q, ids))
  }

  /** The heap block is searched, steps over `last`, and has no room anywhere. */
  ghost predicate NeverEnds(q: Query, ids: seq<Id>, memSize: nat)
    requires WellFormed(q, ids)
  {
    memSize - Used(ids) * q.blockSize >= q.size && StepsOver(q, ids) && NoRoom(q, ids, 0, |ids|)
  }

  lemma {:induction false} BlocksFit(memSize: nat, blockSize: nat)
    requires blockSize > 0
    ensures (memSize / blockSize) * blockSize <= memSize
  {
  }

  /** What is found lies inside its run, aligned, with all the bytes asked for. */
  lemma {:induction false} AddressInRun(q: Query, ids: seq<Id>, t: nat)
    requires WellFormed(q, ids) && Fits(q, ids, t)
    ensures var address := Address(q, t) + AlignOffset(Address(q, t), q.align);
            && address % q.align == 0
            && q.base + t * q.blockSize <= address
            && address + q.size <= q.base + (t + Needed(q, t)) * q.blockSize
            && address <= q.base + t * q.blockSize + (if q.align == 1 then 0 else q.align)
            && q.base + (t + Needed(q, t) - 1) * q.blockSize < address + q.size
  {
    hide CeilDiv, FreeRun, CanAlign;
    var n := Needed(q, t);
    assert (t + n) * q.blockSize == t * q.blockSize + n * q.blockSize;
    assert (t + n - 1) * q.blockSize == (t + n) * q.blockSize - q.blockSize;
  }

  /** Where a new run goes: zero blocks between neighbours whose ids it avoids. */
  lemma {:induction false} PlacedIsNewRun(q: Query, ids: seq<Id>, t: nat, id: Id)
    requires WellFormed(q, ids) && Fits(q, ids, t)
    requires var b := t + Needed(q, t);
             id == FreeId(if t == 0 then 0 else ids[t - 1], if b >= |ids| then 0 else ids[b])
    ensures NewRun(ids, t, t + Needed(q, t), id) && Needed(q, t) > 0
  {
    hide CeilDiv, CanAlign;
    FitsIsRoom(q, ids, t);
  }

  lemma {:induction false} FitInside(q: Query, ids: seq<Id>, t: nat)
    requires WellFormed(q, ids) && Fits(q, ids, t)
    ensures 0 < Needed(q, t) && t + Needed(q, t) <= |ids|
  {
    hide CeilDiv, CanAlign;
  }

  class Chunk {
    const base: nat
    const memSize: nat
    const blockSize: nat
    const meta: nat
    const bitmap: array<bv8>
    var last: nat
    var used: nat
    ghost var runs: set<Run>

    ghost function BlockIds(): (ids: seq<Id>)
      requires blockSize > 0 && memSize / blockSize <= PER_BYTE * bitmap.Length
      reads bitmap
      ensures |ids| == memSize / blockSize
    {
      Ids(bitmap[..])[..memSize / blockSize]
    }

    /** The runs of the bitmap are the ones handed out, the bitmap's own first among them. */
    ghost predicate Valid()
      reads this, bitmap
    {
      && blockSize > 0 && memSize / blockSize <= PER_BYTE * bitmap.Length
      && last < memSize / blockSize
      && RunsAre(BlockIds(), runs) && Run(0, meta) in runs
      && used == Used(BlockIds())
    }

    /** Sets the ids of a stretch of blocks. */
    method SetIds(a: nat, b: nat, id: Id)
      requires blockSize > 0 && memSize / blockSize <= PER_BYTE * bitmap.Length
      requires a <= b <= memSize / blockSize && id <= 3
      modifies bitmap
      ensures BlockIds() == Paint(old(BlockIds()), a, b, id)
    {
      hide Ids, GetId;
      var i := a;
      while i < b
        invariant a <= i <= b && BlockIds() == Paint(old(BlockIds()), a, i, id)
      {
        SetId(bitmap, i, id);
        i := i + 1;
      }
    }

    /** `expand`: all blocks free except those that hold the bitmap itself. */
    constructor (base: nat, memSize: nat, blockSize: nat)
      requires 0 < blockSize <= memSize
      ensures Valid() && fresh(bitmap)
      ensures this.base == base && this.memSize == memSize && this.blockSize == blockSize
      ensures runs == {Run(0, meta)} && used == meta && last == meta - 1
      ensures forall i :: 0 <= i < memSize / blockSize ==> BlockIds()[i] == if i < meta then 1 else 0
      ensures meta == CeilDiv(CeilDiv(memSize / blockSize, PER_BYTE), blockSize)
    {
      hide CeilDiv, Ids, GetId, Used, RunsAre;
      var blockCount := memSize / blockSize;
      var bytes := CeilDiv(blockCount, PER_BYTE);
      var blocks := CeilDiv(bytes, blockSize);
      MetadataFits(blockCount, blockSize);
      this.base, this.memSize, this.blockSize, meta := base, memSize, blockSize, blocks;
      bitmap := new bv8[bytes](_ => 0);
      last, used, runs := blocks - 1, blocks, {Run(0, blocks)};
      new;
      ghost var zeros := BlockIds();
      BlankIds(bitmap[..]);
      BlankHasNoRuns(zeros);
      SetIds(0, blocks, 1);
      AllocationAddsRun(zeros, {}, 0, blocks, 1);
      UsedPainted(zeros, 0, blocks, 1);
      assert {} + {Run(0, blocks)} == runs;
    }

    ghost function QueryOf(size: nat, align: nat): Query
      reads this
    {
      Query(base, blockSize, size, align, last)
    }

    /** The search of `alloc` in this heap block, and what it does to it. */
    method Alloc(size: nat, align: nat) returns (r: Placement)
      requires Valid() && size > 0 && align > 0
      modifies this`last, this`used, this`runs, bitmap
      ensures Valid()
      ensures !r.Placed? ==>
                runs == old(runs) && BlockIds() == old(BlockIds()) && last == old(last) && used == old(used)
      // what is handed out is one new run, apart from all others, and holds the bytes asked for
      ensures r.Placed? ==>
                && r.run.start < r.run.end <= memSize / blockSize && runs == old(runs) + {r.run} && r.run !in old(runs)
                && (forall other :: other in old(runs) ==> other.end <= r.run.start || r.run.end <= other.start)
                && used == old(used) + (r.run.end - r.run.start) && last == r.run.end - 1
                && r.address % align == 0
                && base + r.run.start * blockSize <= r.address && r.address + size <= base + r.run.end * blockSize
      // and no more blocks than these bytes and the way to the next aligned address need
      ensures r.Placed? ==>
                && r.address <= base + r.run.start * blockSize + (if align == 1 then 0 else align)
                && base + (r.run.end - 1) * blockSize < r.address + size
      // the outcome is that of the search loop, unless the heap block is skipped for too few free bytes
      ensures r.Placed? ==> Finds(old(QueryOf(size, align)), old(BlockIds()), r.run.start)
      ensures r.Placed? ==> NextRoom(old(QueryOf(size, align)), old(BlockIds()), r.run.start)
      ensures r.Placed? ==> r.run.end == r.run.start + Needed(old(QueryOf(size, align)), r.run.start)
      ensures r.Nothing? ==> memSize - old(used) * blockSize < size || Fails(old(QueryOf(size, align)), old(BlockIds()))
      ensures r.Endless? ==> Diverges(old(QueryOf(size, align)), old(BlockIds()))
      // exactly when there is none
      ensures r.Nothing? <==> FindsNothing(old(QueryOf(size, align)), old(BlockIds()), memSize)
      ensures r.Endless? <==> NeverEnds(old(QueryOf(size, align)), old(BlockIds()), memSize)
      // with the last allocation still in use, nothing is missed
      ensures old(last > 0 && BlockIds()[last] != 0) ==>
                && !r.Endless?
                && (r.Nothing? <==> NoRoom(old(QueryOf(size, align)), old(BlockIds()), 0, memSize / blockSize))
    {
      hide StepsOver, OnlyAtLast, NoRoom, Used, Diverges, Fails, Finds, Fits, CeilDiv, Needed, RunsAre, NextRoom;
      ghost var ids := BlockIds();
      if last > 0 && ids[last] != 0 { LastInUse(QueryOf(size, align), ids, memSize); }
      if memSize - used * blockSize < size {
        return Nothing;
      }
      var blockCount := memSize / blockSize;
      var q := Query(base, blockSize, size, align, last);
      var found := Search(q, bitmap, ids, blockCount);
      if found.Spins? {
        return Endless;
      } else if found.Exhausted? {
        return Nothing;
      }
      var start := found.t;
      var count := Needed(q, start);
      r := Place(q, start, count);
    }

    /** An id that differs from those on both sides of blocks a to b. */
    method ChooseId(a: nat, b: nat) returns (id: Id)
      requires blockSize > 0 && a <= b <= memSize / blockSize <= PER_BYTE * bitmap.Length
      ensures id == FreeId(if a == 0 then 0 else BlockIds()[a - 1], if b >= |BlockIds()| then 0 else BlockIds()[b])
    {
      hide Ids, GetId;
      var leftId, rightId := 0, 0;
      if a > 0 {
        leftId := ReadId(bitmap, a - 1);
      }
      if b < memSize / blockSize {
        rightId := ReadId(bitmap, b);
      }
      id := FreeId(leftId, rightId);
    }

    method Place(q: Query, start: nat, count: nat) returns (r: Placement)
      requires Valid() && q == QueryOf(q.size, q.align) && WellFormed(q, BlockIds())
      requires Fits(q, BlockIds(), start) && count == Needed(q, start)
      modifies this`last, this`used, this`runs, bitmap
      ensures Valid() && r.Placed? && r.run == Run(start, start + count)
      ensures start < start + count <= memSize / blockSize && runs == old(runs) + {r.run} && r.run !in old(runs)
      ensures forall other :: other in old(runs) ==> other.end <= r.run.start || r.run.end <= other.start
      ensures used == old(used) + count && last == start + count - 1
      ensures r.address % q.align == 0
      ensures base + r.run.start * blockSize <= r.address && r.address + q.size <= base + r.run.end * blockSize
      ensures r.address <= base + r.run.start * blockSize + (if q.align == 1 then 0 else q.align)
      ensures base + (r.run.end - 1) * blockSize < r.address + q.size
    {
      hide Fits, CeilDiv, Ids, GetId, RunsAre, Used, CanAlign, Paint, Uniform, FreeId, AlignOffset, Needed;
      ghost var ids := BlockIds();
      FitInside(q, ids, start);
      var id := ChooseId(start, start + count);
      PlacedIsNewRun(q, ids, start, id);
      AllocationAddsRun(ids, runs, start, start + count, id);
      UsedPainted(ids, start, start + count, id);
      AddressInRun(q, ids, start);
      SetIds(start, start + count, id);
      last := start + count - 1;
      used := used + count;
      runs := runs + {Run(start, start + count)};
      var address := Address(q, start);
      r := Placed(Run(start, start + count), address + AlignOffset(address, q.align));
    }

    /** The first block of the run that `block` belongs to, searched backwards. */
    method LeftEdge(block: nat) returns (a: nat)
      requires blockSize > 0 && block < memSize / blockSize <= PER_BYTE * bitmap.Length
      ensures a <= block && Uniform(BlockIds(), a, block + 1, BlockIds()[block])
      ensures a > 0 ==> BlockIds()[a - 1] != BlockIds()[block]
    {
      hide Ids, GetId;
      ghost var ids := BlockIds();
      var id := ReadId(bitmap, block);
      a := block;
      var here := id;
      while here == id && a != 0
        invariant 0 <= a <= block && here == ids[a] && Uniform(ids, a + 1, block + 1, id)
      {
        a := a - 1;
        here := ReadId(bitmap, a);
      }
      if here != id {
        a := a + 1;
      }
    }

    /** Clears ids from block a on while they equal `id`. */
    method ClearFrom(a: nat, id: Id) returns (b: nat)
      requires blockSize > 0 && a < memSize / blockSize <= PER_BYTE * bitmap.Length && id != 0
      modifies bitmap
      ensures a <= b <= memSize / blockSize && Uniform(old(BlockIds()), a, b, id)
      ensures b < memSize / blockSize ==> old(BlockIds())[b] != id
      ensures BlockIds() == Paint(old(BlockIds()), a, b, 0)
    {
      hide Ids, GetId;
      ghost var ids := BlockIds();
      b := a;
      while b < memSize / blockSize
        invariant a <= b <= memSize / blockSize && Uniform(ids, a, b, id) && BlockIds() == Paint(ids, a, b, 0)
      {
        var here := ReadId(bitmap, b);
        if here != id {
          break;
        }
        SetId(bitmap, b, 0);
        b := b + 1;
      }
    }

    /** `free`: clears exactly the run that holds the given byte and reports how many blocks that were. */
    method Free(offset: nat) returns (ok: bool, ghost run: Run, size: nat)
      requires Valid() && offset / blockSize < memSize / blockSize
      modifies this`used, this`runs, bitmap
      // the assertion fails exactly on a free block
      ensures ok <==> old(BlockIds()[offset / blockSize]) != 0
      ensures !ok ==> Valid() && runs == old(runs) && used == old(used) && BlockIds() == old(BlockIds())
      ensures ok ==> run in old(runs) && run.start <= offset / blockSize < run.end && runs == old(runs) - {run}
      ensures ok ==> size == run.end - run.start && used == old(used) - size
      ensures ok && run != Run(0, meta) ==> Valid()
    {
      hide RunsAre, Used, Ids, GetId, Paint;
      ghost var ids := BlockIds();
      var block := offset / blockSize;
      var id := ReadId(bitmap, block);
      if id == 0 {
        return false, Run(0, 0), 0;
      }
      var a := LeftEdge(block);
      var b := ClearFrom(a, id);
      RunFound(ids, runs, a, b, block);
      run := Run(a, b);
      size := b - a;
      FreeRemovesRun(ids, runs, a, b);
      UsedCleared(ids, a, b);
      runs := runs - {run};
      used := used - size;
      ok := true;
    }

    /** `size`: the bytes from the pointer to the end of its run, or of its gap. */
    method Size(offset: nat) returns (size: nat, ghost end: nat)
      requires Valid() && offset / blockSize < memSize / blockSize
      ensures offset / blockSize < end <= |BlockIds()| && size == end * blockSize - offset
      ensures Uniform(BlockIds(), offset / blockSize, end, BlockIds()[offset / blockSize])
      ensures end < |BlockIds()| ==> BlockIds()[end] != BlockIds()[offset / blockSize]
      ensures forall run :: run in runs && run.start <= offset / blockSize < run.end ==> end == run.end
    {
      hide Ids, GetId;
      ghost var ids := BlockIds();
      var block := offset / blockSize;
      var id := ReadId(bitmap, block);
      var count := 0;
      while block + count < memSize / blockSize
        invariant block + count <= memSize / blockSize && Uniform(ids, block, block + count, id)
      {
        var here := ReadId(bitmap, block + count);
        if here != id {
          break;
        }
        count := count + 1;
      }
      forall run | run in runs && run.start <= block < run.end
        ensures run.end == block + count
      {
        assert IsRun(ids, run.start, run.end);
      }
      BytesToEnd(offset, blockSize, count);
      end := block + count;
      size := count * blockSize - offset % blockSize;
    }
  }

  /**
   * 47 bytes in blocks of 16, straight after `expand`: the bitmap fills block 0, the 17 bytes
   * asked for are not more than the 31 bytes left, but need two blocks, and the loop never ends.
   */
  method HangsAfterExpand() returns (r: Placement)
    ensures r.Endless?
  {
    hide RunsAre, Used, NeverEnds, Ids, CeilDiv;
    MetaOfTwo();
    var c := new Chunk(0, 47, 16);
    SpinExample(c.BlockIds());
    r := c.Alloc(17, 1);
  }

  lemma MetaOfTwo()
    ensures CeilDiv(CeilDiv(47 / 16, PER_BYTE), 16) == 1
  {
  }

  lemma {:induction false} SpinExample(ids: seq<Id>)
    requires |ids| == 2 && ids[0] == 1 && ids[1] == 0
    ensures NeverEnds(Query(0, 16, 17, 1, 0), ids, 47)
  {
    hide Used, CeilDiv, AlignOffset, CanAlign;
    OneOfTwoUsed(ids);
    TwoNeeded();
  }

  lemma {:induction false} OneOfTwoUsed(ids: seq<Id>)
    requires |ids| == 2 && ids[0] != 0 && ids[1] == 0
    ensures Used(ids) == 1
  {
    assert Used(ids[..1]) == Used(ids[..1][..0]) + 1;
  }

  lemma TwoNeeded()
    ensures Needed(Query(0, 16, 17, 1, 0), 0) == 2 && Needed(Query(0, 16, 17, 1, 0), 1) == 2
  {
    assert CeilDiv(17, 16) == 2 by { assert 32 / 16 == 2; }
    hide CeilDiv;
    assert AlignOffset(0, 1) == 0 && AlignOffset(16, 1) == 0;
  }

  lemma {:induction false} BytesToEnd(offset: nat, blockSize: nat, count: nat)
    requires blockSize > 0 && count > 0
    ensures count * blockSize - offset % blockSize == (offset / blockSize + count) * blockSize - offset
    ensures count * blockSize >= offset % blockSize
  {
    DivMod(offset, blockSize);
    assert (offset / blockSize + count) * blockSize == (offset / blockSize) * blockSize + count * blockSize;
    MulMono(1, count, blockSize);
  }

  lemma {:induction false} RunFound(ids: seq<Id>, runs: set<Run>, a: nat, b: nat, block: nat)
    requires RunsAre(ids, runs) && block < |ids| && ids[block] != 0
    requires a <= block && Uniform(ids, a, block + 1, ids[block]) && (a > 0 ==> ids[a - 1] != ids[block])
    requires a <= b <= |ids| && Uniform(ids, a, b, ids[block]) && (b < |ids| ==> ids[b] != ids[block])
    ensures IsRun(ids, a, b) && Run(a, b) in runs && block < b
    ensures forall i :: a <= i < b ==> ids[i] != 0
  {
  }

  /** With the last allocation still in use, nothing is missed and the search ends. */
  lemma {:induction false} LastInUse(q: Query, ids: seq<Id>, memSize: nat)
    requires WellFormed(q, ids) && |ids| == memSize / q.blockSize && q.last > 0 && ids[q.last] != 0
    ensures !NeverEnds(q, ids, memSize) && (FindsNothing(q, ids, memSize) <==> NoRoom(q, ids, 0, |ids|))
  {
    hide CeilDiv, Used, CanAlign;
    if t :| 0 <= t < |ids| && RoomAt(q, ids, t) {
      PruneSound(q, ids, memSize, t);
    }
  }

  lemma {:induction false} MetadataFits(blockCount: nat, blockSize: nat)
    requires blockCount > 0 && blockSize > 0
    ensures 0 < CeilDiv(CeilDiv(blockCount, PER_BYTE), blockSize) <= blockCount
    ensures blockCount <= PER_BYTE * CeilDiv(blockCount, PER_BYTE)
  {
    hide CeilDiv;
    var bytes := CeilDiv(blockCount, PER_BYTE);
    var blocks := CeilDiv(bytes, blockSize);
    if blocks > bytes { MulMono(bytes + 1, blocks, blockSize); MulMono(1, blockSize, bytes); }
  }

  lemma {:induction false} BlankIds(bytes: seq<bv8>)
    requires forall i :: 0 <= i < |bytes| ==> bytes[i] == 0
    ensures forall i :: 0 <= i < PER_BYTE * |bytes| ==> Ids(bytes)[i] == 0
  {
    forall i | 0 <= i < PER_BYTE * |bytes|
      ensures Ids(bytes)[i] == 0
    {
      hide Shift;
      BlankPick(Shift(i));
    }
  }

  lemma BlankPick(s: nat)
    requires s == 0 || s == 2 || s == 4 || s == 6
    ensures Pick(0, s) == 0
  {
  }

  lemma {:induction false} BlankHasNoRuns(ids: seq<Id>)
    requires forall i :: 0 <= i < |ids| ==> ids[i] == 0
    ensures RunsAre(ids, {}) && Used(ids) == 0
    decreases |ids|
  {
    if |ids| > 0 { BlankHasNoRuns(ids[..|ids| - 1]); }
  }
}
