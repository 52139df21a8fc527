/**
 * Appending to an ext2 file with blocks from the volume: every indirect block comes out of
 * `allocate_blocks`, and the block bitmap is what keeps it apart from those in use.
 */
module Ext2Append {
  import opened Ext2Geometry
  import opened Ext2BlockMap
  import opened Ext2Iterator
  import opened Ext2Allocation

  /** The block is in use according to the bitmaps of the volume. */
  ghost predicate IsMarked(v: Volume, b: nat)
  {
    Ext2Allocation.WellFormed(v) && b < |Flat(v, |v.groups|)| && Flat(v, |v.groups|)[b]
  }

  /** The indirect blocks of a file of `count` blocks are in use. */
  ghost predicate IndirectMarked(m: Meta, n: nat, count: nat, v: Volume)
    requires n > 0
  {
    forall key :: InUse(key, n, Groups(count, n), Branches(count, n)) ==> IsMarked(v, BlockOf(m, n, key))
  }

  /** An allocation of all the blocks that were asked for. */
  ghost predicate Granted(v: Volume, r: Volume, blocks: seq<nat>)
  {
    && Agrees(v) && AllocatedTo(v, r, |blocks|) && |blocks| <= v.free && Reaches(v, |blocks|)
    && blocks == Chosen(v, |v.groups|, |blocks|)
  }

  lemma {:induction false} GrantedMarks(v: Volume, r: Volume, blocks: seq<nat>)
    requires Granted(v, r, blocks)
    ensures forall b :: IsMarked(v, b) ==> IsMarked(r, b)
    ensures forall b :: b in blocks ==> !IsMarked(v, b) && IsMarked(r, b)
    ensures forall i, j :: 0 <= i < j < |blocks| ==> blocks[i] != blocks[j]
    ensures Agrees(r)
  {
    hide Chosen, Flat, Agrees, Reaches, AllocatedTo;
    AgreesMeans(v);
    AllocationExactIff(v, r, |blocks|);
    FlatLength(v, |v.groups|);
    forall b | 0 <= b < v.blockCount
      ensures IsMarked(v, b) ==> IsMarked(r, b)
      ensures b in blocks ==> !IsMarked(v, b) && IsMarked(r, b)
    {
      AllocationMeaning(v, r, |blocks|, b);
    }
    if v.blockCount > 0 { AllocationMeaning(v, r, |blocks|, 0); }
  }

  /** What the volume hands out is fresh for every file whose indirect blocks it knows to be in use. */
  lemma {:induction false} GrantedIsFresh(m: Meta, n: nat, count: nat, v: Volume, r: Volume, blocks: seq<nat>)
    requires n > 0 && Granted(v, r, blocks) && IndirectMarked(m, n, count, v)
    ensures AllFresh(m, n, count, blocks) && IndirectMarked(m, n, count, r)
  {
    hide Granted, IsMarked, BlockOf, InUse;
    GrantedMarks(v, r, blocks);
    forall i | 0 <= i < |blocks|
      ensures Fresh(m, n, Groups(count, n), Branches(count, n), blocks[i])
    {
      assert blocks[i] in blocks;
    }
  }

  /** Allocations one after the other. */
  ghost predicate Grants(vs: seq<Volume>, supply: seq<seq<nat>>)
  {
    |vs| == |supply| + 1 && forall i :: 0 <= i < |supply| ==> Granted(vs[i], vs[i + 1], supply[i])
  }

  lemma {:induction false} MarksStay(vs: seq<Volume>, supply: seq<seq<nat>>, i: nat, j: nat, b: nat)
    requires Grants(vs, supply) && i <= j < |vs| && IsMarked(vs[i], b)
    ensures IsMarked(vs[j], b)
    decreases j
  {
    hide Granted, IsMarked;
    if i < j {
      MarksStay(vs, supply, i, j - 1, b);
      assert vs[j - 1 + 1] == vs[j];
      GrantedMarks(vs[j - 1], vs[j], supply[j - 1]);
    }
  }

  /** Consecutive allocations are a supply that an append can use. */
  lemma {:induction false} GrantsAreFresh(m: Meta, n: nat, count: nat, vs: seq<Volume>, supply: seq<seq<nat>>)
    requires n > 0 && Grants(vs, supply) && IndirectMarked(m, n, count, vs[0])
    ensures SupplyFresh(m, n, count, supply)
  {
    hide Granted, IsMarked, BlockOf, AllFresh;
    forall i | 0 <= i < |supply|
      ensures AllFresh(m, n, count, supply[i]) && forall b :: b in supply[i] ==> Outside(b, supply[..i])
    {
      forall key | InUse(key, n, Groups(count, n), Branches(count, n))
        ensures IsMarked(vs[i], BlockOf(m, n, key))
      {
        MarksStay(vs, supply, 0, i, BlockOf(m, n, key));
      }
      GrantedIsFresh(m, n, count, vs[i], vs[i + 1], supply[i]);
      GrantedMarks(vs[i], vs[i + 1], supply[i]);
      forall b, j | b in supply[i] && 0 <= j < i && b in supply[j]
        ensures false
      {
        GrantedMarks(vs[j], vs[j + 1], supply[j]);
        MarksStay(vs, supply, j + 1, i, b);
      }
    }
  }

  /** After an append with such blocks the indirect blocks are in use again. */
  lemma {:induction false} AppendKeepsMarks(m: Meta, n: nat, index: nat, v: Volume, r: Volume, blocks: seq<nat>,
                                            block: nat)
    requires n > 0 && Addressable(index, n) && |blocks| == NewLevels(index, n) && FileApart(m, n, index)
    requires Granted(v, r, blocks) && IndirectMarked(m, n, index, v)
    ensures index >= DIRECT ==> Exists(Single(Group(index, n)), n)
    ensures IndirectMarked(Append(m, n, index, blocks, block), n, index + 1, r)
  {
    hide Granted, IsMarked, BlockOf, Addressable, NewLevels, Append, Counts, Apart, AllFresh, Resolve, Groups, Branches;
    GrantedIsFresh(m, n, index, v, r, blocks);
    GrantedMarks(v, r, blocks);
    Appended(m, n, index, blocks, block);
    var k := Append(m, n, index, blocks, block);
    forall key | InUse(key, n, Groups(index + 1, n), Branches(index + 1, n))
      ensures IsMarked(r, BlockOf(k, n, key))
    {
      var b := BlockOf(k, n, key);
      assert !Fresh(k, n, Groups(index + 1, n), Branches(index + 1, n), b);
    }
  }

  // ------------------------------------------------------------ how much the volume can give

  /** The blocks that can be handed out: a full last group is never looked at. */
  function Available(v: Volume): nat
    requires v.perGroup > 0 && |v.groups| > 0
  {
    if v.blockCount % v.perGroup != 0 then v.free else FreeUpto(v, |v.groups| - 1)
  }

  lemma {:induction false} AvailableMeans(v: Volume, count: nat)
    requires Agrees(v)
    ensures v.perGroup > 0 && |v.groups| > 0
    ensures count <= v.free && Reaches(v, count) <==> count <= Available(v)
  {
    assert FreeUpto(v, |v.groups|) == FreeUpto(v, |v.groups| - 1) + v.groups[|v.groups| - 1].free;
  }

  lemma {:induction false} AvailableAfter(v: Volume, r: Volume, blocks: seq<nat>)
    requires Granted(v, r, blocks)
    ensures r.perGroup > 0 && |r.groups| > 0 && v.perGroup > 0 && |v.groups| > 0
    ensures Available(r) == Available(v) - |blocks|
  {
    hide Chosen, Flat, Limit, Size, GroupAgrees;
    AllocationExactIff(v, r, |blocks|);
    var last := |v.groups| - 1;
    forall h | 0 <= h < last
      ensures Limit(v, h) == Size(v, h)
    {
      LimitIsSize(v, h);
    }
    UptoAgrees(v, r, last, |blocks|);
  }

  /** `allocate_blocks` as `update_blocks` calls it: `ok` is what the source asserts. */
  method Grant(volume: BlockAllocator, count: nat) returns (blocks: seq<nat>, ok: bool)
    requires volume.Valid() && Agrees(volume.State())
    modifies volume, volume.bitmaps
    ensures volume.Valid()
    ensures ok <==> count <= Available(old(volume.State()))
    ensures ok ==> |blocks| == count && Granted(old(volume.State()), volume.State(), blocks)
    ensures ok ==> Agrees(volume.State()) && Available(volume.State()) == Available(old(volume.State())) - count
  {
    hide Agrees, Chosen, AllocatedTo, Available, Reaches;
    ghost var v := volume.State();
    AvailableMeans(v, count);
    blocks := volume.AllocateBlocks(count);
    ok := |blocks| == count;
    if count <= v.free { AllocationExactIff(v, volume.State(), count); }
    if ok {
      GrantedMarks(v, volume.State(), blocks);
      AvailableAfter(v, volume.State(), blocks);
    }
  }

  /** How many indirect blocks become due while a file of `first` blocks grows by k. */
  function LevelsDue(first: nat, k: nat, n: nat): nat
    requires n > 0
  {
    if k == 0 then 0 else LevelsDue(first, k - 1, n) + NewLevels(first + k - 1, n)
  }

  lemma {:induction false} LevelsGrow(first: nat, j: nat, k: nat, n: nat)
    requires n > 0 && j <= k
    ensures LevelsDue(first, j, n) <= LevelsDue(first, k, n)
    decreases k
  {
    hide NewLevels;
    if j < k { LevelsGrow(first, j, k - 1, n); }
  }

  lemma {:induction false} AddressableBelow(a: nat, b: nat, n: nat)
    requires Addressable(b, n) && a <= b
    ensures Addressable(a, n)
  {
  }

  /** File and volume once i data blocks have been appended to a file that had `first` blocks and state m. */
  ghost predicate Appending(it: BlockIterator, volume: BlockAllocator, m: Meta, first: nat, blocks: seq<nat>, i: nat)
    reads it, volume, volume.bitmaps
  {
    && it.Valid() && volume.Valid() && |m.inode.direct| == DIRECT
    && it.index + 1 == first + i && i <= |blocks|
    && Agrees(volume.State())
    && FileApart(it.meta, it.n, first + i) && IndirectMarked(it.meta, it.n, first + i, volume.State())
    && Unmoved(m, it.meta, it.n, first) && Holds(it.meta, it.n, first, blocks[..i])
  }

  lemma {:induction false} NothingYet(m: Meta, n: nat, first: nat, blocks: seq<nat>)
    requires n > 0 && |m.inode.direct| == DIRECT
    ensures Unmoved(m, m, n, first) && Holds(m, n, first, blocks[..0])
  {
  }

  /** One more append keeps the earlier blocks and adds the new one. */
  lemma {:induction false} OneAppended(m: Meta, before: Meta, after: Meta, n: nat, first: nat, blocks: seq<nat>, i: nat)
    requires n > 0 && |m.inode.direct| == DIRECT && |before.inode.direct| == DIRECT && |after.inode.direct| == DIRECT
    requires i < |blocks| && Unmoved(m, before, n, first) && Holds(before, n, first, blocks[..i])
    requires Addressable(first + i, n) && Resolve(after, n, first + i) == blocks[i]
    requires forall j :: 0 <= j < first + i && Addressable(j, n) ==> Resolve(after, n, j) == Resolve(before, n, j)
    ensures Unmoved(m, after, n, first) && Holds(after, n, first, blocks[..i + 1])
  {
    hide Resolve, Addressable, Holds;
    HoldsOneMore(before, after, n, first, blocks, i);
  }

  /** `append_blocks` for one data block, with its indirect blocks from the volume. */
  method AppendOne(it: BlockIterator, volume: BlockAllocator, ghost m: Meta, ghost first: nat, blocks: seq<nat>, i: nat)
    returns (ok: bool)
    requires Appending(it, volume, m, first, blocks, i) && i < |blocks| && Addressable(first + i, it.n)
    modifies it, volume, volume.bitmaps
    ensures ok <==> NewLevels(first + i, it.n) <= Available(old(volume.State()))
    ensures volume.Valid()
    ensures ok ==> Appending(it, volume, m, first, blocks, i + 1)
    ensures ok ==> Available(volume.State()) == Available(old(volume.State())) - NewLevels(first + i, it.n)
  {
    hide Agrees, Available, FileApart, IndirectMarked, AllFresh, Unmoved, Holds, Addressable, FromLinear, NewLevels;
    hide Resolve, Granted;
    hide Grow, SetPointer, Exists, Group, Fresh;
    ghost var before, v := it.meta, volume.State();
    var due := NewLevels(it.index + 1, it.n);
    var indirect;
    indirect, ok := Grant(volume, due);
    if !ok {
      return;
    }
    GrantedIsFresh(before, it.n, it.index + 1, v, volume.State(), indirect);
    AppendKeepsMarks(before, it.n, it.index + 1, v, volume.State(), indirect, blocks[i]);
    Appended(before, it.n, it.index + 1, indirect, blocks[i]);
    AppendSteps(before, it.n, it.index + 1, indirect);
    it.NextAllocating(indirect);
    it.Store(blocks[i]);
    OneAppended(m, before, it.meta, it.n, first, blocks, i);
  }

  /**
   * Appends data blocks to a file whose last block is the current one, taking the indirect
   * blocks from the volume.  It comes through exactly when the volume has that many to give.
   */
  method AppendBlocks(it: BlockIterator, volume: BlockAllocator, blocks: seq<nat>) returns (ok: bool)
    requires it.Valid() && volume.Valid() && Agrees(volume.State()) && Addressable(it.index + |blocks|, it.n)
    requires FileApart(it.meta, it.n, it.index + 1) && IndirectMarked(it.meta, it.n, it.index + 1, volume.State())
    modifies it, volume, volume.bitmaps
    ensures ok <==> LevelsDue(old(it.index) + 1, |blocks|, it.n) <= Available(old(volume.State()))
    ensures ok ==> Appending(it, volume, old(it.meta), old(it.index) + 1, blocks, |blocks|)
    ensures ok ==>
              Available(volume.State()) == Available(old(volume.State())) - LevelsDue(old(it.index) + 1, |blocks|, it.n)
  {
    hide Agrees, Available, FileApart, IndirectMarked, Unmoved, Holds, Addressable, FromLinear, NewLevels;
    ghost var m, first := it.meta, it.index + 1;
    NothingYet(m, it.n, first, blocks);
    AvailableMeans(volume.State(), 0);
    var i := 0;
    while i < |blocks|
      invariant 0 <= i <= |blocks| && Appending(it, volume, m, first, blocks, i)
      invariant LevelsDue(first, i, it.n) <= Available(old(volume.State()))
      invariant Available(volume.State()) == Available(old(volume.State())) - LevelsDue(first, i, it.n)
    {
      AddressableBelow(first + i, old(it.index) + |blocks|, it.n);
      LevelsGrow(first, i + 1, |blocks|, it.n);
      ok := AppendOne(it, volume, m, first, blocks, i);
      if !ok {
        return;
      }
      i := i + 1;
    }
    ok := true;
  }

  /** A file of at most one block has no indirect blocks. */
  lemma {:induction false} ShortFile(m: Meta, n: nat, count: nat, v: Volume)
    requires n > 0 && count <= 1 && |m.inode.direct| == DIRECT
    ensures FileApart(m, n, count) && IndirectMarked(m, n, count, v)
  {
    NoGroups(m, n, count);
  }

  lemma {:induction false} FirstStored(before: Meta, stored: Meta, after: Meta, n: nat, blocks: seq<nat>)
    requires n > 0 && |blocks| > 0 && |before.inode.direct| == |after.inode.direct| == DIRECT
    requires stored == SetPointer(before, n, 0, blocks[0]) && |stored.inode.direct| == DIRECT
    requires Unmoved(stored, after, n, 1) && Holds(after, n, 1, blocks[1..])
    ensures Holds(after, n, 0, blocks)
  {
    assert Resolve(stored, n, 0) == blocks[0];
    assert Resolve(after, n, 0) == blocks[0];
    hide Resolve, Addressable;
    forall i | 0 <= i < |blocks|
      ensures HoldsAt(after, n, 0, blocks, i)
    {
      if i > 0 { assert HoldsAt(after, n, 1, blocks[1..], i - 1) && blocks[1..][i - 1] == blocks[i]; }
    }
  }

  /** The growing of a file in `write`: the first block of an empty file is set, the others are appended. */
  method ExtendFile(it: BlockIterator, volume: BlockAllocator, blocks: seq<nat>, empty: bool) returns (ok: bool)
    requires it.Valid() && volume.Valid() && Agrees(volume.State()) && |blocks| > 0 && (empty ==> it.index == 0)
    requires Addressable(it.index + |blocks| - (if empty then 1 else 0), it.n)
    requires var count := if empty then 0 else it.index + 1;
             FileApart(it.meta, it.n, count) && IndirectMarked(it.meta, it.n, count, volume.State())
    modifies it, volume, volume.bitmaps
    ensures var count := if empty then 0 else old(it.index) + 1;
            && (ok <==> LevelsDue(count, |blocks|, it.n) <= Available(old(volume.State())))
            && (ok ==> it.Valid() && volume.Valid() && Agrees(volume.State()) && it.index + 1 == count + |blocks|)
            && (ok ==> Unmoved(old(it.meta), it.meta, it.n, count) && Holds(it.meta, it.n, count, blocks))
            && (ok ==> FileApart(it.meta, it.n, it.index + 1))
            && (ok ==> IndirectMarked(it.meta, it.n, it.index + 1, volume.State()))
  {
    hide Agrees, Available, FileApart, IndirectMarked, Unmoved, Holds, Addressable, FromLinear, NewLevels, SetPointer;
    ghost var before := it.meta;
    if !empty {
      ok := AppendBlocks(it, volume, blocks);
      assert blocks[..|blocks|] == blocks;
      return;
    }
    ShortFile(before, it.n, 1, volume.State());
    it.Store(blocks[0]);
    ghost var stored := it.meta;
    ShortFile(stored, it.n, 1, volume.State());
    FirstIsFree(|blocks|, it.n);
    ok := AppendBlocks(it, volume, blocks[1..]);
    if ok {
      assert blocks[1..][..|blocks| - 1] == blocks[1..];
      FirstStored(before, stored, it.meta, it.n, blocks);
      NothingBefore(before, it.meta, it.n);
    }
  }

  /** The first block of a file needs no indirect block. */
  lemma {:induction false} FirstIsFree(k: nat, n: nat)
    requires n > 0 && k > 0
    ensures LevelsDue(0, k, n) == LevelsDue(1, k - 1, n)
  {
    if k > 1 {
      FirstIsFree(k - 1, n);
    } else {
      assert NewLevels(0, n) == 0;
    }
  }

  lemma {:induction false} NothingBefore(m: Meta, k: Meta, n: nat)
    requires n > 0 && |m.inode.direct| == DIRECT && |k.inode.direct| == DIRECT
    ensures Unmoved(m, k, n, 0)
  {
  }
}
