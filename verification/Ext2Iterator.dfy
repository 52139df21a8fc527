/**
 * The block iterator of an ext2 file.  It keeps the indirect blocks above the current file
 * block at hand and replaces only those that change on a step, allocating new ones while a
 * file is appended to.
 */
module Ext2Iterator {
  import opened Basics
  import opened Division
  import opened Ext2Geometry
  import opened Ext2BlockMap

  /** Offsets inside indirect blocks stay below n. */
  predicate InRange(p: Pointer, n: nat)
  {
    (p.triple != 0 ==> p.double < n) && (p.triple != 0 || p.double != 0 ==> p.single < n)
  }

  lemma {:induction false} LinearInRange(index: nat, n: nat)
    requires n > 0 && Addressable(index, n)
    ensures InRange(FromLinear(index, n), n)
  {
    hide Div, Mod, Addressable;
    if index >= DIRECT { DoubleInRange(index, n); }
  }

  // The triple, double and single indirect blocks above the place p points to.

  function TripleOf(m: Meta, p: Pointer): Option<nat>
  {
    if p.triple != 0 then Some(m.inode.triple) else None
  }

  function DoubleOf(m: Meta, n: nat, p: Pointer): Option<nat>
    requires InRange(p, n)
  {
    if p.triple != 0 then Some(Read(m.disk, n, m.inode.triple)[p.double])
    else if p.double != 0 then Some(m.inode.double) else None
  }

  function SingleOf(m: Meta, n: nat, p: Pointer): Option<nat>
    requires InRange(p, n)
  {
    match DoubleOf(m, n, p)
    case Some(block) => Some(Read(m.disk, n, block)[p.single])
    case None => if p.single != 0 then Some(m.inode.single) else None
  }

  function LinkDouble(m: Meta, n: nat, p: Pointer, block: nat): Meta
    requires InRange(p, n)
  {
    if p.triple != 0 then Write(m, n, m.inode.triple, p.double, block) else m.(inode := m.inode.(double := block))
  }

  function LinkSingle(m: Meta, n: nat, p: Pointer, block: nat): Meta
    requires InRange(p, n)
  {
    match DoubleOf(m, n, p)
    case Some(above) => Write(m, n, above, p.single, block)
    case None => m.(inode := m.inode.(single := block))
  }

  /** What an allocating step stores, read off the pointer it moves to. */
  function Linked(m: Meta, n: nat, p: Pointer, blocks: seq<nat>): Meta
    requires InRange(p, n)
  {
    var m1 := if |blocks| == 3 then m.(inode := m.inode.(triple := blocks[2])) else m;
    var m2 := if |blocks| >= 2 then LinkDouble(m1, n, p, blocks[1]) else m1;
    if |blocks| >= 1 then LinkSingle(m2, n, p, blocks[0]) else m2
  }

  lemma {:induction false} DoubleByGroup(m: Meta, n: nat, g: nat, slot: nat)
    requires n > 0 && Exists(Single(g), n) && InRange(GroupPointer(g, slot, n), n)
    ensures DoubleOf(m, n, GroupPointer(g, slot, n)) ==
            if g == 0 then None else Some(BlockOf(m, n, Double(Branch(g, n))))
  {
    hide Div, Mod;
    if g > 0 { BranchFacts(g, n); }
  }

  lemma {:induction false} SingleByGroup(m: Meta, n: nat, g: nat, slot: nat)
    requires n > 0 && Exists(Single(g), n) && InRange(GroupPointer(g, slot, n), n)
    ensures SingleOf(m, n, GroupPointer(g, slot, n)) == Some(BlockOf(m, n, Single(g)))
  {
    hide Div, Mod;
    DoubleByGroup(m, n, g, slot);
    if g > 0 { BranchFacts(g, n); }
  }

  lemma {:induction false} LinkByGroup(m: Meta, n: nat, g: nat, slot: nat, block: nat)
    requires n > 0 && Exists(Single(g), n) && InRange(GroupPointer(g, slot, n), n)
    ensures LinkSingle(m, n, GroupPointer(g, slot, n), block) == SetSingle(m, n, g, block)
    ensures g > 0 ==> LinkDouble(m, n, GroupPointer(g, slot, n), block) == SetDouble(m, n, Branch(g, n), block)
  {
    hide Div, Mod;
    DoubleByGroup(m, n, g, slot);
    if g > 0 { BranchFacts(g, n); }
  }

  /** The links stored by pointer are the ones that growing the file by group prescribes. */
  lemma {:induction false} LinkedIsGrow(m: Meta, n: nat, index: nat, blocks: seq<nat>)
    requires n > 0 && Addressable(index, n) && |blocks| == NewLevels(index, n)
    ensures InRange(FromLinear(index, n), n)
    ensures index >= DIRECT ==> Exists(Single(Group(index, n)), n)
    ensures Linked(m, n, FromLinear(index, n), blocks) == Grow(m, n, index, blocks)
  {
    hide Div, Mod, Addressable, LinkDouble, LinkSingle, SetDouble, SetSingle, GroupPointer;
    LinearInRange(index, n);
    if index >= DIRECT {
      FromLinearByGroup(index, n);
      AddressableGroup(index, n);
      var g, slot := Group(index, n), Slot(index, n);
      var m1 := if |blocks| == 3 then m.(inode := m.inode.(triple := blocks[2])) else m;
      if |blocks| >= 2 {
        LinkByGroup(m1, n, g, slot, blocks[1]);
        LinkByGroup(SetDouble(m1, n, Branch(g, n), blocks[1]), n, g, slot, blocks[0]);
      } else if |blocks| == 1 {
        LinkByGroup(m1, n, g, slot, blocks[0]);
      }
    }
  }

  /** The double indirect block found before the single one is linked is still found afterwards. */
  lemma {:induction false} LinkKeepsDouble(m: Meta, n: nat, p: Pointer, block: nat)
    requires InRange(p, n)
    requires p.triple != 0 ==> DoubleOf(m, n, p) != Some(m.inode.triple)
    ensures DoubleOf(LinkSingle(m, n, p, block), n, p) == DoubleOf(m, n, p)
    ensures TripleOf(LinkSingle(m, n, p, block), p) == TripleOf(m, p)
  {
  }

  /** While a file grows the double indirect block in use is never the triple one. */
  lemma {:induction false} DoubleIsNotTriple(m: Meta, n: nat, index: nat, blocks: seq<nat>)
    requires n > 0 && Addressable(index, n) && |blocks| == NewLevels(index, n) && |blocks| > 0
    requires FileApart(m, n, index) && AllFresh(m, n, index, blocks)
    ensures var p := FromLinear(index, n);
            var m1 := if |blocks| == 3 then m.(inode := m.inode.(triple := blocks[2])) else m;
            InRange(p, n) &&
            var m2 := if |blocks| >= 2 then LinkDouble(m1, n, p, blocks[1]) else m1;
            p.triple != 0 ==> DoubleOf(m2, n, p) != Some(m2.inode.triple)
  {
    hide Div, Mod, Addressable;
    LinearInRange(index, n);
    var p := FromLinear(index, n);
    if p.triple != 0 {
      FromLinearByGroup(index, n);
      AddressableGroup(index, n);
      CountsStep(index, n);
      var g := Group(index, n);
      var G, D := Groups(index, n), Branches(index, n);
      BranchFacts(g, n);
      if |blocks| == 1 {
        DoubleByGroup(m, n, g, Slot(index, n));
        assert InUse(Double(Branch(g, n)), n, G, D) && InUse(Triple, n, G, D);
      } else if |blocks| == 2 {
        assert InUse(Triple, n, G, D);
        assert BlockOf(m, n, Triple) == m.inode.triple;
      }
    }
  }

  lemma {:induction false} StoreKeepsAtHand(m: Meta, n: nat, index: nat, block: nat)
    requires n > 0 && Addressable(index, n) && FileApart(m, n, index + 1)
    requires InRange(FromLinear(index, n), n) && (index >= DIRECT ==> Exists(Single(Group(index, n)), n))
    ensures var k, p := SetPointer(m, n, index, block), FromLinear(index, n);
            && TripleOf(k, p) == TripleOf(m, p) && DoubleOf(k, n, p) == DoubleOf(m, n, p)
            && SingleOf(k, n, p) == SingleOf(m, n, p)
  {
    hide Div, Mod, Addressable;
    if index >= DIRECT {
      var g, slot := Group(index, n), Slot(index, n);
      var G, D := Groups(index + 1, n), Branches(index + 1, n);
      var k := SetPointer(m, n, index, block);
      FromLinearByGroup(index, n);
      CountsStep(index, n);
      DoubleByGroup(m, n, g, slot);
      DoubleByGroup(k, n, g, slot);
      SingleByGroup(m, n, g, slot);
      SingleByGroup(k, n, g, slot);
      assert InUse(Single(g), n, G, D);
      PointerStoredAt(m, n, G, D, index, block, Single(g));
      if g > 0 {
        PointerStoredAt(m, n, G, D, index, block, Double(Branch(g, n)));
      }
    }
  }

  /** The state in which the i-th block of an append is added. */
  lemma {:induction false} AppendStep(m: Meta, n: nat, first: nat, blocks: seq<nat>, supply: seq<seq<nat>>, i: nat)
    requires n > 0 && Due(n, first, blocks, supply) && FileApart(m, n, first) && SupplyFresh(m, n, first, supply)
    requires i < |blocks|
    ensures Addressable(first + i, n) && |supply[i]| == NewLevels(first + i, n)
    ensures Due(n, first, blocks[..i], supply[..i]) && Due(n, first, blocks[..i + 1], supply[..i + 1])
    ensures first + i >= DIRECT ==> Exists(Single(Group(first + i, n)), n)
    ensures var k := AppendAll(m, n, first, blocks[..i], supply[..i]);
            && FileApart(k, n, first + i) && AllFresh(k, n, first + i, supply[i])
            && FileApart(Grow(k, n, first + i, supply[i]), n, first + i + 1)
            && AppendAll(m, n, first, blocks[..i + 1], supply[..i + 1]) ==
               SetPointer(Grow(k, n, first + i, supply[i]), n, first + i, blocks[i])
  {
    hide Div, Mod, Resolve, NewLevels, Branch, Group, Slot, Grow, SetPointer, Groups, Branches, Fresh, Apart, Counts;
    assert Addressable(first + i, n);
    PrefixSupply(m, n, first, supply, i);
    AppendedAll(m, n, first, blocks[..i], supply[..i]);
    var k := AppendAll(m, n, first, blocks[..i], supply[..i]);
    assert AllFresh(m, n, first, supply[i]);
    forall j | 0 <= j < |supply[i]|
      ensures Fresh(k, n, Groups(first + i, n), Branches(first + i, n), supply[i][j])
    {
      assert supply[i][j] in supply[i];
    }
    AppendSteps(k, n, first + i, supply[i]);
    var b, s := blocks[..i + 1], supply[..i + 1];
    assert b[..i] == blocks[..i] && s[..i] == supply[..i] && b[i] == blocks[i] && s[i] == supply[i];
  }

  lemma {:induction false} PrefixSupply(m: Meta, n: nat, index: nat, supply: seq<seq<nat>>, i: nat)
    requires n > 0 && i <= |supply| && SupplyFresh(m, n, index, supply)
    ensures SupplyFresh(m, n, index, supply[..i])
  {
    hide AllFresh, Outside;
    if i == |supply| { assert supply[..i] == supply; } else { EarlierSupply(m, n, index, supply, i); }
  }

  lemma {:induction false} NothingAppended(m: Meta, n: nat, first: nat, blocks: seq<nat>, supply: seq<seq<nat>>)
    requires n > 0 && |m.inode.direct| == DIRECT
    ensures Due(n, first, blocks[..0], supply[..0]) && AppendAll(m, n, first, blocks[..0], supply[..0]) == m
  {
  }

  class BlockIterator {
    const n: nat
    var index: nat
    var pointer: Pointer
    var meta: Meta
    var triple: Option<nat>
    var double: Option<nat>
    var single: Option<nat>

    /** The blocks at hand are the ones above the place `pointer` points to. */
    ghost predicate AtHand()
      reads this
    {
      && n > 0 && |meta.inode.direct| == DIRECT && InRange(pointer, n)
      && triple == TripleOf(meta, pointer)
      && double == DoubleOf(meta, n, pointer)
      && single == SingleOf(meta, n, pointer)
    }

    ghost predicate Valid()
      reads this
    {
      AtHand() && Addressable(index, n) && pointer == FromLinear(index, n)
    }

    constructor (offset: nat, inode: Inode, disk: Disk, blockSize: nat)
      requires blockSize >= 4 && |inode.direct| == DIRECT && Addressable(offset / blockSize, blockSize / 4)
      ensures Valid() && n == blockSize / 4 && index == offset / blockSize && meta == Meta(inode, disk)
    {
      n := blockSize / 4;
      index := offset / blockSize;
      pointer := Pointer(0, 0, 0, 0);
      meta := Meta(inode, disk);
      triple, double, single := None, None, None;
      new;
      LinearInRange(index, n);
      var target := FromLinear(index, n);
      UpdateBlocks(target, false, []);
      pointer := target;
    }

    /** Replaces the blocks at hand that differ above `next`; `blocks` are the newly allocated ones. */
    method UpdateBlocks(next: Pointer, allocate: bool, blocks: seq<nat>)
      requires AtHand() && InRange(next, n)
      requires allocate ==> |blocks| == Invalidated(pointer, next)
      requires allocate && |blocks| > 0 && next.triple != 0 ==>
                 var m1 := if |blocks| == 3 then meta.(inode := meta.inode.(triple := blocks[2])) else meta;
                 var m2 := if |blocks| >= 2 then LinkDouble(m1, n, next, blocks[1]) else m1;
                 DoubleOf(m2, n, next) != Some(m2.inode.triple)
      modifies this`meta, this`triple, this`double, this`single
      ensures meta == if allocate then Linked(old(meta), n, next, blocks) else old(meta)
      ensures meta.inode.direct == old(meta.inode.direct)
      ensures triple == TripleOf(meta, next) && double == DoubleOf(meta, n, next) && single == SingleOf(meta, n, next)
    {
      var count := Invalidated(pointer, next);
      if count == 3 {
        triple := None;
        if allocate {
          meta := meta.(inode := meta.inode.(triple := blocks[2]));
        }
        if next.triple != 0 {
          triple := Some(meta.inode.triple);
        }
      }
      assert triple == TripleOf(meta, next);
      if count >= 2 {
        double := None;
        if allocate {
          if triple.Some? {
            meta := Write(meta, n, triple.value, next.double, blocks[1]);
          } else {
            meta := meta.(inode := meta.inode.(double := blocks[1]));
          }
        }
        if triple.Some? {
          double := Some(Read(meta.disk, n, triple.value)[next.double]);
        } else if next.double != 0 {
          double := Some(meta.inode.double);
        }
      }
      assert double == DoubleOf(meta, n, next);
      if count >= 1 {
        single := None;
        if allocate {
          LinkKeepsDouble(meta, n, next, blocks[0]);
          if double.Some? {
            meta := Write(meta, n, double.value, next.single, blocks[0]);
          } else {
            meta := meta.(inode := meta.inode.(single := blocks[0]));
          }
        }
        if double.Some? {
          single := Some(Read(meta.disk, n, double.value)[next.single]);
        } else if next.single != 0 {
          single := Some(meta.inode.single);
        }
      }
    }

    /** The block number of the current file block, found with one look into a block at hand. */
    method Get() returns (block: nat)
      requires Valid()
      ensures block == Resolve(meta, n, index)
    {
      if index < DIRECT {
        block := meta.inode.direct[index];
      } else {
        FromLinearByGroup(index, n);
        ResolveByGroup(meta, n, index);
        SingleByGroup(meta, n, Group(index, n), Slot(index, n));
        block := Read(meta.disk, n, single.value)[pointer.direct];
      }
    }

    method Next()
      requires Valid() && Addressable(index + 1, n)
      modifies this
      ensures Valid() && index == old(index) + 1 && meta == old(meta)
    {
      hide Div, Mod, Addressable, FromLinear;
      index := index + 1;
      LinearInRange(index, n);
      var target := FromLinear(index, n);
      UpdateBlocks(target, false, []);
      pointer := target;
    }

    method NextAllocating(blocks: seq<nat>)
      requires Valid() && Addressable(index + 1, n) && |blocks| == NewLevels(index + 1, n)
      requires FileApart(meta, n, index + 1) && AllFresh(meta, n, index + 1, blocks)
      modifies this
      ensures Valid() && index == old(index) + 1
      ensures index >= DIRECT ==> Exists(Single(Group(index, n)), n)
      ensures meta == Grow(old(meta), n, index, blocks)
    {
      hide Div, Mod, Addressable, FromLinear, NewLevels, FileApart, AllFresh, Grow;
      index := index + 1;
      LinearInRange(index, n);
      var target := FromLinear(index, n);
      InvalidatedMeaning(index, n);
      LinkedIsGrow(meta, n, index, blocks);
      if |blocks| > 0 { DoubleIsNotTriple(meta, n, index, blocks); }
      UpdateBlocks(target, true, blocks);
      pointer := target;
    }

    /** Stores the number of a data block at the current place. */
    method Store(block: nat)
      requires Valid() && FileApart(meta, n, index + 1)
      modifies this`meta
      ensures index >= DIRECT ==> Exists(Single(Group(index, n)), n)
      ensures Valid() && meta == SetPointer(old(meta), n, index, block)
    {
      ghost var m := meta;
      if index >= DIRECT {
        FromLinearByGroup(index, n);
        ResolveByGroup(meta, n, index);
        SingleByGroup(meta, n, Group(index, n), Slot(index, n));
      }
      if single.Some? {
        meta := Write(meta, n, single.value, pointer.direct, block);
      } else {
        meta := meta.(inode := meta.inode.(direct := meta.inode.direct[pointer.direct := block]));
      }
      StoreKeepsAtHand(m, n, index, block);
    }

    /**
     * Appends data blocks to a file whose last block is the current one.  `supply[i]` are the
     * indirect blocks the allocator hands out for the i-th of them.
     */
    method AppendBlocks(blocks: seq<nat>, supply: seq<seq<nat>>)
      requires Valid() && Due(n, index + 1, blocks, supply)
      requires FileApart(meta, n, index + 1) && SupplyFresh(meta, n, index + 1, supply)
      modifies this
      ensures Valid() && index == old(index) + |blocks|
      ensures meta == AppendAll(old(meta), n, old(index) + 1, blocks, supply)
      ensures Unmoved(old(meta), meta, n, old(index) + 1)
      ensures Holds(meta, n, old(index) + 1, blocks)
      ensures FileApart(meta, n, index + 1)
    {
      hide FromLinear, Addressable, Resolve, FileApart, SupplyFresh, AppendAll, TripleOf, DoubleOf, SingleOf, InRange;
      hide Unmoved, Holds, NewLevels;
      ghost var first, m := index + 1, meta;
      var i := 0;
      NothingAppended(m, n, first, blocks, supply);
      while i < |blocks|
        invariant 0 <= i <= |blocks| && InProgress(m, first, blocks, supply, i)
      {
        AppendOne(m, first, blocks, supply, i);
        i := i + 1;
      }
      assert blocks[..i] == blocks && supply[..i] == supply;
      AppendedAll(m, n, first, blocks, supply);
    }

    /** i blocks have been appended since the file had `first` blocks and state m. */
    ghost predicate InProgress(m: Meta, first: nat, blocks: seq<nat>, supply: seq<seq<nat>>, i: nat)
      reads this
    {
      && i <= |blocks| == |supply| && Valid() && index + 1 == first + i
      && |m.inode.direct| == DIRECT && Due(n, first, blocks[..i], supply[..i])
      && meta == AppendAll(m, n, first, blocks[..i], supply[..i])
    }

    method AppendOne(ghost m: Meta, ghost first: nat, blocks: seq<nat>, supply: seq<seq<nat>>, i: nat)
      requires n > 0 && Due(n, first, blocks, supply) && FileApart(m, n, first) && SupplyFresh(m, n, first, supply)
      requires i < |blocks| && InProgress(m, first, blocks, supply, i)
      modifies this
      ensures InProgress(m, first, blocks, supply, i + 1)
    {
      hide FromLinear, Addressable, NewLevels, FileApart, SupplyFresh, AllFresh, AppendAll, Grow, SetPointer, Group;
      hide Exists, TripleOf, DoubleOf, SingleOf, InRange;
      AppendStep(m, n, first, blocks, supply, i);
      NextAllocating(supply[i]);
      Store(blocks[i]);
    }
  }
}
