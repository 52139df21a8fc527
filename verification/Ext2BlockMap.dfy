/**
 * Growing an ext2 file: the pointers kept in the inode and in indirect blocks, and what an
 * append changes in them.  `Meta` is one inode together with the blocks of the device read
 * as pointer arrays; `Resolve` finds the block number of the index-th block of the file.
 */
module Ext2BlockMap {
  import opened Division
  import opened Ext2Geometry

  datatype Inode = Inode(direct: seq<nat>, single: nat, double: nat, triple: nat)
  type Disk = map<nat, seq<nat>>
  datatype Meta = Meta(inode: Inode, disk: Disk)

  function Read(disk: Disk, n: nat, block: nat): (r: seq<nat>)
    ensures |r| == n
  {
    if block in disk && |disk[block]| == n then disk[block] else seq(n, i => 0)
  }

  function Write(m: Meta, n: nat, block: nat, slot: nat, value: nat): Meta
    requires slot < n
  {
    m.(disk := m.disk[block := Read(m.disk, n, block)[slot := value]])
  }

  lemma {:induction false} ReadAfterWrite(m: Meta, n: nat, block: nat, slot: nat, value: nat, other: nat)
    requires slot < n
    ensures Read(Write(m, n, block, slot, value).disk, n, other) ==
            (if other == block then Read(m.disk, n, block)[slot := value] else Read(m.disk, n, other))
  {
  }

  /** The file blocks that twelve direct and three indirect pointers can address. */
  predicate Addressable(index: nat, n: nat)
  {
    index < DIRECT + n + n * n + n * n * n
  }

  lemma {:induction false} AddressableGroup(index: nat, n: nat)
    requires n > 0 && index >= DIRECT && Addressable(index, n)
    ensures Group(index, n) > 0 ==> Branch(Group(index, n), n) <= n
  {
    hide Div, Mod;
    var i := index - DIRECT;
    assert n + n * n + n * n * n == (1 + n + n * n) * n;
    DivSmall(i, n, 1 + n + n * n);
    var g := Group(index, n);
    if g > 0 {
      assert n + n * n == (n + 1) * n;
      DivSmall(g - 1, n, n + 1);
    }
  }

  /** The block number of the index-th file block, level by level as ext2 lays it out. */
  function Resolve(m: Meta, n: nat, index: nat): nat
    requires n > 0 && |m.inode.direct| == DIRECT && Addressable(index, n)
  {
    var p := FromLinear(index, n);
    if index < DIRECT then m.inode.direct[index]
    else if p.triple != 0 then
      DoubleInRange(index, n);
      Read(m.disk, n, Read(m.disk, n, Read(m.disk, n, m.inode.triple)[p.double])[p.single])[p.direct]
    else if p.double != 0 then
      DoubleInRange(index, n);
      Read(m.disk, n, Read(m.disk, n, m.inode.double)[p.single])[p.direct]
    else
      Read(m.disk, n, m.inode.single)[p.direct]
  }

  lemma {:induction false} DoubleInRange(index: nat, n: nat)
    requires n > 0 && index >= DIRECT && Addressable(index, n)
    ensures var p := FromLinear(index, n);
            p.direct < n && (p.double != 0 || p.triple != 0 ==> p.single < n) && (p.triple != 0 ==> p.double < n)
  {
    hide Div, Mod;
    FromLinearByGroup(index, n);
    AddressableGroup(index, n);
    var g := Group(index, n);
    if g > 0 {
      BranchFacts(g, n);
    }
  }

  /** The first twelve blocks are named in the inode. */
  lemma {:induction false} DirectLayout(m: Meta, n: nat, c: nat)
    requires n > 0 && |m.inode.direct| == 12 && c < 12
    ensures |m.inode.direct| == DIRECT && Addressable(c, n) && Resolve(m, n, c) == m.inode.direct[c]
  {
  }

  /** The next n are named in the single indirect block. */
  lemma {:induction false} SingleLayout(m: Meta, n: nat, c: nat)
    requires n > 0 && |m.inode.direct| == 12 && c < n
    ensures |m.inode.direct| == DIRECT && Addressable(12 + c, n)
    ensures Resolve(m, n, 12 + c) == Read(m.disk, n, m.inode.single)[c]
  {
    MulMono(1, n, n);
    assert n * n * n >= 0;
    assert FromLinear(12 + c, n) == Pointer(c, 1, 0, 0);
  }

  /** The next n * n are named in the blocks that the double indirect block names, n in each. */
  lemma {:induction false} DoubleLayout(m: Meta, n: nat, b: nat, c: nat)
    requires n > 0 && |m.inode.direct| == 12 && b < n && c < n
    ensures |m.inode.direct| == DIRECT && Addressable(12 + n + b * n + c, n)
    ensures Resolve(m, n, 12 + n + b * n + c) == Read(m.disk, n, Read(m.disk, n, m.inode.double)[b])[c]
  {
    hide Div, Mod, Read;
    var i := b * n + c;
    MulMono(b + 1, n, n);
    assert (b + 1) * n == b * n + n;
    DivUnique(i, n, b, c);
    assert n * n * n >= 0;
    assert FromLinear(12 + n + i, n) == Pointer(c, b, 1, 0);
  }

  /** The last n * n * n have one level more, from the triple indirect block on. */
  lemma {:induction false} TripleLayout(m: Meta, n: nat, a: nat, b: nat, c: nat)
    requires n > 0 && |m.inode.direct| == 12 && a < n && b < n && c < n
    ensures |m.inode.direct| == DIRECT && Addressable(12 + n + n * n + (a * n + b) * n + c, n)
    ensures Resolve(m, n, 12 + n + n * n + (a * n + b) * n + c) ==
            Read(m.disk, n, Read(m.disk, n, Read(m.disk, n, m.inode.triple)[a])[b])[c]
  {
    hide Div, Mod, Read, Addressable, FromLinear;
    var j := a * n + b;
    var i := j * n + c;
    SquareSplit(n, n, a, b, j);
    SquareSplit(n, n * n, j, c, i);
    DivTwice(i, n);
    LastLinear(n, n * n, i);
    AddressableLast(n, n * n, i);
    ResolveTriple(m, n, 12 + n + n * n + i);
  }

  lemma {:induction false} SquareSplit(n: nat, s: nat, a: nat, b: nat, j: nat)
    requires n > 0 && a < s && b < n && j == a * n + b
    ensures j < s * n && Div(j, n) == a && Mod(j, n) == b
  {
    hide Div, Mod;
    MulMono(a + 1, s, n);
    DivUnique(j, n, a, b);
  }

  lemma {:induction false} LastLinear(n: nat, square: nat, i: nat)
    requires n > 0 && square == n * n > 0
    ensures FromLinear(12 + n + square + i, n) == Pointer(Mod(i, n), Mod(Div(i, n), n), Div(i, square), 1)
  {
    hide Div, Mod;
  }

  lemma {:induction false} AddressableLast(n: nat, square: nat, i: nat)
    requires square == n * n && i < square * n
    ensures Addressable(12 + n + square + i, n)
  {
  }

  lemma {:induction false} ResolveTriple(m: Meta, n: nat, index: nat)
    requires n > 0 && |m.inode.direct| == DIRECT && Addressable(index, n) && index >= DIRECT
    requires FromLinear(index, n).triple != 0
    ensures var p := FromLinear(index, n);
            && p.direct < n && p.single < n && p.double < n
            && Resolve(m, n, index) ==
               Read(m.disk, n, Read(m.disk, n, Read(m.disk, n, m.inode.triple)[p.double])[p.single])[p.direct]
  {
    hide Addressable, FromLinear, Read;
    DoubleInRange(index, n);
  }

  // ------------------------------------------------------------ indirect blocks, uniformly

  /** An indirect block of a file: the g-th single, the d-th double, or the triple one. */
  datatype Key = Single(g: nat) | Double(d: nat) | Triple

  predicate Exists(key: Key, n: nat)
    requires n > 0
  {
    match key
    case Single(g) => g > 0 ==> Branch(g, n) <= n
    case Double(d) => d <= n
    case Triple => true
  }

  function BlockOf(m: Meta, n: nat, key: Key): nat
    requires n > 0 && Exists(key, n)
    decreases match key { case Single(_) => 2 case Double(_) => 1 case Triple => 0 }
  {
    match key
    case Triple => m.inode.triple
    case Double(d) => if d == 0 then m.inode.double else Read(m.disk, n, BlockOf(m, n, Triple))[d - 1]
    case Single(g) => if g == 0 then m.inode.single else
      Read(m.disk, n, BlockOf(m, n, Double(Branch(g, n))))[Mod(g - 1, n)]
  }

  /** Every pointer of an indirect block lies in the single indirect block of its group. */
  lemma {:induction false} ResolveByGroup(m: Meta, n: nat, index: nat)
    requires n > 0 && |m.inode.direct| == DIRECT && Addressable(index, n) && index >= DIRECT
    ensures Exists(Single(Group(index, n)), n)
    ensures Resolve(m, n, index) == Read(m.disk, n, BlockOf(m, n, Single(Group(index, n))))[Slot(index, n)]
  {
    hide Div, Mod;
    FromLinearByGroup(index, n);
    AddressableGroup(index, n);
    var g := Group(index, n);
    if g > 0 {
      BranchFacts(g, n);
    }
  }

  /** The indirect blocks in use when G single and D double indirect blocks are. */
  predicate InUse(key: Key, n: nat, G: nat, D: nat)
    requires n > 0
  {
    Exists(key, n) &&
    match key
    case Single(g) => g < G
    case Double(d) => d < D
    case Triple => D > 1
  }

  /** Every double indirect block above a used single one is used, and no more than the triple block can name. */
  ghost predicate Counts(n: nat, G: nat, D: nat)
    requires n > 0
  {
    D <= n + 1 && forall g :: 0 < g < G ==> Branch(g, n) < D
  }

  /** No two indirect blocks in use share a device block. */
  ghost predicate Apart(m: Meta, n: nat, G: nat, D: nat)
    requires n > 0
  {
    forall a, b :: InUse(a, n, G, D) && InUse(b, n, G, D) && BlockOf(m, n, a) == BlockOf(m, n, b) ==> a == b
  }

  ghost predicate Fresh(m: Meta, n: nat, G: nat, D: nat, block: nat)
    requires n > 0
  {
    forall key :: InUse(key, n, G, D) ==> BlockOf(m, n, key) != block
  }

  // ------------------------------------------------------------ single changes

  function SetDouble(m: Meta, n: nat, d: nat, block: nat): Meta
    requires n > 0 && d <= n
  {
    if d == 0 then m.(inode := m.inode.(double := block)) else Write(m, n, m.inode.triple, d - 1, block)
  }

  function SetSingle(m: Meta, n: nat, g: nat, block: nat): Meta
    requires n > 0 && Exists(Single(g), n)
  {
    if g == 0 then m.(inode := m.inode.(single := block))
    else Write(m, n, BlockOf(m, n, Double(Branch(g, n))), Mod(g - 1, n), block)
  }

  function SetPointer(m: Meta, n: nat, index: nat, block: nat): Meta
    requires n > 0 && |m.inode.direct| == DIRECT && (index >= DIRECT ==> Exists(Single(Group(index, n)), n))
  {
    if index < DIRECT then m.(inode := m.inode.(direct := m.inode.direct[index := block]))
    else Write(m, n, BlockOf(m, n, Single(Group(index, n))), Slot(index, n), block)
  }

  ghost predicate SameBlocks(m: Meta, k: Meta, n: nat, G: nat, D: nat)
    requires n > 0
  {
    forall key :: InUse(key, n, G, D) ==> BlockOf(k, n, key) == BlockOf(m, n, key)
  }

  /** The indirect blocks stay where they are and the single ones keep their pointers. */
  ghost predicate Kept(m: Meta, k: Meta, n: nat, G: nat, D: nat)
    requires n > 0
  {
    && SameBlocks(m, k, n, G, D)
    && forall g :: InUse(Single(g), n, G, D) ==> SameTable(m, k, n, BlockOf(m, n, Single(g)))
  }

  predicate SameTable(m: Meta, k: Meta, n: nat, block: nat)
  {
    Read(k.disk, n, block) == Read(m.disk, n, block)
  }

  lemma {:induction false} SlotsDiffer(g: nat, h: nat, n: nat)
    requires n > 0 && g > 0 && h > 0 && g != h && Branch(g, n) == Branch(h, n)
    ensures Mod(g - 1, n) != Mod(h - 1, n)
  {
    DivMod(g - 1, n);
    DivMod(h - 1, n);
  }

  /** Naming the next single indirect block. */
  lemma {:induction false} SingleAdded(m: Meta, n: nat, G: nat, D: nat, block: nat)
    requires n > 0 && Exists(Single(G), n) && Counts(n, G, D) && (G > 0 ==> Branch(G, n) < D)
    requires Apart(m, n, G, D) && Fresh(m, n, G, D, block)
    ensures var k := SetSingle(m, n, G, block);
            && Kept(m, k, n, G, D) && BlockOf(k, n, Single(G)) == block
            && Counts(n, G + 1, D) && Apart(k, n, G + 1, D)
            && (forall b :: b != block && Fresh(m, n, G, D, b) ==> Fresh(k, n, G + 1, D, b))
  {
    hide Div, Mod;
    var k := SetSingle(m, n, G, block);
    forall key | InUse(key, n, G, D)
      ensures BlockOf(k, n, key) == BlockOf(m, n, key)
    {
      SingleAddedAt(m, n, G, D, block, key);
    }
    SingleAddedNew(m, n, G, D, block);
    SingleAddedTables(m, n, G, D, block);
    forall a, b | InUse(a, n, G + 1, D) && InUse(b, n, G + 1, D) && BlockOf(k, n, a) == BlockOf(k, n, b)
      ensures a == b
    {
      assert a == Single(G) || InUse(a, n, G, D);
      assert b == Single(G) || InUse(b, n, G, D);
    }
    forall b, key | b != block && Fresh(m, n, G, D, b) && InUse(key, n, G + 1, D)
      ensures BlockOf(k, n, key) != b
    {
      assert key == Single(G) || InUse(key, n, G, D);
    }
  }

  lemma {:induction false} SingleAddedAt(m: Meta, n: nat, G: nat, D: nat, block: nat, key: Key)
    requires n > 0 && Exists(Single(G), n) && Counts(n, G, D) && (G > 0 ==> Branch(G, n) < D)
    requires Apart(m, n, G, D) && InUse(key, n, G, D)
    ensures BlockOf(SetSingle(m, n, G, block), n, key) == BlockOf(m, n, key)
    decreases key.Single?
  {
    hide Div, Mod;
    var k := SetSingle(m, n, G, block);
    if G > 0 {
      var w := BlockOf(m, n, Double(Branch(G, n)));
      assert InUse(Double(Branch(G, n)), n, G, D);
      ReadAfterWrite(m, n, w, Mod(G - 1, n), block, m.inode.triple);
      match key {
        case Triple =>
        case Double(d) =>
          assert d > 0 ==> InUse(Triple, n, G, D);
        case Single(g) =>
          if g > 0 {
            var up := Double(Branch(g, n));
            assert InUse(up, n, G, D);
            SingleAddedAt(m, n, G, D, block, up);
            ReadAfterWrite(m, n, w, Mod(G - 1, n), block, BlockOf(m, n, up));
            if up == Double(Branch(G, n)) { SlotsDiffer(g, G, n); }
          }
      }
    }
  }

  lemma {:induction false} SingleAddedNew(m: Meta, n: nat, G: nat, D: nat, block: nat)
    requires n > 0 && Exists(Single(G), n) && Counts(n, G, D) && (G > 0 ==> Branch(G, n) < D)
    requires Apart(m, n, G, D)
    ensures BlockOf(SetSingle(m, n, G, block), n, Single(G)) == block
    ensures Counts(n, G + 1, D)
  {
    hide Div, Mod;
    if G > 0 {
      var up := Double(Branch(G, n));
      SingleAddedAt(m, n, G, D, block, up);
      ReadAfterWrite(m, n, BlockOf(m, n, up), Mod(G - 1, n), block, BlockOf(m, n, up));
    }
  }

  lemma {:induction false} SingleAddedTables(m: Meta, n: nat, G: nat, D: nat, block: nat)
    requires n > 0 && Exists(Single(G), n) && Counts(n, G, D) && (G > 0 ==> Branch(G, n) < D) && Apart(m, n, G, D)
    ensures forall g :: InUse(Single(g), n, G, D) ==>
              SameTable(m, SetSingle(m, n, G, block), n, BlockOf(m, n, Single(g)))
  {
    hide Div, Mod, BlockOf;
    if G > 0 {
      assert InUse(Double(Branch(G, n)), n, G, D);
    }
  }

  lemma {:induction false} DoubleAddedTables(m: Meta, n: nat, G: nat, D: nat, block: nat)
    requires n > 0 && D <= n && Counts(n, G, D) && Apart(m, n, G, D)
    requires D == 1 ==> Fresh(m, n, G, D, m.inode.triple)
    ensures forall g :: InUse(Single(g), n, G, D) ==>
              SameTable(m, SetDouble(m, n, D, block), n, BlockOf(m, n, Single(g)))
  {
    hide Div, Mod;
    if D > 1 {
      assert InUse(Triple, n, G, D);
      assert BlockOf(m, n, Triple) == m.inode.triple;
    }
  }

  /** Naming the next double indirect block; from the second on it is named in the triple indirect block. */
  lemma {:induction false} DoubleAdded(m: Meta, n: nat, G: nat, D: nat, block: nat)
    requires n > 0 && D <= n && Counts(n, G, D) && Apart(m, n, G, D) && Fresh(m, n, G, D, block)
    requires D >= 1 ==> block != m.inode.triple
    requires D == 1 ==> Fresh(m, n, G, D, m.inode.triple)
    ensures var k := SetDouble(m, n, D, block);
            && Kept(m, k, n, G, D) && BlockOf(k, n, Double(D)) == block
            && k.inode.triple == m.inode.triple
            && Counts(n, G, D + 1) && Apart(k, n, G, D + 1)
            && (forall b :: b != block && (D >= 1 ==> b != m.inode.triple) && Fresh(m, n, G, D, b) ==>
                 Fresh(k, n, G, D + 1, b))
  {
    hide Div, Mod;
    var k := SetDouble(m, n, D, block);
    forall key | InUse(key, n, G, D)
      ensures BlockOf(k, n, key) == BlockOf(m, n, key)
    {
      DoubleAddedAt(m, n, G, D, block, key);
    }
    DoubleAddedTables(m, n, G, D, block);
    if D > 0 {
      ReadAfterWrite(m, n, m.inode.triple, D - 1, block, m.inode.triple);
    }
    assert BlockOf(k, n, Double(D)) == block;
    forall a, b | InUse(a, n, G, D + 1) && InUse(b, n, G, D + 1) && BlockOf(k, n, a) == BlockOf(k, n, b)
      ensures a == b
    {
      assert a == Double(D) || a == Triple || InUse(a, n, G, D);
      assert b == Double(D) || b == Triple || InUse(b, n, G, D);
    }
    forall b, key | b != block && (D >= 1 ==> b != m.inode.triple) && Fresh(m, n, G, D, b) && InUse(key, n, G, D + 1)
      ensures BlockOf(k, n, key) != b
    {
      assert key == Double(D) || key == Triple || InUse(key, n, G, D);
    }
  }

  lemma {:induction false} DoubleAddedAt(m: Meta, n: nat, G: nat, D: nat, block: nat, key: Key)
    requires n > 0 && D <= n && Counts(n, G, D) && Apart(m, n, G, D) && InUse(key, n, G, D)
    requires D == 1 ==> Fresh(m, n, G, D, m.inode.triple)
    ensures BlockOf(SetDouble(m, n, D, block), n, key) == BlockOf(m, n, key)
    decreases key.Single?
  {
    hide Div, Mod;
    if D > 0 {
      var w := m.inode.triple;
      ReadAfterWrite(m, n, w, D - 1, block, w);
      match key {
        case Triple =>
        case Double(d) =>
        case Single(g) =>
          if g > 0 {
            var up := Double(Branch(g, n));
            assert InUse(up, n, G, D);
            DoubleAddedAt(m, n, G, D, block, up);
            ReadAfterWrite(m, n, w, D - 1, block, BlockOf(m, n, up));
            assert D > 1 ==> InUse(Triple, n, G, D);
          }
      }
    }
  }

  /** Naming the triple indirect block while at most one double indirect block is in use. */
  lemma {:induction false} TripleAdded(m: Meta, n: nat, G: nat, D: nat, block: nat)
    requires n > 0 && D <= 1 && Counts(n, G, D)
    ensures var k := m.(inode := m.inode.(triple := block));
            && Kept(m, k, n, G, D)
            && (Apart(m, n, G, D) ==> Apart(k, n, G, D))
            && (forall b :: Fresh(m, n, G, D, b) ==> Fresh(k, n, G, D, b))
  {
    hide Div, Mod;
    var k := m.(inode := m.inode.(triple := block));
    forall key | InUse(key, n, G, D)
      ensures BlockOf(k, n, key) == BlockOf(m, n, key)
    {
      match key {
        case Single(g) =>
          if g > 0 { assert InUse(Double(Branch(g, n)), n, G, D); }
        case Double(d) =>
        case Triple =>
      }
    }
  }

  /** Storing a data pointer changes no indirect block's place. */
  lemma {:induction false} PointerStored(m: Meta, n: nat, G: nat, D: nat, index: nat, block: nat)
    requires n > 0 && |m.inode.direct| == DIRECT && Counts(n, G, D) && Apart(m, n, G, D)
    requires Addressable(index, n) && (index >= DIRECT ==> Exists(Single(Group(index, n)), n) && Group(index, n) < G)
    ensures var k := SetPointer(m, n, index, block);
            && SameBlocks(m, k, n, G, D)
            && Resolve(k, n, index) == block
            && (forall j :: 0 <= j && j != index && Addressable(j, n) && (j >= DIRECT ==> Group(j, n) < G) ==>
                  Resolve(k, n, j) == Resolve(m, n, j))
  {
    hide Div, Mod, Resolve, Addressable;
    var k := SetPointer(m, n, index, block);
    forall key | InUse(key, n, G, D)
      ensures BlockOf(k, n, key) == BlockOf(m, n, key)
    {
      PointerStoredAt(m, n, G, D, index, block, key);
    }
    PointerResolved(m, n, G, D, index, block);
    forall j | 0 <= j && j != index && Addressable(j, n) && (j >= DIRECT ==> Group(j, n) < G)
      ensures Resolve(k, n, j) == Resolve(m, n, j)
    {
      PointerOther(m, n, G, D, index, block, j);
    }
  }

  lemma {:induction false} PointerStoredAt(m: Meta, n: nat, G: nat, D: nat, index: nat, block: nat, key: Key)
    requires n > 0 && |m.inode.direct| == DIRECT && Counts(n, G, D) && Apart(m, n, G, D) && InUse(key, n, G, D)
    requires index >= DIRECT ==> Exists(Single(Group(index, n)), n) && Group(index, n) < G
    ensures BlockOf(SetPointer(m, n, index, block), n, key) == BlockOf(m, n, key)
    decreases match key { case Single(_) => 2 case Double(_) => 1 case Triple => 0 }
  {
    hide Div, Mod;
    if index < DIRECT {
      match key {
        case Triple =>
        case Double(d) =>
        case Single(g) =>
          if g > 0 {
            assert InUse(Double(Branch(g, n)), n, G, D);
            PointerStoredAt(m, n, G, D, index, block, Double(Branch(g, n)));
          }
      }
    } else {
      var home := Single(Group(index, n));
      var w := BlockOf(m, n, home);
      assert InUse(home, n, G, D);
      match key {
        case Triple =>
        case Double(d) =>
          if d > 0 {
            assert InUse(Triple, n, G, D);
            ReadAfterWrite(m, n, w, Slot(index, n), block, m.inode.triple);
          }
        case Single(g) =>
          if g > 0 {
            var up := Double(Branch(g, n));
            assert InUse(up, n, G, D);
            PointerStoredAt(m, n, G, D, index, block, up);
            ReadAfterWrite(m, n, w, Slot(index, n), block, BlockOf(m, n, up));
          }
      }
    }
  }

  lemma {:induction false} PointerResolved(m: Meta, n: nat, G: nat, D: nat, index: nat, block: nat)
    requires n > 0 && |m.inode.direct| == DIRECT && Counts(n, G, D) && Apart(m, n, G, D) && Addressable(index, n)
    requires index >= DIRECT ==> Exists(Single(Group(index, n)), n) && Group(index, n) < G
    ensures Resolve(SetPointer(m, n, index, block), n, index) == block
  {
    hide Div, Mod, Addressable;
    if index >= DIRECT {
      var k := SetPointer(m, n, index, block);
      ResolveByGroup(k, n, index);
      var home := Single(Group(index, n));
      assert InUse(home, n, G, D);
      PointerStoredAt(m, n, G, D, index, block, home);
      ReadAfterWrite(m, n, BlockOf(m, n, home), Slot(index, n), block, BlockOf(m, n, home));
    }
  }

  lemma {:induction false} PointerOther(m: Meta, n: nat, G: nat, D: nat, index: nat, block: nat, j: nat)
    requires n > 0 && |m.inode.direct| == DIRECT && Counts(n, G, D) && Apart(m, n, G, D)
    requires Addressable(index, n) && (index >= DIRECT ==> Exists(Single(Group(index, n)), n) && Group(index, n) < G)
    requires j != index && Addressable(j, n) && (j >= DIRECT ==> Group(j, n) < G)
    ensures Resolve(SetPointer(m, n, index, block), n, j) == Resolve(m, n, j)
  {
    hide Div, Mod, Addressable;
    if j >= DIRECT {
      var k := SetPointer(m, n, index, block);
      ResolveByGroup(k, n, j);
      ResolveByGroup(m, n, j);
      var home := Single(Group(j, n));
      assert InUse(home, n, G, D);
      PointerStoredAt(m, n, G, D, index, block, home);
      if index >= DIRECT {
        var target := Single(Group(index, n));
        assert InUse(target, n, G, D);
        ReadAfterWrite(m, n, BlockOf(m, n, target), Slot(index, n), block, BlockOf(m, n, home));
        if Group(j, n) == Group(index, n) && Slot(j, n) == Slot(index, n) { GroupInjective(j, index, n); }
      }
    }
  }

  // ------------------------------------------------------------ appending one block

  /** The single and double indirect blocks that a file of `count` blocks uses. */
  function Groups(count: nat, n: nat): nat
    requires n > 0
  {
    if count <= DIRECT then 0 else Group(count - 1, n) + 1
  }

  function Branches(count: nat, n: nat): nat
    requires n > 0
  {
    if Groups(count, n) <= 1 then 0 else Branch(Groups(count, n) - 1, n) + 1
  }

  /** The indirect blocks that become due at `index`, named from the blocks just allocated. */
  function Grow(m: Meta, n: nat, index: nat, blocks: seq<nat>): Meta
    requires n > 0 && |blocks| == NewLevels(index, n) && (index >= DIRECT ==> Exists(Single(Group(index, n)), n))
  {
    if index < DIRECT then m else
      var g := Group(index, n);
      var m1 := if |blocks| == 3 then m.(inode := m.inode.(triple := blocks[2])) else m;
      var m2 := if |blocks| >= 2 then SetDouble(m1, n, Branch(g, n), blocks[1]) else m1;
      if |blocks| >= 1 then SetSingle(m2, n, g, blocks[0]) else m2
  }

  ghost predicate AllFresh(m: Meta, n: nat, count: nat, blocks: seq<nat>)
    requires n > 0
  {
    && (forall i :: 0 <= i < |blocks| ==> Fresh(m, n, Groups(count, n), Branches(count, n), blocks[i]))
    && (forall i, j :: 0 <= i < j < |blocks| ==> blocks[i] != blocks[j])
  }

  ghost predicate FileApart(m: Meta, n: nat, count: nat)
    requires n > 0
  {
    && |m.inode.direct| == DIRECT && Counts(n, Groups(count, n), Branches(count, n))
    && Apart(m, n, Groups(count, n), Branches(count, n))
  }

  /** Which counts change from `index` to `index + 1` blocks. */
  lemma {:induction false} CountsStep(index: nat, n: nat)
    requires n > 0 && index >= DIRECT
    ensures NewLevels(index, n) == 0 ==>
              Groups(index + 1, n) == Groups(index, n) && Branches(index + 1, n) == Branches(index, n)
    ensures NewLevels(index, n) > 0 ==>
              Groups(index, n) == Group(index, n) && Groups(index + 1, n) == Group(index, n) + 1
    ensures NewLevels(index, n) == 1 ==> Branches(index + 1, n) == Branches(index, n)
    ensures NewLevels(index, n) == 1 && Group(index, n) > 0 ==> Branch(Group(index, n), n) < Branches(index, n)
    ensures NewLevels(index, n) >= 2 ==> Group(index, n) > 0 && Branches(index, n) == Branch(Group(index, n), n)
    ensures NewLevels(index, n) >= 2 ==> Branches(index + 1, n) == Branches(index, n) + 1
    ensures NewLevels(index, n) == 3 <==> NewLevels(index, n) >= 2 && Branches(index, n) == 1
    ensures Group(index, n) < Groups(index + 1, n)
  {
    hide Div, Mod;
    if index == DIRECT {
      DivUnique(0, n, 0, 0);
    } else {
      GroupStep(index, n);
      var g := Group(index, n);
      if g > 1 {
        BranchStep(g, n);
      } else if g == 1 {
        DivUnique(0, n, 0, 0);
      }
    }
  }

  /** Naming the new indirect blocks keeps every pointer of the file and keeps the indirect blocks apart. */
  lemma {:induction false} Grown(m: Meta, n: nat, index: nat, blocks: seq<nat>)
    requires n > 0 && index >= DIRECT && Addressable(index, n) && |blocks| == NewLevels(index, n)
    requires Exists(Single(Group(index, n)), n) && FileApart(m, n, index) && AllFresh(m, n, index, blocks)
    ensures var k := Grow(m, n, index, blocks);
            && FileApart(k, n, index + 1) && k.inode.direct == m.inode.direct
            && Kept(m, k, n, Groups(index, n), Branches(index, n))
            && (forall b :: b !in blocks && Fresh(m, n, Groups(index, n), Branches(index, n), b)
                  ==> Fresh(k, n, Groups(index + 1, n), Branches(index + 1, n), b))
  {
    hide Div, Mod, Addressable, Group, NewLevels, Branch;
    CountsStep(index, n);
    var G, D := Groups(index, n), Branches(index, n);
    var g := Group(index, n);
    if |blocks| == 1 {
      SingleAdded(m, n, G, D, blocks[0]);
    } else if |blocks| >= 2 {
      var m1 := if |blocks| == 3 then m.(inode := m.inode.(triple := blocks[2])) else m;
      if |blocks| == 3 { TripleAdded(m, n, G, D, blocks[2]); }
      assert D > 1 ==> InUse(Triple, n, G, D);
      DoubleAdded(m1, n, G, D, blocks[1]);
      var m2 := SetDouble(m1, n, D, blocks[1]);
      SingleAdded(m2, n, G, D + 1, blocks[0]);
      KeptTrans(m, m1, m2, n, G, D);
      KeptShrink(m2, SetSingle(m2, n, g, blocks[0]), n, G, D);
      KeptTrans(m, m2, SetSingle(m2, n, g, blocks[0]), n, G, D);
    }
  }

  lemma {:induction false} KeptTrans(a: Meta, b: Meta, c: Meta, n: nat, G: nat, D: nat)
    requires n > 0 && Kept(a, b, n, G, D) && Kept(b, c, n, G, D)
    ensures Kept(a, c, n, G, D)
  {
    hide Div, Mod, BlockOf, Read;
    forall key | InUse(key, n, G, D)
      ensures BlockOf(c, n, key) == BlockOf(a, n, key)
    {
      assert BlockOf(b, n, key) == BlockOf(a, n, key);
    }
  }

  lemma {:induction false} KeptShrink(a: Meta, b: Meta, n: nat, G: nat, D: nat)
    requires n > 0 && Kept(a, b, n, G, D + 1)
    ensures Kept(a, b, n, G, D)
  {
    hide Div, Mod, BlockOf;
    forall key | InUse(key, n, G, D)
      ensures BlockOf(b, n, key) == BlockOf(a, n, key)
    {
      assert InUse(key, n, G, D + 1);
    }
    forall g | InUse(Single(g), n, G, D)
      ensures SameTable(a, b, n, BlockOf(a, n, Single(g)))
    {
      assert InUse(Single(g), n, G, D + 1);
    }
  }

  /** Appending data block `block` as file block `index`, with the indirect blocks due for it. */
  function Append(m: Meta, n: nat, index: nat, blocks: seq<nat>, block: nat): (k: Meta)
    requires n > 0 && |blocks| == NewLevels(index, n) && |m.inode.direct| == DIRECT
    requires index >= DIRECT ==> Exists(Single(Group(index, n)), n)
    ensures |k.inode.direct| == DIRECT
  {
    SetPointer(Grow(m, n, index, blocks), n, index, block)
  }

  lemma {:induction false} Appended(m: Meta, n: nat, index: nat, blocks: seq<nat>, block: nat)
    requires n > 0 && Addressable(index, n) && |blocks| == NewLevels(index, n)
    requires FileApart(m, n, index) && AllFresh(m, n, index, blocks)
    ensures index >= DIRECT ==> Exists(Single(Group(index, n)), n)
    ensures var k := Append(m, n, index, blocks, block);
            && FileApart(k, n, index + 1)
            && Resolve(k, n, index) == block
            && (forall j :: 0 <= j < index && Addressable(j, n) ==> Resolve(k, n, j) == Resolve(m, n, j))
            && (forall b :: b !in blocks && Fresh(m, n, Groups(index, n), Branches(index, n), b)
                  ==> Fresh(k, n, Groups(index + 1, n), Branches(index + 1, n), b))
  {
    hide Div, Mod, Addressable, Resolve, NewLevels, Branch, Group, Slot;
    AppendSteps(m, n, index, blocks);
    var grown := Grow(m, n, index, blocks);
    var G, D := Groups(index + 1, n), Branches(index + 1, n);
    if index >= DIRECT { CountsStep(index, n); }
    PointerStored(grown, n, G, D, index, block);
    var k := Append(m, n, index, blocks, block);
    StillApart(grown, k, n, G, D);
    forall j | 0 <= j < index && Addressable(j, n)
      ensures Resolve(k, n, j) == Resolve(m, n, j)
    {
      if j >= DIRECT { GroupMonotone(j, index, n); }
    }
  }

  lemma {:induction false} StillApart(m: Meta, k: Meta, n: nat, G: nat, D: nat)
    requires n > 0 && SameBlocks(m, k, n, G, D)
    ensures Apart(m, n, G, D) ==> Apart(k, n, G, D)
    ensures forall b :: Fresh(m, n, G, D, b) ==> Fresh(k, n, G, D, b)
  {
    hide Div, Mod, Branch, BlockOf;
  }

  lemma {:induction false} GroupMonotone(j: nat, index: nat, n: nat)
    requires n > 0 && DIRECT <= j < index
    ensures Group(j, n) <= Group(index, n) && Group(j, n) < Groups(index, n)
  {
    hide Div, Mod;
    if Group(index, n) < Group(j, n) {
      DivSmall(index - DIRECT, n, Group(j, n));
      DivSmall(j - DIRECT, n, Group(j, n));
    }
    if Group(index - 1, n) < Group(j, n) {
      DivSmall(index - 1 - DIRECT, n, Group(j, n));
      DivSmall(j - DIRECT, n, Group(j, n));
    }
  }

  /** Naming the due indirect blocks leaves every earlier file block where it was. */
  lemma {:induction false} AppendSteps(m: Meta, n: nat, index: nat, blocks: seq<nat>)
    requires n > 0 && Addressable(index, n) && |blocks| == NewLevels(index, n)
    requires FileApart(m, n, index) && AllFresh(m, n, index, blocks)
    ensures index >= DIRECT ==> Exists(Single(Group(index, n)), n)
    ensures var k := Grow(m, n, index, blocks);
            && FileApart(k, n, index + 1)
            && (forall j :: 0 <= j < index && Addressable(j, n) ==> Resolve(k, n, j) == Resolve(m, n, j))
            && (forall b :: b !in blocks && Fresh(m, n, Groups(index, n), Branches(index, n), b)
                  ==> Fresh(k, n, Groups(index + 1, n), Branches(index + 1, n), b))
  {
    hide Div, Mod, Addressable, Resolve, Branch, Group;
    if index < DIRECT {
      NoGroups(m, n, index);
    } else {
      AddressableGroup(index, n);
      Grown(m, n, index, blocks);
      var k := Grow(m, n, index, blocks);
      forall j | 0 <= j < index && Addressable(j, n)
        ensures Resolve(k, n, j) == Resolve(m, n, j)
      {
        GrownAt(m, k, n, index, j);
      }
    }
  }

  lemma {:induction false} NoGroups(m: Meta, n: nat, index: nat)
    requires n > 0 && index < DIRECT
    ensures Groups(index, n) == Groups(index + 1, n) == 0 && Branches(index, n) == Branches(index + 1, n) == 0
  {
  }

  lemma {:induction false} GrownAt(m: Meta, k: Meta, n: nat, index: nat, j: nat)
    requires n > 0 && j < index && Addressable(j, n) && index >= DIRECT
    requires |m.inode.direct| == DIRECT && k.inode.direct == m.inode.direct
    requires FileApart(m, n, index) && Kept(m, k, n, Groups(index, n), Branches(index, n))
    ensures Resolve(k, n, j) == Resolve(m, n, j)
  {
    hide Div, Mod, Addressable, Branch;
    if j >= DIRECT {
      GroupMonotone(j, index, n);
      ResolveByGroup(m, n, j);
      ResolveByGroup(k, n, j);
      assert InUse(Single(Group(j, n)), n, Groups(index, n), Branches(index, n));
    }
  }

  // ------------------------------------------------------------ appending many blocks

  /** `supply[i]` holds the indirect blocks allocated while appending the i-th block. */
  predicate Due(n: nat, index: nat, blocks: seq<nat>, supply: seq<seq<nat>>)
    requires n > 0
  {
    && |supply| == |blocks|
    && (forall i :: 0 <= i < |blocks| ==> |supply[i]| == NewLevels(index + i, n))
    && (|blocks| > 0 ==> Addressable(index + |blocks| - 1, n))
  }

  function AppendAll(m: Meta, n: nat, index: nat, blocks: seq<nat>, supply: seq<seq<nat>>): (k: Meta)
    requires n > 0 && |m.inode.direct| == DIRECT && Due(n, index, blocks, supply)
    ensures |k.inode.direct| == DIRECT
    decreases |blocks|
  {
    if |blocks| == 0 then m
    else
      var last := |blocks| - 1;
      if index + last >= DIRECT then
        AddressableGroup(index + last, n);
        Append(AppendAll(m, n, index, blocks[..last], supply[..last]), n, index + last, supply[last], blocks[last])
      else
        Append(AppendAll(m, n, index, blocks[..last], supply[..last]), n, index + last, supply[last], blocks[last])
  }

  ghost predicate Outside(b: nat, supply: seq<seq<nat>>)
  {
    forall i :: 0 <= i < |supply| ==> b !in supply[i]
  }

  /** The blocks handed out are not indirect blocks of the file, and none is handed out twice. */
  ghost predicate SupplyFresh(m: Meta, n: nat, index: nat, supply: seq<seq<nat>>)
    requires n > 0
  {
    && (forall i :: 0 <= i < |supply| ==> AllFresh(m, n, index, supply[i]))
    && (forall i :: 0 <= i < |supply| ==> forall b :: b in supply[i] ==> Outside(b, supply[..i]))
  }

  /** Blocks `first`, `first + 1`, ... of the file are `blocks`, in order. */
  ghost predicate Holds(m: Meta, n: nat, first: nat, blocks: seq<nat>)
    requires n > 0 && |m.inode.direct| == DIRECT
  {
    forall i :: 0 <= i < |blocks| ==> HoldsAt(m, n, first, blocks, i)
  }

  ghost predicate HoldsAt(m: Meta, n: nat, first: nat, blocks: seq<nat>, i: nat)
    requires n > 0 && |m.inode.direct| == DIRECT && i < |blocks|
  {
    Addressable(first + i, n) && Resolve(m, n, first + i) == blocks[i]
  }

  lemma {:induction false} HeldAt(m: Meta, n: nat, first: nat, blocks: seq<nat>, i: nat, j: nat)
    requires n > 0 && |m.inode.direct| == DIRECT && j < i <= |blocks| && Holds(m, n, first, blocks[..i])
    ensures HoldsAt(m, n, first, blocks, j)
  {
    hide Resolve, Addressable;
    assert HoldsAt(m, n, first, blocks[..i], j) && blocks[..i][j] == blocks[j];
  }

  lemma {:induction false} HoldsFrom(m: Meta, n: nat, first: nat, blocks: seq<nat>, i: nat)
    requires n > 0 && |m.inode.direct| == DIRECT && i <= |blocks|
    requires forall j :: 0 <= j < i ==> HoldsAt(m, n, first, blocks, j)
    ensures Holds(m, n, first, blocks[..i])
  {
    hide Resolve, Addressable;
    var now := blocks[..i];
    forall j | 0 <= j < |now|
      ensures HoldsAt(m, n, first, now, j)
    {
      assert HoldsAt(m, n, first, blocks, j) && now[j] == blocks[j];
    }
  }

  /** Blocks that stay and one new block behind them. */
  lemma {:induction false} HoldsOneMore(before: Meta, after: Meta, n: nat, first: nat, blocks: seq<nat>, i: nat)
    requires n > 0 && |before.inode.direct| == DIRECT && |after.inode.direct| == DIRECT
    requires i < |blocks| && Holds(before, n, first, blocks[..i])
    requires Addressable(first + i, n) && Resolve(after, n, first + i) == blocks[i]
    requires forall j :: 0 <= j < first + i && Addressable(j, n) ==> Resolve(after, n, j) == Resolve(before, n, j)
    ensures Holds(after, n, first, blocks[..i + 1])
  {
    hide Resolve, Addressable, Holds;
    forall j | 0 <= j < i + 1
      ensures HoldsAt(after, n, first, blocks, j)
    {
      if j < i { HeldAt(before, n, first, blocks, i, j); }
    }
    HoldsFrom(after, n, first, blocks, i + 1);
  }

  /** The first `count` blocks of the file are the same in both states. */
  ghost predicate Unmoved(m: Meta, k: Meta, n: nat, count: nat)
    requires n > 0 && |m.inode.direct| == |k.inode.direct| == DIRECT
  {
    forall j :: 0 <= j < count && Addressable(j, n) ==> Resolve(k, n, j) == Resolve(m, n, j)
  }

  /**
   * Appending to a file of `index` blocks: the old blocks resolve as before, the new ones
   * resolve to the appended numbers in order, whatever direct, single, double or triple
   * boundaries are crossed.
   */
  lemma {:induction false} AppendedAll(m: Meta, n: nat, index: nat, blocks: seq<nat>, supply: seq<seq<nat>>)
    requires n > 0 && Due(n, index, blocks, supply) && FileApart(m, n, index) && SupplyFresh(m, n, index, supply)
    ensures var k := AppendAll(m, n, index, blocks, supply);
            && FileApart(k, n, index + |blocks|)
            && Unmoved(m, k, n, index)
            && Holds(k, n, index, blocks)
            && (forall b :: Outside(b, supply) && Fresh(m, n, Groups(index, n), Branches(index, n), b)
                  ==> Fresh(k, n, Groups(index + |blocks|, n), Branches(index + |blocks|, n), b))
    decreases |blocks|
  {
    hide Div, Mod, Resolve, NewLevels, Branch, Group, Slot, Grow, SetPointer, Groups, Branches, Fresh, Apart, Counts;
    if |blocks| > 0 {
      var last := |blocks| - 1;
      var before := AppendAll(m, n, index, blocks[..last], supply[..last]);
      assert forall i :: 0 <= i < last ==> supply[..last][i] == supply[i];
      EarlierSupply(m, n, index, supply, last);
      AppendedAll(m, n, index, blocks[..last], supply[..last]);
      assert AllFresh(before, n, index + last, supply[last]) by {
        assert AllFresh(m, n, index, supply[last]);
        forall i | 0 <= i < |supply[last]|
          ensures Fresh(before, n, Groups(index + last, n), Branches(index + last, n), supply[last][i])
        {
          assert supply[last][i] in supply[last];
        }
      }
      Appended(before, n, index + last, supply[last], blocks[last]);
      HoldsOneMore(before, AppendAll(m, n, index, blocks, supply), n, index, blocks, last);
      assert blocks[..last + 1] == blocks;
      forall b | Outside(b, supply)
        ensures b !in supply[last] && Outside(b, supply[..last])
      {
      }
    }
  }

  lemma {:induction false} EarlierSupply(m: Meta, n: nat, index: nat, supply: seq<seq<nat>>, last: nat)
    requires n > 0 && last < |supply| && SupplyFresh(m, n, index, supply)
    ensures SupplyFresh(m, n, index, supply[..last])
  {
    hide AllFresh;
    var s := supply[..last];
    forall i | 0 <= i < |s|
      ensures AllFresh(m, n, index, s[i]) && forall b :: b in s[i] ==> Outside(b, s[..i])
    {
      assert s[i] == supply[i] && s[..i] == supply[..i];
    }
  }
}
