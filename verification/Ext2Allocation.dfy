/**
 * Block allocation of an ext2 volume: a superblock counter, a counter and a bitmap per block
 * group, and a scan that skips full 32-bit words.  The reference is one flat bitmap of the
 * whole volume, from which the lowest free blocks are taken.
 */
module Ext2Allocation {
  import opened Basics
  import opened BitmapWords
  import Division

  // ------------------------------------------------------------ the reference

  function Clear(bits: seq<bool>): nat
  {
    if |bits| == 0 then 0 else (if bits[0] then 0 else 1) + Clear(bits[1..])
  }

  /** The first k clear positions, counted from `base`. */
  function Lowest(bits: seq<bool>, k: nat, base: nat): seq<nat>
  {
    if |bits| == 0 || k == 0 then []
    else if bits[0] then Lowest(bits[1..], k, base + 1)
    else [base] + Lowest(bits[1..], k - 1, base + 1)
  }

  /** The bitmap with its first k clear positions set. */
  function Marked(bits: seq<bool>, k: nat): (r: seq<bool>)
    ensures |r| == |bits|
  {
    if |bits| == 0 || k == 0 then bits
    else [true] + Marked(bits[1..], if bits[0] then k else k - 1)
  }

  function Min(a: nat, b: nat): nat { if a <= b then a else b }

  ghost predicate Increasing(s: seq<nat>, lo: nat, hi: nat)
  {
    && (forall i :: 0 <= i < |s| ==> lo <= s[i] < hi)
    && (forall i, j :: 0 <= i < j < |s| ==> s[i] < s[j])
  }

  lemma {:induction false} LowestRange(bits: seq<bool>, k: nat, base: nat)
    ensures |Lowest(bits, k, base)| == Min(k, Clear(bits))
    ensures Increasing(Lowest(bits, k, base), base, base + |bits|)
  {
    if |bits| > 0 && k > 0 {
      LowestRange(bits[1..], if bits[0] then k else k - 1, base + 1);
    }
  }

  /** A position is picked exactly when it is clear and fewer than k clear positions precede it. */
  lemma {:induction false} LowestAt(bits: seq<bool>, k: nat, base: nat, i: nat)
    requires i < |bits|
    ensures base + i in Lowest(bits, k, base) <==> !bits[i] && Clear(bits[..i]) < k
    ensures Marked(bits, k)[i] <==> bits[i] || base + i in Lowest(bits, k, base)
  {
    hide Lowest, Marked, Clear;
    LowestStep(bits, k, base);
    ClearStep(bits, i);
    if k > 0 {
      var m := if bits[0] then k else k - 1;
      LowestRange(bits[1..], m, base + 1);
      if i > 0 {
        LowestAt(bits[1..], m, base + 1, i - 1);
        assert base + 1 + (i - 1) == base + i;
      }
    }
  }

  lemma {:induction false} LowestStep(bits: seq<bool>, k: nat, base: nat)
    requires |bits| > 0
    ensures k == 0 ==> Lowest(bits, k, base) == [] && Marked(bits, k) == bits
    ensures k > 0 ==>
              && Marked(bits, k) == [true] + Marked(bits[1..], if bits[0] then k else k - 1)
              && Lowest(bits, k, base) == (if bits[0] then [] else [base]) +
                 Lowest(bits[1..], if bits[0] then k else k - 1, base + 1)
  {
  }

  lemma {:induction false} ClearStep(bits: seq<bool>, i: nat)
    requires i <= |bits|
    ensures i == 0 ==> Clear(bits[..i]) == 0
    ensures i > 0 ==> Clear(bits[..i]) == (if bits[0] then 0 else 1) + Clear(bits[1..][..i - 1])
  {
    if i > 0 { assert bits[..i][1..] == bits[1..][..i - 1]; }
  }

  lemma {:induction false} MarkedClear(bits: seq<bool>, k: nat)
    ensures Clear(Marked(bits, k)) == Clear(bits) - Min(k, Clear(bits))
  {
    if |bits| > 0 && k > 0 {
      var m := if bits[0] then k else k - 1;
      MarkedClear(bits[1..], m);
      assert Marked(bits, k)[1..] == Marked(bits[1..], m);
    }
  }

  /** A run of set positions is passed over. */
  lemma {:induction false} SkipSet(bits: seq<bool>, j: nat, k: nat, base: nat)
    requires j <= |bits| && forall i :: 0 <= i < j ==> bits[i]
    ensures Lowest(bits, k, base) == Lowest(bits[j..], k, base + j)
    ensures Marked(bits, k) == bits[..j] + Marked(bits[j..], k)
  {
    if j == 0 {
      assert bits[0..] == bits;
    } else if k > 0 {
      SkipSet(bits[1..], j - 1, k, base + 1);
      assert bits[1..][j - 1..] == bits[j..];
      assert [true] + bits[1..][..j - 1] == bits[..j];
    }
  }

  lemma {:induction false} JoinedClear(a: seq<bool>, b: seq<bool>)
    ensures Clear(a + b) == Clear(a) + Clear(b)
  {
    if |a| == 0 {
      assert a + b == b;
    } else {
      assert (a + b)[1..] == a[1..] + b;
      JoinedClear(a[1..], b);
    }
  }

  lemma {:induction false} JoinedLowest(a: seq<bool>, b: seq<bool>, k: nat, base: nat)
    ensures Lowest(a + b, k, base) == Lowest(a, k, base) + Lowest(b, k - Min(k, Clear(a)), base + |a|)
  {
    if |a| == 0 {
      assert a + b == b;
    } else if k > 0 {
      assert (a + b)[1..] == a[1..] + b;
      var m := if a[0] then k else k - 1;
      JoinedLowest(a[1..], b, m, base + 1);
      assert k - Min(k, Clear(a)) == m - Min(m, Clear(a[1..]));
      if !a[0] { Regroup([base], Lowest(a[1..], m, base + 1), Lowest(b, k - Min(k, Clear(a)), base + |a|)); }
    }
  }

  lemma {:induction false} JoinedMarked(a: seq<bool>, b: seq<bool>, k: nat)
    ensures Marked(a + b, k) == Marked(a, k) + Marked(b, k - Min(k, Clear(a)))
  {
    if |a| == 0 {
      assert a + b == b;
    } else if k > 0 {
      assert (a + b)[1..] == a[1..] + b;
      var m := if a[0] then k else k - 1;
      JoinedMarked(a[1..], b, m);
      assert k - Min(k, Clear(a)) == m - Min(m, Clear(a[1..]));
      Regroup([true], Marked(a[1..], m), Marked(b, k - Min(k, Clear(a))));
    }
  }

  /** Two bitmaps side by side: the first is used up before the second. */
  lemma {:induction false} Joined(a: seq<bool>, b: seq<bool>, k: nat, base: nat)
    ensures Clear(a + b) == Clear(a) + Clear(b)
    ensures Lowest(a + b, k, base) == Lowest(a, k, base) + Lowest(b, k - Min(k, Clear(a)), base + |a|)
    ensures Marked(a + b, k) == Marked(a, k) + Marked(b, k - Min(k, Clear(a)))
  {
    hide Lowest, Marked, Clear;
    JoinedClear(a, b);
    JoinedLowest(a, b, k, base);
    JoinedMarked(a, b, k);
  }

  /** Asking for no more than is there is asking for that much. */
  lemma {:induction false} AskLess(bits: seq<bool>, k: nat, base: nat)
    ensures Lowest(bits, k, base) == Lowest(bits, Min(k, Clear(bits)), base)
    ensures Marked(bits, k) == Marked(bits, Min(k, Clear(bits)))
  {
    if |bits| > 0 && k > 0 {
      AskLess(bits[1..], if bits[0] then k else k - 1, base + 1);
      if Clear(bits) == 0 {
        AllSet(bits);
        assert [true] + bits[1..] == bits;
      }
    }
  }

  lemma {:induction false} AllSet(bits: seq<bool>)
    requires Clear(bits) == 0 && |bits| > 0
    ensures bits[0]
  {
  }

  // ------------------------------------------------------------ one group

  /** Positions b to c, as far as the bitmap goes, are set. */
  ghost predicate RunSet(bits: seq<bool>, b: nat, c: nat)
  {
    forall i :: b <= i < c && i < |bits| ==> bits[i]
  }

  lemma {:induction false} FullWord(words: seq<bv32>, bit: nat)
    requires Aligned(bit) && bit < 32 * |words| && words[bit / 32] == 0xFFFF_FFFF
    ensures RunSet(Bits(words), bit, bit + 32)
  {
    forall i | bit <= i < bit + 32
      ensures Bits(words)[i]
    {
      assert i / 32 == bit / 32;
      TestUniform(Offset(i));
    }
  }

  /** The part of a scan still to do: what is picked and set from position b on. */
  ghost predicate ScanState(was: seq<bool>, now: seq<bool>, b: nat, limit: nat, left: nat, picked: seq<nat>, k: nat,
                            base: nat)
  {
    && b <= limit <= |was| == |now|
    && picked + Lowest(now[b..limit], left, base + b) == Lowest(was[..limit], k, base)
    && now[..b] + Marked(now[b..limit], left) == Marked(was[..limit], k)
    && now[limit..] == was[limit..]
  }

  lemma {:induction false} ScanSkips(was: seq<bool>, now: seq<bool>, b: nat, c: nat, limit: nat, left: nat,
                                     picked: seq<nat>, k: nat, base: nat)
    requires ScanState(was, now, b, limit, left, picked, k, base) && b <= c <= limit && RunSet(now, b, c)
    ensures ScanState(was, now, c, limit, left, picked, k, base)
  {
    hide Lowest, Marked;
    var rest := now[b..limit];
    assert forall i :: 0 <= i < c - b ==> rest[i] == now[b + i];
    SkipSet(rest, c - b, left, base + b);
    assert rest[c - b..] == now[c..limit];
    assert now[..b] + rest[..c - b] == now[..c];
    Regroup(now[..b], rest[..c - b], Marked(now[c..limit], left));
  }

  lemma {:induction false} ScanPicks(was: seq<bool>, now: seq<bool>, b: nat, limit: nat, left: nat, picked: seq<nat>,
                                     k: nat, base: nat)
    requires ScanState(was, now, b, limit, left, picked, k, base) && b < limit && !now[b] && left > 0
    ensures ScanState(was, now[b := true], b + 1, limit, left - 1, picked + [base + b], k, base)
  {
    var after := now[b := true];
    assert now[b..limit][1..] == now[b + 1..limit] == after[b + 1..limit];
    assert after[..b + 1] == now[..b] + [true];
    assert after[limit..] == now[limit..];
  }

  lemma {:induction false} ScanSkipsWord(was: seq<bool>, now: seq<bool>, b: nat, limit: nat, left: nat,
                                         picked: seq<nat>, k: nat, base: nat)
    requires ScanState(was, now, b, limit, left, picked, k, base) && RunSet(now, b, b + 32)
    ensures ScanState(was, now, if b + 32 <= limit then b + 32 else limit, limit, left, picked, k, base)
  {
    hide Lowest, Marked;
    ScanSkips(was, now, b, if b + 32 <= limit then b + 32 else limit, limit, left, picked, k, base);
  }

  lemma {:induction false} ScanBit(was: seq<bool>, now: seq<bool>, b: nat, limit: nat, left: nat, picked: seq<nat>,
                                   k: nat, base: nat)
    requires ScanState(was, now, b, limit, left, picked, k, base) && b < limit <= |now| && left > 0
    ensures now[b] ==> ScanState(was, now, b + 1, limit, left, picked, k, base)
    ensures !now[b] ==> ScanState(was, now[b := true], b + 1, limit, left - 1, picked + [base + b], k, base)
  {
    hide Lowest, Marked;
    if now[b] {
      ScanSkips(was, now, b, b + 1, limit, left, picked, k, base);
    } else {
      ScanPicks(was, now, b, limit, left, picked, k, base);
    }
  }

  lemma {:induction false} ScanStarts(bits: seq<bool>, limit: nat, k: nat, base: nat)
    requires limit <= |bits|
    ensures ScanState(bits, bits, 0, limit, k, [], k, base)
  {
    assert bits[0..limit] == bits[..limit];
  }

  lemma {:induction false} ScanEnds(was: seq<bool>, now: seq<bool>, b: nat, limit: nat, left: nat, picked: seq<nat>,
                                    k: nat, base: nat)
    requires ScanState(was, now, b, limit, left, picked, k, base) && (b == limit || left == 0)
    ensures picked == Lowest(was[..limit], k, base) && now == Marked(was[..limit], k) + was[limit..]
  {
    assert Marked(now[b..limit], left) == now[b..limit];
    assert now[..b] + now[b..limit] == now[..limit];
    assert now == now[..limit] + now[limit..];
  }

  predicate Aligned(bit: nat) { bit % 32 == 0 }

  method WordIsFull(bitmap: array<bv32>, table: nat, offset: nat, tableBits: nat) returns (full: bool)
    requires Aligned(table) && Aligned(tableBits) && offset < tableBits && table + offset < 32 * bitmap.Length
    ensures full ==> Aligned(offset) && RunSet(Bits(bitmap[..]), table + offset, table + offset + 32)
    ensures full ==> offset + 32 <= tableBits
  {
    full := Aligned(offset) && bitmap[(table + offset) / 32] == 0xFFFF_FFFF;
    if full { FullWord(bitmap[..], table + offset); }
  }

  /** Moves on to the next table block at the end of one. */
  method NextTable(table: nat, offset: nat, tableBits: nat) returns (t: nat, o: nat)
    requires Aligned(table) && Aligned(tableBits) && offset <= tableBits && tableBits > 0
    ensures Aligned(t) && t + o == table + offset && o < tableBits
  {
    t, o := table, offset;
    if offset == tableBits {
      t, o := table + tableBits, 0;
    }
  }

  method TakeBit(bitmap: array<bv32>, bit: nat) returns (taken: bool)
    requires bit < 32 * bitmap.Length
    modifies bitmap
    ensures taken == !old(Bits(bitmap[..]))[bit]
    ensures taken ==> Bits(bitmap[..]) == old(Bits(bitmap[..]))[bit := true]
    ensures !taken ==> Bits(bitmap[..]) == old(Bits(bitmap[..]))
  {
    hide Fill, GetBit, TestBit, Offset;
    var used := TestAt(bitmap, bit);
    taken := !used;
    if taken {
      FillOne(Bits(bitmap[..]), bit);
      PutBit(bitmap, bit, true);
    }
  }

  lemma {:induction false} FillOne(bits: seq<bool>, b: nat)
    requires b < |bits|
    ensures Fill(bits, b, b + 1, true) == bits[b := true]
  {
  }

  /** One bit of the scan. */
  method ScanOne(bitmap: array<bv32>, base: nat, limit: nat, block: nat, left: nat, picked: seq<nat>,
                 ghost was: seq<bool>, ghost k: nat)
    returns (more: seq<nat>, rest: nat)
    requires block < limit <= 32 * bitmap.Length && left > 0
    requires ScanState(was, Bits(bitmap[..]), block, limit, left, picked, k, base)
    modifies bitmap
    ensures ScanState(was, Bits(bitmap[..]), block + 1, limit, rest, more, k, base)
  {
    hide Bits, Lowest, Marked, ScanState;
    ScanBit(was, Bits(bitmap[..]), block, limit, left, picked, k, base);
    var taken := TakeBit(bitmap, block);
    more, rest := picked, left;
    if taken {
      more := picked + [base + block];
      rest := left - 1;
    }
  }

  /**
   * Takes k clear bits among the first `limit` of a group's bitmap.  The bitmap fills
   * consecutive table blocks of `tableBits` bits each; `table` is the first bit of the
   * current one.
   */
  method ScanGroup(bitmap: array<bv32>, base: nat, limit: nat, k: nat, tableBits: nat) returns (picked: seq<nat>)
    requires limit <= 32 * bitmap.Length && k > 0 && tableBits > 0 && Aligned(tableBits)
    modifies bitmap
    ensures picked == Lowest(old(Bits(bitmap[..]))[..limit], k, base)
    ensures Bits(bitmap[..]) == Marked(old(Bits(bitmap[..]))[..limit], k) + old(Bits(bitmap[..]))[limit..]
  {
    assert Aligned(0);
    hide *;
    ghost var was := Bits(bitmap[..]);
    ghost var now := was;
    picked := [];
    var left: nat, table: nat, offset: nat, block: nat := k, 0, 0, 0;
    ScanStarts(was, limit, k, base);
    while block < limit
      invariant left > 0 && Aligned(table) && table + offset == block && offset < tableBits
      invariant now == Bits(bitmap[..])
      invariant ScanState(was, now, if block <= limit then block else limit, limit, left, picked, k, base)
    {
      var full := WordIsFull(bitmap, table, offset, tableBits);
      if full {
        ScanSkipsWord(was, now, block, limit, left, picked, k, base);
        offset := offset + 32;
        block := block + 31;
      } else {
        picked, left := ScanOne(bitmap, base, limit, block, left, picked, was, k);
        now := Bits(bitmap[..]);
        if left == 0 {
          break;
        }
        offset := offset + 1;
      }
      table, offset := NextTable(table, offset, tableBits);
      block := block + 1;
    }
    ScanEnds(was, now, if left == 0 then block + 1 else limit, limit, left, picked, k, base);
  }

  // ------------------------------------------------------------ the whole volume

  datatype BlockGroup = BlockGroup(free: nat, bits: seq<bool>)
  datatype Volume = Volume(blockCount: nat, perGroup: nat, free: nat, groups: seq<BlockGroup>)

  /** How many blocks group g really has. */
  function Size(v: Volume, g: nat): int
  {
    if g + 1 == |v.groups| then v.blockCount - g * v.perGroup else v.perGroup
  }

  /** How many blocks the scan of group g looks at. */
  function Limit(v: Volume, g: nat): nat
    requires v.perGroup > 0
  {
    if g + 1 == |v.groups| then v.blockCount % v.perGroup else v.perGroup
  }

  /** As many groups as are needed for the blocks, each with a bitmap for all its blocks. */
  ghost predicate WellFormed(v: Volume)
  {
    && v.perGroup > 0 && |v.groups| > 0
    && 0 < Size(v, |v.groups| - 1) <= v.perGroup
    && forall g :: 0 <= g < |v.groups| ==> v.perGroup <= |v.groups[g].bits|
  }

  lemma {:induction false} GroupCount(v: Volume)
    requires WellFormed(v)
    ensures |v.groups| == (v.blockCount + v.perGroup - 1) / v.perGroup
  {
    var last := |v.groups| - 1;
    var size := Size(v, last);
    assert v.blockCount + v.perGroup - 1 == (last + 1) * v.perGroup + (size - 1);
    DivideExactly(v.blockCount + v.perGroup - 1, v.perGroup, last + 1, size - 1);
  }

  lemma {:induction false} DivideExactly(a: nat, b: nat, q: nat, r: nat)
    requires b > 0 && a == q * b + r && r < b
    ensures a / b == q && a % b == r
  {
    Division.DivUnique(a, b, q, r);
  }

  /** The scan looks at the whole group, except at a last group that is exactly full-sized. */
  lemma {:induction false} LimitIsSize(v: Volume, g: nat)
    requires WellFormed(v) && g < |v.groups|
    ensures 0 < Size(v, g) <= v.perGroup <= |v.groups[g].bits| && Limit(v, g) <= |v.groups[g].bits|
    ensures Limit(v, g) == if g + 1 == |v.groups| && v.blockCount % v.perGroup == 0 then 0 else Size(v, g)
    ensures g + 1 == |v.groups| ==> (v.blockCount % v.perGroup == 0 <==> Size(v, g) == v.perGroup)
  {
    if g + 1 == |v.groups| {
      var size := Size(v, g);
      if size == v.perGroup {
        assert (g + 1) * v.perGroup == g * v.perGroup + v.perGroup;
        DivideExactly(v.blockCount, v.perGroup, g + 1, 0);
      } else {
        DivideExactly(v.blockCount, v.perGroup, g, size);
      }
    }
  }

  /** The blocks of the first g groups in one bitmap: position b is block b of the volume. */
  function Flat(v: Volume, g: nat): seq<bool>
    requires WellFormed(v) && g <= |v.groups|
  {
    if g == 0 then [] else LimitIsSize(v, g - 1); Flat(v, g - 1) + v.groups[g - 1].bits[..Size(v, g - 1)]
  }

  function FreeUpto(v: Volume, g: nat): nat
    requires g <= |v.groups|
  {
    if g == 0 then 0 else FreeUpto(v, g - 1) + v.groups[g - 1].free
  }

  ghost predicate GroupAgrees(v: Volume, g: nat)
    requires WellFormed(v) && g < |v.groups|
  {
    LimitIsSize(v, g);
    v.groups[g].free == Clear(v.groups[g].bits[..Size(v, g)])
  }

  /** Superblock counter, group counters and bitmaps agree. */
  ghost predicate Agrees(v: Volume)
  {
    && WellFormed(v)
    && (forall g :: 0 <= g < |v.groups| ==> GroupAgrees(v, g))
    && v.free == FreeUpto(v, |v.groups|)
  }

  // ------------------------------------------------------------ allocation

  /** How many blocks are still wanted when the scan reaches group g. */
  function Wanted(v: Volume, g: nat, count: nat): nat
    requires g <= |v.groups|
  {
    if g == 0 then count else Wanted(v, g - 1, count) - Min(Wanted(v, g - 1, count), v.groups[g - 1].free)
  }

  function Share(v: Volume, g: nat, count: nat): nat
    requires g < |v.groups|
  {
    Min(Wanted(v, g, count), v.groups[g].free)
  }

  /** The block numbers collected from the first g groups. */
  function Chosen(v: Volume, g: nat, count: nat): seq<nat>
    requires WellFormed(v) && g <= |v.groups|
  {
    if g == 0 then []
    else
      LimitIsSize(v, g - 1);
      Chosen(v, g - 1, count)
      + Lowest(v.groups[g - 1].bits[..Limit(v, g - 1)], Share(v, g - 1, count), (g - 1) * v.perGroup)
  }

  /** One group after `share` of its blocks were taken. */
  function GroupAfter(group: BlockGroup, limit: nat, share: nat): BlockGroup
    requires limit <= |group.bits| && share <= group.free
  {
    BlockGroup(group.free - share, Marked(group.bits[..limit], share) + group.bits[limit..])
  }

  ghost predicate AllocatedTo(v: Volume, r: Volume, count: nat)
    requires WellFormed(v)
  {
    && r.blockCount == v.blockCount && r.perGroup == v.perGroup && |r.groups| == |v.groups|
    && r.free == v.free - count
    && (forall g :: 0 <= g < |v.groups| ==> TakenFrom(v, r, g, count))
  }

  ghost predicate TakenFrom(v: Volume, r: Volume, g: nat, count: nat)
    requires WellFormed(v) && g < |v.groups| && g < |r.groups|
  {
    r.groups[g] == AfterAt(v, g, count)
  }

  function AfterAt(v: Volume, g: nat, count: nat): BlockGroup
    requires WellFormed(v) && g < |v.groups|
  {
    LimitIsSize(v, g);
    GroupAfter(v.groups[g], Limit(v, g), Share(v, g, count))
  }

  lemma {:induction false} AfterWellFormed(v: Volume, r: Volume, count: nat)
    requires WellFormed(v) && AllocatedTo(v, r, count)
    ensures WellFormed(r) && forall g :: 0 <= g < |v.groups| ==> Size(r, g) == Size(v, g)
  {
    forall g | 0 <= g < |v.groups|
      ensures r.perGroup <= |r.groups[g].bits|
    {
      assert TakenFrom(v, r, g, count);
      LimitIsSize(v, g);
    }
  }

  lemma {:induction false} FlatStep(v: Volume, g: nat)
    requires WellFormed(v) && g < |v.groups|
    ensures 0 <= Size(v, g) <= |v.groups[g].bits|
    ensures Flat(v, g + 1) == Flat(v, g) + v.groups[g].bits[..Size(v, g)]
  {
    hide WellFormed;
    LimitIsSize(v, g);
  }

  lemma {:induction false} FlatLength(v: Volume, g: nat)
    requires WellFormed(v) && g <= |v.groups|
    ensures |Flat(v, g)| == if g == |v.groups| then v.blockCount else g * v.perGroup
  {
    if g > 0 {
      FlatLength(v, g - 1);
      LimitIsSize(v, g - 1);
      assert g * v.perGroup == (g - 1) * v.perGroup + v.perGroup;
    }
  }

  lemma {:induction false} FlatClear(v: Volume, g: nat)
    requires Agrees(v) && g <= |v.groups|
    ensures Clear(Flat(v, g)) == FreeUpto(v, g)
  {
    if g > 0 {
      FlatClear(v, g - 1);
      LimitIsSize(v, g - 1);
      assert GroupAgrees(v, g - 1);
      Joined(Flat(v, g - 1), v.groups[g - 1].bits[..Size(v, g - 1)], 0, 0);
    }
  }

  lemma {:induction false} WantedLeft(v: Volume, g: nat, count: nat)
    requires g <= |v.groups|
    ensures Wanted(v, g, count) == count - Min(count, FreeUpto(v, g))
  {
    if g > 0 { WantedLeft(v, g - 1, count); }
  }

  /** Whether every block asked of the last group can be found there. */
  predicate Reaches(v: Volume, count: nat)
    requires v.perGroup > 0 && |v.groups| > 0
  {
    v.blockCount % v.perGroup != 0 || count <= FreeUpto(v, |v.groups| - 1)
  }

  /** A group whose whole bitmap is scanned, or of which nothing is asked, yields its lowest free blocks. */
  lemma {:induction false} GroupExact(v: Volume, r: Volume, g: nat, count: nat, wanted: nat)
    requires Agrees(v) && AllocatedTo(v, r, count) && g < |v.groups|
    requires wanted == Wanted(v, g, count) && (Limit(v, g) == Size(v, g) || wanted == 0)
    ensures 0 <= Limit(v, g) <= |v.groups[g].bits|
    ensures 0 <= Size(v, g) <= |v.groups[g].bits| && Size(v, g) <= |r.groups[g].bits|
    ensures var bits := v.groups[g].bits[..Size(v, g)];
            && Lowest(v.groups[g].bits[..Limit(v, g)], Share(v, g, count), g * v.perGroup) ==
               Lowest(bits, wanted, g * v.perGroup)
            && r.groups[g].bits[..Size(v, g)] == Marked(bits, wanted)
            && r.groups[g].free == Clear(Marked(bits, wanted))
            && r.groups[g].free == v.groups[g].free - Share(v, g, count)
  {
    hide Wanted, Lowest, Marked, Clear, WellFormed;
    LimitIsSize(v, g);
    assert GroupAgrees(v, g) && TakenFrom(v, r, g, count);
    var group := v.groups[g];
    var bits := group.bits[..Size(v, g)];
    AskLess(bits, wanted, g * v.perGroup);
    MarkedClear(bits, wanted);
    if wanted == 0 {
      NothingTaken(group.bits, Limit(v, g), g * v.perGroup);
      NothingTaken(bits, |bits|, g * v.perGroup);
      assert bits[..|bits|] == bits && bits[|bits|..] == [];
      assert r.groups[g] == group;
    } else {
      assert r.groups[g].bits[..Size(v, g)] == Marked(bits, Share(v, g, count));
    }
  }

  lemma {:induction false} NothingAsked(count: nat)
    ensures Lowest([], count, 0) == [] && Marked([], count) == [] && Clear([]) == 0
  {
  }

  ghost predicate Reached(v: Volume, g: nat, count: nat)
    requires WellFormed(v) && g <= |v.groups|
  {
    forall h :: 0 <= h < g ==> Limit(v, h) == Size(v, h) || Wanted(v, h, count) == 0
  }

  lemma {:induction false} UptoExact(v: Volume, r: Volume, g: nat, count: nat)
    requires Agrees(v) && AllocatedTo(v, r, count) && WellFormed(r) && g <= |v.groups| && Reached(v, g, count)
    ensures Chosen(v, g, count) == Lowest(Flat(v, g), count, 0)
    ensures Flat(r, g) == Marked(Flat(v, g), count)
  {
    assert WellFormed(v);
    if g == 0 {
      NothingAsked(count);
    } else {
      hide *;
      var h := g - 1;
      assert Reached(v, h, count) && (Limit(v, h) == Size(v, h) || Wanted(v, h, count) == 0) by {
        ReachedBefore(v, h, count);
      }
      UptoExact(v, r, h, count);
      var wanted := Wanted(v, h, count);
      GroupExact(v, r, h, count, wanted);
      GroupStep(v, h, count);
      FlatStep(v, h);
      FlatStep(r, h);
      FlatLength(v, h);
      FlatClear(v, h);
      WantedLeft(v, h, count);
      AfterWellFormed(v, r, count);
      var a, bits := Flat(v, h), v.groups[h].bits[..Size(v, h)];
      var picked, marked := Lowest(bits, wanted, |a|), r.groups[h].bits[..Size(r, h)];
      assert Flat(v, g) == a + bits && Flat(r, g) == Flat(r, h) + marked;
      assert Chosen(v, g, count) == Chosen(v, h, count) + picked;
      assert wanted == count - Min(count, Clear(a));
      Extended(a, bits, count, wanted, Chosen(v, h, count), Flat(r, h), picked, marked);
    }
  }

  lemma {:induction false} Extended(a: seq<bool>, bits: seq<bool>, count: nat, wanted: nat,
                                    chosen: seq<nat>, flat: seq<bool>, picked: seq<nat>, marked: seq<bool>)
    requires wanted == count - Min(count, Clear(a)) && chosen == Lowest(a, count, 0) && flat == Marked(a, count)
    requires picked == Lowest(bits, wanted, |a|) && marked == Marked(bits, wanted)
    ensures chosen + picked == Lowest(a + bits, count, 0) && flat + marked == Marked(a + bits, count)
  {
    hide Lowest, Marked, Clear;
    Joined(a, bits, count, 0);
  }

  lemma {:induction false} ReachedBefore(v: Volume, h: nat, count: nat)
    requires WellFormed(v) && h < |v.groups| && Reached(v, h + 1, count)
    ensures Reached(v, h, count) && (Limit(v, h) == Size(v, h) || Wanted(v, h, count) == 0)
  {
  }

  lemma {:induction false} UptoAgrees(v: Volume, r: Volume, g: nat, count: nat)
    requires Agrees(v) && AllocatedTo(v, r, count) && WellFormed(r) && g <= |v.groups| && Reached(v, g, count)
    ensures FreeUpto(r, g) == FreeUpto(v, g) - Min(count, FreeUpto(v, g))
    ensures forall h :: 0 <= h < g ==> GroupAgrees(r, h)
  {
    assert WellFormed(v);
    hide Lowest, Marked, Clear, Wanted, Limit, Size, WellFormed, TakenFrom, Agrees, Flat;
    if g > 0 {
      var h := g - 1;
      UptoAgrees(v, r, h, count);
      GroupExact(v, r, h, count, Wanted(v, h, count));
      WantedLeft(v, h, count);
      AfterWellFormed(v, r, count);
    }
  }

  /**
   * A volume whose counters and bitmaps agree hands out exactly the `count` lowest free
   * block numbers, sets their bits and no others, and stays in agreement, if and only if
   * the request does not reach into a last group of full size.
   */
  lemma {:induction false} AllocationExactIff(v: Volume, r: Volume, count: nat)
    requires Agrees(v) && AllocatedTo(v, r, count) && count <= v.free
    ensures WellFormed(r)
    ensures Reaches(v, count) ==>
              && Chosen(v, |v.groups|, count) == Lowest(Flat(v, |v.groups|), count, 0)
              && Flat(r, |r.groups|) == Marked(Flat(v, |v.groups|), count)
    ensures Reaches(v, count) <==> |Chosen(v, |v.groups|, count)| == count
    ensures Reaches(v, count) <==> Agrees(r)
  {
    AfterWellFormed(v, r, count);
    var all := |v.groups|;
    var last := all - 1;
    forall h | 0 <= h < last
      ensures Limit(v, h) == Size(v, h)
    {
      LimitIsSize(v, h);
    }
    LimitIsSize(v, last);
    WantedLeft(v, last, count);
    if Reaches(v, count) {
      UptoExact(v, r, all, count);
      UptoAgrees(v, r, all, count);
      LowestRange(Flat(v, all), count, 0);
      FlatClear(v, all);
    } else {
      UptoExact(v, r, last, count);
      LowestRange(Flat(v, last), count, 0);
      FlatClear(v, last);
      NothingFound(v, r, count);
    }
  }

  /** What the flat bitmap says of such an allocation: distinct blocks that were free, and exactly those taken. */
  lemma {:induction false} AllocationMeaning(v: Volume, r: Volume, count: nat, b: nat)
    requires Agrees(v) && AllocatedTo(v, r, count) && count <= v.free && Reaches(v, count) && b < v.blockCount
    ensures WellFormed(r) && |Flat(v, |v.groups|)| == |Flat(r, |r.groups|)| == v.blockCount
    ensures var chosen := Chosen(v, |v.groups|, count);
            && |chosen| == count && Increasing(chosen, 0, v.blockCount)
            && (b in chosen ==> !Flat(v, |v.groups|)[b])
            && (Flat(r, |r.groups|)[b] <==> Flat(v, |v.groups|)[b] || b in chosen)
  {
    hide Lowest, Marked, Chosen, Flat, Agrees, Reaches;
    AllocationExactIff(v, r, count);
    assert WellFormed(v) by { AgreesMeans(v); }
    FlatLength(v, |v.groups|);
    LowestRange(Flat(v, |v.groups|), count, 0);
    LowestAt(Flat(v, |v.groups|), count, 0, b);
  }

  /** The bit of the i-th block of group g. */
  predicate BitAt(v: Volume, g: nat, i: nat)
  {
    g < |v.groups| && i < |v.groups[g].bits| && v.groups[g].bits[i]
  }

  /** In the bitmaps of the groups: the blocks were clear, are set now, and no other bit has changed. */
  ghost predicate Took(v: Volume, r: Volume, blocks: seq<nat>)
  {
    && |r.groups| == |v.groups|
    && forall g, i :: 0 <= g < |v.groups| && 0 <= i < Size(v, g) ==> TookAt(v, r, blocks, g, i)
  }

  ghost predicate TookAt(v: Volume, r: Volume, blocks: seq<nat>, g: nat, i: nat)
  {
    var b := g * v.perGroup + i;
    (BitAt(r, g, i) <==> BitAt(v, g, i) || b in blocks) && (b in blocks ==> !BitAt(v, g, i))
  }

  /** Block i of group g is at its number in the flat bitmap. */
  lemma {:induction false} FlatAt(v: Volume, h: nat, g: nat, i: nat)
    requires WellFormed(v) && g < h <= |v.groups| && i < Size(v, g)
    ensures g * v.perGroup + i < |Flat(v, h)| && Flat(v, h)[g * v.perGroup + i] == BitAt(v, g, i)
    decreases h
  {
    hide Flat, WellFormed;
    FlatStep(v, h - 1);
    FlatLength(v, h - 1);
    if g < h - 1 { FlatAt(v, h - 1, g, i); }
  }

  lemma {:induction false} AllocationInGroups(v: Volume, r: Volume, count: nat)
    requires Agrees(v) && AllocatedTo(v, r, count) && count <= v.free && Reaches(v, count)
    ensures Took(v, r, Chosen(v, |v.groups|, count)) && |Chosen(v, |v.groups|, count)| == count
  {
    hide Chosen, Flat, Agrees, Reaches, Size;
    AgreesMeans(v);
    AllocationExactIff(v, r, count);
    AfterWellFormed(v, r, count);
    var blocks := Chosen(v, |v.groups|, count);
    forall g, i | 0 <= g < |v.groups| && 0 <= i < Size(v, g)
      ensures TookAt(v, r, blocks, g, i)
    {
      FlatAt(v, |v.groups|, g, i);
      FlatAt(r, |r.groups|, g, i);
      FlatLength(v, |v.groups|);
      AllocationMeaning(v, r, count, g * v.perGroup + i);
    }
  }

  lemma {:induction false} AgreesMeans(v: Volume)
    requires Agrees(v)
    ensures WellFormed(v)
  {
  }

  lemma {:induction false} NothingFound(v: Volume, r: Volume, count: nat)
    requires Agrees(v) && AllocatedTo(v, r, count) && count <= v.free && WellFormed(r)
    requires Limit(v, |v.groups| - 1) == 0 && Wanted(v, |v.groups| - 1, count) > 0
    ensures Chosen(v, |v.groups|, count) == Chosen(v, |v.groups| - 1, count)
    ensures !Agrees(r)
  {
    var last := |v.groups| - 1;
    WantedLeft(v, last, count);
    LimitIsSize(v, last);
    AfterWellFormed(v, r, count);
    assert TakenFrom(v, r, last, count) && GroupAgrees(v, last);
    var group := v.groups[last];
    assert Marked(group.bits[..0], Share(v, last, count)) + group.bits[0..] == group.bits;
    assert !GroupAgrees(r, last);
  }

  // ------------------------------------------------------------ the mounted volume

  ghost predicate Distinct(bitmaps: seq<array<bv32>>)
  {
    forall g, h :: 0 <= g < |bitmaps| && 0 <= h < |bitmaps| && g != h ==> bitmaps[g] != bitmaps[h]
  }

  class BlockAllocator {
    const blockCount: nat
    const perGroup: nat
    const tableBits: nat
    var free: nat
    var groupFree: seq<nat>
    const bitmaps: seq<array<bv32>>

    ghost function GroupAt(g: nat): BlockGroup
      requires g < |groupFree| && g < |bitmaps|
      reads this, bitmaps[g]
    {
      BlockGroup(groupFree[g], Bits(bitmaps[g][..]))
    }

    ghost function State(): Volume
      requires |groupFree| == |bitmaps|
      reads this, bitmaps
    {
      var groups := seq(|groupFree|, g
                        requires 0 <= g < |groupFree| && g < |bitmaps|
                        reads this, bitmaps => GroupAt(g));
      Volume(blockCount, perGroup, free, groups)
    }

    ghost predicate Valid()
      reads this, bitmaps
    {
      && |groupFree| == |bitmaps| && tableBits > 0 && Aligned(tableBits)
      && Distinct(bitmaps)
      && WellFormed(State())
    }

    /** The counters and bitmaps of a mounted volume. */
    constructor (blockCount: nat, perGroup: nat, tableBits: nat, free: nat, groupFree: seq<nat>,
                 bitmaps: seq<array<bv32>>)
      requires tableBits > 0 && Aligned(tableBits) && perGroup > 0 && |groupFree| == |bitmaps| > 0 && Distinct(bitmaps)
      requires (|bitmaps| - 1) * perGroup < blockCount <= |bitmaps| * perGroup
      requires forall g :: 0 <= g < |bitmaps| ==> perGroup <= 32 * bitmaps[g].Length
      ensures Valid() && this.blockCount == blockCount && this.perGroup == perGroup && this.tableBits == tableBits
      ensures this.free == free && this.groupFree == groupFree && this.bitmaps == bitmaps
    {
      this.blockCount, this.perGroup, this.tableBits := blockCount, perGroup, tableBits;
      this.free, this.groupFree, this.bitmaps := free, groupFree, bitmaps;
      new;
      hide Bits;
      var n := |bitmaps|;
      assert n * perGroup == (n - 1) * perGroup + perGroup;
      assert forall g :: 0 <= g < n ==> State().groups[g] == GroupAt(g);
    }

    /** The allocation of `count` blocks from state v has gone through the first g groups. */
    ghost predicate Progress(v: Volume, g: nat, count: nat)
      requires WellFormed(v)
      reads this, bitmaps
    {
      && |groupFree| == |bitmaps| == |v.groups| && v.blockCount == blockCount && v.perGroup == perGroup
      && forall h :: 0 <= h < |v.groups| ==> GroupAt(h) == if h < g then AfterAt(v, h, count) else v.groups[h]
    }

    method LimitOf(g: nat) returns (limit: nat)
      requires perGroup > 0
      ensures forall v: Volume :: v.blockCount == blockCount && v.perGroup == perGroup && |v.groups| == |bitmaps| ==>
                limit == Limit(v, g)
    {
      limit := if g + 1 == |bitmaps| then blockCount % perGroup else perGroup;
    }

    /** Takes the share of one group out of its counter and its bitmap. */
    method AllocateInGroup(ghost v: Volume, g: nat, ghost count: nat, wanted: nat) returns (picked: seq<nat>, left: nat)
      requires tableBits > 0 && Aligned(tableBits) && Distinct(bitmaps)
      requires WellFormed(v) && g < |v.groups| && Progress(v, g, count) && wanted == Wanted(v, g, count)
      modifies this`groupFree, bitmaps[g]
      ensures Progress(v, g + 1, count)
      ensures left == Wanted(v, g + 1, count) && Chosen(v, g, count) + picked == Chosen(v, g + 1, count)
    {
      hide Lowest, Marked, Bits, Aligned, WellFormed, Wanted, Chosen, Limit, Size, AfterAt;
      ghost var bits := v.groups[g].bits;
      assert GroupAt(g) == v.groups[g];
      LimitIsSize(v, g);
      GroupStep(v, g, count);
      var share := Min(wanted, groupFree[g]);
      left := wanted - share;
      if share == 0 {
        picked := [];
        NothingTaken(bits, Limit(v, g), g * perGroup);
      } else {
        groupFree := groupFree[g := groupFree[g] - share];
        var limit := LimitOf(g);
        picked := ScanGroup(bitmaps[g], g * perGroup, limit, share, tableBits);
      }
      assert GroupAt(g) == AfterAt(v, g, count);
      forall h | 0 <= h < |v.groups| && h != g
        ensures GroupAt(h) == old(GroupAt(h))
      {
        assert bitmaps[h] != bitmaps[g];
      }
    }

    method AllocateBlocks(count: nat) returns (blocks: seq<nat>)
      requires Valid()
      modifies this, bitmaps
      ensures Valid()
      ensures old(free) < count ==> blocks == [] && State() == old(State())
      ensures count <= old(free) ==>
                blocks == Chosen(old(State()), |bitmaps|, count) && AllocatedTo(old(State()), State(), count)
      // if the counters agree and the request does not reach into a last group of full size
      ensures old(Agrees(State())) && count <= old(free) && Reaches(old(State()), count) ==>
                |blocks| == count && Took(old(State()), State(), blocks) && free == old(free) - count && Agrees(State())
    {
      hide AfterAt, GroupAfter, Lowest, Marked, Bits, Aligned, Wanted, Chosen, Limit;
      ghost var v := State();
      blocks := [];
      if free < count {
        return;
      }
      free := free - count;
      var g, left := 0, count;
      NothingYet(v, count);
      while g < |groupFree| && left > 0
        invariant 0 <= g <= |groupFree| && Progress(v, g, count) && left == Wanted(v, g, count)
        invariant blocks == Chosen(v, g, count) && free == v.free - count
      {
        var picked: seq<nat>;
        picked, left := AllocateInGroup(v, g, count, left);
        blocks := blocks + picked;
        g := g + 1;
      }
      if left == 0 { NothingMore(v, g, |bitmaps|, count); }
      ghost var r := State();
      forall h | 0 <= h < |v.groups|
        ensures TakenFrom(v, r, h, count)
      {
        assert r.groups[h] == GroupAt(h);
        if g <= h { Untouched(v, g, h, count); }
      }
      AfterWellFormed(v, r, count);
      if Agrees(v) && Reaches(v, count) {
        AllocationInGroups(v, r, count);
        AllocationExactIff(v, r, count);
      }
    }
  }

  lemma {:induction false} GroupStep(v: Volume, g: nat, count: nat)
    requires WellFormed(v) && g < |v.groups|
    ensures Limit(v, g) <= |v.groups[g].bits|
    ensures var share := Share(v, g, count);
            && Wanted(v, g + 1, count) == Wanted(v, g, count) - share
            && Chosen(v, g + 1, count) ==
               Chosen(v, g, count) + Lowest(v.groups[g].bits[..Limit(v, g)], share, g * v.perGroup)
            && AfterAt(v, g, count) == GroupAfter(v.groups[g], Limit(v, g), share)
  {
    hide Lowest, Marked, WellFormed;
    LimitIsSize(v, g);
  }

  lemma {:induction false} NothingYet(v: Volume, count: nat)
    requires WellFormed(v)
    ensures Wanted(v, 0, count) == count && Chosen(v, 0, count) == []
  {
  }

  lemma {:induction false} Untouched(v: Volume, g: nat, h: nat, count: nat)
    requires WellFormed(v) && g <= h < |v.groups| && Wanted(v, g, count) == 0
    ensures AfterAt(v, h, count) == v.groups[h]
  {
    hide Wanted, Marked;
    NothingMore(v, g, h, count);
    LimitIsSize(v, h);
    NothingTaken(v.groups[h].bits, Limit(v, h), h * v.perGroup);
  }

  /** Once nothing is wanted, later groups stay as they are. */
  lemma {:induction false} NothingMore(v: Volume, g: nat, h: nat, count: nat)
    requires WellFormed(v) && g <= h <= |v.groups| && Wanted(v, g, count) == 0
    ensures Wanted(v, h, count) == 0 && Chosen(v, h, count) == Chosen(v, g, count)
  {
    hide Lowest, Marked, Wanted, Chosen, AfterAt, GroupAfter;
    if g < h {
      NothingMore(v, g, h - 1, count);
      GroupStep(v, h - 1, count);
      NothingTaken(v.groups[h - 1].bits, Limit(v, h - 1), (h - 1) * v.perGroup);
    }
  }

  lemma {:induction false} NothingTaken(bits: seq<bool>, limit: nat, base: nat)
    requires limit <= |bits|
    ensures Lowest(bits[..limit], 0, base) == [] && Marked(bits[..limit], 0) + bits[limit..] == bits
  {
  }

  lemma {:induction false} AllSetClear(bits: seq<bool>)
    requires forall i :: 0 <= i < |bits| ==> bits[i]
    ensures Clear(bits) == 0
  {
    if |bits| > 0 { AllSetClear(bits[1..]); }
  }

  /** One group of exactly full size in which only the last block is free. */
  lemma {:induction false} LastFreeAgrees(v: Volume)
    requires v.blockCount == 32 && v.perGroup == 32 && v.free == 1 && |v.groups| == 1
    requires v.groups[0].free == 1 && |v.groups[0].bits| == 32
    requires forall i :: 0 <= i < 32 ==> (v.groups[0].bits[i] <==> i != 31)
    ensures Agrees(v) && Chosen(v, 1, 1) == []
  {
    var bits := v.groups[0].bits;
    assert WellFormed(v);
    LimitIsSize(v, 0);
    assert bits[..32] == bits[..31] + [false];
    AllSetClear(bits[..31]);
    JoinedClear(bits[..31], [false]);
    assert Clear([false]) == 1 by { assert [false][1..] == []; }
    assert GroupAgrees(v, 0);
    assert FreeUpto(v, 1) == FreeUpto(v, 0) + 1;
    assert Chosen(v, 0, 1) == [];
  }

  /** A volume of 32 blocks in one group of 32, one of them free: the counters agree, yet nothing is handed out. */
  method FullLastGroupExample() returns (volume: BlockAllocator, ghost before: Volume, blocks: seq<nat>)
    ensures before.blockCount == before.perGroup == 32 && before.free == 1 && Agrees(before)
    ensures blocks == [] && volume.Valid() && volume.free == 0 && !Agrees(volume.State())
  {
    hide Bits, TestBit, Offset, GetBit, Agrees, Chosen, TakenFrom, Reaches, Fill;
    var bitmap := new bv32[1](_ => 0xFFFF_FFFF);
    AllOnes(bitmap[..]);
    PutBit(bitmap, 31, false);
    volume := new BlockAllocator(32, 32, 32768, 1, [1], [bitmap]);
    before := volume.State();
    assert before.groups[0] == volume.GroupAt(0);
    LastFreeAgrees(before);
    blocks := volume.AllocateBlocks(1);
    AllocationExactIff(before, volume.State(), 1);
  }
}
