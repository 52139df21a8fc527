/**
 * The physical page allocator: `alloc` and `free` over the buddy index, with the
 * `last_alloc` hints and the byte counters.  `Memory` is the allocator's state as a
 * value, `Claim` and `Release` are its two transitions, and the class performs them in
 * place on eight word bitmaps.
 */
module PhysicalMemory {
  import opened BitmapWords
  import opened BuddyIndex
  import opened BuddySearch
  import opened Division

  const PAGE_SIZE := 4096

  function PageSize(k: nat): (s: nat)
    ensures s > 0
  {
    PAGE_SIZE * Pow2(k)
  }

  /** The first level whose pages are large enough, or the last level. */
  function BuddyFor(size: nat): (k: nat)
    ensures k < LEVELS
    ensures size <= PageSize(LEVELS - 1) ==> size <= PageSize(k)
    ensures k > 0 ==> size > PageSize(k - 1)
  {
    BuddyFrom(size, 0)
  }

  function BuddyFrom(size: nat, k: nat): (r: nat)
    requires k < LEVELS
    ensures k <= r < LEVELS
    ensures size <= PageSize(LEVELS - 1) ==> size <= PageSize(r)
    ensures r > k ==> size > PageSize(r - 1)
    decreases LEVELS - k
  {
    if PageSize(k) >= size || k == LEVELS - 1 then k else BuddyFrom(size, k + 1)
  }

  function PagesTaken(size: nat): (n: nat)
    requires size > 0
    ensures n > 0
  {
    CeilDiv(size, PAGE_SIZE)
  }

  function FirstPage(size: nat, c: nat): nat
  {
    Shl(c, BuddyFor(size))
  }

  function LastPage(size: nat, c: nat): nat
    requires size > 0
  {
    FirstPage(size, c) + PagesTaken(size) - 1
  }

  datatype Memory = Memory(index: Index, last: seq<nat>, used: int, explicitUsed: int)

  ghost predicate Shaped(m: Memory, pageCount: nat)
  {
    && Sized(m.index, pageCount)
    && |m.last| == LEVELS
    && (forall k :: 0 <= k < LEVELS ==> m.last[k] < WORD_RANGE)
    && pageCount < WORD_RANGE - 2
  }

  function QueryFor(m: Memory, pageCount: nat, usable: nat, size: nat, min: nat, max: nat, boundary: nat): Query
    requires |m.last| == LEVELS
  {
    var k := BuddyFor(size);
    var unit := PageSize(k);
    var start := Div((min + unit - 1) % WORD_RANGE, unit);
    var end := Div(if max < usable then max else usable, unit);
    var origin := if m.last[k] < start then start else m.last[k];
    Query(start, end, origin, CeilDiv(size, unit), Shr(pageCount, k), unit, size, boundary)
  }

  /** The new `last_alloc` of level k: halved page index plus halved page count minus one, modulo 2^32. */
  function LastAlloc(first: nat, count: nat, k: nat): (r: nat)
    ensures r < WORD_RANGE
  {
    (Shr(first, k) + Shr(count, k) + WORD_RANGE - 1) % WORD_RANGE
  }

  /** The state after buddy page c has been taken for `size` bytes. */
  function Claim(m: Memory, size: nat, c: nat): Memory
    requires size > 0
  {
    var first, count := FirstPage(size, c), PagesTaken(size);
    Memory(MarkUsed(m.index, first, LastPage(size, c)),
           seq(LEVELS, k requires 0 <= k => LastAlloc(first, count, k)),
           m.used + count * PAGE_SIZE,
           m.explicitUsed + size)
  }

  /** The number of pages `free` gives back, rounded with the buddy page size but counted in small pages. */
  function PagesFreed(size: nat): (n: nat)
    ensures size > 0 ==> n > 0
  {
    PageFits(BuddyFor(size));
    (size + PageSize(BuddyFor(size)) - 1) / PAGE_SIZE
  }

  lemma PageFits(k: nat)
    ensures PageSize(k) >= PAGE_SIZE
  {
    if k > 0 { PageFits(k - 1); }
  }

  /** The last page `free` gives back. */
  function LastFreed(address: nat, size: nat): nat
    requires size > 0
  {
    address / PAGE_SIZE + PagesFreed(size) - 1
  }

  function Release(m: Memory, address: nat, size: nat): Memory
    requires size > 0 && Addressable(m.index, LastFreed(address, size))
  {
    var first, count := address / PAGE_SIZE, PagesFreed(size);
    m.(index := MarkFree(m.index, first, first + count - 1),
       used := m.used - count * PAGE_SIZE,
       explicitUsed := m.explicitUsed - size)
  }

  lemma BuddyZero(size: nat)
    ensures BuddyFor(size) == 0 <==> size <= PAGE_SIZE
  {
    assert Pow2(0) == 1;
    if BuddyFor(size) > 0 {
      assert PageSize(BuddyFor(size) - 1) >= PAGE_SIZE;
    }
  }

  /** `free` gives back as many pages as `alloc` took exactly for requests of at most one page. */
  lemma FreeMatchesAllocIff(size: nat)
    requires size > 0
    ensures PagesFreed(size) == PagesTaken(size) <==> size <= PAGE_SIZE
  {
    var k := BuddyFor(size);
    BuddyZero(size);
    assert (size - 1 + PAGE_SIZE * Pow2(k)) / PAGE_SIZE == (size - 1) / PAGE_SIZE + Pow2(k);
    assert CeilDiv(size, PAGE_SIZE) == (size - 1) / PAGE_SIZE + 1;
    assert k > 0 ==> Pow2(k) == 2 * Pow2(k - 1);
  }

  // ---------------------------------------------------------------- runs of the allocator

  /** One byte more than a page: two pages are taken and three are given back. */
  lemma FreeExample()
    ensures PagesTaken(PAGE_SIZE + 1) == 2 && PagesFreed(PAGE_SIZE + 1) == 3
  {
    assert BuddyFor(PAGE_SIZE + 1) == 1;
  }

  /** A live allocation: its first page and its number of pages. */
  datatype Extent = Extent(first: nat, count: nat)

  datatype Tracked = Tracked(mem: Memory, live: set<Extent>)

  datatype Op =
    | DoAlloc(size: nat, min: nat, max: nat, boundary: nat, c: nat)
    | DoFree(address: nat, size: nat)

  predicate Disjoint(a: Extent, b: Extent)
  {
    a.first + a.count <= b.first || b.first + b.count <= a.first
  }

  function Popcount(bits: seq<bool>): nat
  {
    if bits == [] then 0 else Popcount(bits[..|bits| - 1]) + (if bits[|bits| - 1] then 1 else 0)
  }

  /** One allocation of at most 512 KiB, or one free of a live single page. */
  ghost predicate Next(pageCount: nat, usable: nat, s: Tracked, op: Op, t: Tracked)
    requires Shaped(s.mem, pageCount)
  {
    match op
    case DoAlloc(size, min, max, boundary, c) =>
      && 0 < size <= PageSize(LEVELS - 1)
      && var q := QueryFor(s.mem, pageCount, usable, size, min, max, boundary);
      && q.pageCount <= |s.mem.index[BuddyFor(size)]|
      && WellFormed(q)
      && Finds(q, s.mem.index[BuddyFor(size)], c)
      && t.mem == Claim(s.mem, size, c)
      && var address := c * PageSize(BuddyFor(size));
      && t.live == s.live + {Extent(address / PAGE_SIZE, (size + PAGE_SIZE - 1) / PAGE_SIZE)}
    case DoFree(address, size) =>
      && 0 < size <= PAGE_SIZE
      && Extent(address / PAGE_SIZE, 1) in s.live
      && Addressable(s.mem.index, LastFreed(address, size))
      && t.mem == Release(s.mem, address, size)
      && t.live == s.live - {Extent(address / PAGE_SIZE, 1)}
  }

  ghost predicate Held(index: Index, pageCount: nat, e: Extent)
    requires Sized(index, pageCount)
  {
    && e.count > 0 && e.first + e.count <= pageCount
    && e.first + e.count <= |index[0]|
    && forall p :: e.first <= p < e.first + e.count ==> index[0][p]
  }

  /** `base` is the part of the used-memory counter that no run of the allocator changes. */
  ghost predicate Inv(pageCount: nat, base: int, s: Tracked)
  {
    && Shaped(s.mem, pageCount)
    && Agrees(s.mem.index)
    && (forall e :: e in s.live ==> Held(s.mem.index, pageCount, e))
    && (forall a, b :: a in s.live && b in s.live && a != b ==> Disjoint(a, b))
    && s.mem.used == base + PAGE_SIZE * Popcount(s.mem.index[0])
  }

  lemma {:induction false} PopcountFill(bits: seq<bool>, lo: nat, hi: nat, value: bool)
    requires lo <= hi <= |bits|
    requires forall p :: lo <= p < hi ==> bits[p] != value
    ensures Popcount(Fill(bits, lo, hi, value)) == Popcount(bits) + (if value then hi - lo else lo - hi)
    decreases |bits|
  {
    hide Fill;
    if |bits| > 0 {
      var n := |bits| - 1;
      var last := if hi <= n then hi else n;
      var first := if lo <= last then lo else last;
      assert Fill(bits, lo, hi, value)[..n] == Fill(bits[..n], first, last, value);
      PopcountFill(bits[..n], first, last, value);
    }
  }

  /** The pages a one-buddy-page claim marks lie under buddy page c and were all free. */
  lemma ClaimedPagesFree(m: Memory, pageCount: nat, size: nat, c: nat, p: nat)
    requires Shaped(m, pageCount) && Agrees(m.index) && 0 < size <= PageSize(BuddyFor(size))
    requires c < Shr(pageCount, BuddyFor(size)) && c < |m.index[BuddyFor(size)]| && !m.index[BuddyFor(size)][c]
    requires FirstPage(size, c) <= p <= LastPage(size, c)
    ensures p < pageCount && p < |m.index[0]| && !m.index[0][p]
  {
    var k := BuddyFor(size);
    assert CeilDiv(size, PAGE_SIZE) <= Pow2(k);
    assert (c + 1) * Pow2(k) == c * Pow2(k) + Pow2(k);
    ShrUnique(p, k, c);
    IndexIsExact(m.index, pageCount, k, c);
    assert |m.index[0]| == LevelBits(pageCount, 0);
    if p >= pageCount {
      ShrMono(pageCount, p, k);
    }
  }

  lemma ClaimKeepsShape(m: Memory, pageCount: nat, size: nat, c: nat)
    requires Shaped(m, pageCount) && size > 0
    ensures Shaped(Claim(m, size, c), pageCount)
  {
  }

  lemma ReleaseKeepsShape(m: Memory, pageCount: nat, address: nat, size: nat)
    requires Shaped(m, pageCount) && size > 0 && Addressable(m.index, LastFreed(address, size))
    ensures Shaped(Release(m, address, size), pageCount)
  {
  }

  /** Marking a free range keeps every live allocation marked and apart from the new one. */
  lemma LiveAfterFill(index: Index, after: Index, pageCount: nat, live: set<Extent>, e: Extent)
    requires Sized(index, pageCount) && Sized(after, pageCount)
    requires e.count > 0 && e.first + e.count <= pageCount && e.first + e.count <= |index[0]|
    requires forall p :: e.first <= p < e.first + e.count ==> !index[0][p]
    requires after[0] == Fill(index[0], e.first, e.first + e.count, true)
    requires forall a :: a in live ==> Held(index, pageCount, a)
    requires forall a, b :: a in live && b in live && a != b ==> Disjoint(a, b)
    ensures forall a :: a in live + {e} ==> Held(after, pageCount, a)
    ensures forall a, b :: a in live + {e} && b in live + {e} && a != b ==> Disjoint(a, b)
  {
    forall a | a in live
      ensures Disjoint(a, e)
    {
      MarkedApartFromClear(index[0], a, e);
    }
  }

  lemma MarkedApartFromClear(bits: seq<bool>, a: Extent, e: Extent)
    requires a.first + a.count <= |bits| && e.first + e.count <= |bits| && a.count > 0 && e.count > 0
    requires forall p :: a.first <= p < a.first + a.count ==> bits[p]
    requires forall p :: e.first <= p < e.first + e.count ==> !bits[p]
    ensures Disjoint(a, e)
  {
    var p := if a.first <= e.first then e.first else a.first;
    if bits[p] {}
  }

  lemma FreePagesBound(m: Memory, pageCount: nat, size: nat, c: nat)
    requires Shaped(m, pageCount) && Agrees(m.index) && 0 < size <= PageSize(BuddyFor(size))
    requires c < Shr(pageCount, BuddyFor(size)) && c < |m.index[BuddyFor(size)]| && !m.index[BuddyFor(size)][c]
    ensures var first, count := FirstPage(size, c), PagesTaken(size);
            && first + count <= pageCount && first + count <= |m.index[0]|
            && forall p :: first <= p < first + count ==> !m.index[0][p]
  {
    hide BuddyFor, Shr, Agrees, FirstPage, PagesTaken;
    var first, count := FirstPage(size, c), PagesTaken(size);
    forall p | first <= p < first + count
      ensures p < pageCount && p < |m.index[0]| && !m.index[0][p]
    {
      ClaimedPagesFree(m, pageCount, size, c, p);
    }
    ClaimedPagesFree(m, pageCount, size, c, first + count - 1);
  }

  /** Up to 512 KiB a usable candidate is one existing, free buddy page. */
  lemma FoundIsFree(m: Memory, pageCount: nat, usable: nat, size: nat, min: nat, max: nat, boundary: nat, c: nat)
    requires Shaped(m, pageCount) && 0 < size <= PageSize(LEVELS - 1)
    requires var q := QueryFor(m, pageCount, usable, size, min, max, boundary);
             q.pageCount <= |m.index[BuddyFor(size)]| && WellFormed(q) && Finds(q, m.index[BuddyFor(size)], c)
    ensures c < Shr(pageCount, BuddyFor(size)) && c < |m.index[BuddyFor(size)]| && !m.index[BuddyFor(size)][c]
  {
    hide Crosses, Walk, FirstIndex, Pow2, Shr;
    var q := QueryFor(m, pageCount, usable, size, min, max, boundary);
    var level := m.index[BuddyFor(size)];
    var n: nat :| Walk(q, level, FirstIndex(q), n) == Took(c);
    TakenWhere(q, level, n, c);
  }

  /** The pages marked for a claim are those of the returned address. */
  lemma AddressOfClaim(size: nat, c: nat)
    requires size > 0
    ensures var address := c * PageSize(BuddyFor(size));
            && address % PAGE_SIZE == 0 && address / PAGE_SIZE == FirstPage(size, c)
            && (size + PAGE_SIZE - 1) / PAGE_SIZE == PagesTaken(size)
            && (address + size + PAGE_SIZE - 1) / PAGE_SIZE == FirstPage(size, c) + PagesTaken(size)
  {
    hide BuddyFor, Pow2;
    var k := BuddyFor(size);
    assert c * PageSize(k) == FirstPage(size, c) * PAGE_SIZE;
    WholePages(FirstPage(size, c), size);
  }

  lemma WholePages(first: nat, size: nat)
    ensures (first * PAGE_SIZE) % PAGE_SIZE == 0 && (first * PAGE_SIZE) / PAGE_SIZE == first
    ensures (first * PAGE_SIZE + size + PAGE_SIZE - 1) / PAGE_SIZE == first + (size + PAGE_SIZE - 1) / PAGE_SIZE
  {
  }

  /** The pages that hold the bytes are marked, and no others. */
  ghost predicate BytesMarked(before: seq<bool>, after: seq<bool>, address: nat, size: nat)
  {
    && address % 4096 == 0 && |after| == |before|
    && forall p :: 0 <= p < |after| ==>
         (after[p] <==> before[p] || address / 4096 <= p < (address + size + 4095) / 4096)
  }

  /** The pages that hold the bytes exist and are free. */
  ghost predicate BytesFree(before: seq<bool>, pageCount: nat, address: nat, size: nat)
  {
    var end := (address + size + 4095) / 4096;
    end <= pageCount && end <= |before| && forall p :: address / 4096 <= p < end ==> !before[p]
  }

  predicate Counted(before: int, after: int, size: nat)
  {
    after == before + (size + 4095) / 4096 * 4096
  }

  /** First byte and end lie between the same two multiples of the boundary, in 32-bit arithmetic. */
  predicate Between(address: nat, size: nat, boundary: nat)
  {
    boundary != 0 ==> address % 0x1_0000_0000 / boundary == (address + size) % 0x1_0000_0000 / boundary
  }

  /** What a claim does to the pages: those of its bytes are marked and no others. */
  lemma ClaimMarks(m: Memory, size: nat, c: nat)
    requires size > 0 && |m.index| == LEVELS
    ensures BytesMarked(m.index[0], Claim(m, size, c).index[0], c * PageSize(BuddyFor(size)), size)
  {
    hide BuddyFor, PageSize, FirstPage, PagesTaken, Fill;
    AddressOfClaim(size, c);
    assert Shr(FirstPage(size, c), 0) == FirstPage(size, c) && Shr(LastPage(size, c), 0) == LastPage(size, c);
  }

  /** Up to 512 KiB the pages of the bytes were all free. */
  lemma ClaimWasFree(m: Memory, pageCount: nat, usable: nat, size: nat, min: nat, max: nat, boundary: nat, c: nat)
    requires Shaped(m, pageCount) && Agrees(m.index) && 0 < size <= PageSize(LEVELS - 1)
    requires var q := QueryFor(m, pageCount, usable, size, min, max, boundary);
             q.pageCount <= |m.index[BuddyFor(size)]| && WellFormed(q) && Finds(q, m.index[BuddyFor(size)], c)
    ensures BytesFree(m.index[0], pageCount, c * PageSize(BuddyFor(size)), size)
  {
    hide BuddyFor, PageSize, FirstPage, PagesTaken, Agrees, QueryFor, WellFormed, Finds, Shr;
    AddressOfClaim(size, c);
    FoundIsFree(m, pageCount, usable, size, min, max, boundary, c);
    FreePagesBound(m, pageCount, size, c);
  }

  lemma TopPageSize()
    ensures PageSize(LEVELS - 1) == 0x8_0000
  {
    assert Pow2(7) == 2 * Pow2(6) && Pow2(6) == 2 * Pow2(5) && Pow2(5) == 2 * Pow2(4);
  }

  /** A usable candidate does not cross the boundary. */
  lemma UsableWithin(m: Memory, pageCount: nat, usable: nat, size: nat, min: nat, max: nat, boundary: nat, c: nat)
    requires |m.index| == LEVELS && |m.last| == LEVELS
    requires var q := QueryFor(m, pageCount, usable, size, min, max, boundary);
             q.pageCount <= |m.index[BuddyFor(size)]| && Usable(q, m.index[BuddyFor(size)], c)
    ensures Between(c * PageSize(BuddyFor(size)), size, boundary)
  {
    hide BuddyFor, PageSize, Shr, CeilDiv, Div;
  }

  /** Each hint is the halved number of the first page, plus the halved count of pages, minus one. */
  ghost predicate HintsAt(hints: seq<nat>, address: nat, size: nat)
  {
    |hints| == 8 && forall k :: 0 <= k < 8 ==>
      hints[k] == (Shr(address / 4096, k) + Shr((size + 4095) / 4096, k) + 0xFFFF_FFFF) % 0x1_0000_0000
  }

  lemma ClaimHints(m: Memory, size: nat, c: nat)
    requires size > 0
    ensures HintsAt(Claim(m, size, c).last, c * PageSize(BuddyFor(size)), size)
  {
    hide BuddyFor, FirstPage, PagesTaken, PageSize, Shr;
    AddressOfClaim(size, c);
  }

  lemma ClaimCounts(m: Memory, size: nat, c: nat)
    requires size > 0
    ensures Counted(m.used, Claim(m, size, c).used, size)
    ensures Claim(m, size, c).explicitUsed == m.explicitUsed + size
  {
    hide BuddyFor, FirstPage;
  }

  /** A result stays between two multiples of the boundary, if its end does not wrap around. */
  lemma BetweenBoundaries(address: nat, size: nat, boundary: nat, m: nat)
    requires boundary > 0 && address + size < WORD_RANGE && Between(address, size, boundary)
    ensures !(address < m * boundary <= address + size)
  {
    assert address % WORD_RANGE == address && (address + size) % WORD_RANGE == address + size;
    DivBounds(address, boundary);
    DivBounds(address + size, boundary);
    var q := Div(address, boundary);
    if m <= q { MulMono(m, q, boundary); } else { MulMono(q + 1, m, boundary); }
  }

  lemma AllocKeepsInv(pageCount: nat, usable: nat, base: int, s: Tracked, op: Op, t: Tracked)
    requires Inv(pageCount, base, s) && op.DoAlloc? && Next(pageCount, usable, s, op, t)
    ensures Inv(pageCount, base, t)
  {
    hide Finds, WellFormed, QueryFor, Agrees, Held, Disjoint, LastAlloc, FirstPage, PagesTaken, BuddyFor, Popcount;
    hide Addressable, PagesFreed, LevelBits;
    var first, count := FirstPage(op.size, op.c), PagesTaken(op.size);
    AddressOfClaim(op.size, op.c);
    FoundIsFree(s.mem, pageCount, usable, op.size, op.min, op.max, op.boundary, op.c);
    FreePagesBound(s.mem, pageCount, op.size, op.c);
    ClaimKeepsShape(s.mem, pageCount, op.size, op.c);
    UsedKeepsAgreement(s.mem.index, first, first + count - 1);
    PopcountFill(s.mem.index[0], first, first + count, true);
    assert t.mem.index[0] == UsedLevel(s.mem.index, first, first + count - 1, 0);
    LiveAfterFill(s.mem.index, t.mem.index, pageCount, s.live, Extent(first, count));
  }

  /** Clearing one live page leaves the other live allocations marked. */
  lemma LiveAfterClear(index: Index, after: Index, pageCount: nat, live: set<Extent>, p: nat)
    requires Sized(index, pageCount) && Sized(after, pageCount)
    requires Extent(p, 1) in live && p < |index[0]| && after[0] == Fill(index[0], p, p + 1, false)
    requires forall a :: a in live ==> Held(index, pageCount, a)
    requires forall a, b :: a in live && b in live && a != b ==> Disjoint(a, b)
    ensures forall a :: a in live - {Extent(p, 1)} ==> Held(after, pageCount, a)
  {
    forall a | a in live - {Extent(p, 1)}
      ensures Held(after, pageCount, a)
    {
      assert Held(index, pageCount, a) && Disjoint(a, Extent(p, 1));
    }
  }

  lemma FreeKeepsInv(pageCount: nat, usable: nat, base: int, s: Tracked, op: Op, t: Tracked)
    requires Inv(pageCount, base, s) && op.DoFree? && Next(pageCount, usable, s, op, t)
    ensures Inv(pageCount, base, t)
  {
    hide Agrees, Disjoint, Addressable, PagesFreed, PagesTaken;
    var p := op.address / PAGE_SIZE;
    assert PagesFreed(op.size) == 1 by { SinglePageFreed(op.size); }
    ReleaseKeepsShape(s.mem, pageCount, op.address, op.size);
    FreeKeepsAgreement(s.mem.index, p, p);
    assert Held(s.mem.index, pageCount, Extent(p, 1));
    PopcountFill(s.mem.index[0], p, p + 1, false);
    assert t.mem.index[0] == FreedLevel(s.mem.index, p, p, 0);
    LiveAfterClear(s.mem.index, t.mem.index, pageCount, s.live, p);
  }

  lemma SinglePageFreed(size: nat)
    requires 0 < size <= PAGE_SIZE
    ensures PagesFreed(size) == 1
  {
    FreeMatchesAllocIff(size);
  }

  ghost predicate IsRun(pageCount: nat, usable: nat, states: seq<Tracked>, ops: seq<Op>)
  {
    && |states| == |ops| + 1
    && forall i :: 0 <= i < |ops| ==>
         Shaped(states[i].mem, pageCount) && Next(pageCount, usable, states[i], ops[i], states[i + 1])
  }

  /**
   * Over any run of allocations up to 512 KiB and single-page frees: live allocations
   * never share a page, every page of a live allocation is marked, the index stays
   * exact, and the used-memory counter moves by exactly the pages marked.
   */
  lemma {:induction false} EveryRunIsSafe(pageCount: nat, usable: nat, base: int, states: seq<Tracked>, ops: seq<Op>,
                                          i: nat)
    requires IsRun(pageCount, usable, states, ops) && i < |states|
    requires Inv(pageCount, base, states[0])
    ensures Inv(pageCount, base, states[i])
  {
    hide Inv, Shaped, Finds, WellFormed, QueryFor, Claim, Release, BuddyFor, PageSize, Addressable;
    if i > 0 {
      EveryRunIsSafe(pageCount, usable, base, states, ops, i - 1);
      if ops[i - 1].DoAlloc? {
        AllocKeepsInv(pageCount, usable, base, states[i - 1], ops[i - 1], states[i]);
      } else {
        FreeKeepsInv(pageCount, usable, base, states[i - 1], ops[i - 1], states[i]);
      }
    }
  }

  /** The state at the end of booting, whatever was marked free and used on the way, starts such a run. */
  lemma {:induction false} BootStartsRun(pageCount: nat, marks: seq<Mark>, used: int, explicitUsed: int)
    requires MarksFit(AllUsed(pageCount), marks) && pageCount < WORD_RANGE - 2
    ensures var index := Run(AllUsed(pageCount), marks);
            var mem := Memory(index, seq(LEVELS, k => 0), used, explicitUsed);
            Inv(pageCount, used - PAGE_SIZE * Popcount(index[0]), Tracked(mem, {}))
  {
    hide Popcount, Apply;
    AllUsedAgrees(pageCount);
    RunKeepsAgreement(AllUsed(pageCount), marks);
  }

  // ---------------------------------------------------------------- results of one allocation

  lemma DivBounds(a: nat, b: nat)
    requires b > 0
    ensures Div(a, b) * b <= a < (Div(a, b) + 1) * b
  {
  }

  lemma CeilAtMost(a: nat, b: nat, c: nat)
    requires b > 0
    ensures CeilDiv(a, b) <= c <==> a <= c * b
  {
    DivBounds(a + b - 1, b);
    var q := CeilDiv(a, b);
    if q <= c {
      MulMono(q, c, b);
    } else {
      MulMono(c + 1, q, b);
    }
  }

  /** A buddy page lies in a window of addresses exactly when its number lies in the rounded window. */
  lemma PageInWindow(min: nat, top: nat, unit: nat, c: nat)
    requires unit > 0 && top < WORD_RANGE
    ensures min <= c * unit && (c + 1) * unit <= top <==>
            min + unit <= WORD_RANGE && Div((min + unit - 1) % WORD_RANGE, unit) <= c < Div(top, unit)
  {
    BelowDiv(top, unit, c);
    if min + unit <= WORD_RANGE {
      assert (min + unit - 1) % WORD_RANGE == min + unit - 1;
      assert CeilDiv(min, unit) == Div(min + unit - 1, unit);
      CeilAtMost(min, unit, c);
    } else {
      assert (c + 1) * unit == c * unit + unit;
    }
  }

  lemma BelowDiv(a: nat, b: nat, c: nat)
    requires b > 0
    ensures c < Div(a, b) <==> (c + 1) * b <= a
  {
    DivBounds(a, b);
    var q := Div(a, b);
    if c < q {
      MulMono(c + 1, q, b);
    } else {
      MulMono(q + 1, c + 1, b);
    }
  }

  /**
   * Each result is aligned to its buddy size.  The whole buddy page lies inside the window
   * exactly when the window holds a buddy page, rounding `min` up does not overflow, and no
   * page below the window could be reached through a wrapped `last_alloc`.
   */
  lemma AllocatedAddress(m: Memory, pageCount: nat, usable: nat, size: nat, min: nat, max: nat, boundary: nat, c: nat)
    requires Shaped(m, pageCount) && 0 < size <= PageSize(LEVELS - 1) && max < WORD_RANGE
    requires var q := QueryFor(m, pageCount, usable, size, min, max, boundary);
             && q.pageCount <= |m.index[BuddyFor(size)]| && WellFormed(q)
             && Finds(q, m.index[BuddyFor(size)], c)
    ensures var unit := PageSize(BuddyFor(size));
            var q := QueryFor(m, pageCount, usable, size, min, max, boundary);
            && (c * unit) % unit == 0
            && (min <= c * unit && (c + 1) * unit <= (if max < usable then max else usable)
                <==> min + unit <= WORD_RANGE && q.start < q.end && !UsableBelowWindow(q, m.index[BuddyFor(size)]))
  {
    hide Finds, UsableBelowWindow, BuddyFor, PageSize, CeilDiv, Div, Shr;
    var unit := PageSize(BuddyFor(size));
    var q := QueryFor(m, pageCount, usable, size, min, max, boundary);
    OneBuddyPage(size);
    WindowExact(q, m.index[BuddyFor(size)], c);
    MultipleMod(c, unit);
    PageInWindow(min, if max < usable then max else usable, unit, c);
  }

  /** Up to 512 KiB one buddy page is enough. */
  lemma OneBuddyPage(size: nat)
    requires 0 < size <= PageSize(LEVELS - 1)
    ensures CeilDiv(size, PageSize(BuddyFor(size))) == 1
  {
    hide PageSize, BuddyFor;
    CeilAtMost(size, PageSize(BuddyFor(size)), 1);
  }

  lemma MultipleMod(c: nat, unit: nat)
    requires unit > 0
    ensures (c * unit) % unit == 0
  {
    DivBounds(c * unit, unit);
    var q := Div(c * unit, unit);
    if q < c { MulMono(q + 1, c, unit); } else if q > c { MulMono(c + 1, q, unit); }
  }

  /** `last_alloc` of level k wraps exactly when page index and page count both halve to zero. */
  lemma LastAllocWrapsIff(first: nat, count: nat, k: nat)
    requires Shr(first, k) + Shr(count, k) <= WORD_RANGE - 1
    ensures LastAlloc(first, count, k) == WORD_RANGE - 1 <==> Shr(first, k) == 0 && Shr(count, k) == 0
  {
  }

  /** Taking the single page 1 already wraps the hint of every level above. */
  lemma TakingPageOneWraps(m: Memory)
    ensures Claim(m, PAGE_SIZE, 1).last[1] == WORD_RANGE - 1
  {
    BuddyZero(PAGE_SIZE);
    assert Shr(1, 1) == 0;
    assert CeilDiv(PAGE_SIZE, PAGE_SIZE) == 1;
    assert 1 * Pow2(0) == 1;
  }

  // ---------------------------------------------------------------- a small machine

  lemma {:induction false} SmallMarksFit()
    ensures MarksFit(AllUsed(128), [Freed(0, 127), Used(0, 1)])
    ensures Addressable(AllUsed(128), 127) && Addressable(MarkFree(AllUsed(128), 0, 127), 1)
  {
    hide Addressable, LevelsCover, Shr;
    DivisibleCountCovers(128);
    CoverMakesAddressable(AllUsed(128), 128, 127);
    CoverMakesAddressable(AllUsed(128), 128, 1);
    CoverMakesAddressable(MarkFree(AllUsed(128), 0, 127), 128, 1);
  }

  const SMALL_SIZE := 128 * PAGE_SIZE

  /** 128 pages after booting, the first two of them in use. */
  ghost function SmallMachine(): Memory
  {
    SmallMarksFit();
    Memory(Run(AllUsed(128), [Freed(0, 127), Used(0, 1)]), seq(LEVELS, k => 0), 2 * PAGE_SIZE, 0)
  }

  lemma SmallSpans()
    ensures LevelBits(128, 0) == 128 && LevelBits(128, 1) == 64 && LevelBits(128, 2) == 32
    ensures Shr(127, 1) == 63 && Shr(127, 2) == 31 && Shr(0, 1) == 0 && Shr(0, 2) == 0
  {
  }

  lemma {:induction false} SmallFreed()
    ensures Addressable(AllUsed(128), 127)
    ensures var v := MarkFree(AllUsed(128), 0, 127);
            && |v[0]| == 128 && |v[2]| == 32 && !v[0][2] && !v[2][1]
  {
    hide Addressable, FreedLevel, Fill, ClearCovered, Shr, LevelBits;
    SmallMarksFit();
    SmallSpans();
    var v := AllUsed(128);
    FreedLevelZero(v, 0, 127);
    FreedLevelStep(v, 0, 127, 1);
    FreedLevelStep(v, 0, 127, 2);
    assert MarkFree(v, 0, 127)[2] == FreedLevel(v, 0, 127, 2);
    assert forall j :: 0 <= j < 64 ==> !FreedLevel(v, 0, 127, 1)[j];
  }

  lemma {:induction false} SmallIndex()
    ensures var m := SmallMachine();
            && Shaped(m, 128) && |m.index| == LEVELS && |m.index[0]| == 128 && |m.index[2]| == 32
            && m.index[0][0] && m.index[0][1] && !m.index[0][2] && m.index[2][0] && !m.index[2][1]
  {
    hide Addressable, FreedLevel, Fill, MarkFree, Shr, LevelBits;
    SmallMarksFit();
    SmallFreed();
    var v := MarkFree(AllUsed(128), 0, 127);
    assert [Freed(0, 127), Used(0, 1)][1..] == [Used(0, 1)];
    assert Apply(AllUsed(128), Freed(0, 127)) == v;
    assert Run(v, [Used(0, 1)]) == MarkUsed(v, 0, 1) by { assert [Used(0, 1)][1..] == []; }
    SmallShifts();
  }

  lemma SmallShifts()
    ensures Shr(0, 0) == 0 && Shr(1, 0) == 1 && Shr(0, 2) == 0 && Shr(1, 2) == 0 && Shr(2, 0) == 2 && Shr(2, 2) == 0
    ensures Shr(128, 0) == 128 && Shr(128, 2) == 32 && Pow2(0) == 1 && Pow2(1) == 2 && Pow2(2) == 4
  {
  }

  lemma SmallLevels()
    ensures BuddyFor(PAGE_SIZE) == 0 && BuddyFor(4 * PAGE_SIZE) == 2
    ensures PageSize(0) == PAGE_SIZE && PageSize(2) == 4 * PAGE_SIZE
  {
    SmallShifts();
    assert BuddyFrom(4 * PAGE_SIZE, 0) == BuddyFrom(4 * PAGE_SIZE, 1) == BuddyFrom(4 * PAGE_SIZE, 2);
  }

  /** The first page that is asked for is page 2. */
  lemma {:induction false} SmallFirst()
    ensures var m := SmallMachine();
            Shaped(m, 128) && Inv(128, 2 * PAGE_SIZE - PAGE_SIZE * Popcount(m.index[0]), Tracked(m, {}))
    ensures var m := SmallMachine();
            var q := QueryFor(m, 128, SMALL_SIZE, PAGE_SIZE, 0, WORD_RANGE - 1, 0);
            && Shaped(m, 128) && q.pageCount <= |m.index[0]| && Finds(q, m.index[0], 2)
  {
    hide Run, BuddyFor, PageSize, Shr, Pow2, Inv, Popcount;
    SmallIndex();
    SmallShifts();
    SmallLevels();
    SmallMarksFit();
    BootStartsRun(128, [Freed(0, 127), Used(0, 1)], 2 * PAGE_SIZE, 0);
    var m := SmallMachine();
    var q := QueryFor(m, 128, SMALL_SIZE, PAGE_SIZE, 0, WORD_RANGE - 1, 0);
    assert q == Query(0, 128, 0, 1, 128, PAGE_SIZE, PAGE_SIZE, 0);
    assert Walk(q, m.index[0], 1, 0) == At(1);
    assert Walk(q, m.index[0], 1, 1) == At(2);
    assert Walk(q, m.index[0], FirstIndex(q), 2) == Took(2);
  }

  lemma SmallHints()
    ensures FirstPage(PAGE_SIZE, 2) == 2 && PagesTaken(PAGE_SIZE) == 1 && LastPage(PAGE_SIZE, 2) == 2
    ensures LastAlloc(2, 1, 0) == 2 && LastAlloc(2, 1, 2) == WORD_RANGE - 1
  {
    hide BuddyFor, PageSize;
    SmallShifts();
    SmallLevels();
    assert CeilDiv(PAGE_SIZE, PAGE_SIZE) == 1;
  }

  lemma {:induction false} MarkedLevel(v: Index, begin: nat, end: nat, k: nat)
    requires k < |v|
    ensures MarkUsed(v, begin, end)[k] == Fill(v[k], Shr(begin, k), Shr(end, k) + 1, true)
  {
    hide Fill, Shr;
  }

  lemma {:induction false} SmallClaim()
    ensures var m := Claim(SmallMachine(), PAGE_SIZE, 2);
            && |m.index| == LEVELS && |m.last| == LEVELS && |m.index[0]| == 128 && |m.index[2]| == 32
            && m.index[0][0] && m.index[2][0] && !m.index[2][1] && m.last[0] == 2 && m.last[2] == WORD_RANGE - 1
  {
    hide SmallMachine, Fill, MarkUsed, UsedLevel, Shr, Pow2, LastAlloc, FirstPage, LastPage, PagesTaken, BuddyFor;
    hide Sized, Shaped;
    SmallIndex();
    SmallShifts();
    SmallHints();
    MarkedLevel(SmallMachine().index, 2, 2, 0);
    MarkedLevel(SmallMachine().index, 2, 2, 2);
  }

  /** After that page, asking for a page below 4 KiB never ends: page 0 is in use and the hint lies above. */
  lemma {:induction false} SpinExample()
    ensures var m := Claim(SmallMachine(), PAGE_SIZE, 2);
            var q := QueryFor(m, 128, SMALL_SIZE, PAGE_SIZE, 0, PAGE_SIZE, 0);
            && BuddyFor(PAGE_SIZE) == 0 && q.pageCount <= |m.index[0]| && WellFormed(q) && Diverges(q, m.index[0])
  {
    hide Run, BuddyFor, PageSize, Shr, Pow2, Claim, SmallMachine, Walk, Diverges;
    SmallClaim();
    SmallShifts();
    SmallLevels();
    var m := Claim(SmallMachine(), PAGE_SIZE, 2);
    var q := QueryFor(m, 128, SMALL_SIZE, PAGE_SIZE, 0, PAGE_SIZE, 0);
    assert q == Query(0, 1, 2, 1, 128, PAGE_SIZE, PAGE_SIZE, 0);
    SinglePageDivergesIff(q, m.index[0]);
  }

  /** And asking for 16 KiB at 32 KiB or above finds the 16 KiB at 16 KiB: the hint of that level has wrapped. */
  lemma {:induction false} BelowWindowExample()
    ensures var m := Claim(SmallMachine(), PAGE_SIZE, 2);
            var q := QueryFor(m, 128, SMALL_SIZE, 4 * PAGE_SIZE, 8 * PAGE_SIZE, WORD_RANGE - 1, 0);
            && BuddyFor(4 * PAGE_SIZE) == 2 && q.pageCount <= |m.index[2]| && WellFormed(q)
            && Finds(q, m.index[2], 1) && 1 * PageSize(2) < 8 * PAGE_SIZE
  {
    hide Run, BuddyFor, PageSize, Shr, Pow2, Claim, SmallMachine;
    SmallClaim();
    SmallShifts();
    SmallLevels();
    var m := Claim(SmallMachine(), PAGE_SIZE, 2);
    var q := QueryFor(m, 128, SMALL_SIZE, 4 * PAGE_SIZE, 8 * PAGE_SIZE, WORD_RANGE - 1, 0);
    assert q == Query(2, 32, WORD_RANGE - 1, 1, 32, 4 * PAGE_SIZE, 4 * PAGE_SIZE, 0);
    assert Walk(q, m.index[2], 0, 0) == At(0);
    assert Walk(q, m.index[2], 0, 1) == At(1);
    assert Walk(q, m.index[2], FirstIndex(q), 2) == Took(1);
  }

  // ---------------------------------------------------------------- a machine with three buddy pages

  /** 384 pages after booting, of which only the middle 128 are free. */
  ghost function ThirdFree(): Memory
  {
    ThirdFits();
    Memory(Run(AllUsed(384), [Freed(128, 255)]), seq(LEVELS, k => 0), 256 * PAGE_SIZE, 0)
  }

  lemma {:induction false} ThirdFits()
    ensures MarksFit(AllUsed(384), [Freed(128, 255)]) && Addressable(AllUsed(384), 255)
  {
    hide Addressable, LevelsCover, Shr;
    DivisibleCountCovers(384);
    CoverMakesAddressable(AllUsed(384), 384, 255);
  }

  lemma SevenHalvings()
    ensures Pow2(7) == 128 && Shr(384, 7) == 3 && LevelBits(384, 0) == 384 && LevelBits(384, 7) == 32
    ensures PageSize(LEVELS - 1) == 128 * PAGE_SIZE
  {
    ShrUnique(384, 7, 3);
  }

  lemma {:induction false} ThirdPages()
    ensures ThirdFree().last == seq(LEVELS, k => 0)
    ensures var v := ThirdFree().index;
            && Sized(v, 384) && |v[0]| == 384 && forall p :: 0 <= p < 384 ==> (v[0][p] <==> !(128 <= p < 256))
  {
    hide Addressable, Shr, LevelBits, Fill, FreedLevel;
    ThirdFits();
    SevenHalvings();
    var v := AllUsed(384);
    assert [Freed(128, 255)][1..] == [];
    assert Run(v, [Freed(128, 255)]) == MarkFree(v, 128, 255);
    FreedLevelZero(v, 128, 255);
  }

  /** Its last level: only the middle one of three buddy pages is free. */
  lemma {:induction false} ThirdLevel(j: nat)
    requires j < 3
    ensures var v := ThirdFree().index; |v| == LEVELS && |v[7]| == 32 && (v[7][j] <==> j != 1)
  {
    hide Addressable, Shr, Pow2, LevelBits, Run, AllUsed;
    ThirdFits();
    SevenHalvings();
    ThirdPages();
    IndexExactAfterAnyRun(384, [Freed(128, 255)], 7, j);
    var v := ThirdFree().index;
    ShrUnique(128 * j, 7, j);
    assert j != 1 ==> v[0][128 * j];
    forall p | 0 <= p < 384
      ensures Shr(p, 7) == 1 ==> 128 <= p < 256
    {
      ShrIsDivision(p, 7);
    }
  }

  /** Asking it for 1 MiB returns the free buddy page and one behind it that is in use. */
  lemma {:induction false} CountExample()
    ensures var m := ThirdFree();
            var q := QueryFor(m, 384, 384 * PAGE_SIZE, 256 * PAGE_SIZE, 0, WORD_RANGE - 1, 0);
            && BuddyFor(256 * PAGE_SIZE) == 7 && |m.index| == LEVELS && q.pageCount <= |m.index[7]| && WellFormed(q)
            && Finds(q, m.index[7], 1) && !RunFree(q, m.index[7], 1)
            && FirstPage(256 * PAGE_SIZE, 1) <= 256 <= LastPage(256 * PAGE_SIZE, 1)
            && |m.index[0]| == 384 && m.index[0][256]
  {
    hide *;
    ThirdPages();
    ThirdLevel(1);
    ThirdLevel(2);
    ThirdQuery(ThirdFree());
    TakesUsedPage(Query(0, 3, 0, 2, 3, 128 * PAGE_SIZE, 256 * PAGE_SIZE, 0), ThirdFree().index[7]);
  }

  lemma {:induction false} ThirdQuery(m: Memory)
    requires m.last == seq(LEVELS, k => 0)
    ensures QueryFor(m, 384, 384 * PAGE_SIZE, 256 * PAGE_SIZE, 0, WORD_RANGE - 1, 0)
         == Query(0, 3, 0, 2, 3, 128 * PAGE_SIZE, 256 * PAGE_SIZE, 0)
    ensures BuddyFor(256 * PAGE_SIZE) == 7
    ensures FirstPage(256 * PAGE_SIZE, 1) == 128 && LastPage(256 * PAGE_SIZE, 1) == 383
  {
    hide Shr, Pow2, LevelBits, BuddyFor, PageSize;
    SevenHalvings();
    LastBuddy(256 * PAGE_SIZE);
  }

  lemma {:induction false} LastBuddy(size: nat)
    requires size > PageSize(LEVELS - 1)
    ensures BuddyFor(size) == LEVELS - 1
  {
    hide PageSize;
    LastBuddyFrom(size, 0);
  }

  lemma {:induction false} LastBuddyFrom(size: nat, k: nat)
    requires size > PageSize(LEVELS - 1) && k < LEVELS
    ensures PageSize(k) <= PageSize(LEVELS - 1) && BuddyFrom(size, k) == LEVELS - 1
    decreases LEVELS - k
  {
    if k < LEVELS - 1 {
      LastBuddyFrom(size, k + 1);
      assert Pow2(k + 1) == 2 * Pow2(k);
    }
  }

  // ---------------------------------------------------------------- the allocator in place

  datatype AllocResult = Allocated(address: nat) | OutOfMemory | Spins

  /** One bitmap: all words 0xFFFFFFFF. */
  method NewBitmap(pages: nat, k: nat, count: nat) returns (bitmap: array<bv32>)
    requires count == Shr(pages, k)
    ensures fresh(bitmap) && 32 * bitmap.Length == LevelBits(pages, k)
    ensures Bits(bitmap[..]) == seq(LevelBits(pages, k), x => true)
  {
    hide TestBit, Offset, GetBit;
    bitmap := new bv32[(count + 31) / 32](_ => 0xFFFF_FFFF);
    AllOnes(bitmap[..]);
  }

  method NewBitmaps(pages: nat) returns (maps: seq<array<bv32>>)
    ensures |maps| == LEVELS && fresh(maps)
    ensures forall i, j :: 0 <= i < j < LEVELS ==> maps[i] != maps[j]
    ensures forall i :: 0 <= i < LEVELS ==>
              32 * maps[i].Length == LevelBits(pages, i) && Bits(maps[i][..]) == seq(LevelBits(pages, i), x => true)
  {
    hide Bits, LevelBits;
    maps := [];
    var count := pages;
    var k := 0;
    while k < LEVELS
      invariant 0 <= k <= LEVELS && |maps| == k && count == Shr(pages, k)
      invariant fresh(maps)
      invariant forall i, j :: 0 <= i < j < k ==> maps[i] != maps[j]
      invariant forall i :: 0 <= i < k ==>
                  32 * maps[i].Length == LevelBits(pages, i) && Bits(maps[i][..]) == seq(LevelBits(pages, i), x => true)
    {
      var bitmap := NewBitmap(pages, k, count);
      maps := maps + [bitmap];
      count := count / 2;
      k := k + 1;
    }
  }

  class PhysicalMemoryManager {
    const usable: nat
    const pageCount: nat
    const bitmaps: seq<array<bv32>>
    var lastAlloc: seq<nat>
    var usedMemory: int
    var explicitUsed: int

    ghost predicate Distinct()
    {
      && |bitmaps| == LEVELS
      && (forall k :: 0 <= k < LEVELS ==> 32 * bitmaps[k].Length == LevelBits(pageCount, k))
      && (forall j, k :: 0 <= j < k < LEVELS ==> bitmaps[j] != bitmaps[k])
    }

    ghost function Levels(): (v: Index)
      requires Distinct()
      reads bitmaps
      ensures Sized(v, pageCount)
    {
      hide TestBit, Offset, GetBit;
      seq(LEVELS, k requires 0 <= k < LEVELS reads bitmaps => Bits(bitmaps[k][..]))
    }

    lemma LevelIs(k: nat)
      requires Distinct() && k < LEVELS
      ensures |bitmaps| == LEVELS && Levels()[k] == Bits(bitmaps[k][..])
    {
    }

    ghost function State(): Memory
      requires Distinct()
      reads this, bitmaps
    {
      Memory(Levels(), lastAlloc, usedMemory, explicitUsed)
    }

    ghost predicate Valid()
      reads this, bitmaps
    {
      && Distinct() && Shaped(State(), pageCount) && Agrees(Levels())
      && LevelsCover(pageCount) && pageCount == CeilDiv(usable, PAGE_SIZE)
    }

    /** The bitmaps as `init` allocates them, every bit set. */
    constructor (usable: nat)
      requires var pages := CeilDiv(usable, PAGE_SIZE); LevelsCover(pages) && pages < WORD_RANGE - 2
      ensures Valid() && this.usable == usable && fresh(bitmaps)
      ensures State() == Memory(AllUsed(pageCount), seq(LEVELS, k => 0), usable, 0)
    {
      hide TestBit, Offset, GetBit, Bits, LevelsCover, Shr, Agrees;
      this.usable := usable;
      var pages := CeilDiv(usable, PAGE_SIZE);
      pageCount := pages;
      usedMemory, explicitUsed := usable, 0;
      lastAlloc := seq(LEVELS, k => 0);
      var maps := NewBitmaps(pages);
      bitmaps := maps;
      new;
      assert Levels() == AllUsed(pageCount);
      AllUsedAgrees(pageCount);
    }

    /** `mark_used`: one span loop per level, halving the span in between. */
    method MarkSpanUsed(begin: nat, end: nat)
      requires Distinct() && Addressable(Levels(), end)
      modifies bitmaps
      ensures Levels() == MarkUsed(old(Levels()), begin, end)
      ensures |Levels()[0]| == |old(Levels())[0]|
      ensures forall p :: 0 <= p < |Levels()[0]| ==> (Levels()[0][p] <==> old(Levels())[0][p] || begin <= p <= end)
    {
      hide TestBit, Offset, GetBit, Bits, UsedLevel, Addressable, Shr, LevelBits, Fill, Pow2, Levels;
      ghost var before := Levels();
      forall j | 0 <= j < LEVELS
        ensures Bits(bitmaps[j][..]) == before[j]
      {
        LevelIs(j);
      }
      UsedLevelStep(before, begin, end, 0);
      var spanBegin, spanEnd := begin, end;
      var k := 0;
      while k < LEVELS
        invariant 0 <= k <= LEVELS
        invariant spanBegin == Shr(begin, k) && spanEnd == Shr(end, k)
        invariant forall j :: 0 <= j < k ==> Bits(bitmaps[j][..]) == UsedLevel(before, begin, end, j)
        invariant forall j :: k <= j < LEVELS ==> Bits(bitmaps[j][..]) == before[j]
      {
        UsedLevelStep(before, begin, end, k);
        MarkLevelUsed(k, spanBegin, spanEnd, before, begin, end);
        k := k + 1;
        spanBegin, spanEnd := spanBegin / 2, spanEnd / 2;
      }
      forall j | 0 <= j < LEVELS
        ensures Levels()[j] == MarkUsed(before, begin, end)[j]
      {
        LevelIs(j);
      }
      MarkedPages(before, begin, end);
    }

    /** One level of `mark_used`. */
    method MarkLevelUsed(k: nat, spanBegin: nat, spanEnd: nat, ghost before: Index, ghost begin: nat, ghost end: nat)
      requires Distinct() && k < LEVELS && Addressable(before, end) && Bits(bitmaps[k][..]) == before[k]
      requires spanBegin == Shr(begin, k) && spanEnd == Shr(end, k)
      modifies bitmaps[k]
      ensures Bits(bitmaps[k][..]) == UsedLevel(before, begin, end, k)
    {
      hide TestBit, Offset, GetBit, Bits, UsedLevel, Addressable, Shr, Fill;
      UsedLevelStep(before, begin, end, k);
      FillSpan(bitmaps[k], spanBegin, spanEnd, true);
    }

    /** `mark_free`: level 0 is cleared, then every upper level where both halves below are clear. */
    method MarkSpanFree(begin: nat, end: nat)
      requires Distinct() && Addressable(Levels(), end)
      modifies bitmaps
      ensures Levels() == MarkFree(old(Levels()), begin, end)
      ensures |Levels()[0]| == |old(Levels())[0]|
      ensures forall p :: 0 <= p < |Levels()[0]| ==> (Levels()[0][p] <==> old(Levels())[0][p] && !(begin <= p <= end))
    {
      hide TestBit, Offset, GetBit, Fill, ClearCovered, Addressable, Bits, FreedLevel, Shr, Pow2, LevelBits, Levels;
      ghost var before := Levels();
      forall j | 0 <= j < LEVELS
        ensures Bits(bitmaps[j][..]) == before[j]
      {
        LevelIs(j);
      }
      FreedLevelZero(before, begin, end);
      FillSpan(bitmaps[0], begin, end, false);
      var spanBegin, spanEnd := begin, end;
      var k := 1;
      while k < LEVELS
        invariant 1 <= k <= LEVELS
        invariant spanBegin == Shr(begin, k - 1) && spanEnd == Shr(end, k - 1)
        invariant forall j :: 0 <= j < k ==> Bits(bitmaps[j][..]) == FreedLevel(before, begin, end, j)
        invariant forall j :: k <= j < LEVELS ==> Bits(bitmaps[j][..]) == before[j]
      {
        FreedLevelStep(before, begin, end, k);
        spanBegin, spanEnd := spanBegin / 2, spanEnd / 2;
        ClearCoveredSpan(bitmaps[k - 1], bitmaps[k], spanBegin, spanEnd);
        k := k + 1;
      }
      forall j | 0 <= j < LEVELS
        ensures Levels()[j] == MarkFree(before, begin, end)[j]
      {
        LevelIs(j);
      }
      FreedPages(before, begin, end);
    }

    /** The hint update after a successful allocation. */
    method UpdateHints(first: nat, count: nat)
      requires |lastAlloc| == LEVELS
      modifies `lastAlloc
      ensures lastAlloc == seq(LEVELS, k requires 0 <= k => LastAlloc(first, count, k))
    {
      hide LastAlloc;
      var hints: seq<nat> := [];
      var smallPage, needed := first, count;
      var k := 0;
      while k < LEVELS
        invariant 0 <= k <= LEVELS && |hints| == k
        invariant smallPage == Shr(first, k) && needed == Shr(count, k)
        invariant forall j :: 0 <= j < k ==> hints[j] == LastAlloc(first, count, j)
      {
        HintValue(first, count, k);
        hints := hints + [(smallPage + needed + WORD_RANGE - 1) % WORD_RANGE];
        smallPage, needed := smallPage / 2, needed / 2;
        k := k + 1;
      }
      lastAlloc := hints;
    }

    /** The part of `alloc` that takes buddy page c once it has been found. */
    method Take(size: nat, c: nat)
      requires Valid() && size > 0
      requires Addressable(Levels(), LastPage(size, c))
      modifies this, bitmaps
      ensures Valid() && State() == Claim(old(State()), size, c)
    {
      hide TestBit, Offset, GetBit, Agrees, Bits, LevelsCover, LastAlloc, Shr, BuddyFor, CeilDiv, UsedLevel, FirstPage;
      hide PagesTaken, Addressable;
      var first, count := FirstPage(size, c), PagesTaken(size);
      UsedKeepsAgreement(Levels(), first, LastPage(size, c));
      ClaimKeepsShape(State(), pageCount, size, c);
      MarkSpanUsed(first, LastPage(size, c));
      usedMemory := usedMemory + count * PAGE_SIZE;
      explicitUsed := explicitUsed + size;
      UpdateHints(first, count);
    }

    /** `alloc`, with the two ways it does not return made results. */
    method Alloc(size: nat, min: nat, max: nat, boundary: nat) returns (r: AllocResult, ghost c: nat)
      requires Valid() && size > 0
      modifies this, bitmaps
      ensures Valid()
      ensures var q := QueryFor(old(State()), pageCount, usable, size, min, max, boundary);
              var level := old(Levels())[BuddyFor(size)];
              && q.pageCount <= |level| && WellFormed(q)
              && (r.Allocated? ==>
                   r.address == c * PageSize(BuddyFor(size)) && Finds(q, level, c) && Usable(q, level, c))
              && (r.OutOfMemory? <==> Fails(q, level))
              && (r.OutOfMemory? ==> forall i :: q.start <= i < q.end && i != q.origin ==> !Usable(q, level, i))
              && (r.Spins? <==> Diverges(q, level)) && (r.Spins? <==> Endless(q, level))
              && (size <= PageSize(LEVELS - 1) ==>
                    (r.Spins? <==> RoundEnd(q) < q.origin && NoneUsable(q, level, q.start, RoundEnd(q))
                                                          && NoneUsable(q, level, FirstIndex(q), q.end)))
      ensures r.Allocated? ==> State() == Claim(old(State()), size, c)
      ensures !r.Allocated? ==> State() == old(State())
      // the pages of the returned bytes, and no others, are marked, and up to 512 KiB they were free
      ensures r.Allocated? ==> BytesMarked(old(Levels())[0], Levels()[0], r.address, size)
      ensures r.Allocated? && size <= 0x8_0000 ==> BytesFree(old(Levels())[0], pageCount, r.address, size)
      ensures r.Allocated? ==> Counted(old(usedMemory), usedMemory, size) && explicitUsed == old(explicitUsed) + size
      ensures r.Allocated? ==> HintsAt(lastAlloc, r.address, size)
      // the first usable buddy page behind the hint, or else from the start of the window
      ensures r.Allocated? ==>
                NextFit(QueryFor(old(State()), pageCount, usable, size, min, max, boundary),
                        old(Levels())[BuddyFor(size)], c)
      // they do not cross the boundary
      ensures r.Allocated? ==> Between(r.address, size, boundary)
    {
      hide Crosses, Walk, FirstIndex, Finds, Fails, Diverges, Endless, Usable, NoneUsable, RoundEnd, Shr, Pow2;
      hide WellFormed, Addressable;
      hide TestBit, Offset, GetBit, Agrees, Bits, LevelsCover, LastAlloc, MarkUsed, QueryFor, Claim, BuddyFor, PageSize;
      hide CeilDiv, LastPage, Levels, Distinct, BytesMarked, BytesFree, Counted, Between, HintsAt;
      hide NextFit;
      var k := BuddyFor(size);
      var q := QueryFor(Memory([], lastAlloc, 0, 0), pageCount, usable, size, min, max, boundary);
      QueryIgnoresCounters(State(), lastAlloc, pageCount, usable, size, min, max, boundary);
      QueryWellFormed(State(), pageCount, usable, size, min, max, boundary);
      LevelIs(k);
      ghost var level := Levels()[k];
      var found := Search(q, bitmaps[k], level);
      if size <= PageSize(LEVELS - 1) {
        OneBuddyPage(size);
        SinglePageDivergesIff(q, level);
      }
      c := 0;
      match found {
        case OutOfMemory => r := AllocResult.OutOfMemory;
        case Spins => r := AllocResult.Spins;
        case Found(i) =>
          c := i;
          ClaimAddressable(State(), pageCount, q, size, i);
          ClaimMarks(State(), size, i);
          TopPageSize();
          if size <= PageSize(LEVELS - 1) {
            ClaimWasFree(State(), pageCount, usable, size, min, max, boundary, i);
          }
          UsableWithin(State(), pageCount, usable, size, min, max, boundary, i);
          ClaimCounts(State(), size, i);
          FoundIsTried(q, level, i);
          ClaimHints(State(), size, i);
          Take(size, i);
          r := Allocated(i * PageSize(k));
      }
    }

    method Free(address: nat, size: nat)
      requires Valid() && size > 0 && Addressable(Levels(), LastFreed(address, size))
      modifies this, bitmaps
      ensures Valid() && State() == Release(old(State()), address, size)
      // the pages from the address on, as many as the rounding gives, are free and no others changed
      ensures var first, count := address / 4096, (size + PageSize(BuddyFor(size)) - 1) / 4096;
              && |Levels()[0]| == |old(Levels())[0]|
              && (forall p :: 0 <= p < |Levels()[0]| ==>
                    (Levels()[0][p] <==> old(Levels())[0][p] && !(first <= p < first + count)))
              && usedMemory == old(usedMemory) - count * 4096 && explicitUsed == old(explicitUsed) - size
    {
      hide TestBit, Offset, GetBit, Agrees, Bits, LevelsCover, Shr, Pow2, PagesFreed, Addressable, FreedLevel, CeilDiv;
      hide MarkFree, Levels, Distinct;
      var first, count := address / PAGE_SIZE, PagesFreed(size);
      FreedCount(size);
      ReleaseKeepsShape(State(), pageCount, address, size);
      FreeKeepsAgreement(Levels(), first, first + count - 1);
      MarkSpanFree(first, first + count - 1);
      usedMemory := usedMemory - count * PAGE_SIZE;
      explicitUsed := explicitUsed - size;
    }
  }

  lemma FreedCount(size: nat)
    ensures PagesFreed(size) == (size + PageSize(BuddyFor(size)) - 1) / PAGE_SIZE
  {
  }

  lemma MarkedPages(v: Index, begin: nat, end: nat)
    requires |v| > 0
    ensures var after := MarkUsed(v, begin, end)[0];
            && |after| == |v[0]|
            && forall p :: 0 <= p < |after| ==> (after[p] <==> v[0][p] || begin <= p <= end)
  {
    hide Fill;
    assert Shr(begin, 0) == begin && Shr(end, 0) == end;
  }

  lemma FreedPages(v: Index, begin: nat, end: nat)
    requires Addressable(v, end)
    ensures var after := MarkFree(v, begin, end)[0];
            && |after| == |v[0]|
            && forall p :: 0 <= p < |after| ==> (after[p] <==> v[0][p] && !(begin <= p <= end))
  {
    hide Fill, Addressable;
    FreedLevelZero(v, begin, end);
  }

  lemma AllUsedAgrees(pageCount: nat)
    ensures Agrees(AllUsed(pageCount))
  {
    var v := AllUsed(pageCount);
    assert forall k :: 1 <= k < |v| ==> AgreesAt(v, k);
  }

  lemma HintValue(first: nat, count: nat, k: nat)
    ensures LastAlloc(first, count, k) == (Shr(first, k) + Shr(count, k) + WORD_RANGE - 1) % WORD_RANGE
  {
  }

  /** The window never reaches past the buddy pages of its level. */
  lemma WindowWithinLevel(pageCount: nat, bytes: nat, k: nat)
    requires bytes <= pageCount * PAGE_SIZE
    ensures Div(bytes, PageSize(k)) <= Shr(pageCount, k)
  {
    var e, p := Div(bytes, PageSize(k)), Pow2(k);
    DivBounds(bytes, PageSize(k));
    assert e * PageSize(k) == (e * p) * PAGE_SIZE;
    assert e * p <= pageCount;
    ShrIsDivision(pageCount, k);
    if Shr(pageCount, k) < e {
      MulMono(Shr(pageCount, k) + 1, e, p);
    }
  }

  lemma {:induction false} ShrAtMost(x: nat, k: nat)
    ensures Shr(x, k) <= x
  {
    if k > 0 { ShrAtMost(x, k - 1); }
  }

  lemma DivAtMost(a: nat, b: nat)
    requires b > 0
    ensures Div(a, b) <= a
  {
    DivBounds(a, b);
    MulMono(1, b, Div(a, b));
  }

  lemma QueryIgnoresCounters(m: Memory, last: seq<nat>, pageCount: nat, usable: nat, size: nat, min: nat, max: nat,
                             boundary: nat)
    requires |last| == LEVELS && m.last == last
    ensures QueryFor(m, pageCount, usable, size, min, max, boundary)
         == QueryFor(Memory([], last, 0, 0), pageCount, usable, size, min, max, boundary)
  {
    hide Shr, PageSize, Div, BuddyFor;
  }

  lemma QueryWellFormed(m: Memory, pageCount: nat, usable: nat, size: nat, min: nat, max: nat, boundary: nat)
    requires Shaped(m, pageCount) && size > 0 && pageCount == CeilDiv(usable, PAGE_SIZE)
    ensures var q := QueryFor(m, pageCount, usable, size, min, max, boundary);
            && WellFormed(q) && q.pageCount <= |m.index[BuddyFor(size)]|
            && q.pageCount == Shr(pageCount, BuddyFor(size)) && q.needed == CeilDiv(size, PageSize(BuddyFor(size)))
  {
    hide PageSize, Shr, Div, CeilDiv, BuddyFor;
    var k := BuddyFor(size);
    var q := QueryFor(m, pageCount, usable, size, min, max, boundary);
    CeilAtMost(usable, PAGE_SIZE, pageCount);
    WindowWithinLevel(pageCount, if max < usable then max else usable, k);
    ShrAtMost(pageCount, k);
    LevelHoldsPages(m.index, pageCount, k);
    DivAtMost((min + PageSize(k) - 1) % WORD_RANGE, PageSize(k));
  }

  lemma LevelHoldsPages(v: Index, pageCount: nat, k: nat)
    requires Sized(v, pageCount) && k < LEVELS
    ensures Shr(pageCount, k) <= |v[k]|
  {
    hide Shr;
    assert |v[k]| == LevelBits(pageCount, k);
  }

  lemma ClaimWithin(pageCount: nat, k: nat, size: nat, c: nat, needed: nat)
    requires size > 0 && needed == CeilDiv(size, PageSize(k)) && c + needed <= Shr(pageCount, k)
    ensures c * Pow2(k) + CeilDiv(size, PAGE_SIZE) <= pageCount
  {
    hide Shr, Pow2, CeilDiv;
    var p := Pow2(k);
    CeilAtMost(size, PageSize(k), needed);
    assert needed * PageSize(k) == (needed * p) * PAGE_SIZE;
    CeilAtMost(size, PAGE_SIZE, needed * p);
    assert (c + needed) * p == c * p + needed * p;
    MulMono(c + needed, Shr(pageCount, k), p);
    ShrIsDivision(pageCount, k);
  }

  /** Whatever its size, a claim stays inside the pages that exist. */
  lemma ClaimAddressable(m: Memory, pageCount: nat, q: Query, size: nat, c: nat)
    requires Shaped(m, pageCount) && LevelsCover(pageCount) && size > 0
    requires q.pageCount == Shr(pageCount, BuddyFor(size)) && q.needed == CeilDiv(size, PageSize(BuddyFor(size)))
    requires q.pageCount <= |m.index[BuddyFor(size)]| && Usable(q, m.index[BuddyFor(size)], c)
    ensures Addressable(m.index, LastPage(size, c))
  {
    hide Crosses, Shr, Pow2, LevelsCover, CeilDiv, BuddyFor, PageSize, Addressable;
    var k := BuddyFor(size);
    ClaimWithin(pageCount, k, size, c, q.needed);
    CoverMakesAddressable(m.index, pageCount, LastPage(size, c));
  }

  lemma FreedLevelZero(v: Index, begin: nat, end: nat)
    requires Addressable(v, end)
    ensures Shr(begin, 0) == begin && Shr(end, 0) == end < |v[0]|
    ensures FreedLevel(v, begin, end, 0) == Fill(v[0], begin, end + 1, false)
  {
  }

  lemma FreedLevelStep(v: Index, begin: nat, end: nat, k: nat)
    requires Addressable(v, end) && 1 <= k < LEVELS
    ensures Shr(begin, k) == Shr(begin, k - 1) / 2 && Shr(end, k) == Shr(end, k - 1) / 2
    ensures Shr(end, k) < |v[k]| && 2 * Shr(end, k) + 1 < |v[k - 1]|
    ensures FreedLevel(v, begin, end, k) ==
            ClearCovered(FreedLevel(v, begin, end, k - 1), v[k], Shr(begin, k), Shr(end, k))
  {
    hide ClearCovered;
    AddressableStep(v, end, k);
  }

  lemma UsedLevelStep(v: Index, begin: nat, end: nat, k: nat)
    requires Addressable(v, end) && k < LEVELS
    ensures Shr(begin, 0) == begin && Shr(end, 0) == end && Shr(end, k) < |v[k]|
    ensures Shr(begin, k + 1) == Shr(begin, k) / 2 && Shr(end, k + 1) == Shr(end, k) / 2
    ensures UsedLevel(v, begin, end, k) == Fill(v[k], Shr(begin, k), Shr(end, k) + 1, true)
  {
    hide Fill;
    AddressableStep(v, end, k);
  }
}
