/**
 * The next-fit search inside one heap block.  `Step` is one iteration of the source loop
 * and `Walk` is n of them, so that "the loop never ends" can be said outright.
 */
module HeapSearch {
  import opened Division
  import opened HeapIds
  import opened HeapRuns

  datatype Query = Query(
    base: nat,       // address of the id bitmap, where block 0 lies
    blockSize: nat,
    size: nat,
    align: nat,
    last: nat)       // the block where the search gives up

  predicate WellFormed(q: Query, ids: seq<Id>)
  {
    q.blockSize > 0 && q.size > 0 && q.align > 0 && q.last < |ids|
  }

  predicate CanAlign(q: Query, block: nat)
    requires q.align > 0
  {
    q.align <= q.blockSize || (q.base + block * q.blockSize) % q.align + q.blockSize > q.align
  }

  /** A whole `align` is skipped at an aligned address, unless `align` is one. */
  function AlignOffset(address: nat, align: nat): (offset: nat)
    requires align > 0
    ensures (address + offset) % align == 0 && offset <= align
  {
    if align == 1 then 0 else AlignedUp(address, align); align - address % align
  }

  lemma AlignedUp(address: nat, align: nat)
    requires align > 0
    ensures (address + (align - address % align)) % align == 0
  {
    assert address + (align - address % align) == (address / align + 1) * align;
    MultipleIsAligned(address / align + 1, align);
  }

  lemma MultipleIsAligned(k: nat, align: nat)
    requires align > 0
    ensures (k * align) % align == 0
  {
    DivUnique(k * align, align, k, 0);
  }

  function Address(q: Query, block: nat): nat { q.base + block * q.blockSize }

  function Needed(q: Query, block: nat): (n: nat)
    requires q.align > 0 && q.blockSize > 0
    ensures q.size > 0 ==> n > 0
  {
    CeilDiv(q.size + AlignOffset(Address(q, block), q.align), q.blockSize)
  }

  /** The free blocks from t on, counted no further than `limit`. */
  function FreeRun(ids: seq<Id>, t: nat, limit: nat): (n: nat)
    ensures n <= limit && (n > 0 ==> t + n <= |ids|) && Uniform(ids, t, if n > 0 then t + n else 0, 0)
    ensures n < limit ==> t + n >= |ids| || ids[t + n] != 0
    decreases limit
  {
    if limit == 0 || t >= |ids| || ids[t] != 0 then 0 else 1 + FreeRun(ids, t + 1, limit - 1)
  }

  predicate Fits(q: Query, ids: seq<Id>, t: nat)
    requires WellFormed(q, ids)
  {
    t < |ids| && CanAlign(q, t) && ids[t] == 0 && FreeRun(ids, t, Needed(q, t)) == Needed(q, t)
  }

  /** Where the loop goes on after candidate t was not taken. */
  function Advance(q: Query, ids: seq<Id>, t: nat): nat
    requires WellFormed(q, ids) && t < |ids|
  {
    if !CanAlign(q, t) || ids[t] != 0 then t + 1 else t + FreeRun(ids, t, Needed(q, t))
  }

  datatype Cursor = At(s: nat) | Took(t: nat) | GaveUp

  /** One iteration, entered with loop variable s. */
  function Step(q: Query, ids: seq<Id>, s: nat): Cursor
    requires WellFormed(q, ids)
  {
    if s == q.last then GaveUp
    else
      var c := if s >= |ids| then 0 else s;
      if Fits(q, ids, c) then Took(c) else At(Advance(q, ids, c))
  }

  function First(q: Query, ids: seq<Id>): nat
    requires WellFormed(q, ids)
  {
    (q.last + 1) % |ids|
  }

  function Walk(q: Query, ids: seq<Id>, n: nat): Cursor
    requires WellFormed(q, ids)
  {
    if n == 0 then At(First(q, ids)) else
      match Walk(q, ids, n - 1)
      case At(s) => Step(q, ids, s)
      case done => done
  }

  ghost predicate Finds(q: Query, ids: seq<Id>, t: nat)
    requires WellFormed(q, ids)
  {
    exists n: nat :: Walk(q, ids, n) == Took(t)
  }

  ghost predicate Fails(q: Query, ids: seq<Id>)
    requires WellFormed(q, ids)
  {
    exists n: nat :: Walk(q, ids, n) == GaveUp
  }

  ghost predicate Diverges(q: Query, ids: seq<Id>)
    requires WellFormed(q, ids)
  {
    forall n: nat :: Walk(q, ids, n).At?
  }

  lemma {:induction false} WalkStaysDone(q: Query, ids: seq<Id>, m: nat, n: nat)
    requires WellFormed(q, ids) && !Walk(q, ids, m).At? && m <= n
    ensures Walk(q, ids, n) == Walk(q, ids, m)
    decreases n
  {
    if m < n { WalkStaysDone(q, ids, m, n - 1); }
  }

  /** Two heads at or past the end behave alike: both restart at block 0. */
  lemma {:induction false} WalksAlike(q: Query, ids: seq<Id>, m: nat, n: nat, k: nat)
    requires WellFormed(q, ids) && k > 0
    requires Walk(q, ids, m).At? && Walk(q, ids, n).At? && Walk(q, ids, m).s >= |ids| && Walk(q, ids, n).s >= |ids|
    ensures Walk(q, ids, m + k) == Walk(q, ids, n + k)
    decreases k
  {
    hide Fits, Advance;
    if k > 1 {
      WalksAlike(q, ids, m, n, k - 1);
      assert m + k - 1 == m + (k - 1) && n + k - 1 == n + (k - 1);
    }
  }

  /** Running off the end twice means the loop repeats itself for ever. */
  lemma {:induction false} SecondWrapAt(q: Query, ids: seq<Id>, m: nat, n: nat, k: nat)
    requires WellFormed(q, ids) && m < n
    requires Walk(q, ids, m).At? && Walk(q, ids, n).At? && Walk(q, ids, m).s >= |ids| && Walk(q, ids, n).s >= |ids|
    ensures Walk(q, ids, k).At?
    decreases k
  {
    hide Walk;
    if k <= n {
      if !Walk(q, ids, k).At? { WalkStaysDone(q, ids, k, n); }
    } else {
      SecondWrapAt(q, ids, m, n, k - (n - m));
      WalksAlike(q, ids, m, n, k - n);
      assert n + (k - n) == k && m + (k - n) == k - (n - m);
    }
  }

  lemma {:induction false} SecondWrapDiverges(q: Query, ids: seq<Id>, m: nat, n: nat)
    requires WellFormed(q, ids) && m < n
    requires Walk(q, ids, m).At? && Walk(q, ids, n).At? && Walk(q, ids, m).s >= |ids| && Walk(q, ids, n).s >= |ids|
    ensures Diverges(q, ids)
  {
    hide Walk;
    forall k: nat
      ensures Walk(q, ids, k).At?
    {
      SecondWrapAt(q, ids, m, n, k);
    }
  }

  // ------------------------------------------------------------ what the loop tries and skips

  /** n free blocks start at t. */
  ghost predicate Room(ids: seq<Id>, t: nat, n: nat)
  {
    Uniform(ids, t, t + n, 0)
  }

  /** Block t is acceptable for the alignment, and the bytes asked for fit there. */
  ghost predicate RoomAt(q: Query, ids: seq<Id>, t: nat)
    requires WellFormed(q, ids)
  {
    CanAlign(q, t) && Room(ids, t, Needed(q, t))
  }

  ghost predicate NoRoom(q: Query, ids: seq<Id>, lo: nat, hi: nat)
    requires WellFormed(q, ids)
  {
    forall t :: lo <= t < hi ==> !RoomAt(q, ids, t)
  }

  /** From free block t the loop would jump over block `to`. */
  predicate JumpsOver(q: Query, ids: seq<Id>, t: nat, to: nat)
    requires WellFormed(q, ids)
  {
    t < to < |ids| && CanAlign(q, t) && forall i :: t <= i <= to ==> ids[i] == 0
  }

  /** The search steps over `last` on its way round. */
  ghost predicate StepsOver(q: Query, ids: seq<Id>)
    requires WellFormed(q, ids)
  {
    |ids| > 1 && (q.last == 0 || exists t :: 0 <= t < q.last && JumpsOver(q, ids, t, q.last))
  }

  /** No free block before t lets the loop jump over t. */
  ghost predicate Edge(q: Query, ids: seq<Id>, t: nat)
    requires WellFormed(q, ids)
  {
    forall u :: 0 <= u < t ==> !JumpsOver(q, ids, u, t)
  }

  /** With alignment one: enough free blocks from t on, and a free block before a free `last`. */
  lemma {:induction false} PlainAlignment(q: Query, ids: seq<Id>)
    requires WellFormed(q, ids) && q.align == 1
    ensures forall t :: 0 <= t < |ids| ==> (RoomAt(q, ids, t) <==> Room(ids, t, CeilDiv(q.size, q.blockSize)))
    ensures StepsOver(q, ids) <==> |ids| > 1 && (q.last == 0 || (ids[q.last] == 0 && ids[q.last - 1] == 0))
  {
    hide CeilDiv;
    if q.last > 0 && ids[q.last] == 0 && ids[q.last - 1] == 0 { assert JumpsOver(q, ids, q.last - 1, q.last); }
  }

  lemma {:induction false} AdvanceMoves(q: Query, ids: seq<Id>, t: nat)
    requires WellFormed(q, ids) && t < |ids|
    ensures t < Advance(q, ids, t) <= |ids|
  {
    hide CanAlign, CeilDiv;
  }

  lemma {:induction false} FitsIsRoom(q: Query, ids: seq<Id>, t: nat)
    requires WellFormed(q, ids)
    ensures Fits(q, ids, t) <==> RoomAt(q, ids, t)
  {
    hide CanAlign, CeilDiv, AlignOffset;
  }

  /** The first aligned address behind a block lies no further than that behind a later block. */
  lemma {:induction false} AlignedMonotone(a: nat, b: nat, align: nat)
    requires align > 0 && a <= b
    ensures a + AlignOffset(a, align) <= b + AlignOffset(b, align)
  {
    if align > 1 {
      DivMod(a, align);
      DivMod(b, align);
      var m, n := a / align, b / align;
      assert a + AlignOffset(a, align) == m * align + align && b + AlignOffset(b, align) == n * align + align;
      assert (n + 1) * align == n * align + align;
      if n < m { MulMono(n + 1, m, align); } else { MulMono(m, n, align); }
    }
  }

  /** A later start ends no earlier. */
  lemma {:induction false} LaterEndsLater(q: Query, t: nat, u: nat)
    requires q.blockSize > 0 && q.align > 0 && t <= u
    ensures t + Needed(q, t) <= u + Needed(q, u)
  {
    hide CeilDiv, AlignOffset;
    var s := q.blockSize;
    MulMono(t, u, s);
    assert (u - t) * s == u * s - t * s;
    AlignedMonotone(Address(q, t), Address(q, u), q.align);
    SmallestCount(q.size + AlignOffset(Address(q, t), q.align), s, u - t, Needed(q, u));
  }

  lemma {:induction false} SmallestCount(a: nat, s: nat, k: nat, n: nat)
    requires s > 0 && a <= k * s + n * s
    ensures CeilDiv(a, s) <= k + n
  {
    hide CeilDiv;
    assert k * s + n * s == (k + n) * s;
    assert (k + n + 1) * s == (k + n) * s + s;
    if k + n < CeilDiv(a, s) { MulMono(k + n + 1, CeilDiv(a, s), s); }
  }

  /** A candidate that is skipped, and everything the loop jumps over with it, has no room. */
  lemma {:induction false} SkippedHasNoRoom(q: Query, ids: seq<Id>, t: nat)
    requires WellFormed(q, ids) && t < |ids| && !Fits(q, ids, t)
    ensures NoRoom(q, ids, t, Advance(q, ids, t))
    ensures Advance(q, ids, t) > t + 1 ==> CanAlign(q, t) && Uniform(ids, t, Advance(q, ids, t), 0)
    ensures Advance(q, ids, t) < |ids| && Edge(q, ids, t) ==> Edge(q, ids, Advance(q, ids, t))
  {
    hide CeilDiv, CanAlign, Needed;
    FitsIsRoom(q, ids, t);
    var next := Advance(q, ids, t);
    forall u | t <= u < next
      ensures !RoomAt(q, ids, u)
    {
      LaterEndsLater(q, t, u);
    }
    if next < |ids| && Edge(q, ids, t) { EdgeAfter(q, ids, t); }
  }

  lemma {:induction false} EdgeAfter(q: Query, ids: seq<Id>, t: nat)
    requires WellFormed(q, ids) && t < |ids| && !Fits(q, ids, t) && Edge(q, ids, t) && Advance(q, ids, t) < |ids|
    ensures Edge(q, ids, Advance(q, ids, t))
  {
    hide CeilDiv, CanAlign, Needed;
    var next := Advance(q, ids, t);
    forall u | 0 <= u < next
      ensures !JumpsOver(q, ids, u, next)
    {
      if u < t { assert !JumpsOver(q, ids, u, t); }
    }
  }

  datatype SearchResult = Found(t: nat) | Exhausted | Spins

  /** What the loop has established, about to test its condition with `start`. */
  ghost predicate Tried(q: Query, ids: seq<Id>, start: nat, wrapped: bool)
    requires WellFormed(q, ids)
  {
    var first := First(q, ids);
    && (if wrapped then start > 0 && NoRoom(q, ids, first, |ids|) && NoRoom(q, ids, 0, start)
        else first <= start && NoRoom(q, ids, first, start))
    && (wrapped || first == 0 ==> start < |ids| ==> Edge(q, ids, start))
    && (wrapped || (first == 0 && |ids| > 1) ==> start > q.last ==> StepsOver(q, ids))
  }

  /** The first block with room behind `last`, or if there is none, the first one from block 0 on. */
  ghost predicate NextRoom(q: Query, ids: seq<Id>, t: nat)
    requires WellFormed(q, ids)
  {
    var first := (q.last + 1) % |ids|;
    && t < |ids| && RoomAt(q, ids, t)
    && if exists u :: first <= u < |ids| && RoomAt(q, ids, u)
       then first <= t && forall u :: first <= u < t ==> !RoomAt(q, ids, u)
       else forall u :: 0 <= u < t ==> !RoomAt(q, ids, u)
  }

  lemma {:induction false} FoundIsNext(q: Query, ids: seq<Id>, start: nat, wrapped: bool)
    requires WellFormed(q, ids) && Tried(q, ids, start, wrapped)
    requires Fits(q, ids, if start >= |ids| then 0 else start) && (wrapped ==> start < |ids|)
    ensures NextRoom(q, ids, if start >= |ids| then 0 else start)
  {
    hide Fits, RoomAt, CeilDiv;
    FitsIsRoom(q, ids, if start >= |ids| then 0 else start);
  }

  lemma {:induction false} FirstIs(q: Query, ids: seq<Id>)
    requires WellFormed(q, ids)
    ensures First(q, ids) == if q.last + 1 == |ids| then 0 else q.last + 1
  {
  }

  lemma {:induction false} TriedMore(q: Query, ids: seq<Id>, start: nat, wrapped: bool)
    requires WellFormed(q, ids) && Tried(q, ids, start, wrapped)
    requires start != q.last && start < |ids| && !Fits(q, ids, start)
    ensures Tried(q, ids, Advance(q, ids, start), wrapped)
  {
    hide Fits, CeilDiv, Advance, RoomAt, CanAlign;
    FirstIs(q, ids);
    SkippedHasNoRoom(q, ids, start);
    AdvanceMoves(q, ids, start);
    var next := Advance(q, ids, start);
    if next > q.last && start < q.last { assert JumpsOver(q, ids, start, q.last); }
  }

  lemma {:induction false} TriedFromZero(q: Query, ids: seq<Id>)
    requires WellFormed(q, ids) && Tried(q, ids, |ids|, false) && !Fits(q, ids, 0)
    requires First(q, ids) == 0 ==> |ids| > 1
    ensures Tried(q, ids, Advance(q, ids, 0), true)
  {
    hide Fits, CeilDiv, Advance, RoomAt, CanAlign;
    FirstIs(q, ids);
    SkippedHasNoRoom(q, ids, 0);
    AdvanceMoves(q, ids, 0);
    var next := Advance(q, ids, 0);
    if next > q.last && 0 < q.last { assert JumpsOver(q, ids, 0, q.last); }
  }

  ghost predicate OnlyAtLast(q: Query, ids: seq<Id>)
    requires WellFormed(q, ids)
  {
    forall t :: 0 <= t < |ids| && RoomAt(q, ids, t) ==> t == q.last
  }

  lemma {:induction false} TriedAll(q: Query, ids: seq<Id>, start: nat, wrapped: bool)
    requires WellFormed(q, ids) && Tried(q, ids, start, wrapped)
    ensures start == q.last ==> !StepsOver(q, ids) && OnlyAtLast(q, ids)
    ensures wrapped && start == |ids| ==> StepsOver(q, ids) && NoRoom(q, ids, 0, |ids|)
  {
    hide CeilDiv, RoomAt, JumpsOver;
    FirstIs(q, ids);
  }

  lemma {:induction false} StepTakes(q: Query, ids: seq<Id>, n: nat, start: nat, c: nat)
    requires WellFormed(q, ids) && Walk(q, ids, n) == At(start) && start != q.last
    requires c == if start >= |ids| then 0 else start
    ensures Fits(q, ids, c) ==> Finds(q, ids, c) && (c == q.last ==> q.last == 0 && |ids| > 1)
    ensures !Fits(q, ids, c) ==> Walk(q, ids, n + 1) == At(Advance(q, ids, c))
  {
    hide Fits, Advance;
    if Fits(q, ids, c) {
      assert Walk(q, ids, n + 1) == Took(c);
      if |ids| == 1 { OneBlock(q, ids, n); }
    }
  }

  /** In a heap block of a single block the loop is never entered. */
  lemma {:induction false} OneBlock(q: Query, ids: seq<Id>, n: nat)
    requires WellFormed(q, ids) && |ids| == 1
    ensures n == 0 ==> Walk(q, ids, n) == At(q.last)
    ensures n > 0 ==> Walk(q, ids, n) == GaveUp
  {
    if n > 0 { OneBlock(q, ids, n - 1); }
  }

  method CountFree(bitmap: array<bv8>, ghost ids: seq<Id>, blockCount: nat, start: nat, needed: nat)
    returns (count: nat)
    requires blockCount == |ids| <= PER_BYTE * bitmap.Length
    requires ids == Ids(bitmap[..])[..blockCount] && start < blockCount
    ensures count == FreeRun(ids, start, needed)
  {
    hide *;
    count := 0;
    while count < needed && start + count < blockCount
      invariant count <= needed && start + count <= blockCount
      invariant FreeRun(ids, start, needed) == count + FreeRun(ids, start + count, needed - count)
    {
      FreeRunStep(ids, start + count, needed - count);
      var id := ReadId(bitmap, start + count);
      assert id == ids[start + count];
      if id != 0 {
        return;
      }
      count := count + 1;
    }
    FreeRunEnd(ids, start + count, needed - count);
  }

  lemma {:induction false} FreeRunStep(ids: seq<Id>, t: nat, limit: nat)
    requires t < |ids| && limit > 0
    ensures FreeRun(ids, t, limit) == if ids[t] != 0 then 0 else 1 + FreeRun(ids, t + 1, limit - 1)
  {
  }

  lemma {:induction false} FreeRunEnd(ids: seq<Id>, t: nat, limit: nat)
    requires t >= |ids| || limit == 0
    ensures FreeRun(ids, t, limit) == 0
  {
  }

  /** One candidate: alignment, first id, then the count. */
  method TryBlock(q: Query, bitmap: array<bv8>, ghost ids: seq<Id>, blockCount: nat, start: nat)
    returns (take: bool, next: nat)
    requires blockCount == |ids| <= PER_BYTE * bitmap.Length
    requires ids == Ids(bitmap[..])[..blockCount] && start < blockCount
    requires WellFormed(q, ids)
    ensures take == Fits(q, ids, start)
    ensures !take ==> next == Advance(q, ids, start)
  {
    hide Ids, GetId, CanAlign, CeilDiv;
    take, next := false, start + 1;
    if !CanAlign(q, start) {
      return;
    }
    var id := ReadId(bitmap, start);
    if id != 0 {
      return;
    }
    var needed := Needed(q, start);
    var count := CountFree(bitmap, ids, blockCount, start, needed);
    if count < needed {
      next := start + count;
      return;
    }
    take := true;
  }

  /**
   * The search loop.  The only addition to the source is `wrapped`: running off the end a
   * second time means the source loop repeats itself for ever, reported as `Spins`.
   */
  method Search(q: Query, bitmap: array<bv8>, ghost ids: seq<Id>, blockCount: nat) returns (r: SearchResult)
    requires blockCount == |ids| <= PER_BYTE * bitmap.Length && ids == Ids(bitmap[..])[..blockCount]
    requires WellFormed(q, ids)
    // the result is what the loop does
    ensures r.Found? ==> Finds(q, ids, r.t) && Fits(q, ids, r.t)
    ensures r.Exhausted? ==> Fails(q, ids)
    ensures r.Spins? ==> Diverges(q, ids)
    ensures r.Found? ==> NextRoom(q, ids, r.t)
    // exactly when the search is right, and when it never ends
    ensures r.Spins? <==> StepsOver(q, ids) && NoRoom(q, ids, 0, blockCount)
    ensures r.Exhausted? <==> !StepsOver(q, ids) && OnlyAtLast(q, ids)
  {
    hide Ids, GetId, Fits, Advance, CeilDiv, Walk, StepsOver, OnlyAtLast, NoRoom, Tried;
    var start: nat := (q.last + 1) % blockCount;
    ghost var n: nat := 0;
    var wrapped := false;
    ghost var wrapAt: nat := 0;
    SearchStarts(q, ids);
    while start != q.last
      invariant start <= blockCount && Walk(q, ids, n) == At(start)
      invariant wrapped ==> wrapAt < n && Walk(q, ids, wrapAt).At? && Walk(q, ids, wrapAt).s >= blockCount
      invariant Tried(q, ids, start, wrapped)
      decreases !wrapped, blockCount - start
    {
      if start >= blockCount {
        if wrapped {
          SecondWrapDiverges(q, ids, wrapAt, n);
          TriedAll(q, ids, start, wrapped);
          return Spins;
        }
      }
      ghost var c := if start >= blockCount then 0 else start;
      StepTakes(q, ids, n, start, c);
      var take, next := TryBlock(q, bitmap, ids, blockCount, if start >= blockCount then 0 else start);
      if take {
        FoundIsNoFailure(q, ids, c);
        FoundIsNext(q, ids, start, wrapped);
        return Found(if start >= blockCount then 0 else start);
      }
      AdvanceMoves(q, ids, c);
      if start >= blockCount {
        SeveralBlocks(q, ids, n);
        TriedFromZero(q, ids);
        wrapped, wrapAt := true, n;
      } else {
        TriedMore(q, ids, start, wrapped);
      }
      start, n := next, n + 1;
    }
    GivesUp(q, ids, n);
    TriedAll(q, ids, start, wrapped);
    return Exhausted;
  }

  lemma {:induction false} SearchStarts(q: Query, ids: seq<Id>)
    requires WellFormed(q, ids)
    ensures Walk(q, ids, 0) == At((q.last + 1) % |ids|) && Tried(q, ids, (q.last + 1) % |ids|, false)
  {
  }

  lemma {:induction false} GivesUp(q: Query, ids: seq<Id>, n: nat)
    requires WellFormed(q, ids) && Walk(q, ids, n) == At(q.last)
    ensures Fails(q, ids)
  {
    assert Walk(q, ids, n + 1) == GaveUp;
  }

  lemma {:induction false} SeveralBlocks(q: Query, ids: seq<Id>, n: nat)
    requires WellFormed(q, ids) && Walk(q, ids, n).At? && Walk(q, ids, n).s != q.last
    ensures |ids| > 1
  {
    if |ids| == 1 { OneBlock(q, ids, n); }
  }

  lemma {:induction false} FoundIsNoFailure(q: Query, ids: seq<Id>, c: nat)
    requires WellFormed(q, ids) && Fits(q, ids, c) && (c == q.last ==> q.last == 0 && |ids| > 1)
    ensures !NoRoom(q, ids, 0, |ids|)
    ensures StepsOver(q, ids) || !OnlyAtLast(q, ids)
  {
    hide CeilDiv, CanAlign;
    FitsIsRoom(q, ids, c);
  }

  /** The marker is a free block after a used one: the search fails although that block fits. */
  lemma {:induction false} MissExample()
    ensures Fails(Query(0, 16, 16, 1, 1), [1, 0]) && Room([1, 0], 1, CeilDiv(16, 16))
  {
    var q, ids := Query(0, 16, 16, 1, 1), [1, 0];
    assert Walk(q, ids, 0) == At(0);
    assert Walk(q, ids, 1) == At(1);
    assert Walk(q, ids, 2) == GaveUp;
  }
}
