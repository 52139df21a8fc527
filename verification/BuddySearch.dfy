/**
 * The next-fit search of the physical allocator over one level of the buddy index.
 * `Step` is one iteration of the source loop and `Walk` is n of them, so that "the loop
 * never ends" can be said outright.  Index arithmetic is 32-bit where it can wrap.
 */
module BuddySearch {
  import opened BitmapWords

  const WORD_RANGE := 0x1_0000_0000

  /** What one call of `alloc` looks for, after the buddy level has been chosen. */
  datatype Query = Query(
    start: nat,      // first buddy page of the address window
    end: nat,        // first buddy page past the address window
    origin: nat,     // where the search starts, and where it gives up
    needed: nat,     // buddy pages needed
    pageCount: nat,  // buddy pages at this level
    pageSize: nat,
    size: nat,
    boundary: nat)

  predicate Crosses(q: Query, i: nat)
  {
    q.boundary != 0 &&
    (i * q.pageSize) % WORD_RANGE / q.boundary != (i * q.pageSize + q.size) % WORD_RANGE / q.boundary
  }

  /** The counting loop: it tests bit i again on every round, never bit i + count. */
  function FreeCount(q: Query, level: seq<bool>, i: nat): (n: nat)
    requires q.pageCount <= |level|
    ensures n <= q.needed
  {
    if i < q.pageCount && !level[i] then
      if q.needed <= q.pageCount - i then q.needed else q.pageCount - i
    else 0
  }

  predicate Usable(q: Query, level: seq<bool>, i: nat)
    requires q.pageCount <= |level|
  {
    !Crosses(q, i) && FreeCount(q, level, i) == q.needed
  }

  /** Where the loop goes on after candidate c was not taken. */
  function Advance(q: Query, level: seq<bool>, c: nat): nat
    requires q.pageCount <= |level|
  {
    if Crosses(q, c) then c + 1 else c + FreeCount(q, level, c) + 1
  }

  datatype Cursor = At(i: nat) | Took(i: nat) | GaveUp

  /** One iteration, entered with loop variable i. */
  function Step(q: Query, level: seq<bool>, i: nat): Cursor
    requires q.pageCount <= |level|
  {
    if i == q.origin then GaveUp
    else if i >= q.end && q.start == q.origin then GaveUp
    else
      var c := if i >= q.end then q.start else i;
      if Usable(q, level, c) then Took(c) else At(Advance(q, level, c))
  }

  function Walk(q: Query, level: seq<bool>, i: nat, n: nat): Cursor
    requires q.pageCount <= |level|
    decreases n
  {
    if n == 0 then At(i) else
      match Walk(q, level, i, n - 1)
      case At(j) => Step(q, level, j)
      case done => done
  }

  function FirstIndex(q: Query): nat
  {
    (q.origin + 1) % WORD_RANGE
  }

  ghost predicate Finds(q: Query, level: seq<bool>, c: nat)
    requires q.pageCount <= |level|
  {
    exists n: nat :: Walk(q, level, FirstIndex(q), n) == Took(c)
  }

  ghost predicate Fails(q: Query, level: seq<bool>)
    requires q.pageCount <= |level|
  {
    exists n: nat :: Walk(q, level, FirstIndex(q), n) == GaveUp
  }

  ghost predicate Diverges(q: Query, level: seq<bool>)
    requires q.pageCount <= |level|
  {
    forall n: nat :: Walk(q, level, FirstIndex(q), n).At?
  }

  lemma {:induction false} WalkComposes(q: Query, level: seq<bool>, i: nat, m: nat, j: nat, n: nat)
    requires q.pageCount <= |level|
    requires Walk(q, level, i, m) == At(j)
    ensures Walk(q, level, i, m + n) == Walk(q, level, j, n)
    decreases n
  {
    if n > 0 {
      WalkComposes(q, level, i, m, j, n - 1);
      assert m + n - 1 == m + (n - 1);
    }
  }

  lemma {:induction false} WalkStaysDone(q: Query, level: seq<bool>, i: nat, m: nat, n: nat)
    requires q.pageCount <= |level|
    requires !Walk(q, level, i, m).At? && m <= n
    ensures Walk(q, level, i, n) == Walk(q, level, i, m)
    decreases n
  {
    if m < n {
      WalkStaysDone(q, level, i, m, n - 1);
    }
  }

  /** The three outcomes exclude one another, and at most one page is found. */
  lemma OutcomesExclusive(q: Query, level: seq<bool>, m: nat, n: nat)
    requires q.pageCount <= |level|
    requires !Walk(q, level, FirstIndex(q), m).At? && !Walk(q, level, FirstIndex(q), n).At?
    ensures Walk(q, level, FirstIndex(q), m) == Walk(q, level, FirstIndex(q), n)
  {
    if m <= n {
      WalkStaysDone(q, level, FirstIndex(q), m, n);
    } else {
      WalkStaysDone(q, level, FirstIndex(q), n, m);
    }
  }

  /** A walk that comes back to where it was never ends. */
  lemma {:induction false} CycleDiverges(q: Query, level: seq<bool>, i: nat, period: nat, n: nat)
    requires q.pageCount <= |level|
    requires period > 0 && Walk(q, level, i, period) == At(i)
    ensures Walk(q, level, i, n).At?
    decreases n
  {
    if n >= period {
      WalkComposes(q, level, i, period, i, n - period);
      CycleDiverges(q, level, i, period, n - period);
    } else if !Walk(q, level, i, n).At? {
      WalkStaysDone(q, level, i, n, period);
    }
  }

  /** Two heads at or past the end of the window behave alike: both restart at `start`. */
  lemma {:induction false} RestartsAlike(q: Query, level: seq<bool>, a: nat, b: nat, n: nat)
    requires q.pageCount <= |level|
    requires a >= q.end && b >= q.end && a != q.origin && b != q.origin && n > 0
    ensures Walk(q, level, a, n) == Walk(q, level, b, n)
    decreases n
  {
    if n == 1 {
      assert Walk(q, level, a, 0) == At(a) && Walk(q, level, b, 0) == At(b);
    } else {
      RestartsAlike(q, level, a, b, n - 1);
    }
  }

  /** After n iterations the loop is about to test its condition with loop variable i. */
  ghost predicate Reached(q: Query, level: seq<bool>, n: nat, i: nat)
    requires q.pageCount <= |level|
  {
    Walk(q, level, FirstIndex(q), n) == At(i)
  }

  lemma ReachesNext(q: Query, level: seq<bool>, n: nat, i: nat, c: nat)
    requires q.pageCount <= |level| && Reached(q, level, n, i) && i != q.origin
    requires c == if i >= q.end then q.start else i
    requires c != q.origin
    ensures Usable(q, level, c) ==> Finds(q, level, c)
    ensures !Usable(q, level, c) ==> Reached(q, level, n + 1, Advance(q, level, c))
  {
    hide Usable, Advance, FirstIndex;
    if Usable(q, level, c) {
      assert Walk(q, level, FirstIndex(q), n + 1) == Took(c);
    }
  }

  /** A usable page right behind the hint is taken. */
  lemma FirstTaken(q: Query, level: seq<bool>)
    requires q.pageCount <= |level| && FirstIndex(q) < q.end && FirstIndex(q) != q.origin
    ensures Usable(q, level, FirstIndex(q)) ==> Finds(q, level, FirstIndex(q))
  {
    hide Usable, Advance, FirstIndex;
    ReachesNext(q, level, 0, FirstIndex(q), FirstIndex(q));
  }

  lemma ReachesEnd(q: Query, level: seq<bool>, n: nat, i: nat)
    requires q.pageCount <= |level| && Reached(q, level, n, i)
    requires i == q.origin || (i >= q.end && q.start == q.origin)
    ensures Fails(q, level)
  {
    assert Walk(q, level, FirstIndex(q), n + 1) == GaveUp;
  }

  lemma SecondWrapAt(q: Query, level: seq<bool>, m: nat, a: nat, n: nat, b: nat, k: nat)
    requires q.pageCount <= |level| && m < n
    requires Reached(q, level, m, a) && Reached(q, level, n, b)
    requires a >= q.end && b >= q.end && a != q.origin && b != q.origin
    ensures Walk(q, level, FirstIndex(q), k).At?
  {
    hide FirstIndex, Step;
    var i := FirstIndex(q);
    if k <= n {
      if !Walk(q, level, i, k).At? { WalkStaysDone(q, level, i, k, n); }
    } else {
      WalkComposes(q, level, i, m, a, n - m);
      RestartsAlike(q, level, a, b, n - m);
      WalkComposes(q, level, i, n, b, k - n);
      CycleDiverges(q, level, b, n - m, k - n);
    }
  }

  lemma SecondWrapDiverges(q: Query, level: seq<bool>, m: nat, a: nat, n: nat, b: nat)
    requires q.pageCount <= |level| && m < n
    requires Reached(q, level, m, a) && Reached(q, level, n, b)
    requires a >= q.end && b >= q.end && a != q.origin && b != q.origin
    ensures Diverges(q, level)
  {
    hide FirstIndex, Step, Walk, Reached;
    forall k: nat
      ensures Walk(q, level, FirstIndex(q), k).At?
    {
      SecondWrapAt(q, level, m, a, n, b, k);
    }
  }

  datatype SearchResult = Found(c: nat) | OutOfMemory | Spins

  /** No candidate of [lo, hi) is usable. */
  ghost predicate NoneUsable(q: Query, level: seq<bool>, lo: nat, hi: nat)
    requires q.pageCount <= |level|
  {
    forall c :: lo <= c < hi ==> !Usable(q, level, c)
  }

  ghost predicate WellFormed(q: Query)
  {
    q.start <= q.origin < WORD_RANGE && q.needed >= 1 && q.end <= q.pageCount < WORD_RANGE - 2
  }

  lemma NoneJoins(q: Query, level: seq<bool>, lo: nat, mid: nat, hi: nat)
    requires q.pageCount <= |level|
    requires NoneUsable(q, level, lo, mid) && NoneUsable(q, level, mid, hi)
    ensures NoneUsable(q, level, lo, hi)
  {
  }

  /** A candidate that is skipped, and everything the loop jumps over with it, is not usable. */
  lemma SkippedUnusable(q: Query, level: seq<bool>, c: nat)
    requires q.pageCount <= |level| && !Usable(q, level, c)
    ensures NoneUsable(q, level, c, Advance(q, level, c))
    ensures q.needed == 1 ==> Advance(q, level, c) == c + 1
    ensures Advance(q, level, c) == c + 1 || Advance(q, level, c) == q.pageCount + 1
    ensures c < Advance(q, level, c)
  {
  }

  /** The counting loop in place on the bitmap. */
  method CountFree(q: Query, bitmap: array<bv32>, i: nat) returns (count: nat)
    requires q.pageCount <= 32 * bitmap.Length
    ensures count == FreeCount(q, Bits(bitmap[..]), i)
  {
    hide TestBit, Offset, GetBit;
    count := 0;
    while i + count < q.pageCount && count < q.needed
      invariant count <= q.needed
      invariant count > 0 ==> i + count <= q.pageCount && !Bits(bitmap[..])[i]
    {
      var used := TestAt(bitmap, i);
      if used {
        break;
      }
      count := count + 1;
    }
  }

  /** One candidate: the boundary test, then the count. */
  method TryCandidate(q: Query, bitmap: array<bv32>, ghost level: seq<bool>, i: nat) returns (take: bool, next: nat)
    requires level == Bits(bitmap[..]) && q.pageCount <= |level|
    ensures take == Usable(q, level, i)
    ensures !take ==> next == Advance(q, level, i)
  {
    hide Crosses, Bits, TestBit, Offset;
    if Crosses(q, i) {
      return false, i + 1;
    }
    var count := CountFree(q, bitmap, i);
    if count < q.needed {
      return false, i + count + 1;
    }
    return true, i;
  }

  lemma SearchStarts(q: Query, level: seq<bool>)
    requires q.pageCount <= |level| && WellFormed(q)
    ensures Reached(q, level, 0, FirstIndex(q))
    ensures NoneUsable(q, level, FirstIndex(q), FirstIndex(q))
    ensures FirstIndex(q) >= q.end ==> NoneUsable(q, level, FirstIndex(q), q.end)
    ensures FirstIndex(q) == if q.origin == WORD_RANGE - 1 then 0 else q.origin + 1
    ensures q.start <= q.origin < WORD_RANGE && q.needed >= 1 && q.end <= q.pageCount < WORD_RANGE - 2
  {
  }

  lemma NoneNarrows(q: Query, level: seq<bool>, lo: nat, hi: nat, less: nat)
    requires q.pageCount <= |level| && NoneUsable(q, level, lo, hi)
    ensures less <= hi ==> NoneUsable(q, level, lo, less)
  {
  }

  /** A free page too close to the end of the level: from it the loop jumps past everything. */
  predicate Overshoots(q: Query, level: seq<bool>, c: nat)
    requires q.pageCount <= |level|
  {
    c < q.pageCount && !Crosses(q, c) && !level[c] && q.pageCount - c < q.needed
  }

  lemma NextAfter(q: Query, level: seq<bool>, c: nat)
    requires q.pageCount <= |level| && !Usable(q, level, c)
    ensures Advance(q, level, c) == if Overshoots(q, level, c) then q.pageCount + 1 else c + 1
  {
  }

  /** One past the last candidate of a round: the window's first page is tried even when the window is empty. */
  function RoundEnd(q: Query): nat
  {
    if q.end <= q.start then q.start + 1 else q.end
  }

  ghost predicate OvershootIn(q: Query, level: seq<bool>, lo: nat, hi: nat)
    requires q.pageCount <= |level|
  {
    exists c :: lo <= c < hi && Overshoots(q, level, c)
  }

  /**
   * When the search repeats itself for ever: nothing it tries is usable, and on its rounds it
   * does not come to stand on `origin`, because that lies past the end of a round or is jumped over.
   */
  ghost predicate Endless(q: Query, level: seq<bool>)
    requires q.pageCount <= |level|
  {
    && NoneUsable(q, level, FirstIndex(q), q.end) && NoneUsable(q, level, q.start, RoundEnd(q))
    && if OvershootIn(q, level, q.start, if q.origin < RoundEnd(q) then q.origin else RoundEnd(q))
       then q.origin != q.pageCount + 1 else RoundEnd(q) < q.origin
  }

  /** The candidates of a search that finds nothing: from the hint on, then from `start` up to `origin`. */
  predicate TriedAt(q: Query, i: nat)
  {
    FirstIndex(q) <= i < q.end || (q.start <= i < RoundEnd(q) && i < q.origin)
  }

  /** c is the first usable page behind the hint, or if there is none in the window, the first one in it. */
  ghost predicate NextFit(q: Query, level: seq<bool>, c: nat)
    requires q.pageCount <= |level|
  {
    Usable(q, level, c) &&
    if exists i :: FirstIndex(q) <= i < q.end && Usable(q, level, i)
    then FirstIndex(q) <= c < q.end && forall i :: FirstIndex(q) <= i < c ==> !Usable(q, level, i)
    else q.start <= c && forall i :: q.start <= i < c ==> !Usable(q, level, i)
  }

  /** A round from `start` has come to loop variable i without finding anything or meeting `origin`. */
  ghost predicate OnRound(q: Query, level: seq<bool>, i: nat)
    requires q.pageCount <= |level|
  {
    && q.start < q.origin && q.start < i && NoneUsable(q, level, q.start, i)
    && if i <= RoundEnd(q) && i <= q.origin then !OvershootIn(q, level, q.start, i)
       else i == q.pageCount + 1 &&
            OvershootIn(q, level, q.start, if q.origin < RoundEnd(q) then q.origin else RoundEnd(q))
  }

  lemma RoundStarts(q: Query, level: seq<bool>)
    requires q.pageCount <= |level| && WellFormed(q) && q.start < q.origin && !Usable(q, level, q.start)
    ensures OnRound(q, level, Advance(q, level, q.start))
  {
    hide Usable, Advance, Crosses;
    NextAfter(q, level, q.start);
    SkippedUnusable(q, level, q.start);
  }

  lemma RoundGoesOn(q: Query, level: seq<bool>, i: nat)
    requires q.pageCount <= |level| && WellFormed(q) && OnRound(q, level, i)
    requires i < q.end && i != q.origin && !Usable(q, level, i)
    ensures OnRound(q, level, Advance(q, level, i))
  {
    hide Usable, Advance, Crosses;
    NextAfter(q, level, i);
    SkippedUnusable(q, level, i);
    NoneJoins(q, level, q.start, i, Advance(q, level, i));
  }

  lemma RoundOver(q: Query, level: seq<bool>, i: nat)
    requires q.pageCount <= |level| && WellFormed(q)
    requires OnRound(q, level, i) && NoneUsable(q, level, FirstIndex(q), q.end)
    ensures i != q.origin && i >= q.end ==> Endless(q, level)
    ensures i == q.origin ==> !Endless(q, level) && NoneUsable(q, level, q.start, q.origin)
    ensures i == q.origin ==> forall c :: q.start <= c < q.end && c != q.origin ==> !Usable(q, level, c)
    ensures i < q.end && i != q.origin ==> i < q.origin
  {
    hide Usable, Crosses;
  }

  lemma FoundIsNotEndless(q: Query, level: seq<bool>, c: nat)
    requires q.pageCount <= |level| && Usable(q, level, c) && (FirstIndex(q) <= c < q.end || q.start <= c < RoundEnd(q))
    ensures !Endless(q, level)
  {
    hide Usable;
  }

  /**
   * What becomes of the search: it finds a usable page, or gives up having tried everything
   * but `origin`, or never ends, and the last exactly when `Endless` says so.
   */
  lemma {:induction false} Outcome(q: Query, level: seq<bool>) returns (r: SearchResult)
    requires q.pageCount <= |level| && WellFormed(q)
    ensures r.Found? ==> Finds(q, level, r.c) && Usable(q, level, r.c) && r.c != q.origin && TriedAt(q, r.c)
    ensures r.OutOfMemory? ==>
              Fails(q, level) && forall c :: q.start <= c < q.end && c != q.origin ==> !Usable(q, level, c)
    ensures r.OutOfMemory? ==>
              NoneUsable(q, level, FirstIndex(q), q.end) && NoneUsable(q, level, q.start, q.origin)
    ensures r.Found? ==> NextFit(q, level, r.c)
    ensures r.Spins? ==> Diverges(q, level)
    ensures r.Spins? <==> Endless(q, level)
  {
    hide *;
    SearchStarts(q, level);
    var first, i, n := FirstIndex(q), FirstIndex(q), 0;
    while i < q.end
      invariant Reached(q, level, n, i) && first <= i && (i == first || i <= q.pageCount + 1)
      invariant NoneUsable(q, level, first, if i <= q.end then i else q.end)
      decreases q.end - i
    {
      AwayFromOrigin(q, i);
      ReachesNext(q, level, n, i, i);
      if Usable(q, level, i) {
        FoundIsNotEndless(q, level, i);
        Tried(q, i);
        FitsFirst(q, level, i);
        return Found(i);
      }
      SkippedUnusable(q, level, i);
      NoneJoins(q, level, first, i, Advance(q, level, i));
      NoneNarrows(q, level, first, Advance(q, level, i), q.end);
      i, n := Advance(q, level, i), n + 1;
    }
    AwayFromOrigin(q, i);
    if q.start == q.origin {
      ReachesEnd(q, level, n, i);
      StartIsOrigin(q, level);
      return OutOfMemory;
    }
    var wrapAt, wrapSteps := i, n;
    ReachesNext(q, level, n, i, q.start);
    StartInRound(q);
    if Usable(q, level, q.start) {
      FoundIsNotEndless(q, level, q.start);
      Tried(q, q.start);
      NothingBetween(q, level, q.start);
      FitsSecond(q, level, q.start);
      return Found(q.start);
    }
    RoundStarts(q, level);
    SkippedUnusable(q, level, q.start);
    i, n := Advance(q, level, q.start), n + 1;
    while i < q.end && i != q.origin
      invariant Reached(q, level, n, i) && OnRound(q, level, i) && q.start < i && wrapSteps < n
      decreases q.end - i
    {
      ReachesNext(q, level, n, i, i);
      StartInRound(q);
      RoundOver(q, level, i);
      if Usable(q, level, i) {
        FoundIsNotEndless(q, level, i);
        Tried(q, i);
        RoundTried(q, level, i);
        FitsSecond(q, level, i);
        return Found(i);
      }
      RoundGoesOn(q, level, i);
      SkippedUnusable(q, level, i);
      i, n := Advance(q, level, i), n + 1;
    }
    RoundOver(q, level, i);
    if i == q.origin {
      ReachesEnd(q, level, n, i);
      return OutOfMemory;
    }
    SecondWrapDiverges(q, level, wrapSteps, wrapAt, n, i);
    return Spins;
  }

  lemma Tried(q: Query, i: nat)
    ensures FirstIndex(q) <= i < q.end || (q.start <= i < RoundEnd(q) && i < q.origin) <==> TriedAt(q, i)
  {
  }

  lemma NothingBetween(q: Query, level: seq<bool>, i: nat)
    requires q.pageCount <= |level|
    ensures NoneUsable(q, level, i, i)
  {
  }

  lemma RoundTried(q: Query, level: seq<bool>, i: nat)
    requires q.pageCount <= |level| && OnRound(q, level, i)
    ensures NoneUsable(q, level, q.start, i)
  {
  }

  lemma FitsFirst(q: Query, level: seq<bool>, c: nat)
    requires q.pageCount <= |level| && Usable(q, level, c) && FirstIndex(q) <= c < q.end
    requires NoneUsable(q, level, FirstIndex(q), if c <= q.end then c else q.end)
    ensures NextFit(q, level, c)
  {
    hide Usable;
  }

  lemma FitsSecond(q: Query, level: seq<bool>, c: nat)
    requires q.pageCount <= |level| && Usable(q, level, c) && q.start <= c
    requires NoneUsable(q, level, FirstIndex(q), q.end) && NoneUsable(q, level, q.start, c)
    ensures NextFit(q, level, c)
  {
    hide Usable;
  }

  lemma AwayFromOrigin(q: Query, i: nat)
    requires WellFormed(q) && FirstIndex(q) <= i && (i == FirstIndex(q) || i <= q.pageCount + 1)
    ensures i != q.origin
  {
  }

  lemma StartInRound(q: Query)
    ensures q.start < RoundEnd(q) && q.end <= RoundEnd(q)
  {
  }

  lemma StartIsOrigin(q: Query, level: seq<bool>)
    requires q.pageCount <= |level| && WellFormed(q)
    requires q.start == q.origin && NoneUsable(q, level, FirstIndex(q), q.end)
    ensures !Endless(q, level) && NoneUsable(q, level, q.start, q.origin)
    ensures forall c :: q.start <= c < q.end && c != q.origin ==> !Usable(q, level, c)
  {
    hide Usable, Crosses;
  }

  /** The loop runs for ever if and only if `Endless` holds. */
  lemma {:induction false} DivergesIff(q: Query, level: seq<bool>)
    requires q.pageCount <= |level| && WellFormed(q)
    ensures Diverges(q, level) <==> Endless(q, level)
  {
    hide Endless, Usable, Walk;
    var r := Outcome(q, level);
  }

  /** For a single buddy page: when `origin` lies past a window in which nothing is usable. */
  lemma {:induction false} SinglePageDivergesIff(q: Query, level: seq<bool>)
    requires q.pageCount <= |level| && WellFormed(q) && q.needed == 1
    ensures Diverges(q, level) <==>
              RoundEnd(q) < q.origin && NoneUsable(q, level, q.start, RoundEnd(q))
              && NoneUsable(q, level, FirstIndex(q), q.end)
  {
    hide Usable, Crosses;
    DivergesIff(q, level);
  }

  /**
   * The search loop.  The only addition to the source is `wrapped`: reaching the end of
   * the window a second time means the source loop repeats itself for ever, which the
   * result reports as `Spins`.
   */
  method Search(q: Query, bitmap: array<bv32>, ghost level: seq<bool>) returns (r: SearchResult)
    requires level == Bits(bitmap[..]) && q.pageCount <= |level| && WellFormed(q)
    // the result is what the loop does
    ensures r.Found? ==> Finds(q, level, r.c)
    ensures r.OutOfMemory? <==> Fails(q, level)
    ensures r.Spins? <==> Diverges(q, level)
    ensures r.Spins? <==> Endless(q, level)
    // what it finds
    ensures r.Found? ==> Usable(q, level, r.c) && r.c != q.origin
    ensures r.Found? ==> r.c < q.end || r.c == q.start
    ensures r.Found? ==> q.start <= r.c || q.origin == WORD_RANGE - 1
    // what it misses: only the page where the search started
    ensures r.OutOfMemory? ==> forall c :: q.start <= c < q.end && c != q.origin ==> !Usable(q, level, c)
  {
    hide *;
    var i: nat := FirstIndex(q);
    var wrapped := false;
    ghost var n: nat := 0;
    ghost var wrapAt: nat, wrapSteps: nat := 0, 0;
    SearchStarts(q, level);
    while i != q.origin
      invariant Reached(q, level, n, i)
      invariant wrapped ==>
                wrapSteps < n && wrapAt >= q.end && wrapAt != q.origin && Reached(q, level, wrapSteps, wrapAt)
      invariant wrapped ==> q.start < i && q.start < q.origin
      invariant i == FirstIndex(q) || i <= q.pageCount + 1 || (wrapped && i == q.start + 1)
      decreases if wrapped then 0 else 1, if i <= q.pageCount + q.start + 1 then q.pageCount + q.start + 2 - i else 0
    {
      ghost var head := i;
      if i >= q.end {
        if wrapped {
          SecondWrapDiverges(q, level, wrapSteps, wrapAt, n, i);
          Decided(q, level, Spins);
          return Spins;
        }
        if q.start == q.origin {
          break;
        }
        wrapped, wrapAt, wrapSteps := true, i, n;
        i := q.start;
      }
      ReachesNext(q, level, n, head, i);
      n := n + 1;
      var take, next := TryCandidate(q, bitmap, level, i);
      if take {
        Decided(q, level, Found(i));
        return Found(i);
      }
      SkippedUnusable(q, level, i);
      i := next;
    }
    ReachesEnd(q, level, n, i);
    Decided(q, level, OutOfMemory);
    r := OutOfMemory;
  }

  /** The outcomes exclude one another, so one of them decides the rest. */
  lemma {:induction false} Decided(q: Query, level: seq<bool>, r: SearchResult)
    requires q.pageCount <= |level| && WellFormed(q)
    requires match r
             case Found(c) => Finds(q, level, c)
             case OutOfMemory => Fails(q, level)
             case Spins => Diverges(q, level)
    ensures r.Found? ==> Usable(q, level, r.c) && r.c != q.origin && (r.c < q.end || r.c == q.start)
    ensures r.Found? ==> q.start <= r.c || q.origin == WORD_RANGE - 1
    ensures r.OutOfMemory? ==> forall c :: q.start <= c < q.end && c != q.origin ==> !Usable(q, level, c)
    ensures (r.OutOfMemory? <==> Fails(q, level))
    ensures (r.Spins? <==> Diverges(q, level)) && (r.Spins? <==> Endless(q, level))
  {
    hide Endless, Usable, Walk, FirstIndex, NoneUsable;
    var o := Outcome(q, level);
    if r.Found? {
      var n: nat :| Walk(q, level, FirstIndex(q), n) == Took(r.c);
      TakenWhere(q, level, n, r.c);
    }
    var first := FirstIndex(q);
    if m: nat, n: nat :|
      && !Walk(q, level, first, m).At? && !Walk(q, level, first, n).At?
      && Walk(q, level, first, m) != Walk(q, level, first, n)
    {
      OutcomesExclusive(q, level, m, n);
    }
  }

  /** Every loop variable the search reaches lies past `start`, unless the first index wrapped to zero. */
  lemma {:induction false} HeadsPastStart(q: Query, level: seq<bool>, n: nat, i: nat)
    requires q.pageCount <= |level| && WellFormed(q) && q.origin != WORD_RANGE - 1 && Reached(q, level, n, i)
    ensures i > q.start
  {
    hide Usable, Crosses, FreeCount;
    if n > 0 {
      var before := Walk(q, level, FirstIndex(q), n - 1);
      HeadsPastStart(q, level, n - 1, before.i);
    }
  }

  lemma {:induction false} TakenWhere(q: Query, level: seq<bool>, n: nat, c: nat)
    requires q.pageCount <= |level| && WellFormed(q)
    requires Walk(q, level, FirstIndex(q), n) == Took(c)
    ensures Usable(q, level, c) && (c < q.end || c == q.start)
    ensures q.start <= c || q.origin == WORD_RANGE - 1
  {
    hide Usable;
    var before := Walk(q, level, FirstIndex(q), n - 1);
    if before.Took? {
      TakenWhere(q, level, n - 1, c);
    } else if q.origin != WORD_RANGE - 1 {
      HeadsPastStart(q, level, n - 1, before.i);
    }
  }

  lemma {:induction false} ScansUpward(q: Query, level: seq<bool>, c: nat)
    requires q.pageCount <= |level| && WellFormed(q) && q.needed == 1 && q.origin == WORD_RANGE - 1
    requires c <= q.end && NoneUsable(q, level, 0, c)
    ensures Reached(q, level, c, c)
  {
    if c > 0 {
      NoneNarrows(q, level, 0, c, c - 1);
      ScansUpward(q, level, c - 1);
      SkippedUnusable(q, level, c - 1);
      ReachesNext(q, level, c - 1, c - 1, c - 1);
    }
  }

  lemma {:induction false} LeastUsable(q: Query, level: seq<bool>, b: nat) returns (c: nat)
    requires q.pageCount <= |level| && Usable(q, level, b)
    ensures c <= b && Usable(q, level, c) && NoneUsable(q, level, 0, c)
  {
    hide Usable;
    c := b;
    if !NoneUsable(q, level, 0, b) {
      var d :| 0 <= d < b && Usable(q, level, d);
      c := LeastUsable(q, level, d);
    }
  }

  /** A usable page below the window, reachable because the first index has wrapped to zero. */
  ghost predicate UsableBelowWindow(q: Query, level: seq<bool>)
    requires q.pageCount <= |level|
  {
    q.origin == WORD_RANGE - 1 && exists b :: 0 <= b < q.start && b < q.end && Usable(q, level, b)
  }

  /**
   * A one-page result lies inside the window exactly when the window holds a buddy page and
   * `last_alloc` has not wrapped to the largest index or no page below is usable.
   */
  lemma WindowExact(q: Query, level: seq<bool>, c: nat)
    requires q.pageCount <= |level| && WellFormed(q) && q.needed == 1
    requires Finds(q, level, c)
    ensures q.start <= c < q.end <==> q.start < q.end && !UsableBelowWindow(q, level)
  {
    hide Usable, FirstIndex, Walk;
    var n: nat :| Walk(q, level, FirstIndex(q), n) == Took(c);
    TakenWhere(q, level, n, c);
    if UsableBelowWindow(q, level) {
      var b :| 0 <= b < q.start && b < q.end && Usable(q, level, b);
      var least := LeastUsable(q, level, b);
      ScansUpward(q, level, least);
      ReachesNext(q, level, least, least, least);
      var m: nat :| Walk(q, level, FirstIndex(q), m) == Took(least);
      OutcomesExclusive(q, level, m, n);
    }
  }

  /** All the buddy pages a candidate stands for are free. */
  ghost predicate RunFree(q: Query, level: seq<bool>, i: nat)
    requires q.pageCount <= |level|
  {
    i + q.needed <= q.pageCount && forall k :: i <= k < i + q.needed ==> !level[k]
  }

  /** A lone free page that is tried is what the search finds. */
  lemma {:induction false} LonePageFound(q: Query, level: seq<bool>, i: nat)
    requires q.pageCount <= |level| && WellFormed(q) && TriedAt(q, i) && Usable(q, level, i)
    requires forall c :: 0 <= c < q.pageCount && c != i ==> level[c]
    ensures Finds(q, level, i)
  {
    hide Crosses, Walk, Finds, Fails, Diverges, FirstIndex, OvershootIn;
    var r := Outcome(q, level);
    assert r.Found? ==> r.c == i;
  }

  /** What the search finds is something it tried. */
  lemma {:induction false} FoundIsTried(q: Query, level: seq<bool>, c: nat)
    requires q.pageCount <= |level| && WellFormed(q) && Finds(q, level, c)
    ensures Usable(q, level, c) && TriedAt(q, c) && NextFit(q, level, c)
  {
    hide Endless, Usable, Walk, FirstIndex, NoneUsable, TriedAt, NextFit;
    var o := Outcome(q, level);
    var n: nat :| Walk(q, level, FirstIndex(q), n) == Took(c);
    if o.Found? {
      var m: nat :| Walk(q, level, FirstIndex(q), m) == Took(o.c);
      OutcomesExclusive(q, level, m, n);
    } else if o.OutOfMemory? {
      var m: nat :| Walk(q, level, FirstIndex(q), m) == GaveUp;
      OutcomesExclusive(q, level, m, n);
    }
  }

  /** Whatever the bitmap, all pages of what the search returns are free. */
  ghost predicate CountsRight(q: Query)
  {
    forall level: seq<bool>, c: nat :: q.pageCount <= |level| && Finds(q, level, c) ==> RunFree(q, level, c)
  }

  /**
   * The pages found are free for every bitmap exactly when a single buddy page is asked for, or
   * every candidate with enough pages behind it crosses the boundary.
   */
  lemma {:induction false} CountRightIff(q: Query)
    requires WellFormed(q)
    ensures CountsRight(q) <==>
            q.needed == 1 || forall i :: 0 <= i && TriedAt(q, i) && i + q.needed <= q.pageCount ==> Crosses(q, i)
  {
    hide Crosses, Walk, Finds, TriedAt;
    if i: nat :| q.needed > 1 && TriedAt(q, i) && i + q.needed <= q.pageCount && !Crosses(q, i) {
      var level := seq(q.pageCount, k => k != i);
      LonePageFound(q, level, i);
      assert level[i + 1] && !RunFree(q, level, i);
    } else {
      forall level: seq<bool>, c: nat | q.pageCount <= |level| && Finds(q, level, c)
        ensures RunFree(q, level, c)
      {
        FoundIsTried(q, level, c);
      }
    }
  }

  /** Two of three pages are asked for and only the second is free: it is taken, with the third, which is in use. */
  lemma {:induction false} TakesUsedPage(q: Query, level: seq<bool>)
    requires q.start == 0 && q.end == 3 && q.origin == 0 && q.needed == 2 && q.pageCount == 3 && q.boundary == 0
    requires 3 <= |level| && !level[1] && level[2]
    ensures WellFormed(q) && Finds(q, level, 1) && !RunFree(q, level, 1)
  {
    hide Finds, Walk;
    FirstTaken(q, level);
  }
}
