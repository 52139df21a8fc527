/**
 * The eight stacked bitmaps of the physical page allocator as pure values.  Level 0 has
 * one bit per page; bit j of level k stands for the 2^k pages from j * 2^k on.
 * `MarkUsed` and `MarkFree` give the effect of marking a span; the lemmas show that the
 * upper levels stay an exact index of level 0 over every run of marks.
 */
module BuddyIndex {
  import opened BitmapWords
  import opened Division

  const LEVELS := 8

  type Index = seq<seq<bool>>

  function Pow2(k: nat): (p: nat)
    ensures p > 0
  {
    if k == 0 then 1 else 2 * Pow2(k - 1)
  }

  /** x halved k times, the way the span bounds are halved from level to level. */
  function Shr(x: nat, k: nat): nat
  {
    if k == 0 then x else Shr(x, k - 1) / 2
  }

  /** x doubled k times. */
  function Shl(x: nat, k: nat): nat
  {
    x * Pow2(k)
  }

  lemma {:induction false} ShrIsDivision(x: nat, k: nat)
    ensures Shr(x, k) * Pow2(k) <= x < (Shr(x, k) + 1) * Pow2(k)
  {
    if k > 0 {
      ShrIsDivision(x, k - 1);
      HalveQuotient(x, Shr(x, k - 1), Pow2(k - 1));
    }
  }

  lemma HalveQuotient(x: nat, q: nat, p: nat)
    requires q * p <= x < (q + 1) * p
    ensures (q / 2) * (2 * p) <= x < (q / 2 + 1) * (2 * p)
  {
    var h := q / 2;
    assert h * (2 * p) == (2 * h) * p;
    assert (h + 1) * (2 * p) == (2 * h + 2) * p;
    MulMono(2 * h, q, p);
    MulMono(q + 1, 2 * h + 2, p);
  }

  lemma {:induction false} ShrUnique(x: nat, k: nat, j: nat)
    requires j * Pow2(k) <= x < (j + 1) * Pow2(k)
    ensures Shr(x, k) == j
  {
    ShrIsDivision(x, k);
    var q := Shr(x, k);
    if q < j {
      MulMono(q + 1, j, Pow2(k));
    } else if q > j {
      MulMono(j + 1, q, Pow2(k));
    }
  }

  lemma {:induction false} ShrMono(x: nat, y: nat, k: nat)
    requires x <= y
    ensures Shr(x, k) <= Shr(y, k)
  {
    if k > 0 {
      ShrMono(x, y, k - 1);
    }
  }

  /** Every level's bitmap is whole words, and the span end lies inside every level. */
  ghost predicate Addressable(v: Index, end: nat)
  {
    && |v| == LEVELS
    && (forall k :: 0 <= k < LEVELS ==> |v[k]| % 32 == 0)
    && (forall k :: 0 <= k < LEVELS ==> Shr(end, k) < |v[k]|)
  }

  lemma AddressableStep(v: Index, end: nat, k: nat)
    requires Addressable(v, end) && k < LEVELS
    ensures Shr(end, k) < |v[k]| && Shr(end, 0) == end && |v| == LEVELS
    ensures k > 0 ==> Shr(end, k) == Shr(end, k - 1) / 2 && 2 * Shr(end, k) + 1 < |v[k - 1]|
  {
  }

  function UsedLevel(v: Index, begin: nat, end: nat, k: nat): (r: seq<bool>)
    requires k < |v|
    ensures |r| == |v[k]|
  {
    Fill(v[k], Shr(begin, k), Shr(end, k) + 1, true)
  }

  function MarkUsed(v: Index, begin: nat, end: nat): (r: Index)
    ensures |r| == |v| && forall k :: 0 <= k < |v| ==> |r[k]| == |v[k]|
  {
    seq(|v|, k requires 0 <= k < |v| => UsedLevel(v, begin, end, k))
  }

  function FreedLevel(v: Index, begin: nat, end: nat, k: nat): (r: seq<bool>)
    requires Addressable(v, end) && k < LEVELS
    ensures |r| == |v[k]|
  {
    hide Addressable, Shr;
    AddressableStep(v, end, k);
    if k == 0 then Fill(v[0], begin, end + 1, false)
    else ClearCovered(FreedLevel(v, begin, end, k - 1), v[k], Shr(begin, k), Shr(end, k))
  }

  function MarkFree(v: Index, begin: nat, end: nat): (r: Index)
    requires Addressable(v, end)
    ensures |r| == |v| && forall k :: 0 <= k < |v| ==> |r[k]| == |v[k]|
  {
    seq(LEVELS, k requires 0 <= k < LEVELS => FreedLevel(v, begin, end, k))
  }

  /** `upper` has exactly those bits set that have a set half below. */
  ghost predicate Summarises(lower: seq<bool>, upper: seq<bool>)
  {
    forall j {:trigger upper[j]} :: 0 <= j < |upper| && 2 * j + 1 < |lower| ==>
      upper[j] == (lower[2 * j] || lower[2 * j + 1])
  }

  ghost predicate AgreesAt(v: Index, k: nat)
    requires 1 <= k < |v|
  {
    Summarises(v[k - 1], v[k])
  }

  ghost predicate Agrees(v: Index)
  {
    forall k :: 1 <= k < |v| ==> AgreesAt(v, k)
  }

  /** A span halved covers exactly the bits that have a half inside the span. */
  lemma FillSummarises(lower: seq<bool>, upper: seq<bool>, begin: nat, end: nat)
    requires begin <= end && Summarises(lower, upper)
    ensures Summarises(Fill(lower, begin, end + 1, true), Fill(upper, begin / 2, end / 2 + 1, true))
  {
  }

  lemma UsedLevelSummarises(v: Index, begin: nat, end: nat, k: nat)
    requires begin <= end && 1 <= k < |v| && Summarises(v[k - 1], v[k])
    ensures Summarises(UsedLevel(v, begin, end, k - 1), UsedLevel(v, begin, end, k))
  {
    hide Summarises, Fill;
    ShrMono(begin, end, k - 1);
    FillSummarises(v[k - 1], v[k], Shr(begin, k - 1), Shr(end, k - 1));
  }

  lemma UsedKeepsAgreement(v: Index, begin: nat, end: nat)
    requires Agrees(v) && begin <= end
    ensures Agrees(MarkUsed(v, begin, end))
  {
    hide Summarises, UsedLevel;
    forall k | 1 <= k < |v|
      ensures AgreesAt(MarkUsed(v, begin, end), k)
    {
      assert AgreesAt(v, k);
      UsedLevelSummarises(v, begin, end, k);
    }
  }

  lemma FreeKeepsAgreement(v: Index, begin: nat, end: nat)
    requires Agrees(v) && Addressable(v, end) && begin <= end
    ensures Agrees(MarkFree(v, begin, end))
  {
    forall k | 1 <= k < LEVELS
      ensures AgreesAt(MarkFree(v, begin, end), k)
    {
      FreedLevelSummarises(v, begin, end, k);
    }
  }

  /** Freeing clears bits only inside the span of its level. */
  lemma {:induction false} FreedLevelFrame(v: Index, begin: nat, end: nat, k: nat, j: nat)
    requires Addressable(v, end) && k < LEVELS && j < |v[k]|
    ensures FreedLevel(v, begin, end, k)[j] ==> v[k][j]
    ensures !(Shr(begin, k) <= j <= Shr(end, k)) ==> FreedLevel(v, begin, end, k)[j] == v[k][j]
  {
  }

  lemma {:induction false} FreedLevelSummarises(v: Index, begin: nat, end: nat, k: nat)
    requires Agrees(v) && Addressable(v, end) && 1 <= k < LEVELS
    ensures Summarises(FreedLevel(v, begin, end, k - 1), FreedLevel(v, begin, end, k))
  {
    var lower, upper := FreedLevel(v, begin, end, k - 1), FreedLevel(v, begin, end, k);
    forall j | 0 <= j < |upper| && 2 * j + 1 < |lower|
      ensures upper[j] == (lower[2 * j] || lower[2 * j + 1])
    {
      assert AgreesAt(v, k);
      FreedLevelFrame(v, begin, end, k - 1, 2 * j);
      FreedLevelFrame(v, begin, end, k - 1, 2 * j + 1);
    }
  }

  /** A mark of one span: the only two ways the bitmaps ever change. */
  datatype Mark = Used(begin: nat, end: nat) | Freed(begin: nat, end: nat)

  /** The bits of level k's bitmap: one per buddy page, rounded up to whole words. */
  function LevelBits(pageCount: nat, k: nat): nat
  {
    32 * ((Shr(pageCount, k) + 31) / 32)
  }

  ghost predicate Sized(v: Index, pageCount: nat)
  {
    |v| == LEVELS && forall k {:trigger LevelBits(pageCount, k)} :: 0 <= k < LEVELS ==>
      |v[k]| == LevelBits(pageCount, k)
  }

  ghost predicate MarksFit(v: Index, marks: seq<Mark>)
  {
    forall i :: 0 <= i < |marks| ==> marks[i].begin <= marks[i].end && Addressable(v, marks[i].end)
  }

  function Apply(v: Index, m: Mark): (r: Index)
    requires Addressable(v, m.end)
    ensures |r| == |v| && forall k :: 0 <= k < |v| ==> |r[k]| == |v[k]|
  {
    if m.Used? then MarkUsed(v, m.begin, m.end) else MarkFree(v, m.begin, m.end)
  }

  function Run(v: Index, marks: seq<Mark>): (r: Index)
    requires MarksFit(v, marks)
    ensures |r| == |v| && forall k :: 0 <= k < |v| ==> |r[k]| == |v[k]|
    decreases |marks|
  {
    if marks == [] then v else
      var next := Apply(v, marks[0]);
      assert forall i :: 0 <= i < |marks| - 1 ==> marks[1..][i] == marks[i + 1];
      Run(next, marks[1..])
  }

  lemma {:induction false} RunKeepsAgreement(v: Index, marks: seq<Mark>)
    requires Agrees(v) && MarksFit(v, marks)
    ensures Agrees(Run(v, marks))
    decreases |marks|
  {
    if marks != [] {
      var m := marks[0];
      if m.Used? { UsedKeepsAgreement(v, m.begin, m.end); } else { FreeKeepsAgreement(v, m.begin, m.end); }
      assert forall i :: 0 <= i < |marks| - 1 ==> marks[1..][i] == marks[i + 1];
      RunKeepsAgreement(Apply(v, m), marks[1..]);
    }
  }

  /** The buddy page j of level k covers exactly the pages p with p / 2^k == j. */
  ghost predicate SomePageSet(v: Index, k: nat, j: nat)
    requires |v| == LEVELS
  {
    exists p :: 0 <= p < |v[0]| && Shr(p, k) == j && v[0][p]
  }

  lemma {:induction false} ShrStep(p: nat, k: nat, j: nat)
    requires k > 0
    ensures Shr(p, k) == j <==> Shr(p, k - 1) == 2 * j || Shr(p, k - 1) == 2 * j + 1
  {
  }

  /** Bit j of level k is set exactly when some page below it is, for every buddy page that exists at level k. */
  lemma {:induction false} IndexIsExact(v: Index, pageCount: nat, k: nat, j: nat)
    requires Agrees(v) && Sized(v, pageCount) && k < LEVELS && j < Shr(pageCount, k)
    ensures j < |v[k]|
    ensures v[k][j] <==> SomePageSet(v, k, j)
  {
    assert |v[k]| == LevelBits(pageCount, k);
    if k == 0 {
      if v[0][j] { assert Shr(j, 0) == j; }
    } else {
      assert |v[k - 1]| == LevelBits(pageCount, k - 1);
      assert AgreesAt(v, k);
      IndexIsExact(v, pageCount, k - 1, 2 * j);
      IndexIsExact(v, pageCount, k - 1, 2 * j + 1);
      forall p | 0 <= p < |v[0]| ensures Shr(p, k) == j <==> Shr(p, k - 1) == 2 * j || Shr(p, k - 1) == 2 * j + 1 {
        ShrStep(p, k, j);
      }
    }
  }

  /** The bitmaps right after boot allocation: every bit set. */
  function AllUsed(pageCount: nat): (v: Index)
    ensures Sized(v, pageCount)
  {
    seq(LEVELS, k requires 0 <= k < LEVELS => seq(LevelBits(pageCount, k), i => true))
  }

  /** After any sequence of marks from the boot state the upper levels are an exact index of level 0. */
  lemma IndexExactAfterAnyRun(pageCount: nat, marks: seq<Mark>, k: nat, j: nat)
    requires MarksFit(AllUsed(pageCount), marks)
    requires k < LEVELS && j < Shr(pageCount, k)
    ensures var v := Run(AllUsed(pageCount), marks);
            j < |v[k]| && (v[k][j] <==> SomePageSet(v, k, j))
  {
    var v := AllUsed(pageCount);
    assert forall k :: 1 <= k < |v| ==> AgreesAt(v, k);
    RunKeepsAgreement(v, marks);
    IndexIsExact(Run(v, marks), pageCount, k, j);
  }

  /** Whether the last page is addressable at every level, the condition for marking it to stay inside every bitmap. */
  ghost predicate LevelsCover(pageCount: nat)
  {
    pageCount > 0 ==> forall k :: 0 <= k < LEVELS ==> Shr(pageCount - 1, k) < LevelBits(pageCount, k)
  }

  lemma CoverMakesAddressable(v: Index, pageCount: nat, end: nat)
    requires Sized(v, pageCount) && LevelsCover(pageCount) && end < pageCount
    ensures Addressable(v, end)
  {
    forall k | 0 <= k < LEVELS
      ensures Shr(end, k) < |v[k]| && |v[k]| % 32 == 0
    {
      assert |v[k]| == LevelBits(pageCount, k);
      ShrMono(end, pageCount - 1, k);
    }
  }

  lemma LevelCovered(pageCount: nat, k: nat)
    requires pageCount > 0 && pageCount % 128 == 0 && k < LEVELS
    ensures Shr(pageCount - 1, k) < LevelBits(pageCount, k)
  {
    hide Shr;
    PowersMultiply(7 - k, k);
    assert Pow2(7) == 128;
    var c := pageCount / 128 * Pow2(7 - k);
    assert c * Pow2(k) == pageCount / 128 * (Pow2(7 - k) * Pow2(k));
    ShrStrict(pageCount - 1, c, k);
  }

  /** A page count divisible by 128 keeps every level in range. */
  lemma DivisibleCountCovers(pageCount: nat)
    requires pageCount % 128 == 0
    ensures LevelsCover(pageCount)
  {
    hide Shr, LevelBits;
    forall k | pageCount > 0 && 0 <= k < LEVELS
      ensures Shr(pageCount - 1, k) < LevelBits(pageCount, k)
    {
      LevelCovered(pageCount, k);
    }
  }

  lemma {:induction false} PowersMultiply(a: nat, b: nat)
    ensures Pow2(a) * Pow2(b) == Pow2(a + b)
  {
    if b > 0 {
      PowersMultiply(a, b - 1);
    }
  }

  lemma ShrStrict(end: nat, c: nat, k: nat)
    requires end < c * Pow2(k)
    ensures Shr(end, k) < c == Shr(c * Pow2(k), k)
  {
    ShrIsDivision(end, k);
    if c <= Shr(end, k) {
      MulMono(c, Shr(end, k), Pow2(k));
    }
    assert (c + 1) * Pow2(k) == c * Pow2(k) + Pow2(k);
    ShrUnique(c * Pow2(k), k, c);
  }
}
