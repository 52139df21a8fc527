/**
 * The bookkeeping of the heap as a whole: which runs of which heap block are live under
 * which pointer, and the statistics.  The steps are the state changes of `expand`, `alloc`
 * and `free`; the invariant holds in every state they reach.
 */
module HeapBook {
  import Division
  import opened HeapRuns

  const HEADER := 20

  datatype Statistics = Statistics(size: int, free: int, used: int, meta: int)

  /** One heap block: its memory, and the runs its bitmap shows. */
  datatype Piece = Piece(base: nat, memSize: nat, blockSize: nat, meta: nat, used: nat, runs: set<Run>)

  /** A run of the heap block at `base`. */
  datatype Slot = Slot(base: nat, run: Run)
  datatype Book = Book(pieces: seq<Piece>, stats: Statistics, live: map<nat, Slot>)

  // ------------------------------------------------------------ statistics

  function Share(v: Piece): Statistics
  {
    Statistics(v.memSize + HEADER, v.memSize - v.used * v.blockSize,
               (v.used - v.meta) * v.blockSize, v.meta * v.blockSize + HEADER)
  }

  function Add(a: Statistics, b: Statistics): Statistics
  {
    Statistics(a.size + b.size, a.free + b.free, a.used + b.used, a.meta + b.meta)
  }

  function Total(pieces: seq<Piece>): Statistics
  {
    if |pieces| == 0 then Statistics(0, 0, 0, 0) else Add(Share(pieces[0]), Total(pieces[1..]))
  }

  lemma {:induction false} ShareAfter(v: Piece, used: nat, runs: set<Run>)
    ensures var delta := (used - v.used) * v.blockSize;
            Share(v.(used := used, runs := runs)) ==
            Share(v).(free := Share(v).free - delta, used := Share(v).used + delta)
    ensures Share(v).size == Share(v).free + Share(v).used + Share(v).meta
  {
    assert (used - v.used) * v.blockSize == used * v.blockSize - v.used * v.blockSize;
    assert (used - v.meta) * v.blockSize == used * v.blockSize - v.meta * v.blockSize;
    assert (v.used - v.meta) * v.blockSize == v.used * v.blockSize - v.meta * v.blockSize;
  }

  /** All bytes are free, used or metadata. */
  lemma {:induction false} Conservation(pieces: seq<Piece>)
    ensures Total(pieces).size == Total(pieces).free + Total(pieces).used + Total(pieces).meta
  {
    if |pieces| > 0 {
      hide Share;
      Conservation(pieces[1..]);
      ShareAfter(pieces[0], 0, {});
    }
  }

  lemma {:induction false} TotalAfter(pieces: seq<Piece>, i: nat, used: nat, runs: set<Run>)
    requires i < |pieces|
    ensures var v := pieces[i];
            var delta := (used - v.used) * v.blockSize;
            var t := Total(pieces);
            Total(pieces[i := v.(used := used, runs := runs)]) == t.(free := t.free - delta, used := t.used + delta)
  {
    hide Share;
    var v := pieces[i];
    var w := v.(used := used, runs := runs);
    if i == 0 {
      assert pieces[0 := w][1..] == pieces[1..];
      ShareAfter(v, used, runs);
    } else {
      TotalAfter(pieces[1..], i - 1, used, runs);
      assert pieces[i := w][1..] == pieces[1..][i - 1 := w];
    }
  }

  // ------------------------------------------------------------ invariant

  predicate Disjoint(a: Piece, b: Piece)
  {
    a.base + a.memSize <= b.base || b.base + b.memSize <= a.base
  }

  ghost predicate PieceOk(v: Piece)
  {
    && v.blockSize > 0 && v.memSize > 0 && Run(0, v.meta) in v.runs
    && (forall run :: run in v.runs ==> run.start < run.end <= v.memSize / v.blockSize)
    && (forall a, b :: a in v.runs && b in v.runs && a != b ==> a.end <= b.start || b.end <= a.start)
  }

  predicate Inside(v: Piece, run: Run, p: nat)
  {
    v.base + run.start * v.blockSize <= p < v.base + run.end * v.blockSize
  }

  ghost predicate HasRun(pieces: seq<Piece>, i: int, slot: Slot)
  {
    0 <= i < |pieces| && pieces[i].base == slot.base && slot.run in pieces[i].runs && slot.run != Run(0, pieces[i].meta)
  }

  /** The pointer was handed out for a run that is still there. */
  ghost predicate Handed(s: Book, p: nat)
    requires p in s.live
  {
    exists i :: HasRun(s.pieces, i, s.live[p]) && Inside(s.pieces[i], s.live[p].run, p)
  }

  /** The address p lies in the run that was handed out as q. */
  ghost predicate PointsInto(s: Book, p: nat, q: nat)
  {
    q in s.live && exists i :: HasRun(s.pieces, i, s.live[q]) && Inside(s.pieces[i], s.live[q].run, p)
  }

  ghost predicate OnlyOwner(s: Book, b: nat, p: nat)
  {
    PointsInto(s, b, p) && forall q :: PointsInto(s, b, q) ==> q == p
  }

  /** All bytes from p on, `size` of them, belong to p and to no other live pointer. */
  ghost predicate OwnsBytes(s: Book, p: nat, size: nat)
  {
    forall b :: p <= b < p + size ==> OnlyOwner(s, b, p)
  }

  ghost predicate IsLive(s: Book, slot: Slot)
  {
    exists p :: p in s.live && s.live[p] == slot
  }

  ghost predicate PiecesOk(pieces: seq<Piece>)
  {
    && (forall i :: 0 <= i < |pieces| ==> PieceOk(pieces[i]))
    && (forall i, j :: 0 <= i < j < |pieces| ==> Disjoint(pieces[i], pieces[j]))
  }

  /** Live pointers and runs correspond one to one, apart from the runs that hold the bitmaps. */
  ghost predicate LiveOk(s: Book)
  {
    && (forall p :: p in s.live ==> Handed(s, p))
    && (forall p, q :: p in s.live && q in s.live && p != q ==> s.live[p] != s.live[q])
    && (forall i, slot :: HasRun(s.pieces, i, slot) ==> IsLive(s, slot))
  }

  ghost predicate Inv(s: Book)
  {
    PiecesOk(s.pieces) && LiveOk(s) && s.stats == Total(s.pieces)
  }

  lemma {:induction false} PiecesApart(pieces: seq<Piece>, i: int, j: int)
    requires PiecesOk(pieces) && 0 <= i < |pieces| && 0 <= j < |pieces| && i != j
    ensures Disjoint(pieces[i], pieces[j]) && pieces[i].base != pieces[j].base
  {
    assert PieceOk(pieces[i]) && PieceOk(pieces[j]);
    if i < j { assert Disjoint(pieces[i], pieces[j]); } else { assert Disjoint(pieces[j], pieces[i]); }
  }

  lemma {:induction false} BlockRange(x: nat, size: nat, a: nat, b: nat)
    requires size > 0
    ensures a * size <= x < b * size <==> a <= x / size < b
  {
    Division.DivSmall(x, size, a);
    Division.DivSmall(x, size, b);
  }

  lemma {:induction false} EndInside(end: nat, memSize: nat, size: nat)
    requires size > 0 && end <= memSize / size
    ensures end * size <= memSize
  {
    Division.MulMono(end, memSize / size, size);
    Division.DivMod(memSize, size);
  }

  /** A pointer inside a run lies in that heap block, at a block of that run. */
  lemma {:induction false} InsideMeans(v: Piece, run: Run, p: nat)
    requires PieceOk(v) && run.start < run.end <= v.memSize / v.blockSize
    ensures Inside(v, run, p) ==> v.base <= p < v.base + v.memSize
    ensures v.base <= p ==> (Inside(v, run, p) <==> run.start <= (p - v.base) / v.blockSize < run.end)
  {
    EndInside(run.end, v.memSize, v.blockSize);
    if v.base <= p { BlockRange(p - v.base, v.blockSize, run.start, run.end); }
  }

  // ------------------------------------------------------------ steps

  function Expanded(s: Book, v: Piece): Book
  {
    Book([v] + s.pieces, Add(s.stats, Share(v)), s.live)
  }

  function Taken(s: Book, i: nat, run: Run, p: nat): Book
    requires i < |s.pieces| && run.start <= run.end
  {
    var v := s.pieces[i];
    var delta := (run.end - run.start) * v.blockSize;
    Book(s.pieces[i := v.(used := v.used + (run.end - run.start), runs := v.runs + {run})],
         s.stats.(free := s.stats.free - delta, used := s.stats.used + delta),
         s.live[p := Slot(v.base, run)])
  }

  function Released(s: Book, i: nat, run: Run, p: nat): Book
    requires i < |s.pieces| && run.start <= run.end && run.end - run.start <= s.pieces[i].used
  {
    var v := s.pieces[i];
    var delta := (run.end - run.start) * v.blockSize;
    Book(s.pieces[i := v.(used := v.used - (run.end - run.start), runs := v.runs - {run})],
         s.stats.(free := s.stats.free + delta, used := s.stats.used - delta),
         s.live - {p})
  }

  ghost predicate CanExpand(s: Book, v: Piece)
  {
    && v.runs == {Run(0, v.meta)} && PieceOk(v)
    && (forall i :: 0 <= i < |s.pieces| ==> Disjoint(v, s.pieces[i]))
  }

  ghost predicate CanTake(s: Book, i: nat, run: Run, p: nat)
  {
    && i < |s.pieces| && s.pieces[i].blockSize > 0 && run.start < run.end <= s.pieces[i].memSize / s.pieces[i].blockSize
    && Inside(s.pieces[i], run, p)
    && (forall other :: other in s.pieces[i].runs ==> other.end <= run.start || run.end <= other.start)
  }

  lemma {:induction false} ExpandKeepsInv(s: Book, v: Piece)
    requires Inv(s) && CanExpand(s, v)
    ensures Inv(Expanded(s, v))
  {
    hide Share, Inside, Inv;
    assert PiecesOk(s.pieces) && LiveOk(s) && s.stats == Total(s.pieces) by { hide PiecesOk, LiveOk; InvParts(s); }
    var r := Expanded(s, v);
    assert r.pieces[1..] == s.pieces;
    ExpandKeepsPieces(s.pieces, v);
    ExpandKeepsLive(s, v);
    hide PiecesOk, LiveOk;
    InvFrom(r);
  }

  lemma {:induction false} InvParts(s: Book)
    requires Inv(s)
    ensures PiecesOk(s.pieces) && LiveOk(s) && s.stats == Total(s.pieces)
  {
    hide PiecesOk, LiveOk;
  }

  lemma {:induction false} InvFrom(s: Book)
    requires PiecesOk(s.pieces) && LiveOk(s) && s.stats == Total(s.pieces)
    ensures Inv(s)
  {
    hide PiecesOk, LiveOk;
  }

  lemma {:induction false} ExpandKeepsPieces(pieces: seq<Piece>, v: Piece)
    requires PiecesOk(pieces) && PieceOk(v) && forall i :: 0 <= i < |pieces| ==> Disjoint(v, pieces[i])
    ensures PiecesOk([v] + pieces)
  {
    hide PieceOk;
    var r := [v] + pieces;
    forall i, j | 0 <= i < j < |r|
      ensures Disjoint(r[i], r[j])
    {
      assert r[j] == pieces[j - 1];
    }
  }

  lemma {:induction false} ExpandKeepsLive(s: Book, v: Piece)
    requires LiveOk(s) && v.runs == {Run(0, v.meta)}
    ensures LiveOk(Expanded(s, v))
  {
    hide Share, Inside;
    var r := Expanded(s, v);
    forall p | p in r.live
      ensures Handed(r, p)
    {
      assert Handed(s, p);
      var i :| HasRun(s.pieces, i, s.live[p]) && Inside(s.pieces[i], s.live[p].run, p);
      assert r.pieces[i + 1] == s.pieces[i];
      assert HasRun(r.pieces, i + 1, r.live[p]);
    }
    forall i, slot | HasRun(r.pieces, i, slot)
      ensures IsLive(r, slot)
    {
      assert i > 0 ==> r.pieces[i] == s.pieces[i - 1] && HasRun(s.pieces, i - 1, slot);
      assert IsLive(s, slot);
    }
  }

  /** A pointer into a run that is about to be taken is inside no run that is there. */
  lemma {:induction false} InsideNoOther(s: Book, i: nat, run: Run, p: nat, j: int, other: Run)
    requires PiecesOk(s.pieces) && CanTake(s, i, run, p) && 0 <= j < |s.pieces| && other in s.pieces[j].runs
    ensures !Inside(s.pieces[j], other, p)
  {
    assert PieceOk(s.pieces[i]) && PieceOk(s.pieces[j]);
    hide PieceOk;
    if Inside(s.pieces[j], other, p) {
      assert other.start < other.end <= s.pieces[j].memSize / s.pieces[j].blockSize by {
        RunInRange(s.pieces[j], other);
      }
      hide Inside;
      InsideMeans(s.pieces[i], run, p);
      InsideMeans(s.pieces[j], other, p);
      if i != j { PiecesApart(s.pieces, i, j); }
    }
  }

  lemma {:induction false} RunInRange(v: Piece, run: Run)
    requires PieceOk(v) && run in v.runs
    ensures v.blockSize > 0 && run.start < run.end <= v.memSize / v.blockSize
  {
  }

  /** No pointer is handed out twice. */
  lemma {:induction false} PointerIsNew(s: Book, i: nat, run: Run, p: nat)
    requires Inv(s) && CanTake(s, i, run, p)
    ensures p !in s.live && run !in s.pieces[i].runs && !IsLive(s, Slot(s.pieces[i].base, run))
  {
    hide PieceOk, PiecesOk, Total;
    if p in s.live {
      assert Handed(s, p);
      var j :| HasRun(s.pieces, j, s.live[p]) && Inside(s.pieces[j], s.live[p].run, p);
      InsideNoOther(s, i, run, p, j, s.live[p].run);
    }
    if IsLive(s, Slot(s.pieces[i].base, run)) {
      var q :| q in s.live && s.live[q] == Slot(s.pieces[i].base, run);
      assert Handed(s, q);
      var j :| HasRun(s.pieces, j, s.live[q]) && Inside(s.pieces[j], s.live[q].run, q);
      if i != j { PiecesApart(s.pieces, i, j); }
    }
  }

  lemma {:induction false} TakeKeepsPieces(s: Book, i: nat, run: Run, p: nat)
    requires PiecesOk(s.pieces) && CanTake(s, i, run, p)
    ensures PiecesOk(Taken(s, i, run, p).pieces)
  {
    var r := Taken(s, i, run, p);
    assert PieceOk(s.pieces[i]);
    assert PieceOk(r.pieces[i]);
    hide PieceOk, Inside;
    forall a, b | 0 <= a < b < |r.pieces|
      ensures Disjoint(r.pieces[a], r.pieces[b])
    {
      assert Disjoint(s.pieces[a], s.pieces[b]);
    }
  }

  lemma {:induction false} TakenHanded(s: Book, i: nat, run: Run, p: nat, q: nat)
    requires LiveOk(s) && CanTake(s, i, run, p) && run != Run(0, s.pieces[i].meta) && q in Taken(s, i, run, p).live
    ensures Handed(Taken(s, i, run, p), q)
  {
    hide Inside;
    var r := Taken(s, i, run, p);
    if q == p {
      assert Inside(r.pieces[i], run, p) by { SameInside(s.pieces[i], r.pieces[i], run, p); }
      assert HasRun(r.pieces, i, r.live[p]);
    } else {
      assert Handed(s, q);
      var j :| HasRun(s.pieces, j, s.live[q]) && Inside(s.pieces[j], s.live[q].run, q);
      SameInside(s.pieces[j], r.pieces[j], s.live[q].run, q);
      assert HasRun(r.pieces, j, r.live[q]);
    }
  }

  lemma {:induction false} SameInside(v: Piece, w: Piece, run: Run, p: nat)
    requires v.base == w.base && v.blockSize == w.blockSize
    ensures Inside(v, run, p) == Inside(w, run, p)
  {
  }

  lemma {:induction false} TakenLive(s: Book, i: nat, run: Run, p: nat, j: int, slot: Slot)
    requires LiveOk(s) && CanTake(s, i, run, p) && p !in s.live && HasRun(Taken(s, i, run, p).pieces, j, slot)
    ensures IsLive(Taken(s, i, run, p), slot)
  {
    hide Inside, Handed;
    var r := Taken(s, i, run, p);
    if slot == Slot(s.pieces[i].base, run) {
      assert r.live[p] == slot;
    } else {
      assert HasRun(s.pieces, j, slot);
      var q :| q in s.live && s.live[q] == slot;
      assert r.live[q] == slot;
    }
  }

  lemma {:induction false} TakeKeepsLive(s: Book, i: nat, run: Run, p: nat)
    requires LiveOk(s) && CanTake(s, i, run, p) && run != Run(0, s.pieces[i].meta)
    requires p !in s.live && !IsLive(s, Slot(s.pieces[i].base, run))
    ensures LiveOk(Taken(s, i, run, p))
  {
    assert i < |s.pieces| && run.start <= run.end;
    hide Inside, Handed, HasRun, CanTake;
    var r := Taken(s, i, run, p);
    forall q | q in r.live
      ensures Handed(r, q)
    {
      TakenHanded(s, i, run, p, q);
    }
    forall a, b | a in r.live && b in r.live && a != b
      ensures r.live[a] != r.live[b]
    {
      assert a != p ==> IsLive(s, r.live[a]);
      assert b != p ==> IsLive(s, r.live[b]);
    }
    forall j, slot | HasRun(r.pieces, j, slot)
      ensures IsLive(r, slot)
    {
      TakenLive(s, i, run, p, j, slot);
    }
  }

  /** Handing out a gap keeps the invariant and gives out a pointer that was not live. */
  lemma {:induction false} TakeKeepsInv(s: Book, i: nat, run: Run, p: nat)
    requires Inv(s) && CanTake(s, i, run, p)
    ensures p !in s.live && Inv(Taken(s, i, run, p))
  {
    PointerIsNew(s, i, run, p);
    assert run != Run(0, s.pieces[i].meta) by { assert PieceOk(s.pieces[i]); }
    hide PiecesOk, LiveOk, CanTake, PieceOk, IsLive, Share;
    TakeKeepsPieces(s, i, run, p);
    TakeKeepsLive(s, i, run, p);
    TakenTotal(s, i, run, p);
    InvFrom(Taken(s, i, run, p));
  }

  lemma {:induction false} TakenTotal(s: Book, i: nat, run: Run, p: nat)
    requires i < |s.pieces| && run.start <= run.end && s.stats == Total(s.pieces)
    ensures Taken(s, i, run, p).stats == Total(Taken(s, i, run, p).pieces)
  {
    hide Total;
    var v := s.pieces[i];
    TotalAfter(s.pieces, i, v.used + (run.end - run.start), v.runs + {run});
  }

  // ------------------------------------------------------------ freeing

  /** The pointer lies in heap block i, and there in a run. */
  ghost predicate CanRelease(s: Book, i: nat, run: Run, p: nat)
  {
    && p in s.live && i < |s.pieces| && s.pieces[i].base <= p < s.pieces[i].base + s.pieces[i].memSize
    && run in s.pieces[i].runs && s.pieces[i].blockSize > 0
    && run.start <= (p - s.pieces[i].base) / s.pieces[i].blockSize < run.end
    && run.end - run.start <= s.pieces[i].used
  }

  /** The run that a live pointer is found in is the run it was handed out for. */
  lemma {:induction false} FreeFindsRun(s: Book, i: nat, run: Run, p: nat)
    requires Inv(s) && CanRelease(s, i, run, p)
    ensures s.live[p] == Slot(s.pieces[i].base, run) && run != Run(0, s.pieces[i].meta) && run.start < run.end
  {
    hide PieceOk, PiecesOk, Inside, Total, CanRelease;
    assert p in s.live by { LivePointer(s, i, run, p); }
    assert Handed(s, p);
    var j :| HasRun(s.pieces, j, s.live[p]) && Inside(s.pieces[j], s.live[p].run, p);
    FreeFindsAt(s, i, run, p, j);
  }

  lemma {:induction false} LivePointer(s: Book, i: nat, run: Run, p: nat)
    requires CanRelease(s, i, run, p)
    ensures p in s.live
  {
  }

  lemma {:induction false} FreeFindsAt(s: Book, i: nat, run: Run, p: nat, j: int)
    requires PiecesOk(s.pieces) && CanRelease(s, i, run, p)
    requires HasRun(s.pieces, j, s.live[p]) && Inside(s.pieces[j], s.live[p].run, p)
    ensures s.live[p] == Slot(s.pieces[i].base, run) && run != Run(0, s.pieces[i].meta) && run.start < run.end
  {
    assert PieceOk(s.pieces[i]) && PieceOk(s.pieces[j]);
    hide PieceOk, Inside, PiecesOk;
    RunInRange(s.pieces[i], run);
    RunInRange(s.pieces[j], s.live[p].run);
    InsideMeans(s.pieces[j], s.live[p].run, p);
    if i != j { PiecesApart(s.pieces, i, j); }
    if run != s.live[p].run { RunsDisjoint(s.pieces[i], run, s.live[p].run); }
  }

  lemma {:induction false} RunsDisjoint(v: Piece, a: Run, b: Run)
    requires PieceOk(v) && a in v.runs && b in v.runs && a != b
    ensures a.end <= b.start || b.end <= a.start
  {
  }

  /** A slot that exists after the release is not the released one. */
  lemma {:induction false} ReleasedSlot(s: Book, i: nat, run: Run, p: nat, j: int, slot: Slot)
    requires PiecesOk(s.pieces) && i < |s.pieces| && run.start <= run.end && run.end - run.start <= s.pieces[i].used
    requires run in s.pieces[i].runs && run != Run(0, s.pieces[i].meta)
    ensures HasRun(Released(s, i, run, p).pieces, j, slot) <==>
              HasRun(s.pieces, j, slot) && slot != Slot(s.pieces[i].base, run)
  {
    hide PiecesOk;
    if 0 <= j < |s.pieces| && j != i { PiecesApart(s.pieces, i, j); }
  }

  lemma {:induction false} ReleasedHanded(s: Book, i: nat, run: Run, p: nat, q: nat)
    requires LiveOk(s) && PiecesOk(s.pieces) && CanRelease(s, i, run, p) && run.start < run.end
    requires s.live[p] == Slot(s.pieces[i].base, run) && run != Run(0, s.pieces[i].meta) && q in s.live && q != p
    ensures Handed(Released(s, i, run, p), q)
  {
    hide Inside, PiecesOk, IsLive;
    var r := Released(s, i, run, p);
    assert Handed(s, q);
    var j :| HasRun(s.pieces, j, s.live[q]) && Inside(s.pieces[j], s.live[q].run, q);
    hide HasRun;
    HasRunMeans(s.pieces, j, s.live[q]);
    ReleasedSlot(s, i, run, p, j, s.live[q]);
    SameInside(s.pieces[j], r.pieces[j], s.live[q].run, q);
    assert r.live[q] == s.live[q];
  }

  lemma {:induction false} ReleasedLive(s: Book, i: nat, run: Run, p: nat, j: int, slot: Slot)
    requires LiveOk(s) && PiecesOk(s.pieces) && CanRelease(s, i, run, p) && run.start < run.end
    requires s.live[p] == Slot(s.pieces[i].base, run) && run != Run(0, s.pieces[i].meta)
    requires HasRun(Released(s, i, run, p).pieces, j, slot)
    ensures IsLive(Released(s, i, run, p), slot)
  {
    hide Inside, HasRun, PiecesOk, Handed;
    ReleasedSlot(s, i, run, p, j, slot);
    assert IsLive(s, slot);
    var q :| q in s.live && s.live[q] == slot;
    assert q in Released(s, i, run, p).live;
  }

  lemma {:induction false} ReleaseKeepsLive(s: Book, i: nat, run: Run, p: nat)
    requires LiveOk(s) && PiecesOk(s.pieces) && CanRelease(s, i, run, p) && run.start < run.end
    requires s.live[p] == Slot(s.pieces[i].base, run) && run != Run(0, s.pieces[i].meta)
    ensures LiveOk(Released(s, i, run, p))
  {
    hide Inside, HasRun, PiecesOk, Handed, IsLive;
    var r := Released(s, i, run, p);
    forall q | q in r.live
      ensures Handed(r, q)
    {
      ReleasedHanded(s, i, run, p, q);
    }
    forall j, slot | HasRun(r.pieces, j, slot)
      ensures IsLive(r, slot)
    {
      ReleasedLive(s, i, run, p, j, slot);
    }
  }

  lemma {:induction false} HasRunMeans(pieces: seq<Piece>, j: int, slot: Slot)
    requires HasRun(pieces, j, slot)
    ensures 0 <= j < |pieces| && pieces[j].base == slot.base
  {
  }

  lemma {:induction false} ReleaseKeepsPieces(s: Book, i: nat, run: Run, p: nat)
    requires PiecesOk(s.pieces) && CanRelease(s, i, run, p) && run != Run(0, s.pieces[i].meta) && run.start < run.end
    ensures PiecesOk(Released(s, i, run, p).pieces)
  {
    var r := Released(s, i, run, p);
    assert PieceOk(s.pieces[i]);
    assert PieceOk(r.pieces[i]);
    hide PieceOk;
    forall a, b | 0 <= a < b < |r.pieces|
      ensures Disjoint(r.pieces[a], r.pieces[b])
    {
      assert Disjoint(s.pieces[a], s.pieces[b]);
    }
  }

  /** Freeing a live pointer removes exactly the run it was handed out for. */
  lemma {:induction false} ReleaseKeepsInv(s: Book, i: nat, run: Run, p: nat)
    requires Inv(s) && CanRelease(s, i, run, p)
    ensures s.live[p] == Slot(s.pieces[i].base, run) && run != Run(0, s.pieces[i].meta) && run.start < run.end
    ensures Inv(Released(s, i, run, p))
  {
    FreeFindsRun(s, i, run, p);
    hide PiecesOk, LiveOk, CanRelease, Share, Total;
    ReleaseKeepsPieces(s, i, run, p);
    ReleaseKeepsLive(s, i, run, p);
    ReleasedTotal(s, i, run, p);
    InvFrom(Released(s, i, run, p));
  }

  lemma {:induction false} ReleasedTotal(s: Book, i: nat, run: Run, p: nat)
    requires i < |s.pieces| && run.start <= run.end
    requires run.end - run.start <= s.pieces[i].used && s.stats == Total(s.pieces)
    ensures Released(s, i, run, p).stats == Total(Released(s, i, run, p).pieces)
  {
    hide Total;
    var v := s.pieces[i];
    TotalAfter(s.pieces, i, v.used - (run.end - run.start), v.runs - {run});
    assert (v.used - (run.end - run.start) - v.used) * v.blockSize == -((run.end - run.start) * v.blockSize);
  }

  // ------------------------------------------------------------ runs

  datatype Action = Expand(piece: Piece) | Take(i: nat, run: Run, p: nat) | Release(i: nat, run: Run, p: nat)

  ghost predicate Enabled(s: Book, a: Action)
  {
    match a
    case Expand(v) => CanExpand(s, v)
    case Take(i, run, p) => CanTake(s, i, run, p)
    case Release(i, run, p) => CanRelease(s, i, run, p) && run.start <= run.end
  }

  ghost function Next(s: Book, a: Action): Book
    requires Enabled(s, a)
  {
    match a
    case Expand(v) => Expanded(s, v)
    case Take(i, run, p) => Taken(s, i, run, p)
    case Release(i, run, p) => Released(s, i, run, p)
  }

  /** The states of a run, each got from the one before by an action. */
  ghost predicate IsHistory(states: seq<Book>, actions: seq<Action>)
  {
    && |states| == |actions| + 1
    && states[0] == Book([], Statistics(0, 0, 0, 0), map[])
    && forall i :: 0 <= i < |actions| ==> Enabled(states[i], actions[i]) && states[i + 1] == Next(states[i], actions[i])
  }

  /** Over any run of expansions, allocations and frees: runs are what is live, and the statistics add up. */
  lemma {:induction false} EveryHistory(states: seq<Book>, actions: seq<Action>, n: nat)
    requires IsHistory(states, actions) && n < |states|
    ensures Inv(states[n])
    ensures states[n].stats.size == states[n].stats.free + states[n].stats.used + states[n].stats.meta
  {
    if n > 0 {
      EveryHistory(states, actions, n - 1);
      assert Enabled(states[n - 1], actions[n - 1]) && states[n - 1 + 1] == Next(states[n - 1], actions[n - 1]);
      hide Inv, CanExpand, CanTake, CanRelease, Expanded, Taken, Released;
      match actions[n - 1] {
        case Expand(v) => ExpandKeepsInv(states[n - 1], v);
        case Take(i, run, p) => TakeKeepsInv(states[n - 1], i, run, p);
        case Release(i, run, p) => ReleaseKeepsInv(states[n - 1], i, run, p);
      }
    }
    InvBalances(states[n]);
  }

  lemma {:induction false} InvBalances(s: Book)
    requires Inv(s)
    ensures s.stats.size == s.stats.free + s.stats.used + s.stats.meta
  {
    hide Total, PiecesOk, LiveOk;
    Conservation(s.pieces);
  }
}
