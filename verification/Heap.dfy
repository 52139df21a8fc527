/**
 * The bitmap heap: a list of heap blocks with statistics over them.  `live` records, for
 * the proof only, which run each pointer was handed out for.
 */
module Heap {
  import opened Division
  import opened HeapIds
  import opened HeapRuns
  import opened HeapSearch
  import opened HeapChunk
  import opened HeapBook

  datatype Outcome = Pointer(p: nat) | Null | Hangs

  ghost function PieceOf(c: Chunk): Piece
    reads c
  {
    Piece(c.base, c.memSize, c.blockSize, c.meta, c.used, c.runs)
  }

  ghost predicate Separate(chunks: seq<Chunk>)
  {
    forall i, j :: 0 <= i < |chunks| && 0 <= j < |chunks| && i != j ==>
      chunks[i] != chunks[j] && chunks[i].bitmap != chunks[j].bitmap
  }

  ghost function Bitmaps(chunks: seq<Chunk>): set<object>
  {
    set c | c in chunks :: c.bitmap as object
  }

  /** The heap block has no room for the bytes asked for. */
  ghost predicate Full(c: Chunk, size: nat, align: nat)
    requires c.Valid() && size > 0 && align > 0
    reads c, c.bitmap
  {
    NoRoom(c.QueryOf(size, align), c.BlockIds(), 0, c.memSize / c.blockSize)
  }

  ghost predicate LastStillUsed(c: Chunk)
    requires c.Valid()
    reads c, c.bitmap
  {
    c.last > 0 && c.BlockIds()[c.last] != 0
  }

  /** `alloc` goes on to the next heap block. */
  ghost predicate PassedOver(c: Chunk, size: nat, align: nat)
    requires c.Valid() && size > 0 && align > 0
    reads c, c.bitmap
  {
    FindsNothing(c.QueryOf(size, align), c.BlockIds(), c.memSize)
  }

  /** `alloc` never leaves this heap block. */
  ghost predicate Stuck(c: Chunk, size: nat, align: nat)
    requires c.Valid() && size > 0 && align > 0
    reads c, c.bitmap
  {
    NeverEnds(c.QueryOf(size, align), c.BlockIds(), c.memSize)
  }

  class BitmapHeap {
    var chunks: seq<Chunk>
    var stats: Statistics
    ghost var live: map<nat, Slot>

    ghost function State(): Book
      reads this, chunks
    {
      Book(seq(|chunks|, i requires 0 <= i < |chunks| reads this, chunks => PieceOf(chunks[i])), stats, live)
    }

    ghost predicate AllValid()
      reads this, chunks, Bitmaps(chunks)
    {
      forall i :: 0 <= i < |chunks| ==> chunks[i].Valid()
    }

    ghost predicate Valid()
      reads this, chunks, Bitmaps(chunks)
    {
      AllValid() && Separate(chunks) && Inv(State())
    }

    constructor ()
      ensures Valid() && chunks == [] && live == map[]
    {
      chunks, stats, live := [], Statistics(0, 0, 0, 0), map[];
    }

    /** Adds a heap block in front; its memory must not overlap that of another one. */
    method Expand(address: nat, size: nat, blockSize: nat)
      requires Valid() && blockSize > 0 && size >= HEADER + blockSize
      requires forall i :: 0 <= i < |chunks| ==>
                address + size <= chunks[i].base || chunks[i].base + chunks[i].memSize <= address + HEADER
      modifies this
      ensures Valid() && |chunks| == old(|chunks|) + 1 && fresh(chunks[0]) && chunks[1..] == old(chunks)
      ensures var v := PieceOf(chunks[0]);
              && v.base == address + HEADER && v.memSize == size - HEADER && v.blockSize == blockSize
              && CanExpand(old(State()), v) && State() == Expanded(old(State()), v)
      // header and bitmap count as metadata, the rest is free
      ensures var meta := 20 + (((size - 20) / blockSize + 3) / 4 + blockSize - 1) / blockSize * blockSize;
              && stats.size == old(stats).size + size && stats.used == old(stats).used
              && stats.meta == old(stats).meta + meta && stats.free == old(stats).free + size - meta
    {
      hide Inv, Share, Chunk.Valid, CanExpand, CeilDiv, Add;
      ghost var before := State();
      ghost var olds := chunks;
      var c := new Chunk(address + HEADER, size - HEADER, blockSize);
      var metaSize := c.meta * blockSize + HEADER;
      chunks := [c] + chunks;
      stats := Statistics(stats.size + size, stats.free + (size - metaSize), stats.used, stats.meta + metaSize);
      MetaIs(size - HEADER, blockSize);
      FreshPiece(before, PieceOf(c));
      FreshShare(before.stats, PieceOf(c));
      assert State().pieces == [PieceOf(c)] + before.pieces;
      assert State() == Expanded(before, PieceOf(c));
      ExpandKeepsInv(before, PieceOf(c));
      assert forall i :: 0 <= i < |olds| ==> olds[i].Valid();
      assert forall i :: 0 < i < |chunks| ==> chunks[i] == olds[i - 1];
    }

    method Alloc(size: nat, align: nat) returns (r: Outcome)
      requires Valid() && size > 0 && align > 0
      modifies this, chunks, Bitmaps(chunks)
      ensures Valid() && chunks == old(chunks)
      // a pointer into a gap of some heap block, which is live from now on
      ensures r.Pointer? ==> exists i: nat, run: Run ::
                && CanTake(old(State()), i, run, r.p) && State() == Taken(old(State()), i, run, r.p)
                && r.p + size <= chunks[i].base + run.end * chunks[i].blockSize
      ensures r.Pointer? ==> r.p % align == 0
      // all the bytes asked for belong to the new pointer and to no other
      ensures r.Pointer? ==> TakenFromFree(old(stats), stats, size)
      ensures r.Pointer? ==> r.p !in old(live) && live.Keys == old(live).Keys + {r.p} && OwnsBytes(State(), r.p, size)
      ensures !r.Pointer? ==> State() == old(State())
      // the first heap block that is not passed over decides
      ensures r.Null? <==> old(forall i :: 0 <= i < |chunks| ==> PassedOver(chunks[i], size, align))
      ensures r.Hangs? <==>
                old(exists i ::
                      && 0 <= i < |chunks| && Stuck(chunks[i], size, align)
                      && forall j :: 0 <= j < i ==> PassedOver(chunks[j], size, align))
      // heap blocks whose last allocation is still in use are never passed over wrongly, and never stuck
      ensures r.Hangs? ==> exists i :: 0 <= i < |chunks| && !LastStillUsed(chunks[i])
      ensures r.Null? ==> forall i :: 0 <= i < |chunks| && LastStillUsed(chunks[i]) ==> Full(chunks[i], size, align)
    {
      hide Inv, Chunk.Valid, Chunk.BlockIds, CeilDiv, Stuck, PassedOver, Full, LastStillUsed, Taken, CanTake, OwnsBytes;
      ghost var before := State();
      forall j | 0 <= j < |chunks|
        ensures !(PassedOver(chunks[j], size, align) && Stuck(chunks[j], size, align))
      {
        NotBoth(chunks[j], size, align);
      }
      var i := 0;
      while i < |chunks|
        invariant 0 <= i <= |chunks| && chunks == old(chunks) && stats == before.stats && live == before.live
        invariant AllValid() && State() == before
        invariant forall j :: 0 <= j < i ==> old(PassedOver(chunks[j], size, align))
        invariant forall j :: 0 <= j < i && LastStillUsed(chunks[j]) ==> Full(chunks[j], size, align)
        invariant forall j :: i <= j < |chunks| ==>
                    && PassedOver(chunks[j], size, align) == old(PassedOver(chunks[j], size, align))
                    && Stuck(chunks[j], size, align) == old(Stuck(chunks[j], size, align))
      {
        var placement := AllocIn(i, size, align);
        if placement.Endless? {
          return Hangs;
        } else if placement.Placed? {
          return Pointer(placement.address);
        }
        i := i + 1;
      }
      return Null;
    }

    /** The search in heap block i and the statistics after it. */
    method AllocIn(i: nat, size: nat, align: nat) returns (r: Placement)
      requires Valid() && size > 0 && align > 0 && i < |chunks|
      modifies this`stats, this`live, chunks[i], chunks[i].bitmap
      ensures Valid()
      ensures r.Placed? ==>
                CanTake(old(State()), i, r.run, r.address) && State() == Taken(old(State()), i, r.run, r.address)
      ensures r.Placed? ==> r.address % align == 0
      ensures r.Placed? ==> r.address + size <= chunks[i].base + r.run.end * chunks[i].blockSize
      ensures r.Placed? ==> TakenFromFree(old(stats), stats, size)
      ensures r.Placed? ==>
                && r.address !in old(live) && live.Keys == old(live).Keys + {r.address}
                && OwnsBytes(State(), r.address, size)
      ensures !r.Placed? ==> State() == old(State())
      ensures r.Nothing? <==> old(PassedOver(chunks[i], size, align))
      ensures r.Endless? <==> old(Stuck(chunks[i], size, align))
      ensures r.Endless? ==> !LastStillUsed(chunks[i])
      ensures r.Nothing? && LastStillUsed(chunks[i]) ==> Full(chunks[i], size, align)
    {
      hide Inv, Chunk.Valid, CeilDiv, NoRoom, Taken, CanTake, FindsNothing, NeverEnds, OwnsBytes, TakenFromFree;
      ghost var before := State();
      var c := chunks[i];
      assert before.pieces[i] == PieceOf(c);
      r := c.Alloc(size, align);
      assert forall j :: 0 <= j < |chunks| && j != i ==>
             chunks[j] != c && chunks[j].bitmap != c.bitmap && chunks[j].Valid();
      if r.Placed? {
        var count := r.run.end - r.run.start;
        BytesFromFree(stats, r.run, c.base, c.blockSize, r.address, size);
        stats := stats.(free := stats.free - count * c.blockSize, used := stats.used + count * c.blockSize);
        live := live[r.address := Slot(c.base, r.run)];
        TakenIs(before, i, r.run, r.address, State());
        TakeKeepsInv(before, i, r.run, r.address);
        TakenOwns(State(), i, r.address, size);
      }
    }

    /** The pointer lies in the memory of heap block i. */
    ghost predicate InChunk(i: nat, p: nat)
      reads this
    {
      i < |chunks| && chunks[i].base <= p < chunks[i].base + chunks[i].memSize
    }

    ghost predicate Outside(p: nat)
      reads this
    {
      forall i: nat :: !InChunk(i, p)
    }

    /** The pointer lies in a block of heap block i that `alloc` can hand out. */
    ghost predicate InBlocks(i: nat, p: nat)
      reads this
    {
      && InChunk(i, p) && chunks[i].blockSize > 0
      && chunks[i].meta <= (p - chunks[i].base) / chunks[i].blockSize < chunks[i].memSize / chunks[i].blockSize
    }

    /** Every live pointer may be freed. */
    lemma {:induction false} LiveInBlocks(p: nat)
      requires Valid() && p in live
      ensures !Outside(p) && forall i: nat :: InChunk(i, p) ==> InBlocks(i, p)
    {
      hide Inv, Chunk.Valid, PointsInto;
      LiveIsOwn(State(), p);
      ghost var j := PointedChunk(State(), p, p);
      assert State().pieces[j] == PieceOf(chunks[j]);
      assert InChunk(j, p);
      forall i: nat | InChunk(i, p)
        ensures InBlocks(i, p)
      {
        assert State().pieces[i] == PieceOf(chunks[i]);
        PointedRun(State(), i, p, p);
        PastMeta(State(), i, live[p].run);
      }
    }

    /**
     * Frees the run a pointer points into; a pointer outside all heap blocks is ignored, and
     * one into a free block fails the assertion.
     */
    method Free(p: nat) returns (ok: bool, ghost owner: nat)
      requires Valid() && forall i: nat :: InChunk(i, p) ==> InBlocks(i, p)
      modifies this, chunks, Bitmaps(chunks)
      ensures Valid() && chunks == old(chunks)
      ensures ok <==> old(Outside(p)) || exists q :: PointsInto(old(State()), p, q)
      ensures !PointsInto(old(State()), p, owner) ==> State() == old(State())
      // exactly the run the pointer points into is cleared, and the pointer it was handed out as is live no more
      ensures (exists q :: PointsInto(old(State()), p, q)) ==> PointsInto(old(State()), p, owner) && exists i: nat ::
                var run := old(live)[owner].run;
                && CanRelease(old(State()), i, run, owner) && run.start <= run.end
                && State() == Released(old(State()), i, run, owner)
      ensures p in old(live) ==> owner == p && PointsInto(old(State()), p, p)
    {
      hide Inv, Chunk.Valid, PointsInto, CanRelease, Released;
      var i := FindChunk(p);
      if i < |chunks| {
        ok, owner := FreeIn(i, p);
      } else {
        OutsideIsNobodys(p);
        ok, owner := true, 0;
      }
    }

    lemma {:induction false} OutsideIsNobodys(p: nat)
      requires Valid() && Outside(p)
      ensures p !in live && forall q :: !PointsInto(State(), p, q)
    {
      hide Inv, Chunk.Valid;
      if p in live { LiveIsOwn(State(), p); }
      forall q
        ensures !PointsInto(State(), p, q)
      {
        if PointsInto(State(), p, q) {
          var i := PointedChunk(State(), p, q);
          assert State().pieces[i] == PieceOf(chunks[i]);
          ghost var inside := InChunk(i, p);
        }
      }
    }

    /** The heap block whose memory holds the address, or the length of the list. */
    method FindChunk(p: nat) returns (i: nat)
      requires Valid()
      ensures i <= |chunks| && (i < |chunks| ==> InChunk(i, p))
      ensures i == |chunks| <==> Outside(p)
    {
      hide Inv, Chunk.Valid;
      i := 0;
      while i < |chunks|
        invariant 0 <= i <= |chunks| && forall j: nat :: j < i ==> !InChunk(j, p)
      {
        if chunks[i].base <= p && p < chunks[i].base + chunks[i].memSize {
          return;
        }
        i := i + 1;
      }
    }

    method FreeIn(i: nat, p: nat) returns (ok: bool, ghost owner: nat)
      requires Valid() && InBlocks(i, p)
      modifies this`stats, this`live, chunks[i], chunks[i].bitmap
      ensures Valid()
      ensures ok <==> PointsInto(old(State()), p, owner)
      ensures !ok ==> State() == old(State()) && forall q :: !PointsInto(old(State()), p, q)
      ensures ok ==> var run := old(live)[owner].run;
              && CanRelease(old(State()), i, run, owner) && run.start <= run.end
              && State() == Released(old(State()), i, run, owner)
      ensures p in old(live) ==> owner == p && ok
    {
      hide Inv, Chunk.Valid, Released, CanRelease, RunsAre, PointsInto, Inside;
      ghost var before := State();
      var c := chunks[i];
      assert before.pieces[i] == PieceOf(c);
      InUse(c, before, i, p);
      if p in live { LiveIsOwn(before, p); }
      ghost var freed;
      var count;
      ok, freed, count := c.Free(p - c.base);
      assert forall j :: 0 <= j < |chunks| && j != i ==>
             chunks[j] != c && chunks[j].bitmap != c.bitmap && chunks[j].Valid();
      if !ok {
        owner := p;
        return;
      }
      owner := OwnerOf(before, i, freed);
      OwnerPointed(before, i, p, owner);
      stats := stats.(free := stats.free + count * c.blockSize, used := stats.used - count * c.blockSize);
      live := live - {owner};
      ReleasedIs(before, i, freed, owner, State());
      ReleaseKeepsInv(before, i, freed, owner);
    }

    /** The bytes behind a pointer, to the end of the run it points into; zero outside all heap blocks. */
    method Size(p: nat) returns (size: nat)
      requires Valid() && forall i: nat :: InChunk(i, p) ==> InBlocks(i, p)
      ensures Outside(p) ==> size == 0
      ensures forall q :: PointsInto(State(), p, q) ==> q in live && exists i: nat ::
                && InChunk(i, p) && live[q].base == chunks[i].base
                && size == chunks[i].base + live[q].run.end * chunks[i].blockSize - p
    {
      hide Inv, Chunk.Valid, RunsAre, PointsInto;
      var i := FindChunk(p);
      if i == |chunks| {
        OutsideIsNobodys(p);
        return 0;
      }
      var c := chunks[i];
      assert State().pieces[i] == PieceOf(c);
      ghost var end;
      size, end := c.Size(p - c.base);
      forall q | PointsInto(State(), p, q)
        ensures q in live && InChunk(i, p) && live[q].base == chunks[i].base
        ensures size == chunks[i].base + live[q].run.end * chunks[i].blockSize - p
      {
        PointedRun(State(), i, p, q);
      }
    }
  }

  lemma {:induction false} NotBoth(c: Chunk, size: nat, align: nat)
    requires c.Valid() && size > 0 && align > 0
    ensures !(PassedOver(c, size, align) && Stuck(c, size, align))
  {
  }

  lemma {:induction false} LiveIsOwn(s: Book, p: nat)
    requires Inv(s) && p in s.live
    ensures PointsInto(s, p, p)
  {
    hide Total, Inside, PieceOk;
    assert Handed(s, p);
  }

  /** At least that many bytes, the same number, have gone from free to used. */
  predicate TakenFromFree(before: Statistics, after: Statistics, size: nat)
  {
    && after.size == before.size && after.meta == before.meta
    && after.used - before.used == before.free - after.free >= size
  }

  lemma {:induction false} BytesFromFree(s: Statistics, run: Run, base: nat, blockSize: nat, p: nat, size: nat)
    requires run.start <= run.end && base + run.start * blockSize <= p && p + size <= base + run.end * blockSize
    ensures var count := run.end - run.start;
            TakenFromFree(s, s.(free := s.free - count * blockSize, used := s.used + count * blockSize), size)
  {
    assert (run.end - run.start) * blockSize == run.end * blockSize - run.start * blockSize;
  }

  lemma MetaIs(memSize: nat, blockSize: nat)
    requires blockSize > 0
    ensures CeilDiv(CeilDiv(memSize / blockSize, PER_BYTE), blockSize)
         == ((memSize / blockSize + 3) / 4 + blockSize - 1) / blockSize
  {
    hide CeilDiv;
    CeilIs(memSize / blockSize, 4);
    CeilIs((memSize / blockSize + 3) / 4, blockSize);
  }

  /** A byte belongs to at most one live pointer. */
  lemma {:induction false} OneOwner(s: Book, b: nat, p: nat, q: nat)
    requires Inv(s) && PointsInto(s, b, p) && PointsInto(s, b, q)
    ensures p == q
  {
    hide Inv, PointsInto;
    var i := PointedChunk(s, b, p);
    PointedRun(s, i, b, q);
    SameRun(s, i, s.live[p].run, s.live[q].run, (b - s.pieces[i].base) / s.pieces[i].blockSize);
    OneSlotEach(s, p, q);
  }

  /** A live pointer with that many bytes up to the end of its run owns all of them. */
  lemma {:induction false} TakenOwns(s: Book, i: nat, p: nat, size: nat)
    requires Inv(s) && p in s.live && i < |s.pieces| && s.live[p].base == s.pieces[i].base
    requires p + size <= s.pieces[i].base + s.live[p].run.end * s.pieces[i].blockSize
    ensures OwnsBytes(s, p, size)
  {
    hide Inv, PointsInto;
    forall b | p <= b < p + size
      ensures OnlyOwner(s, b, p)
    {
      BytePointed(s, i, p, size, b);
      forall q | PointsInto(s, b, q)
        ensures q == p
      {
        OneOwner(s, b, p, q);
      }
    }
  }

  lemma {:induction false} BytePointed(s: Book, i: nat, p: nat, size: nat, b: nat)
    requires Inv(s) && p in s.live && i < |s.pieces| && s.live[p].base == s.pieces[i].base
    requires p <= b < p + size <= s.pieces[i].base + s.live[p].run.end * s.pieces[i].blockSize
    ensures PointsInto(s, b, p)
  {
    hide Total, PieceOk, PiecesOk;
    assert Handed(s, p);
    var j :| HasRun(s.pieces, j, s.live[p]) && Inside(s.pieces[j], s.live[p].run, p);
    if i != j { PiecesApart(s.pieces, i, j); }
  }

  lemma {:induction false} PointedChunk(s: Book, p: nat, q: nat) returns (i: nat)
    requires Inv(s) && PointsInto(s, p, q)
    ensures i < |s.pieces| && s.pieces[i].base <= p < s.pieces[i].base + s.pieces[i].memSize
    ensures q in s.live && HasRun(s.pieces, i, s.live[q]) && s.pieces[i].blockSize > 0
    ensures s.live[q].run.start <= (p - s.pieces[i].base) / s.pieces[i].blockSize < s.live[q].run.end
    ensures s.live[q].run.end <= s.pieces[i].memSize / s.pieces[i].blockSize
  {
    hide Total, Inside, PieceOk, LiveOk;
    var j :| HasRun(s.pieces, j, s.live[q]) && Inside(s.pieces[j], s.live[q].run, p);
    assert PieceOk(s.pieces[j]);
    RunInRange(s.pieces[j], s.live[q].run);
    InsideMeans(s.pieces[j], s.live[q].run, p);
    i := j;
  }

  /** A pointer found in heap block i that points into a run points into a run of heap block i. */
  lemma {:induction false} PointedRun(s: Book, i: nat, p: nat, q: nat)
    requires Inv(s) && PointsInto(s, p, q) && i < |s.pieces|
    requires s.pieces[i].base <= p < s.pieces[i].base + s.pieces[i].memSize
    ensures q in s.live && HasRun(s.pieces, i, s.live[q]) && s.pieces[i].blockSize > 0
    ensures s.live[q].run.start <= (p - s.pieces[i].base) / s.pieces[i].blockSize < s.live[q].run.end
    ensures s.live[q].run.end <= s.pieces[i].memSize / s.pieces[i].blockSize
  {
    hide Total, PointsInto, PieceOk, LiveOk;
    var j := PointedChunk(s, p, q);
    if i != j { PiecesApart(s.pieces, i, j); }
  }

  lemma {:induction false} PastMeta(s: Book, i: nat, run: Run)
    requires Inv(s) && i < |s.pieces| && run in s.pieces[i].runs && run != Run(0, s.pieces[i].meta)
    ensures s.pieces[i].meta <= run.start
  {
    hide Total, LiveOk;
    assert PieceOk(s.pieces[i]);
  }

  /** Every run but the bitmap's own was handed out, as a pointer into it. */
  lemma {:induction false} OwnerOf(s: Book, i: nat, run: Run) returns (owner: nat)
    requires Inv(s) && i < |s.pieces| && HasRun(s.pieces, i, Slot(s.pieces[i].base, run))
    ensures owner in s.live && s.live[owner] == Slot(s.pieces[i].base, run)
    ensures s.pieces[i].blockSize > 0 && s.pieces[i].base <= owner < s.pieces[i].base + s.pieces[i].memSize
    ensures run.start <= (owner - s.pieces[i].base) / s.pieces[i].blockSize < run.end
    ensures run.end <= s.pieces[i].memSize / s.pieces[i].blockSize
  {
    hide Total, PieceOk, PiecesOk, Inside, PointsInto;
    assert IsLive(s, Slot(s.pieces[i].base, run));
    owner :| owner in s.live && s.live[owner] == Slot(s.pieces[i].base, run);
    LiveIsOwn(s, owner);
    var j := PointedChunk(s, owner, owner);
    if i != j { PiecesApart(s.pieces, i, j); }
  }

  /** The owner of the run around p is what p points into, and is p itself if p is live. */
  lemma {:induction false} OwnerPointed(s: Book, i: nat, p: nat, owner: nat)
    requires Inv(s) && i < |s.pieces| && s.pieces[i].base <= p && owner in s.live && HasRun(s.pieces, i, s.live[owner])
    requires s.pieces[i].blockSize > 0
    requires s.live[owner].run.start <= (p - s.pieces[i].base) / s.pieces[i].blockSize < s.live[owner].run.end
    ensures PointsInto(s, p, owner) && (p in s.live ==> p == owner)
  {
    hide Total, PieceOk, Inside, PiecesOk, LiveOk;
    var v, run := s.pieces[i], s.live[owner].run;
    PieceAt(s.pieces, i);
    RunInRange(v, run);
    InsideMeans(v, run, p);
    if p in s.live {
      LiveIsOwn(s, p);
      PointedRun(s, i, p, p);
      SameRun(s, i, run, s.live[p].run, (p - v.base) / v.blockSize);
      OneSlotEach(s, p, owner);
    }
  }

  lemma {:induction false} PieceAt(pieces: seq<Piece>, i: nat)
    requires PiecesOk(pieces) && i < |pieces|
    ensures PieceOk(pieces[i])
  {
  }

  lemma {:induction false} OneSlotEach(s: Book, p: nat, q: nat)
    requires Inv(s) && p in s.live && q in s.live && s.live[p] == s.live[q]
    ensures p == q
  {
    hide Total, PieceOk, Inside, PiecesOk, Handed, IsLive;
  }

  /** A block of the heap block is in use exactly when it lies in a run that was handed out or in the bitmap's. */
  lemma {:induction false} InUse(c: Chunk, s: Book, i: nat, p: nat)
    requires c.Valid() && Inv(s) && i < |s.pieces| && s.pieces[i] == PieceOf(c)
    requires c.base <= p < c.base + c.memSize && c.meta <= (p - c.base) / c.blockSize < c.memSize / c.blockSize
    ensures forall q :: PointsInto(s, p, q) ==> c.BlockIds()[(p - c.base) / c.blockSize] != 0
    ensures forall run :: run in c.runs && run.start <= (p - c.base) / c.blockSize < run.end ==>
              HasRun(s.pieces, i, Slot(c.base, run))
  {
    hide Inv, PointsInto, RunsAre, Used, Ids;
    assert Run(0, c.meta).start == 0 && Run(0, c.meta).end == c.meta;
    forall q | PointsInto(s, p, q)
      ensures c.BlockIds()[(p - c.base) / c.blockSize] != 0
    {
      PointedRun(s, i, p, q);
      InUseBlock(c, s.live[q].run, p - c.base);
    }
  }

  lemma {:induction false} InUseBlock(c: Chunk, run: Run, offset: nat)
    requires c.Valid() && run in c.runs && run.start <= offset / c.blockSize < run.end <= c.memSize / c.blockSize
    ensures c.BlockIds()[offset / c.blockSize] != 0
  {
    assert IsRun(c.BlockIds(), run.start, run.end);
  }

  lemma {:induction false} SameRun(s: Book, i: nat, a: Run, b: Run, block: nat)
    requires Inv(s) && i < |s.pieces| && a in s.pieces[i].runs && b in s.pieces[i].runs
    requires a.start <= block < a.end && b.start <= block < b.end
    ensures a == b
  {
    hide Total, LiveOk;
    assert PieceOk(s.pieces[i]);
  }

  lemma {:induction false} ReleasedIs(s: Book, i: nat, run: Run, p: nat, r: Book)
    requires p in s.live && i < |s.pieces| && |r.pieces| == |s.pieces| && s.pieces[i].blockSize > 0
    requires s.pieces[i].base <= p < s.pieces[i].base + s.pieces[i].memSize && run in s.pieces[i].runs
    requires run.start <= (p - s.pieces[i].base) / s.pieces[i].blockSize < run.end
    requires run.end - run.start <= s.pieces[i].used
    requires var v := s.pieces[i];
             r.pieces[i] == v.(used := v.used - (run.end - run.start), runs := v.runs - {run})
    requires forall j :: 0 <= j < |s.pieces| && j != i ==> r.pieces[j] == s.pieces[j]
    requires var delta := (run.end - run.start) * s.pieces[i].blockSize;
             r.stats == s.stats.(free := s.stats.free + delta, used := s.stats.used - delta)
    requires r.live == s.live - {p}
    ensures CanRelease(s, i, run, p) && r == Released(s, i, run, p)
  {
    assert r.pieces == Released(s, i, run, p).pieces;
  }

  lemma {:induction false} TakenIs(s: Book, i: nat, run: Run, p: nat, r: Book)
    requires i < |s.pieces| && |r.pieces| == |s.pieces| && s.pieces[i].blockSize > 0
    requires run.start < run.end <= s.pieces[i].memSize / s.pieces[i].blockSize && Inside(s.pieces[i], run, p)
    requires forall other :: other in s.pieces[i].runs ==> other.end <= run.start || run.end <= other.start
    requires var v := s.pieces[i];
             r.pieces[i] == v.(used := v.used + (run.end - run.start), runs := v.runs + {run})
    requires forall j :: 0 <= j < |s.pieces| && j != i ==> r.pieces[j] == s.pieces[j]
    requires var delta := (run.end - run.start) * s.pieces[i].blockSize;
             r.stats == s.stats.(free := s.stats.free - delta, used := s.stats.used + delta)
    requires r.live == s.live[p := Slot(s.pieces[i].base, run)]
    ensures CanTake(s, i, run, p) && r == Taken(s, i, run, p)
  {
    hide Inside;
    assert r.pieces == Taken(s, i, run, p).pieces;
  }


  lemma {:induction false} FreshShare(s: Statistics, v: Piece)
    requires v.used == v.meta
    ensures var metaSize := v.meta * v.blockSize + HEADER;
            var size := v.memSize + HEADER;
            Add(s, Share(v)) == Statistics(s.size + size, s.free + (size - metaSize), s.used, s.meta + metaSize)
  {
  }

  lemma {:induction false} FreshPiece(s: Book, v: Piece)
    requires 0 < v.blockSize <= v.memSize && v.runs == {Run(0, v.meta)}
    requires v.meta == CeilDiv(CeilDiv(v.memSize / v.blockSize, HeapIds.PER_BYTE), v.blockSize)
    requires forall i :: 0 <= i < |s.pieces| ==> Disjoint(v, s.pieces[i])
    ensures CanExpand(s, v)
  {
    MetadataFits(v.memSize / v.blockSize, v.blockSize);
  }
}
