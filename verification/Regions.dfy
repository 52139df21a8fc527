/**
 * The user half of the virtual region map: a tree of regions ordered by address.  The tree is
 * an `Avl` of addresses with the region of each beside it; what the map means is the list of
 * its regions in order.
 */
module Regions {
  import AvlShape
  import AvlStore
  import AvlTree
  import opened Basics

  const PAGE := 0x1000
  const HALF := 0xC000_0000      // first kernel address
  const WORD_RANGE := 0x1_0000_0000

  datatype Region = Region(address: nat, size: nat)
  datatype Piece = Piece(address: nat, size: nat, mapped: bool)

  function End(r: Region): nat { r.address + r.size }

  /** Regions in ascending order, none empty, none overlapping, all from `lo` up to the kernel half. */
  predicate Sorted(regions: seq<Region>, lo: nat)
  {
    if |regions| == 0 then lo <= HALF
    else lo <= regions[0].address && regions[0].size > 0 && Sorted(regions[1..], End(regions[0]))
  }

  lemma {:induction false} SortedMeans(regions: seq<Region>, lo: nat)
    requires Sorted(regions, lo)
    ensures lo <= HALF
    ensures forall i :: 0 <= i < |regions| ==>
              lo <= regions[i].address && regions[i].size > 0 && End(regions[i]) <= HALF
    ensures forall i, j :: 0 <= i < j < |regions| ==> End(regions[i]) <= regions[j].address
  {
    if |regions| > 0 {
      SortedMeans(regions[1..], End(regions[0]));
      forall i | 0 < i < |regions|
        ensures regions[i] == regions[1..][i - 1]
      {
      }
    }
  }

  // ------------------------------------------------------------ traversal

  /** What `traverse_all` reports from address `lo` on: gaps and regions in turn, then the rest. */
  function Pieces(regions: seq<Region>, lo: nat): seq<Piece>
    requires Sorted(regions, lo)
  {
    if |regions| == 0 then [Piece(lo, HALF - lo, false)]
    else
      var r := regions[0];
      (if lo != r.address then [Piece(lo, r.address - lo, false)] else [])
      + [Piece(r.address, r.size, true)] + Pieces(regions[1..], End(r))
  }

  /** Each piece starts where the one before ends, from `lo` to `hi`. */
  predicate Tiles(pieces: seq<Piece>, lo: nat, hi: nat)
  {
    if |pieces| == 0 then lo == hi
    else pieces[0].address == lo && Tiles(pieces[1..], lo + pieces[0].size, hi)
  }

  /** The reported pieces tile the user half. */
  lemma {:induction false} PiecesTile(regions: seq<Region>, lo: nat)
    requires Sorted(regions, lo)
    ensures Tiles(Pieces(regions, lo), lo, HALF)
  {
    var all := Pieces(regions, lo);
    if |regions| > 0 {
      var r := regions[0];
      var rest := Pieces(regions[1..], End(r));
      PiecesTile(regions[1..], End(r));
      if lo != r.address {
        assert all[1..][1..] == rest;
      } else {
        assert all[1..] == rest;
      }
    } else {
      assert Tiles(all[1..], HALF, HALF);
    }
  }

  predicate Covers(p: Piece, x: nat) { p.address <= x < p.address + p.size }

  /** In a tiling every address lies in exactly one piece. */
  lemma {:induction false} TilesPartition(pieces: seq<Piece>, lo: nat, hi: nat, x: nat)
    requires Tiles(pieces, lo, hi)
    ensures lo <= hi
    ensures lo <= x < hi <==> exists i :: 0 <= i < |pieces| && Covers(pieces[i], x)
    ensures forall i, j :: 0 <= i < j < |pieces| ==> !(Covers(pieces[i], x) && Covers(pieces[j], x))
    ensures forall i :: 0 <= i < |pieces| ==> lo <= pieces[i].address
  {
    if |pieces| > 0 {
      var rest := pieces[1..];
      TilesPartition(rest, lo + pieces[0].size, hi, x);
      forall i | 0 < i < |pieces|
        ensures pieces[i] == rest[i - 1]
      {
      }
      if lo <= x < hi {
        if Covers(pieces[0], x) {
        } else {
          var i :| 0 <= i < |rest| && Covers(rest[i], x);
          assert Covers(pieces[i + 1], x);
        }
      }
      if i :| 0 <= i < |pieces| && Covers(pieces[i], x) {
        if i > 0 { assert Covers(rest[i - 1], x); }
      }
    }
  }

  function Mapped(pieces: seq<Piece>): seq<Region>
  {
    if |pieces| == 0 then []
    else (if pieces[0].mapped then [Region(pieces[0].address, pieces[0].size)] else []) + Mapped(pieces[1..])
  }

  /** The mapped pieces are the regions, in order. */
  lemma {:induction false} PiecesShowRegions(regions: seq<Region>, lo: nat)
    requires Sorted(regions, lo)
    ensures Mapped(Pieces(regions, lo)) == regions
  {
    var all := Pieces(regions, lo);
    if |regions| > 0 {
      var r := regions[0];
      var rest := Pieces(regions[1..], End(r));
      PiecesShowRegions(regions[1..], End(r));
      if lo != r.address {
        assert all[1..][1..] == rest;
      } else {
        assert all[1..] == rest;
      }
    } else {
      assert all[1..] == [];
    }
  }

  // ------------------------------------------------------------ best fit

  predicate FreeFor(p: Piece, size: nat) { !p.mapped && p.size >= size }

  /** The smallest fitting gap, the first of several equally small ones. */
  ghost predicate IsBestFit(pieces: seq<Piece>, size: nat, best: Option<Region>)
  {
    match best
    case None => forall i :: 0 <= i < |pieces| ==> !FreeFor(pieces[i], size)
    case Some(r) =>
      exists k :: 0 <= k < |pieces| && FreeFor(pieces[k], size) && r == Region(pieces[k].address, pieces[k].size) &&
        forall i :: 0 <= i < |pieces| && FreeFor(pieces[i], size) ==>
          r.size < pieces[i].size || (r.size == pieces[i].size && k <= i)
  }

  /** One callback of `find_free_region`. */
  function Better(best: Option<Region>, p: Piece, size: nat): Option<Region>
  {
    if FreeFor(p, size) && (best.None? || p.size < best.value.size) then Some(Region(p.address, p.size)) else best
  }

  lemma {:induction false} BestFitStep(pieces: seq<Piece>, size: nat, best: Option<Region>, p: Piece)
    requires IsBestFit(pieces, size, best)
    ensures IsBestFit(pieces + [p], size, Better(best, p, size))
  {
    var more := pieces + [p];
    var next := Better(best, p, size);
    if next.None? {
    } else if next == best {
      var k :| 0 <= k < |pieces| && FreeFor(pieces[k], size) &&
               best.value == Region(pieces[k].address, pieces[k].size) &&
               forall i :: 0 <= i < |pieces| && FreeFor(pieces[i], size) ==>
                 best.value.size < pieces[i].size || (best.value.size == pieces[i].size && k <= i);
      assert more[k] == pieces[k];
    } else {
      assert more[|pieces|] == p;
    }
  }

  /** A gap of exactly the wanted size cannot be bettered. */
  lemma {:induction false} ExactFitStays(pieces: seq<Piece>, size: nat, best: Option<Region>, more: seq<Piece>)
    requires IsBestFit(pieces, size, best) && best.Some? && best.value.size == size
    ensures IsBestFit(pieces + more, size, best)
    decreases |more|
  {
    if |more| == 0 {
      assert pieces + more == pieces;
    } else {
      BestFitStep(pieces, size, best, more[0]);
      ExactFitStays(pieces + [more[0]], size, best, more[1..]);
      assert pieces + [more[0]] + more[1..] == pieces + more;
    }
  }

  lemma {:induction false} RegionPassed(seen: seq<Piece>, size: nat, best: Option<Region>, here: Piece,
                                        rest: seq<Piece>, all: seq<Piece>)
    requires IsBestFit(seen, size, best) && here.mapped && seen + ([here] + rest) == all
    ensures IsBestFit(seen + [here], size, best) && seen + [here] + rest == all
  {
    hide IsBestFit;
    BestFitStep(seen, size, best, here);
    assert seen + [here] + rest == seen + ([here] + rest);
  }

  lemma {:induction false} LastPiece(regions: seq<Region>, lo: nat)
    requires |regions| == 0 && Sorted(regions, lo)
    ensures lo <= HALF && Pieces(regions, lo) == [Piece(lo, HALF - lo, false)]
  {
  }

  lemma {:induction false} PiecesStep(regions: seq<Region>, lo: nat, seen: seq<Piece>, all: seq<Piece>)
    requires |regions| > 0 && Sorted(regions, lo) && seen + Pieces(regions, lo) == all
    ensures var r := regions[0];
            var here := Piece(r.address, r.size, true);
            var rest := Pieces(regions[1..], End(r));
            && lo <= r.address && Sorted(regions[1..], End(r))
            && (lo == r.address ==> seen + ([here] + rest) == all)
            && (lo != r.address ==> seen + [Piece(lo, r.address - lo, false)] + ([here] + rest) == all)
  {
  }

  // ------------------------------------------------------------ gaps without the traversal

  /** No region has an address from a to e. */
  ghost predicate Clear(regions: seq<Region>, a: nat, e: nat)
  {
    forall r :: r in regions ==> e <= r.address || r.address + r.size <= a
  }

  /** A stretch of free addresses from `lo` on that ends at regions or at the ends of the user half. */
  ghost predicate GapFrom(regions: seq<Region>, lo: nat, a: nat, e: nat)
  {
    && lo <= a < e <= 0xC000_0000 && Clear(regions, a, e)
    && (a == lo || exists r :: r in regions && r.address + r.size == a)
    && (e == 0xC000_0000 || exists r :: r in regions && r.address == e)
  }

  ghost predicate IsGap(regions: seq<Region>, a: nat, e: nat)
  {
    GapFrom(regions, 0, a, e)
  }

  lemma {:induction false} SortedFirst(regions: seq<Region>, lo: nat)
    requires Sorted(regions, lo) && |regions| > 0
    ensures lo <= regions[0].address < End(regions[0]) <= HALF && Sorted(regions[1..], End(regions[0]))
    ensures forall r :: r in regions <==> r == regions[0] || r in regions[1..]
    ensures forall r :: r in regions[1..] ==> End(regions[0]) <= r.address < End(r) <= HALF
  {
    SortedMeans(regions, lo);
    forall r | r in regions[1..]
      ensures End(regions[0]) <= r.address < End(r) <= HALF
    {
      var i :| 0 <= i < |regions[1..]| && regions[1..][i] == r;
      assert regions[i + 1] == r;
    }
  }

  /** What begins before the first region ends there; the other gaps are those of the rest. */
  lemma {:induction false} GapStep(regions: seq<Region>, lo: nat, a: nat, e: nat)
    requires Sorted(regions, lo) && |regions| > 0
    ensures GapFrom(regions, lo, a, e) <==>
              (lo == a < e == regions[0].address) || GapFrom(regions[1..], End(regions[0]), a, e)
  {
    hide Sorted;
    SortedFirst(regions, lo);
    var first := regions[0];
    if GapFrom(regions[1..], End(first), a, e) {
      assert first in regions;
    }
  }

  /** The unmapped pieces of the traversal are the gaps. */
  lemma {:induction false} PiecesAreGaps(regions: seq<Region>, lo: nat, a: nat, e: nat)
    requires Sorted(regions, lo)
    ensures a < e && Piece(a, e - a, false) in Pieces(regions, lo) <==> GapFrom(regions, lo, a, e)
    decreases |regions|
  {
    if |regions| > 0 {
      GapStep(regions, lo, a, e);
      PiecesAreGaps(regions[1..], End(regions[0]), a, e);
      hide GapFrom;
    }
  }

  /** Every free stretch lies in a gap. */
  lemma {:induction false} FreeLiesInGap(regions: seq<Region>, lo: nat, a: nat, e: nat) returns (from: nat, to: nat)
    requires Sorted(regions, lo) && lo <= a < e <= HALF && Clear(regions, a, e)
    ensures GapFrom(regions, lo, from, to) && from <= a && e <= to
    decreases |regions|
  {
    if |regions| == 0 {
      from, to := lo, HALF;
    } else {
      SortedFirst(regions, lo);
      assert regions[0] in regions;
      if e <= regions[0].address {
        from, to := lo, regions[0].address;
      } else {
        from, to := FreeLiesInGap(regions[1..], End(regions[0]), a, e);
      }
      GapStep(regions, lo, from, to);
    }
  }

  lemma {:induction false} TilesAscend(pieces: seq<Piece>, lo: nat, hi: nat, i: nat, j: nat)
    requires Tiles(pieces, lo, hi) && i <= j < |pieces|
    ensures lo <= pieces[i].address <= pieces[j].address
    decreases |pieces|
  {
    if i > 0 {
      TilesAscend(pieces[1..], lo + pieces[0].size, hi, i - 1, j - 1);
    } else if j > 0 {
      TilesAscend(pieces[1..], lo + pieces[0].size, hi, j - 1, j - 1);
    }
  }

  /** The gap from a to e has room, no other with room is smaller, and none as small comes before it. */
  ghost predicate BestGap(regions: seq<Region>, size: nat, a: nat, e: nat)
  {
    && IsGap(regions, a, e) && size <= e - a
    && forall b: nat, f: nat :: IsGap(regions, b, f) && size <= f - b ==> e - a < f - b || (e - a == f - b && a <= b)
  }

  lemma {:induction false} BestFitIsBestGap(regions: seq<Region>, size: nat, gap: Region)
    requires Sorted(regions, 0) && size > 0 && IsBestFit(Pieces(regions, 0), size, Some(gap))
    ensures BestGap(regions, size, gap.address, End(gap))
  {
    hide Pieces, Sorted, GapFrom, Tiles;
    var all := Pieces(regions, 0);
    var k :| 0 <= k < |all| && FreeFor(all[k], size) && gap == Region(all[k].address, all[k].size) &&
             forall i :: 0 <= i < |all| && FreeFor(all[i], size) ==>
               gap.size < all[i].size || (gap.size == all[i].size && k <= i);
    PiecesAreGaps(regions, 0, gap.address, End(gap));
    assert all[k] == Piece(gap.address, gap.size, false);
    PiecesTile(regions, 0);
    forall b: nat, f: nat | IsGap(regions, b, f) && size <= f - b
      ensures gap.size < f - b || (gap.size == f - b && gap.address <= b)
    {
      PiecesAreGaps(regions, 0, b, f);
      var i :| 0 <= i < |all| && all[i] == Piece(b, f - b, false);
      if k <= i { TilesAscend(all, 0, HALF, k, i); }
    }
  }

  lemma {:induction false} NoFitIsNoRoom(regions: seq<Region>, size: nat, a: nat, e: nat)
    requires Sorted(regions, 0) && size > 0 && IsBestFit(Pieces(regions, 0), size, None)
    requires a <= e <= HALF && size <= e - a
    ensures !Clear(regions, a, e)
  {
    hide Pieces, Sorted, GapFrom, Clear;
    if Clear(regions, a, e) {
      var from, to := FreeLiesInGap(regions, 0, a, e);
      PiecesAreGaps(regions, 0, from, to);
    }
  }

  // ------------------------------------------------------------ changes

  function Insert(regions: seq<Region>, r: Region): seq<Region>
  {
    if |regions| == 0 || r.address < regions[0].address then [r] + regions
    else [regions[0]] + Insert(regions[1..], r)
  }

  /** Mapping inside a gap keeps regions ordered and apart. */
  lemma {:induction false} InsertKeepsSorted(regions: seq<Region>, lo: nat, k: nat, r: Region)
    requires Sorted(regions, lo) && k < |Pieces(regions, lo)| && FreeFor(Pieces(regions, lo)[k], r.size)
    requires r.size > 0 && r.address == Pieces(regions, lo)[k].address
    ensures Sorted(Insert(regions, r), lo)
    ensures forall x :: x in Insert(regions, r) <==> x in regions || x == r
    decreases |regions|
  {
    var all := Pieces(regions, lo);
    if |regions| == 0 {
      assert Insert(regions, r) == [r];
    } else {
      var first := regions[0];
      var before := if lo != first.address then 2 else 1;
      var rest := Pieces(regions[1..], End(first));
      assert all[before..] == rest;
      if k < before {
        assert Insert(regions, r)[1..] == regions;
      } else {
        assert all[k] == rest[k - before];
        PieceAddress(regions[1..], End(first), k - before);
        InsertKeepsSorted(regions[1..], End(first), k - before, r);
        assert Insert(regions, r)[1..] == Insert(regions[1..], r);
      }
    }
  }

  lemma {:induction false} PieceAddress(regions: seq<Region>, lo: nat, k: nat)
    requires Sorted(regions, lo) && k < |Pieces(regions, lo)|
    ensures lo <= Pieces(regions, lo)[k].address
  {
    PiecesTile(regions, lo);
    TilesPartition(Pieces(regions, lo), lo, HALF, 0);
  }

  function Remove(regions: seq<Region>, address: nat): seq<Region>
  {
    if |regions| == 0 then []
    else if regions[0].address == address then regions[1..]
    else [regions[0]] + Remove(regions[1..], address)
  }

  /** Unmapping removes the region with that address and no other. */
  lemma {:induction false} RemoveKeepsSorted(regions: seq<Region>, lo: nat, address: nat)
    requires Sorted(regions, lo)
    ensures Sorted(Remove(regions, address), lo)
    ensures forall x :: x in Remove(regions, address) <==> x in regions && x.address != address
    decreases |regions|
  {
    if |regions| > 0 {
      RemoveKeepsSorted(regions[1..], End(regions[0]), address);
      SortedMeans(regions[1..], End(regions[0]));
      if regions[0].address == address {
        SortedLower(regions[1..], lo, End(regions[0]));
        assert forall x :: x in regions[1..] ==> x.address != address;
      } else {
        assert Remove(regions, address)[1..] == Remove(regions[1..], address);
      }
    }
  }

  lemma {:induction false} SortedLower(regions: seq<Region>, lo: nat, hi: nat)
    requires Sorted(regions, hi) && lo <= hi
    ensures Sorted(regions, lo)
  {
    if |regions| == 0 {}
  }

  /** Mapping and then unmapping a new address gives the old map back. */
  lemma {:induction false} RemoveUndoesInsert(regions: seq<Region>, r: Region)
    requires forall x :: x in regions ==> x.address != r.address
    ensures Remove(Insert(regions, r), r.address) == regions
  {
    if |regions| > 0 && regions[0].address < r.address {
      RemoveUndoesInsert(regions[1..], r);
      assert Insert(regions, r)[1..] == Insert(regions[1..], r);
    } else {
      assert ([r] + regions)[1..] == regions;
    }
  }

  // ------------------------------------------------------------ lookup

  /** The comparator of `find_region`. */
  function Compare(r: Region, x: nat): int
  {
    if r.address <= x < End(r) then 0 else if r.address < x then -1 else 1
  }

  /** On a sorted map the comparator rises from -1 through at most one 0 to 1, as the tree search needs. */
  lemma {:induction false} CompareIsMonotone(regions: seq<Region>, lo: nat, x: nat, i: nat, j: nat)
    requires Sorted(regions, lo) && i < j < |regions|
    ensures Compare(regions[j], x) <= 0 ==> Compare(regions[i], x) < 0
    ensures Compare(regions[i], x) >= 0 ==> Compare(regions[j], x) > 0
  {
    SortedMeans(regions, lo);
  }

  lemma {:induction false} InOrderCompare(regions: seq<Region>, a: Region, b: Region, x: nat)
    requires Sorted(regions, 0) && a in regions && b in regions && a.address < b.address
    ensures Compare(b, x) <= 0 ==> Compare(a, x) < 0
    ensures Compare(a, x) >= 0 ==> Compare(b, x) > 0
  {
    SortedMeans(regions, 0);
    var i :| 0 <= i < |regions| && regions[i] == a;
    var j :| 0 <= j < |regions| && regions[j] == b;
    CompareIsMonotone(regions, 0, x, i, j);
  }

  /**
   * Every user address lies in exactly one reported piece, and that piece is mapped exactly
   * when the comparator of `find_region` finds a region for the address.
   */
  lemma {:induction false} UserHalfPartition(regions: seq<Region>, x: nat)
    requires Sorted(regions, 0) && x < HALF
    ensures exists k :: 0 <= k < |Pieces(regions, 0)| && Covers(Pieces(regions, 0)[k], x)
    ensures forall i, j :: 0 <= i < j < |Pieces(regions, 0)| ==>
              !(Covers(Pieces(regions, 0)[i], x) && Covers(Pieces(regions, 0)[j], x))
    ensures forall k :: 0 <= k < |Pieces(regions, 0)| && Covers(Pieces(regions, 0)[k], x) ==>
              (Pieces(regions, 0)[k].mapped <==> exists i :: 0 <= i < |regions| && Compare(regions[i], x) == 0)
  {
    var all := Pieces(regions, 0);
    PiecesTile(regions, 0);
    PiecesShowRegions(regions, 0);
    TilesPartition(all, 0, HALF, x);
    hide Pieces, Tiles;
    forall k | 0 <= k < |all| && Covers(all[k], x)
      ensures all[k].mapped <==> exists i :: 0 <= i < |regions| && Compare(regions[i], x) == 0
    {
      if all[k].mapped {
        var i := MappedFrom(all, k);
        assert Compare(regions[i], x) == 0;
      }
      if i :| 0 <= i < |regions| && Compare(regions[i], x) == 0 {
        var j := MappedAt(all, regions[i]);
        assert Covers(all[j], x);
      }
    }
  }

  lemma {:induction false} MappedFrom(pieces: seq<Piece>, k: nat) returns (i: nat)
    requires k < |pieces| && pieces[k].mapped
    ensures i < |Mapped(pieces)| && Mapped(pieces)[i] == Region(pieces[k].address, pieces[k].size)
  {
    if k == 0 {
      i := 0;
    } else {
      var j := MappedFrom(pieces[1..], k - 1);
      i := if pieces[0].mapped then j + 1 else j;
    }
  }

  // ------------------------------------------------------------ the map

  function RoundUp(size: nat): nat
  {
    (size + PAGE - 1) % WORD_RANGE / PAGE * PAGE
  }

  // ------------------------------------------------------------ the tree and its list

  /** The regions of a list of addresses. */
  function ListOf(keys: seq<int>, table: map<int, Region>): seq<Region>
    requires forall i :: 0 <= i < |keys| ==> keys[i] in table
  {
    seq(|keys|, i requires 0 <= i < |keys| => table[keys[i]])
  }

  function Addresses(regions: seq<Region>): seq<int>
  {
    seq(|regions|, i requires 0 <= i < |regions| => regions[i].address)
  }

  lemma {:induction false} AddressIn(regions: seq<Region>, x: Region)
    requires x in regions
    ensures x.address in Addresses(regions)
  {
    var i :| 0 <= i < |regions| && regions[i] == x;
    assert Addresses(regions)[i] == x.address;
  }

  lemma {:induction false} AddressesAscend(regions: seq<Region>)
    requires Sorted(regions, 0)
    ensures AvlShape.Ascending(Addresses(regions))
  {
    SortedMeans(regions, 0);
  }

  /** A tree whose keys are the addresses of a sorted list holds that list. */
  lemma {:induction false} ListDetermined(keys: seq<int>, table: map<int, Region>, regions: seq<Region>)
    requires AvlShape.Ascending(keys) && Sorted(regions, 0)
    requires forall k :: k in keys <==> k in table
    requires forall x :: x in regions ==> x.address in table && table[x.address] == x
    requires forall k :: k in table ==> table[k] in regions && table[k].address == k
    ensures (forall i :: 0 <= i < |keys| ==> keys[i] in table) && ListOf(keys, table) == regions
  {
    hide Sorted;
    forall k
      ensures k in Addresses(regions) <==> k in keys
    {
      if k in table { AddressIn(regions, table[k]); }
      if k in Addresses(regions) {
        var i :| 0 <= i < |regions| && Addresses(regions)[i] == k;
        assert regions[i] in regions;
      }
    }
    AddressesAscend(regions);
    AvlShape.SameKeys(Addresses(regions), keys);
    forall i | 0 <= i < |regions|
      ensures table[keys[i]] == regions[i]
    {
      assert regions[i] in regions && keys[i] == regions[i].address;
    }
  }

  // ------------------------------------------------------------ the traversal of the tree

  /** The state of `find_free_region` during the traversal: where the last region ends, and the best gap so far. */
  datatype Cursor = Cursor(last: nat, best: Option<Region>)

  predicate Exact(best: Option<Region>, size: nat) { best.Some? && best.value.size == size }

  /** The callback for one region; the gap before it is looked at first, and an exact fit stops. */
  function Visit(c: Cursor, r: Region, size: nat): (Cursor, bool)
  {
    if c.last == r.address then (Cursor(End(r), c.best), true)
    else
      var best := Better(c.best, Piece(c.last, (r.address - c.last) % WORD_RANGE, false), size);
      (Cursor(End(r), best), !Exact(best, size))
  }

  function VisitKey(table: map<int, Region>, c: Cursor, k: int, size: nat): (Cursor, bool)
  {
    if k in table then Visit(c, table[k], size) else (c, true)
  }

  function Callback(table: map<int, Region>, size: nat): (Cursor, int) -> (Cursor, bool)
  {
    (c: Cursor, k: int) => VisitKey(table, c, k, size)
  }

  /** The best gap after the traversal; the one behind the last region comes last. */
  function Finished(c: Cursor, goes: bool, size: nat): Option<Region>
  {
    if goes && c.last <= HALF then Better(c.best, Piece(c.last, HALF - c.last, false), size) else c.best
  }

  lemma {:induction false} VisitStep(c: Cursor, regions: seq<Region>, size: nat, seen: seq<Piece>, all: seq<Piece>)
    returns (more: seq<Piece>)
    requires |regions| > 0 && Sorted(regions, c.last) && seen + Pieces(regions, c.last) == all
    requires IsBestFit(seen, size, c.best) && !Exact(c.best, size)
    ensures var (next, goes) := Visit(c, regions[0], size);
            && next.last == End(regions[0]) && goes == !Exact(next.best, size)
            && (if goes then IsBestFit(more, size, next.best) else IsBestFit(all, size, next.best))
            && more + Pieces(regions[1..], End(regions[0])) == all && Sorted(regions[1..], End(regions[0]))
  {
    SortedMeans(regions, c.last);
    hide IsBestFit, Better, Pieces, Sorted;
    var r := regions[0];
    PiecesStep(regions, c.last, seen, all);
    var here, rest := Piece(r.address, r.size, true), Pieces(regions[1..], End(r));
    var before, best := seen, c.best;
    if c.last != r.address {
      var gap := Piece(c.last, r.address - c.last, false);
      BestFitStep(seen, size, c.best, gap);
      before, best := seen + [gap], Better(c.best, gap, size);
      if Exact(best, size) { ExactFitStays(before, size, best, [here] + rest); }
    }
    RegionPassed(before, size, best, here, rest, all);
    more := before + [here];
  }

  /** Folding the callback over the keys of a tree finds the smallest fitting gap. */
  lemma {:induction false} FoldFindsBest(table: map<int, Region>, keys: seq<int>, c: Cursor, size: nat,
                                         seen: seq<Piece>,
                                         all: seq<Piece>)
    requires forall i :: 0 <= i < |keys| ==> keys[i] in table
    requires Sorted(ListOf(keys, table), c.last) && seen + Pieces(ListOf(keys, table), c.last) == all
    requires IsBestFit(seen, size, c.best) && !Exact(c.best, size)
    ensures var (end, goes) := AvlTree.Fold(Callback(table, size), c, keys);
            IsBestFit(all, size, Finished(end, goes, size))
    decreases |keys|
  {
    hide IsBestFit, Better, Pieces, Sorted, Visit;
    var regions := ListOf(keys, table);
    if |keys| == 0 {
      LastPiece(regions, c.last);
      BestFitStep(seen, size, c.best, Piece(c.last, HALF - c.last, false));
    } else {
      AvlTree.FoldStep(Callback(table, size), c, keys);
      assert Callback(table, size)(c, keys[0]) == Visit(c, regions[0], size);
      var more := VisitStep(c, regions, size, seen, all);
      assert regions[1..] == ListOf(keys[1..], table);
      var step := Visit(c, regions[0], size);
      if step.1 {
        FoldFindsBest(table, keys[1..], step.0, size, more, all);
      }
    }
  }

  datatype Outcome = Placed(region: Region) | OutOfAddresses | Refused

  class RegionMap {
    const tree: AvlTree.Avl
    var table: map<int, Region>

    /** The tree holds the addresses of the table. */
    ghost predicate Stored()
      reads this, tree
    {
      && tree.Valid() && (forall k :: k in AvlShape.InOrder(tree.shape) <==> k in table)
      && forall k :: k in table ==> table[k].address == k
    }

    /** The regions in order. */
    ghost function List(): seq<Region>
      requires Stored()
      reads this, tree
    {
      var keys := AvlShape.InOrder(tree.shape);
      assert forall i :: 0 <= i < |keys| ==> keys[i] in keys;
      ListOf(keys, table)
    }

    ghost predicate Valid()
      reads this, tree
    {
      Stored() && Sorted(List(), 0)
    }

    lemma {:induction false} Listed(x: Region)
      requires Stored()
      ensures x in List() <==> x.address in table && table[x.address] == x
    {
      var keys := AvlShape.InOrder(tree.shape);
      if x in List() {
        var i :| 0 <= i < |keys| && List()[i] == x;
        assert keys[i] in keys;
      }
      if x.address in table && table[x.address] == x {
        var i :| 0 <= i < |keys| && keys[i] == x.address;
        assert List()[i] == x;
      }
    }

    /** The table holds exactly these regions, each under its address, and the tree holds their addresses. */
    ghost predicate Holds(regions: seq<Region>)
      reads this, tree
    {
      && tree.Valid() && (forall k :: k in table <==> k in tree.Keys())
      && (forall x :: x in regions <==> x.address in table && table[x.address] == x)
      && (forall k :: k in table ==> table[k].address == k && table[k] in regions)
    }

    lemma {:induction false} HoldsList()
      requires Valid()
      ensures Stored() && Holds(List()) && Sorted(List(), 0)
    {
      hide Sorted, ListOf;
      forall x: Region
        ensures x in List() <==> x.address in table && table[x.address] == x
      {
        Listed(x);
      }
      forall k | k in table
        ensures table[k] in List()
      {
        Listed(table[k]);
      }
    }

    lemma {:induction false} ListIs(regions: seq<Region>)
      requires Holds(regions) && Sorted(regions, 0)
      ensures Valid() && List() == regions
    {
      hide Sorted;
      var keys := AvlShape.InOrder(tree.shape);
      assert forall k :: k in keys <==> k in tree.Keys();
      ListDetermined(keys, table, regions);
    }

    constructor ()
      ensures Valid() && fresh(tree) && List() == []
    {
      tree := new AvlTree.Avl();
      table := map[];
      new;
      ListIs([]);
    }

    /** `find_free_region`: the traversal of the tree, then the gap behind the last region. */
    method FindFreeRegion(size: nat) returns (best: Option<Region>)
      requires Valid() && size > 0
      ensures IsBestFit(Pieces(List(), 0), size, best)
    {
      var t := table;
      var end, goes := tree.Traverse(Cursor(0, None), Callback(t, size));
      assert [] + Pieces(List(), 0) == Pieces(List(), 0);
      FoldFindsBest(t, AvlShape.InOrder(tree.shape), Cursor(0, None), size, [], Pieces(List(), 0));
      best := Finished(end, goes, size);
    }

    /** `find_region`: the tree search with the comparator. */
    method FindRegion(x: nat) returns (r: Option<Region>)
      requires Valid()
      ensures r.Some? <==> exists i :: 0 <= i < |List()| && Compare(List()[i], x) == 0
      ensures r.Some? ==> r.value in List() && r.value.address <= x < r.value.address + r.value.size
      ensures r.Some? <==> exists q :: q in List() && q.address <= x < q.address + q.size
    {
      hide Sorted, ListOf, AvlTree.Avl.Valid, AvlShape.InOrder;
      var t := table;
      var comparator := (k: int) => if k in t then Compare(t[k], x) else 1;
      HoldsList();
      forall a, b | a in tree.Keys() && b in tree.Keys() && a < b
        ensures (comparator(b) <= 0 ==> comparator(a) < 0) && (comparator(a) >= 0 ==> comparator(b) > 0)
      {
        InOrderCompare(List(), t[a], t[b], x);
      }
      var found := tree.FindNodeBy(comparator);
      forall i | 0 <= i < |List()| && Compare(List()[i], x) == 0
        ensures List()[i].address in tree.Keys() && comparator(List()[i].address) == 0
      {
        assert List()[i] in List();
      }
      if found == AvlStore.NULL {
        return None;
      }
      r := Some(t[tree.cells[found].value]);
      assert r.value in List();
    }

    /** `allocate_region` in the user half: the start of the smallest gap that fits; `id` is the new node. */
    method AllocateRegion(wanted: nat, id: AvlStore.Ref) returns (r: Outcome)
      requires Valid() && wanted < WORD_RANGE && id !in tree.cells && id != AvlStore.NULL
      modifies this, tree
      ensures Valid()
      ensures r.Refused? <==> RoundUp(wanted) == 0
      ensures r.Placed? ==>
                && r.region.size == RoundUp(wanted) && r.region !in old(List())
                && List() == Insert(old(List()), r.region)
                && (forall x :: x in List() <==> x in old(List()) || x == r.region)
                && exists gap ::
                     IsBestFit(Pieces(old(List()), 0), r.region.size, Some(gap)) && gap.address == r.region.address
      ensures r.OutOfAddresses? ==> IsBestFit(Pieces(old(List()), 0), RoundUp(wanted), None)
      ensures !r.Placed? ==> List() == old(List())
      // whole pages, at least as many bytes as wanted, at the start of the best gap
      ensures r.Refused? <==> wanted == 0 || wanted > 0xFFFF_F000
      ensures r.Placed? ==> r.region.size % 4096 == 0 && wanted <= r.region.size < wanted + 4096
      ensures r.Placed? ==> exists e :: BestGap(old(List()), r.region.size, r.region.address, e)
      // it fails only if no free stretch is long enough
      ensures r.OutOfAddresses? ==>
                forall a, e :: 0 <= a <= e <= 0xC000_0000 && wanted <= e - a && (e - a) % 4096 == 0 ==>
                  !Clear(old(List()), a, e)
    {
      hide RoundUp;
      hide BestGap, Clear, Sorted, IsBestFit, Pieces, Insert;
      var size := RoundUp(wanted);
      RoundUpMeans(wanted);
      if size == 0 {
        return Refused;
      }
      var gap := FindFreeRegion(size);
      if gap.None? {
        NothingLongEnough(List(), wanted, size);
        return OutOfAddresses;
      }
      BestFitIsBestGap(List(), size, gap.value);
      var region := Region(gap.value.address, size);
      GapFits(List(), size, gap.value);
      Map(region, id);
      return Placed(region);
    }

    /** `map` of a region at the start of a gap. */
    method Map(region: Region, id: AvlStore.Ref)
      requires Valid() && id !in tree.cells && id != AvlStore.NULL && Fits(List(), region)
      modifies this, tree
      ensures Valid() && List() == Insert(old(List()), region) && region !in old(List())
      ensures forall x :: x in List() <==> x in old(List()) || x == region
    {
      hide *;
      HoldsList();
      ghost var before := List();
      FitsMeans(before, region);
      HoldsMeans(before);
      forall k | k in table
        ensures k != region.address
      {
        assert table[k] in before;
      }
      tree.Insert(region.address, id);
      table := table[region.address := region];
      HoldsFrom(Insert(before, region));
      ListIs(Insert(before, region));
    }

    lemma {:induction false} HoldsMeans(regions: seq<Region>)
      requires Holds(regions)
      ensures tree.Valid() && (forall k :: k in table <==> k in tree.Keys())
      ensures forall x :: x in regions <==> x.address in table && table[x.address] == x
      ensures forall k :: k in table ==> table[k].address == k && table[k] in regions
    {
    }

    lemma {:induction false} HoldsFrom(regions: seq<Region>)
      requires tree.Valid() && (forall k :: k in table <==> k in tree.Keys())
      requires forall x :: x in regions <==> x.address in table && table[x.address] == x
      requires forall k :: k in table ==> table[k].address == k && table[k] in regions
      ensures Holds(regions)
    {
    }

    /** `unmap`, as far as the tree is concerned. */
    method Unmap(region: Region) returns (r: AvlTree.RemoveResult)
      requires Valid()
      modifies this, tree
      ensures Valid()
      ensures r.Removed? ==> List() == Remove(old(List()), region.address)
      ensures r.Removed? ==> forall x :: x in List() <==> x in old(List()) && x.address != region.address
      ensures !r.Removed? ==> List() == old(List())
      ensures r.NotFound? <==> forall x :: x in old(List()) ==> x.address != region.address
      // the region at a root with two children cannot be removed
      ensures r.NullParent? <==>
                var root := old(tree.shape);
                root.Branch? && root.n.value == region.address && root.l.Branch? && root.r.Branch?
    {
      hide *;
      HoldsList();
      ghost var before := List();
      RemoveKeepsSorted(before, 0, region.address);
      HoldsMeans(before);
      assert region.address in table ==> table[region.address] in before;
      r := tree.Remove(region.address);
      if r.Removed? {
        table := table - {region.address};
        HoldsFrom(Remove(before, region.address));
        ListIs(Remove(before, region.address));
      } else {
        HoldsFrom(before);
        ListIs(before);
      }
    }
  }

  lemma RoundUpMeans(wanted: nat)
    requires wanted < WORD_RANGE
    ensures RoundUp(wanted) == 0 <==> wanted == 0 || wanted > 0xFFFF_F000
    ensures RoundUp(wanted) > 0 ==> RoundUp(wanted) % 4096 == 0 && wanted <= RoundUp(wanted) < wanted + 4096
  {
  }

  lemma {:induction false} NothingLongEnough(regions: seq<Region>, wanted: nat, size: nat)
    requires Sorted(regions, 0) && size > 0 && IsBestFit(Pieces(regions, 0), size, None)
    requires size % 4096 == 0 && wanted <= size < wanted + 4096
    ensures forall a, e :: 0 <= a <= e <= 0xC000_0000 && wanted <= e - a && (e - a) % 4096 == 0 ==>
                             !Clear(regions, a, e)
  {
    hide Clear, Sorted, IsBestFit, Pieces;
    forall a: nat, e: nat | a <= e <= 0xC000_0000 && wanted <= e - a && (e - a) % 4096 == 0
      ensures !Clear(regions, a, e)
    {
      PageMultiples(size, e - a, wanted);
      NoFitIsNoRoom(regions, size, a, e);
    }
  }

  lemma PageMultiples(size: nat, length: nat, wanted: nat)
    requires size % 4096 == 0 && length % 4096 == 0 && size < wanted + 4096 && wanted <= length
    ensures size <= length
  {
  }

  /** The region starts where a gap does and is no longer. */
  ghost predicate Fits(regions: seq<Region>, r: Region)
    requires Sorted(regions, 0)
  {
    && r.size > 0
    && exists k ::
      && 0 <= k < |Pieces(regions, 0)|
      && FreeFor(Pieces(regions, 0)[k], r.size) && r.address == Pieces(regions, 0)[k].address
  }

  lemma {:induction false} FitsMeans(regions: seq<Region>, r: Region)
    requires Sorted(regions, 0) && Fits(regions, r)
    ensures Sorted(Insert(regions, r), 0) && (forall x :: x in Insert(regions, r) <==> x in regions || x == r)
    ensures forall x :: x in regions ==> x.address != r.address
  {
    var k :| 0 <= k < |Pieces(regions, 0)| &&
             FreeFor(Pieces(regions, 0)[k], r.size) && r.address == Pieces(regions, 0)[k].address;
    InsertKeepsSorted(regions, 0, k, r);
    GapIsFree(regions, k);
  }

  lemma {:induction false} GapFits(regions: seq<Region>, size: nat, gap: Region)
    requires Sorted(regions, 0) && size > 0 && IsBestFit(Pieces(regions, 0), size, Some(gap))
    ensures Fits(regions, Region(gap.address, size))
  {
  }

  /** No region starts where a gap does. */
  lemma {:induction false} GapIsFree(regions: seq<Region>, k: nat)
    requires Sorted(regions, 0) && k < |Pieces(regions, 0)|
    requires !Pieces(regions, 0)[k].mapped && Pieces(regions, 0)[k].size > 0
    ensures forall x :: x in regions ==> x.address != Pieces(regions, 0)[k].address
  {
    var all := Pieces(regions, 0);
    PiecesTile(regions, 0);
    PiecesShowRegions(regions, 0);
    TilesPartition(all, 0, HALF, all[k].address);
    SortedMeans(regions, 0);
    assert Covers(all[k], all[k].address);
    forall x | x in regions
      ensures x.address != all[k].address
    {
      var j := MappedAt(all, x);
      assert Covers(all[j], x.address);
    }
  }

  lemma {:induction false} MappedAt(pieces: seq<Piece>, x: Region) returns (j: nat)
    requires x in Mapped(pieces)
    ensures j < |pieces| && pieces[j] == Piece(x.address, x.size, true)
  {
    if pieces[0].mapped && x == Region(pieces[0].address, pieces[0].size) {
      j := 0;
    } else {
      var i := MappedAt(pieces[1..], x);
      j := i + 1;
    }
  }
}
