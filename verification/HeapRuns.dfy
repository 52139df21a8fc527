/**
 * Runs of equal ids.  The heap keeps no lengths: an allocation is a maximal run of one
 * non-zero id, so everything rests on neighbouring allocations having different ids.
 */
module HeapRuns {
  import opened HeapIds

  datatype Run = Run(start: nat, end: nat)

  function Paint(ids: seq<Id>, a: nat, b: nat, id: Id): (r: seq<Id>)
    ensures |r| == |ids|
    ensures forall i :: 0 <= i < |ids| ==> r[i] == if a <= i < b then id else ids[i]
  {
    seq(|ids|, i requires 0 <= i < |ids| => if a <= i < b then id else ids[i])
  }

  ghost predicate Uniform(ids: seq<Id>, a: nat, b: nat, id: Id)
  {
    b <= |ids| && forall i :: a <= i < b ==> ids[i] == id
  }

  /** Blocks a to b are one maximal run of a non-zero id. */
  ghost predicate IsRun(ids: seq<Id>, a: nat, b: nat)
  {
    && a < b <= |ids| && ids[a] != 0 && Uniform(ids, a, b, ids[a])
    && (a > 0 ==> ids[a - 1] != ids[a])
    && (b < |ids| ==> ids[b] != ids[a])
  }

  /** The maximal runs are exactly `live`. */
  ghost predicate RunsAre(ids: seq<Id>, live: set<Run>)
  {
    forall a, b :: IsRun(ids, a, b) <==> Run(a, b) in live
  }

  /** Two runs that share a block are the same run. */
  lemma {:induction false} RunsApart(ids: seq<Id>, a: nat, b: nat, x: nat, y: nat, k: nat)
    requires IsRun(ids, a, b) && IsRun(ids, x, y) && a <= k < b && x <= k < y
    ensures a == x && b == y
  {
    assert ids[k] == ids[a] == ids[x];
  }

  lemma {:induction false} NotFree(ids: seq<Id>, a: nat, b: nat, x: nat, y: nat)
    requires a < b && Uniform(ids, a, b, 0) && x < b && a < y
    ensures !IsRun(ids, x, y)
  {
    var k := if a <= x then x else a;
    assert a <= k < b ==> ids[k] == 0;
  }

  ghost predicate NewRun(ids: seq<Id>, a: nat, b: nat, id: Id)
  {
    && a < b && Uniform(ids, a, b, 0) && id != 0
    && (a > 0 ==> ids[a - 1] != id)
    && (b < |ids| ==> ids[b] != id)
  }

  lemma {:induction false} PaintedRun(ids: seq<Id>, a: nat, b: nat, id: Id, x: nat, y: nat)
    requires NewRun(ids, a, b, id)
    ensures IsRun(Paint(ids, a, b, id), x, y) <==> IsRun(ids, x, y) || (x == a && y == b)
  {
    var after := Paint(ids, a, b, id);
    assert IsRun(after, a, b);
    if IsRun(after, x, y) {
      if x < b && a < y {
        var k := if a <= x then x else a;
        RunsApart(after, a, b, x, y, k);
      } else {
        OutsideSame(ids, after, a, b, x, y);
      }
    }
    if IsRun(ids, x, y) {
      if x < b && a < y {
        NotFree(ids, a, b, x, y);
      } else {
        OutsideSame(ids, after, a, b, x, y);
      }
    }
  }

  /** Away from [a, b), where ids are zero before or after, runs are unaffected. */
  lemma {:induction false} OutsideSame(ids: seq<Id>, after: seq<Id>, a: nat, b: nat, x: nat, y: nat)
    requires |ids| == |after| && a < b <= |ids| && (y <= a || b <= x)
    requires forall i :: 0 <= i < |ids| && !(a <= i < b) ==> after[i] == ids[i]
    requires a > 0 ==> ids[a - 1] == 0 || (ids[a - 1] != ids[a] && ids[a - 1] != after[a])
    requires b < |ids| ==> ids[b] == 0 || (ids[b] != ids[b - 1] && ids[b] != after[b - 1])
    ensures IsRun(ids, x, y) == IsRun(after, x, y)
  {
    if x < y <= |ids| {
      assert Uniform(ids, x, y, ids[x]) == Uniform(after, x, y, ids[x]) by {
        assert forall i :: x <= i < y ==> after[i] == ids[i];
      }
    }
  }

  /** Allocating adds one run and changes no other. */
  lemma {:induction false} AllocationAddsRun(ids: seq<Id>, live: set<Run>, a: nat, b: nat, id: Id)
    requires RunsAre(ids, live) && NewRun(ids, a, b, id)
    ensures RunsAre(Paint(ids, a, b, id), live + {Run(a, b)})
    ensures forall run :: run in live ==> run.end <= a || b <= run.start
  {
    forall x, y
      ensures IsRun(Paint(ids, a, b, id), x, y) <==> Run(x, y) in live + {Run(a, b)}
    {
      PaintedRun(ids, a, b, id, x, y);
    }
    forall run | run in live
      ensures run.end <= a || b <= run.start
    {
      assert IsRun(ids, run.start, run.end);
      if run.start < b && a < run.end { NotFree(ids, a, b, run.start, run.end); }
    }
  }

  lemma {:induction false} ClearedRun(ids: seq<Id>, a: nat, b: nat, x: nat, y: nat)
    requires IsRun(ids, a, b)
    ensures IsRun(Paint(ids, a, b, 0), x, y) <==> IsRun(ids, x, y) && !(x == a && y == b)
  {
    var after := Paint(ids, a, b, 0);
    if x < b && a < y && x < y <= |ids| {
      var k := if a <= x then x else a;
      if IsRun(after, x, y) { NotFree(after, a, b, x, y); }
      if IsRun(ids, x, y) { RunsApart(ids, a, b, x, y, k); }
      if x == a && y == b { assert after[a] == 0; }
    } else if x < y <= |ids| {
      OutsideSame(ids, after, a, b, x, y);
    }
  }

  /** Freeing removes one run and changes no other. */
  lemma {:induction false} FreeRemovesRun(ids: seq<Id>, live: set<Run>, a: nat, b: nat)
    requires RunsAre(ids, live) && IsRun(ids, a, b)
    ensures RunsAre(Paint(ids, a, b, 0), live - {Run(a, b)})
  {
    forall x, y
      ensures IsRun(Paint(ids, a, b, 0), x, y) <==> Run(x, y) in live - {Run(a, b)}
    {
      ClearedRun(ids, a, b, x, y);
    }
  }

  /** The number of blocks in use. */
  function Used(ids: seq<Id>): nat
  {
    if |ids| == 0 then 0 else Used(ids[..|ids| - 1]) + if ids[|ids| - 1] != 0 then 1 else 0
  }

  function One(used: bool): nat { if used then 1 else 0 }

  lemma {:induction false} UsedUpdate(ids: seq<Id>, i: nat, id: Id)
    requires i < |ids|
    ensures Used(ids[i := id]) + One(ids[i] != 0) == Used(ids) + One(id != 0)
  {
    var n := |ids| - 1;
    if i < n {
      UsedUpdate(ids[..n], i, id);
      assert ids[i := id][..n] == ids[..n][i := id];
    } else {
      assert ids[i := id][..n] == ids[..n];
    }
  }

  lemma {:induction false} PaintStep(ids: seq<Id>, a: nat, b: nat, id: Id)
    requires a <= b < |ids|
    ensures Paint(ids, a, b + 1, id) == Paint(ids, a, b, id)[b := id]
    ensures Paint(ids, a, a, id) == ids
  {
  }

  lemma {:induction false} UsedPainted(ids: seq<Id>, a: nat, b: nat, id: Id)
    requires a <= b && Uniform(ids, a, b, 0) && id != 0
    ensures Used(Paint(ids, a, b, id)) == Used(ids) + (b - a)
  {
    if a < b {
      hide Used, Paint;
      UsedPainted(ids, a, b - 1, id);
      PaintStep(ids, a, b - 1, id);
      UsedUpdate(Paint(ids, a, b - 1, id), b - 1, id);
    } else {
      assert Paint(ids, a, b, id) == ids;
    }
  }

  lemma {:induction false} UsedCleared(ids: seq<Id>, a: nat, b: nat)
    requires a <= b <= |ids| && forall i :: a <= i < b ==> ids[i] != 0
    ensures Used(Paint(ids, a, b, 0)) == Used(ids) - (b - a)
  {
    if a < b {
      hide Used, Paint;
      UsedCleared(ids, a, b - 1);
      PaintStep(ids, a, b - 1, 0);
      UsedUpdate(Paint(ids, a, b - 1, 0), b - 1, 0);
    } else {
      assert Paint(ids, a, b, 0) == ids;
    }
  }

  lemma {:induction false} UsedBound(ids: seq<Id>, a: nat, b: nat)
    requires a <= b && Uniform(ids, a, b, 0)
    ensures Used(ids) + (b - a) <= |ids|
  {
    if |ids| > 0 {
      var n := |ids| - 1;
      if b <= n { UsedBound(ids[..n], a, b); }
      else if a < b { UsedBound(ids[..n], a, n); }
      else { UsedBound(ids[..n], 0, 0); }
    }
  }
}
