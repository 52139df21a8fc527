/**
 * Where an ext2 inode keeps the number of its k-th block: twelve direct pointers, then
 * single, double and triple indirect blocks of n pointers each.  `FromLinear` is the
 * source's computation; `Group` and `Branch` give the same places uniformly, counting the
 * single indirect blocks and the double indirect blocks of a file from zero.
 */
module Ext2Geometry {
  import opened Division

  const DIRECT := 12

  datatype Pointer = Pointer(direct: nat, single: nat, double: nat, triple: nat)

  function FromLinear(index: nat, n: nat): Pointer
    requires n > 0
  {
    if index < DIRECT then Pointer(index, 0, 0, 0) else
      var i := index - DIRECT;
      if i < n then Pointer(i, 1, 0, 0) else
        var j := i - n;
        if j < n * n then Pointer(Mod(j, n), Div(j, n), 1, 0) else
          var m := j - n * n;
          Pointer(Mod(m, n), Mod(Div(m, n), n), Div(m, n * n), 1)
  }

  /** The number of the single indirect block that holds the pointer of block `index`. */
  function Group(index: nat, n: nat): nat
    requires n > 0 && index >= DIRECT
  {
    Div(index - DIRECT, n)
  }

  function Slot(index: nat, n: nat): nat
    requires n > 0 && index >= DIRECT
  {
    Mod(index - DIRECT, n)
  }

  /** The number of the double indirect block above single indirect block g > 0. */
  function Branch(g: nat, n: nat): nat
    requires n > 0 && g > 0
  {
    Div(g - 1, n)
  }

  /** The pointer of an indirect block in terms of its group alone. */
  function GroupPointer(g: nat, slot: nat, n: nat): Pointer
    requires n > 0
  {
    if g == 0 then Pointer(slot, 1, 0, 0)
    else if g <= n then Pointer(slot, g - 1, 1, 0)
    else Pointer(slot, Mod(g - 1, n), Branch(g, n) - 1, 1)
  }

  lemma BranchFacts(g: nat, n: nat)
    requires n > 0 && g > 0
    ensures g <= n <==> Branch(g, n) == 0
    ensures g <= n ==> Mod(g - 1, n) == g - 1
  {
    DivSmall(g - 1, n, 1);
    if g <= n {
      DivUnique(g - 1, n, 0, g - 1);
    }
  }

  lemma FromLinearByGroup(index: nat, n: nat)
    requires n > 0 && index >= DIRECT
    ensures FromLinear(index, n) == GroupPointer(Group(index, n), Slot(index, n), n)
  {
    hide Div, Mod;
    var i := index - DIRECT;
    if i < n {
      DivUnique(i, n, 0, i);
    } else {
      var j := i - n;
      DivShift(j, n, 1);
      assert Group(index, n) == 1 + Div(j, n) && Slot(index, n) == Mod(j, n);
      DivSmall(j, n, n);
      if j >= n * n {
        var m := j - n * n;
        DivShift(m, n, n);
        DivShift(Div(m, n), n, 1);
        DivTwice(m, n);
      }
    }
  }

  /** Block indices with the same group and slot are equal. */
  lemma GroupInjective(a: nat, b: nat, n: nat)
    requires n > 0 && a >= DIRECT && b >= DIRECT && Group(a, n) == Group(b, n) && Slot(a, n) == Slot(b, n)
    ensures a == b
  {
    DivMod(a - DIRECT, n);
    DivMod(b - DIRECT, n);
  }

  lemma GroupPointerInjective(g: nat, s: nat, h: nat, t: nat, n: nat)
    requires n > 0 && GroupPointer(g, s, n) == GroupPointer(h, t, n)
    ensures g == h && s == t
  {
    hide Div, Mod;
    if g > 0 { BranchFacts(g, n); DivMod(g - 1, n); }
    if h > 0 { BranchFacts(h, n); DivMod(h - 1, n); }
  }

  /** `from_linear_index` never sends two block indices to the same place. */
  lemma FromLinearInjective(a: nat, b: nat, n: nat)
    requires n > 0 && FromLinear(a, n) == FromLinear(b, n)
    ensures a == b
  {
    hide Div, Mod, GroupPointer, Group, Slot;
    if a >= DIRECT { FromLinearByGroup(a, n); GroupPointerIndirect(Group(a, n), Slot(a, n), n); }
    if b >= DIRECT { FromLinearByGroup(b, n); GroupPointerIndirect(Group(b, n), Slot(b, n), n); }
    if a >= DIRECT && b >= DIRECT {
      GroupPointerInjective(Group(a, n), Slot(a, n), Group(b, n), Slot(b, n), n);
      GroupInjective(a, b, n);
    }
  }

  lemma GroupPointerIndirect(g: nat, s: nat, n: nat)
    requires n > 0
    ensures var p := GroupPointer(g, s, n); p.single != 0 || p.double != 0 || p.triple != 0
  {
  }

  /** How many indirect blocks become due when a file grows from `index - 1` to `index`. */
  function NewLevels(index: nat, n: nat): nat
    requires n > 0
  {
    if index < DIRECT || Slot(index, n) != 0 then 0
    else
      var g := Group(index, n);
      if g == 0 || Mod(g - 1, n) != 0 then 1
      else if Branch(g, n) == 1 then 3 else 2
  }

  /** What `update_blocks` derives from comparing two pointers. */
  function Invalidated(current: Pointer, next: Pointer): nat
  {
    if next.triple != current.triple then 3
    else if next.double != current.double then 2
    else if next.single != current.single then 1
    else 0
  }

  lemma GroupStep(index: nat, n: nat)
    requires n > 0 && index > DIRECT
    ensures Slot(index, n) != 0 ==> Group(index - 1, n) == Group(index, n)
    ensures Slot(index, n) == 0 ==> Group(index, n) > 0 && Group(index - 1, n) == Group(index, n) - 1
  {
    hide Div, Mod;
    var i := index - DIRECT;
    DivMod(i, n);
    var q, r := Div(i, n), Mod(i, n);
    if r != 0 {
      DivUnique(i - 1, n, q, r - 1);
    } else {
      assert q == 0 ==> q * n == 0;
      assert (q - 1) * n + n == q * n;
      DivUnique(i - 1, n, q - 1, n - 1);
    }
  }

  lemma BranchStep(g: nat, n: nat)
    requires n > 0 && g > 1
    ensures Mod(g - 1, n) != 0 ==> Branch(g - 1, n) == Branch(g, n) && Mod(g - 2, n) == Mod(g - 1, n) - 1
    ensures Mod(g - 1, n) == 0 ==> Branch(g, n) > 0 && Branch(g - 1, n) == Branch(g, n) - 1
  {
    hide Div, Mod;
    DivMod(g - 1, n);
    var q, r := Div(g - 1, n), Mod(g - 1, n);
    if r != 0 {
      DivUnique(g - 2, n, q, r - 1);
    } else {
      assert q == 0 ==> q * n == 0;
      assert (q - 1) * n + n == q * n;
      DivUnique(g - 2, n, q - 1, n - 1);
    }
  }

  /** Comparing consecutive pointers finds exactly the indirect blocks that become due. */
  lemma InvalidatedMeaning(index: nat, n: nat)
    requires n > 0 && index > 0
    ensures Invalidated(FromLinear(index - 1, n), FromLinear(index, n)) == NewLevels(index, n)
  {
    hide Div, Mod;
    if index < DIRECT {
    } else if index == DIRECT {
      FromLinearByGroup(index, n);
      DivUnique(0, n, 0, 0);
    } else {
      FromLinearByGroup(index, n);
      FromLinearByGroup(index - 1, n);
      GroupStep(index, n);
      GroupInvalidated(Group(index, n), Slot(index, n), Slot(index - 1, n), n);
    }
  }

  lemma GroupInvalidated(g: nat, slot: nat, before: nat, n: nat)
    requires n > 0
    ensures Invalidated(GroupPointer(g, before, n), GroupPointer(g, slot, n)) == 0
    ensures g > 0 ==> Invalidated(GroupPointer(g - 1, before, n), GroupPointer(g, slot, n)) ==
                      (if Mod(g - 1, n) != 0 then 1 else if Branch(g, n) == 1 then 3 else 2)
  {
    hide Div, Mod;
    if g > 0 {
      BranchFacts(g, n);
      if g > 1 {
        BranchFacts(g - 1, n);
        BranchStep(g, n);
      } else {
        DivUnique(0, n, 0, 0);
      }
    }
  }
}
