/**
 * Bitmaps stored in 32-bit words: the single-bit and whole-word helpers of the physical
 * page allocator, and the span loops that mix the two.  Every in-place method is
 * specified on `Bits`, the bitmap read as a plain sequence of booleans.
 */
module BitmapWords {

  /** The offset `bit % 32` of a bit inside its word, in the type that shifts take. */
  function Offset(bit: nat): bv5
  {
    (bit % 32) as bv5
  }

  function Mask(off: bv5): bv32
  {
    (1 as bv32) << off
  }

  predicate TestBit(w: bv32, off: bv5)
  {
    w & Mask(off) != 0
  }

  predicate GetBit(words: seq<bv32>, bit: nat)
    requires bit < 32 * |words|
  {
    TestBit(words[bit / 32], Offset(bit))
  }

  function Bits(words: seq<bv32>): (bits: seq<bool>)
    ensures |bits| == 32 * |words|
    ensures forall i :: 0 <= i < |bits| ==> bits[i] == GetBit(words, i)
  {
    seq(32 * |words|, i requires 0 <= i < 32 * |words| => GetBit(words, i))
  }

  /** `bits` with the half-open range [lo, hi) overwritten by `value`. */
  function Fill(bits: seq<bool>, lo: nat, hi: nat, value: bool): (r: seq<bool>)
    ensures |r| == |bits|
    ensures forall i :: 0 <= i < |bits| ==> r[i] == if lo <= i < hi then value else bits[i]
  {
    seq(|bits|, i requires 0 <= i < |bits| => if lo <= i < hi then value else bits[i])
  }

  /** `bitmap[idx] |= 1 << off` and `bitmap[idx] &= ~(1 << off)` on one word. */
  function WithBit(w: bv32, off: bv5, value: bool): bv32
  {
    if value then w | Mask(off) else w & !Mask(off)
  }

  lemma TestSame(w: bv32, i: bv5)
    ensures TestBit(WithBit(w, i, true), i) && !TestBit(WithBit(w, i, false), i)
  {
  }

  lemma MaskedOr(w: bv32, i: bv5, j: bv5)
    requires i != j
    ensures (w | Mask(i)) & Mask(j) == w & Mask(j)
  {
  }

  lemma MaskedAndNot(w: bv32, i: bv5, j: bv5)
    requires i != j
    ensures (w & !Mask(i)) & Mask(j) == w & Mask(j)
  {
  }

  lemma SetOther(w: bv32, i: bv5, j: bv5)
    requires i != j
    ensures TestBit(w | Mask(i), j) == TestBit(w, j)
  {
    hide Mask;
    MaskedOr(w, i, j);
  }

  lemma ClearOther(w: bv32, i: bv5, j: bv5)
    requires i != j
    ensures TestBit(w & !Mask(i), j) == TestBit(w, j)
  {
    hide Mask;
    MaskedAndNot(w, i, j);
  }

  lemma TestOther(w: bv32, i: bv5, value: bool, j: bv5)
    requires i != j
    ensures TestBit(WithBit(w, i, value), j) == TestBit(w, j)
  {
    hide TestBit, Mask;
    SetOther(w, i, j);
    ClearOther(w, i, j);
  }

  lemma TestUniform(off: bv5)
    ensures TestBit(0xFFFF_FFFF, off) && !TestBit(0, off)
  {
  }

  lemma AllOnes(words: seq<bv32>)
    requires forall i :: 0 <= i < |words| ==> words[i] == 0xFFFF_FFFF
    ensures forall i :: 0 <= i < 32 * |words| ==> Bits(words)[i]
  {
    hide TestBit, Offset;
    forall i | 0 <= i < 32 * |words|
      ensures Bits(words)[i]
    {
      TestUniform(Offset(i));
    }
  }

  lemma OffsetValue(k: nat)
    requires k < 32
    ensures (k as bv5) as nat == k
  {
  }

  lemma OffsetsDiffer(i: nat, j: nat)
    ensures Offset(i) == Offset(j) <==> i % 32 == j % 32
  {
    OffsetValue(i % 32);
    OffsetValue(j % 32);
  }

  /** Replacing one word changes only that word's 32 bits. */
  lemma WordUpdate(words: seq<bv32>, idx: nat, w: bv32, i: nat)
    requires idx < |words| && i < 32 * |words|
    ensures Bits(words[idx := w])[i] == if i / 32 == idx then TestBit(w, Offset(i)) else Bits(words)[i]
  {
    hide TestBit, Offset;
  }

  lemma BitMeaning(words: seq<bv32>, bit: nat, value: bool)
    requires bit < 32 * |words|
    ensures Bits(words[bit / 32 := WithBit(words[bit / 32], Offset(bit), value)]) ==
            Fill(Bits(words), bit, bit + 1, value)
  {
    hide TestBit, WithBit, Offset;
    var w := WithBit(words[bit / 32], Offset(bit), value);
    var after := Bits(words[bit / 32 := w]);
    forall i | 0 <= i < 32 * |words|
      ensures after[i] == Fill(Bits(words), bit, bit + 1, value)[i]
    {
      WordUpdate(words, bit / 32, w, i);
      OffsetsDiffer(bit, i);
      if bit % 32 == i % 32 {
        TestSame(words[bit / 32], Offset(bit));
      } else {
        TestOther(words[bit / 32], Offset(bit), value, Offset(i));
      }
    }
  }

  lemma DwordMeaning(words: seq<bv32>, bit: nat, value: bool)
    requires bit % 32 == 0 && bit < 32 * |words|
    ensures Bits(words[bit / 32 := if value then 0xFFFF_FFFF else 0]) == Fill(Bits(words), bit, bit + 32, value)
  {
    hide TestBit, Offset;
    var w: bv32 := if value then 0xFFFF_FFFF else 0;
    var after := Bits(words[bit / 32 := w]);
    forall i | 0 <= i < 32 * |words|
      ensures after[i] == Fill(Bits(words), bit, bit + 32, value)[i]
    {
      WordUpdate(words, bit / 32, w, i);
      TestUniform(Offset(i));
    }
  }

  /** `set_bit` / `clear_bit`. */
  method PutBit(bitmap: array<bv32>, bit: nat, value: bool)
    requires bit < 32 * bitmap.Length
    modifies bitmap
    ensures Bits(bitmap[..]) == Fill(old(Bits(bitmap[..])), bit, bit + 1, value)
  {
    hide *;
    BitMeaning(bitmap[..], bit, value);
    ghost var before := bitmap[..];
    bitmap[bit / 32] := WithBit(bitmap[bit / 32], Offset(bit), value);
    assert bitmap[..] == before[bit / 32 := WithBit(before[bit / 32], Offset(bit), value)];
  }

  /** `set_dword` / `clear_dword`: the 32 bits from `bitStart` at once. */
  method FillDword(bitmap: array<bv32>, bitStart: nat, value: bool)
    requires bitStart % 32 == 0 && bitStart < 32 * bitmap.Length
    modifies bitmap
    ensures Bits(bitmap[..]) == Fill(old(Bits(bitmap[..])), bitStart, bitStart + 32, value)
  {
    hide *;
    var w: bv32 := if value then 0xFFFF_FFFF else 0;
    DwordMeaning(bitmap[..], bitStart, value);
    ghost var before := bitmap[..];
    bitmap[bitStart / 32] := w;
    assert bitmap[..] == before[bitStart / 32 := w];
  }

  /** The span loop shared by both marking functions: whole words where they fit, single bits elsewhere. */
  method FillSpan(bitmap: array<bv32>, begin: nat, end: nat, value: bool)
    requires end < 32 * bitmap.Length
    modifies bitmap
    ensures Bits(bitmap[..]) == Fill(old(Bits(bitmap[..])), begin, end + 1, value)
  {
    hide *;
    ghost var before := Bits(bitmap[..]);
    var i := begin;
    assert Bits(bitmap[..]) == Fill(before, begin, i, value);
    while i <= end
      invariant begin <= i && (begin <= end ==> i <= end + 1) && (end < begin ==> i == begin)
      invariant Bits(bitmap[..]) == Fill(before, begin, i, value)
    {
      ghost var now := Bits(bitmap[..]);
      if i % 32 == 0 && end - i >= 32 {
        FillDword(bitmap, i, value);
        assert Fill(now, i, i + 32, value) == Fill(before, begin, i + 32, value);
        i := i + 31;
      } else {
        PutBit(bitmap, i, value);
        assert Fill(now, i, i + 1, value) == Fill(before, begin, i + 1, value);
      }
      i := i + 1;
    }
    assert Fill(before, begin, i, value) == Fill(before, begin, end + 1, value);
  }

  /** `upper` with bit j cleared wherever j lies in [begin, end] and both of its halves in `lower` are clear. */
  function ClearCovered(lower: seq<bool>, upper: seq<bool>, begin: nat, end: nat): (r: seq<bool>)
    requires end < |upper| && 2 * end + 1 < |lower|
    ensures |r| == |upper|
    ensures forall j :: 0 <= j < |upper| ==>
              r[j] == (upper[j] && !(begin <= j <= end && !lower[2 * j] && !lower[2 * j + 1]))
  {
    seq(|upper|, j requires 0 <= j < |upper| =>
        upper[j] && !(begin <= j <= end && !lower[2 * j] && !lower[2 * j + 1]))
  }

  lemma ZeroDword(words: seq<bv32>, bit: nat)
    requires bit % 32 == 0 && bit < 32 * |words| && words[bit / 32] == 0
    ensures forall i :: bit <= i < bit + 32 ==> !Bits(words)[i]
  {
    hide TestBit, Offset;
    forall i | bit <= i < bit + 32
      ensures !Bits(words)[i]
    {
      assert i / 32 == bit / 32;
      TestUniform(Offset(i));
    }
  }

  lemma BothDwordsZero(words: seq<bv32>, j: nat)
    requires j % 32 == 0 && 2 * j + 32 < 32 * |words| && words[j * 2 / 32] == 0 && words[(j * 2 + 32) / 32] == 0
    ensures forall i :: j <= i < j + 32 ==> !Bits(words)[2 * i] && !Bits(words)[2 * i + 1]
  {
    hide *;
    ZeroDword(words, j * 2);
    ZeroDword(words, j * 2 + 32);
    forall i | j <= i < j + 32
      ensures !Bits(words)[2 * i] && !Bits(words)[2 * i + 1]
    {
      assert 2 * i < 2 * j + 32 || 2 * i >= 2 * j + 32;
    }
  }

  /** `get_bit`. */
  method TestAt(bitmap: array<bv32>, bit: nat) returns (used: bool)
    requires bit < 32 * bitmap.Length
    ensures used == Bits(bitmap[..])[bit]
  {
    hide TestBit, Offset;
    used := TestBit(bitmap[bit / 32], Offset(bit));
  }

  /** The word fast path's test: 32 upper bits from `j` are due and the 64 bits below them are all clear. */
  method BothHalvesBlank(lower: array<bv32>, j: nat, end: nat) returns (blank: bool)
    requires j <= end && 2 * end < 32 * lower.Length
    ensures blank ==> j % 32 == 0 && end - j >= 32
    ensures blank ==> forall i :: j <= i < j + 32 ==> !Bits(lower[..])[2 * i] && !Bits(lower[..])[2 * i + 1]
  {
    hide *;
    blank := false;
    if j % 32 == 0 && end - j >= 32 {
      blank := lower[j * 2 / 32] == 0 && lower[(j * 2 + 32) / 32] == 0;
      if blank {
        BothDwordsZero(lower[..], j);
      }
    }
  }

  /** One upper level of `mark_free`, including its 64-to-32-bit word fast path. */
  method ClearCoveredSpan(lower: array<bv32>, upper: array<bv32>, begin: nat, end: nat)
    requires lower != upper
    requires end < 32 * upper.Length && 2 * end + 1 < 32 * lower.Length
    modifies upper
    ensures Bits(upper[..]) == ClearCovered(Bits(lower[..]), old(Bits(upper[..])), begin, end)
  {
    hide *;
    ghost var before := Bits(upper[..]);
    ghost var lo := Bits(lower[..]);
    assert |lo| == 32 * lower.Length && |before| == 32 * upper.Length;
    ghost var goal := ClearCovered(lo, before, begin, end);
    var j := begin;
    ClearsNone(lo, before, begin, end);
    while j <= end
      invariant begin <= j && (begin <= end ==> j <= end + 1) && (end < begin ==> j == begin)
      invariant Bits(lower[..]) == lo
      invariant ClearedTo(before, goal, Bits(upper[..]), j)
    {
      ghost var now := Bits(upper[..]);
      var blank := BothHalvesBlank(lower, j, end);
      if blank {
        ClearsWord(lo, before, now, begin, end, j);
        FillDword(upper, j, false);
        j := j + 31;
      } else {
        var leftUsed := TestAt(lower, j * 2);
        var rightUsed := TestAt(lower, j * 2 + 1);
        ClearsBit(lo, before, now, begin, end, j);
        if !leftUsed && !rightUsed {
          PutBit(upper, j, false);
        }
      }
      j := j + 1;
    }
    ClearsAll(lo, before, Bits(upper[..]), begin, end, j);
  }

  /** Up to j the bits are those of `goal`, from there on those of `before`. */
  ghost predicate ClearedTo(before: seq<bool>, goal: seq<bool>, now: seq<bool>, j: nat)
  {
    |before| == |goal| == |now| && forall i :: 0 <= i < |now| ==> now[i] == if i < j then goal[i] else before[i]
  }

  lemma ClearsNone(lo: seq<bool>, before: seq<bool>, begin: nat, end: nat)
    requires end < |before| && 2 * end + 1 < |lo|
    ensures ClearedTo(before, ClearCovered(lo, before, begin, end), before, begin)
  {
    hide ClearCovered;
  }

  lemma ClearsWord(lo: seq<bool>, before: seq<bool>, now: seq<bool>, begin: nat, end: nat, j: nat)
    requires end < |before| && 2 * end + 1 < |lo| && begin <= j && j + 32 <= end
    requires ClearedTo(before, ClearCovered(lo, before, begin, end), now, j)
    requires forall i :: j <= i < j + 32 ==> !lo[2 * i] && !lo[2 * i + 1]
    ensures ClearedTo(before, ClearCovered(lo, before, begin, end), Fill(now, j, j + 32, false), j + 32)
  {
    hide ClearCovered, Fill;
  }

  lemma ClearsBit(lo: seq<bool>, before: seq<bool>, now: seq<bool>, begin: nat, end: nat, j: nat)
    requires end < |before| && 2 * end + 1 < |lo| && begin <= j <= end
    requires ClearedTo(before, ClearCovered(lo, before, begin, end), now, j)
    ensures var goal := ClearCovered(lo, before, begin, end);
            if !lo[2 * j] && !lo[2 * j + 1] then ClearedTo(before, goal, Fill(now, j, j + 1, false), j + 1)
            else ClearedTo(before, goal, now, j + 1)
  {
    hide ClearCovered, Fill;
  }

  lemma ClearsAll(lo: seq<bool>, before: seq<bool>, now: seq<bool>, begin: nat, end: nat, j: nat)
    requires end < |before| && 2 * end + 1 < |lo| && j > end
    requires ClearedTo(before, ClearCovered(lo, before, begin, end), now, j)
    ensures now == ClearCovered(lo, before, begin, end)
  {
    hide ClearCovered;
  }
}
