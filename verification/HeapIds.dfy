/**
 * The id bitmap of a heap block: four 2-bit ids to the byte, zero for a free block.
 */
module HeapIds {
  const PER_BYTE := 4

  type Id = bv8

  function Shift(block: nat): (s: nat)
    ensures s == 0 || s == 2 || s == 4 || s == 6
  {
    (block % PER_BYTE) * 2
  }

  function Put(byte: bv8, shift: nat, id: Id): bv8
    requires shift <= 8
  {
    (byte & !(3 << shift)) | ((id & 3) << shift)
  }

  function Pick(byte: bv8, shift: nat): Id
    requires shift <= 8
  {
    (byte & (3 << shift)) >> shift
  }

  function GetId(bytes: seq<bv8>, block: nat): Id
    requires block < PER_BYTE * |bytes|
  {
    Pick(bytes[block / PER_BYTE], Shift(block))
  }

  function Ids(bytes: seq<bv8>): (ids: seq<Id>)
    ensures |ids| == PER_BYTE * |bytes|
    ensures forall i :: 0 <= i < |ids| ==> ids[i] == GetId(bytes, i)
  {
    seq(PER_BYTE * |bytes|, i requires 0 <= i < PER_BYTE * |bytes| => GetId(bytes, i))
  }

  lemma PickPut(byte: bv8, s: nat, id: Id)
    requires (s == 0 || s == 2 || s == 4 || s == 6) && id <= 3
    ensures Pick(Put(byte, s, id), s) == id
  {
    if s == 0 {} else if s == 2 {} else if s == 4 {} else {}
  }

  lemma PickOther(byte: bv8, s: nat, t: nat, id: Id)
    requires (s == 0 || s == 2 || s == 4 || s == 6) && (t == 0 || t == 2 || t == 4 || t == 6) && s != t
    ensures Pick(Put(byte, s, id), t) == Pick(byte, t)
  {
    if s == 0 {
      if t == 2 {} else if t == 4 {} else {}
    } else if s == 2 {
      if t == 0 {} else if t == 4 {} else {}
    } else if s == 4 {
      if t == 0 {} else if t == 2 {} else {}
    } else {
      if t == 0 {} else if t == 2 {} else {}
    }
  }

  lemma PickRange(byte: bv8, s: nat)
    requires s == 0 || s == 2 || s == 4 || s == 6
    ensures Pick(byte, s) <= 3
  {
    if s == 0 {} else if s == 2 {} else if s == 4 {} else {}
  }

  lemma {:induction false} PutAt(bytes: seq<bv8>, block: nat, id: Id, i: nat)
    requires block < PER_BYTE * |bytes| && i < PER_BYTE * |bytes| && id <= 3
    ensures GetId(bytes[block / PER_BYTE := Put(bytes[block / PER_BYTE], Shift(block), id)], i) ==
            if i == block then id else GetId(bytes, i)
  {
    hide Put, Pick;
    var byte := bytes[block / PER_BYTE];
    if i == block {
      PickPut(byte, Shift(block), id);
    } else if i / PER_BYTE == block / PER_BYTE {
      PickOther(byte, Shift(block), Shift(i), id);
    }
  }

  /** Storing one id changes that id and no other. */
  lemma {:induction false} PutMeaning(bytes: seq<bv8>, block: nat, id: Id)
    requires block < PER_BYTE * |bytes| && id <= 3
    ensures Ids(bytes[block / PER_BYTE := Put(bytes[block / PER_BYTE], Shift(block), id)]) == Ids(bytes)[block := id]
  {
    hide Put, Shift, GetId;
    var after := bytes[block / PER_BYTE := Put(bytes[block / PER_BYTE], Shift(block), id)];
    forall i | 0 <= i < PER_BYTE * |bytes|
      ensures Ids(after)[i] == Ids(bytes)[block := id][i]
    {
      PutAt(bytes, block, id, i);
    }
  }

  method SetId(bitmap: array<bv8>, block: nat, id: Id)
    requires block < PER_BYTE * bitmap.Length && id <= 3
    modifies bitmap
    ensures Ids(bitmap[..]) == old(Ids(bitmap[..]))[block := id]
  {
    hide Ids, Put, Shift, GetId;
    PutMeaning(bitmap[..], block, id);
    ghost var was := bitmap[..];
    var index := block / PER_BYTE;
    bitmap[index] := Put(bitmap[index], Shift(block), id);
    assert bitmap[..] == was[index := bitmap[index]];
  }

  method ReadId(bitmap: array<bv8>, block: nat) returns (id: Id)
    requires block < PER_BYTE * bitmap.Length
    ensures id == Ids(bitmap[..])[block] && id <= 3
  {
    hide Pick, Shift;
    id := Pick(bitmap[block / PER_BYTE], Shift(block));
    PickRange(bitmap[block / PER_BYTE], Shift(block));
  }

  /** An id for a run between neighbours with these ids (zero for none or free). */
  function FreeId(left: Id, right: Id): (id: Id)
    ensures 1 <= id <= 3 && id != left && id != right
  {
    if left != 1 && right != 1 then 1
    else if left != 2 && right != 2 then 2
    else 3
  }
}
