/**
 * The cyclic field iterator. A descriptor gives each field's place relative to the previous field; the
 * iterator adds these distances up and always points at the right member of the struct.
 */
module FieldIter {
  import opened Bits
  import opened Descriptor

  const POINTER_SIZE: nat := 8

  /** The bytes a field takes up in the struct. */
  function MemberSize(f: Field): nat {
    if f.atype == Static && f.htype == Repeated then f.dataSize * f.arraySize
    else if f.atype == Pointer then POINTER_SIZE
    else f.dataSize
  }

  /**
   * The descriptor the PB_FIELD macros produce for a struct: member `i` starts at `data[i]`, and its has_,
   * count or which_ field at `size[i]`, or at `data[i]` itself if it has none. Further members of a union
   * are marked instead of measured: they have both in common with the first.
   */
  ghost predicate Describes(fs: seq<Field>, data: seq<int>, size: seq<int>) {
    && |data| == |size| == |fs|
    && (forall i | 0 <= i < |fs| :: fs[i].tag != 0)
    && (fs != [] ==> data[0] == fs[0].dataOffset && size[0] == data[0] + fs[0].sizeOffset)
    && (forall i | 0 < i < |fs| ::
          if Joins(fs[i - 1], fs[i]) then data[i] == data[i - 1] && size[i] == size[i - 1]
          else data[i] == data[i - 1] + MemberSize(fs[i - 1]) + fs[i].dataOffset && size[i] == data[i] + fs[i].sizeOffset)
  }

  /** The places a descriptor describes, counted from the start of the struct. */
  ghost function DataAt(fs: seq<Field>, i: nat): int
    requires i < |fs|
  {
    if i == 0 then fs[0].dataOffset
    else if Joins(fs[i - 1], fs[i]) then DataAt(fs, i - 1)
    else DataAt(fs, i - 1) + MemberSize(fs[i - 1]) + fs[i].dataOffset
  }

  ghost function SizeAt(fs: seq<Field>, i: nat): int
    requires i < |fs|
  {
    if i > 0 && Joins(fs[i - 1], fs[i]) then SizeAt(fs, i - 1) else DataAt(fs, i) + fs[i].sizeOffset
  }

  /** Every descriptor whose fields have tags describes some struct. */
  lemma SomePlaces(fs: seq<Field>) returns (data: seq<int>, size: seq<int>)
    requires forall i | 0 <= i < |fs| :: fs[i].tag != 0
    ensures Describes(fs, data, size)
  {
    data := seq(|fs|, i requires 0 <= i < |fs| => DataAt(fs, i));
    size := seq(|fs|, i requires 0 <= i < |fs| => SizeAt(fs, i));
  }

  /** A field pb_field_iter_find can stop at. */
  predicate Matches(f: Field, tag: nat) {
    f.tag == tag && f.ltype != LExtension
  }

  /** The position `k` steps after `start` on the cycle of `n` positions. */
  function Ahead(start: nat, k: nat, n: nat): nat
    requires start < n && k <= n
  {
    if start + k < n then start + k else start + k - n
  }

  /** None of the `steps` positions from `start` on matches. */
  ghost predicate NoMatch(fs: seq<Field>, start: nat, steps: nat, tag: nat)
    requires start < |fs| && steps <= |fs|
  {
    forall k | 0 <= k < steps :: !Matches(fs[Ahead(start, k, |fs|)], tag)
  }

  /** A lap visits every field. */
  lemma FullLap(fs: seq<Field>, start: nat, tag: nat)
    requires start < |fs| && NoMatch(fs, start, |fs|, tag)
    ensures forall i | 0 <= i < |fs| :: !Matches(fs[i], tag)
  {
    forall i | 0 <= i < |fs| ensures !Matches(fs[i], tag) {
      var k := if i >= start then i - start else i + |fs| - start;
      assert i == Ahead(start, k, |fs|);
    }
  }

  class FieldIter {
    const fields: seq<Field>
    const destStruct: int
    ghost const data: seq<int>
    ghost const size: seq<int>
    var pos: nat
    var requiredFieldIndex: nat
    var pData: int
    var pSize: int

    /** The iterator points at a member, its presence field, and knows the REQUIRED fields before it. */
    ghost predicate Valid()
      reads this
    {
      && Describes(fields, data, size)
      && (pos < |fields| || (fields == [] && pos == 0))
      && requiredFieldIndex == RequiredBefore(fields, pos)
      && (fields != [] ==> pData == destStruct + data[pos] && pSize == destStruct + size[pos])
    }

    constructor (fields: seq<Field>, destStruct: int, ghost data: seq<int>, ghost size: seq<int>)
      requires Describes(fields, data, size)
      ensures Valid() && pos == 0
      ensures this.fields == fields && this.destStruct == destStruct && this.data == data && this.size == size
    {
      this.fields := fields;
      this.destStruct := destStruct;
      this.data := data;
      this.size := size;
      pos := 0;
      requiredFieldIndex := 0;
      pData := destStruct + (if fields == [] then 0 else fields[0].dataOffset);
      pSize := destStruct + (if fields == [] then 0 else fields[0].dataOffset + fields[0].sizeOffset);
    }

    /** pb_field_iter_begin. */
    method Begin() returns (more: bool)
      requires Describes(fields, data, size)
      modifies this
      ensures Valid() && pos == 0
      ensures more == (fields != [])
    {
      pos := 0;
      requiredFieldIndex := 0;
      if fields == [] {
        pData, pSize := destStruct, destStruct;
        return false;
      }
      pData := destStruct + fields[0].dataOffset;
      pSize := pData + fields[0].sizeOffset;
      more := true;
    }

    /** pb_field_iter_next: the next field, or the first one again, in which case the result is false. */
    method Next() returns (more: bool)
      requires Valid()
      modifies this
      ensures Valid()
      ensures fields == [] ==> !more && pos == old(pos)
      ensures fields != [] ==> pos == Ahead(old(pos), 1, |fields|) && more == (old(pos) + 1 < |fields|)
    {
      if fields == [] {
        return false;
      }
      var prev := fields[pos];
      pos := pos + 1;
      if pos == |fields| {
        var _ := Begin();
        return false;
      }
      if prev.htype == OneOf && fields[pos].htype == OneOf && fields[pos].dataOffset == PB_SIZE_MAX {
        // pointers do not advance inside unions
        return true;
      }
      var prevSize := prev.dataSize;
      if prev.atype == Static && prev.htype == Repeated {
        prevSize := prevSize * prev.arraySize;
      } else if prev.atype == Pointer {
        prevSize := POINTER_SIZE;
      }
      if prev.htype == Required {
        requiredFieldIndex := requiredFieldIndex + 1;
      }
      pData := pData + prevSize + fields[pos].dataOffset;
      pSize := pData + fields[pos].sizeOffset;
      more := true;
    }

    /**
     * pb_field_iter_find: the first match at or after the current position, at most one lap ahead; the
     * position is unchanged if there is none. An iterator over no fields stands on the terminator, which
     * has tag 0.
     */
    method Find(tag: nat) returns (found: bool, ghost steps: nat)
      requires Valid()
      modifies this
      ensures Valid()
      ensures fields == [] ==> found == (tag == 0) && pos == old(pos)
      ensures fields != [] ==>
        && steps <= |fields| && pos == Ahead(old(pos), steps, |fields|)
        && NoMatch(fields, old(pos), steps, tag)
        && (found <==> exists i :: 0 <= i < |fields| && Matches(fields[i], tag))
        && (if found then steps < |fields| && Matches(fields[pos], tag) else pos == old(pos))
    {
      steps := 0;
      if fields == [] {
        found := tag == 0;
        if !found { var _ := Next(); }
      } else {
        found, steps := Search(tag);
        if !found { FullLap(fields, old(pos), tag); }
      }
    }

    /** The loop of pb_field_iter_find over a descriptor that is not empty. */
    method Search(tag: nat) returns (found: bool, ghost steps: nat)
      requires Valid() && fields != []
      modifies this
      ensures Valid()
      ensures steps <= |fields| && pos == Ahead(old(pos), steps, |fields|)
      ensures NoMatch(fields, old(pos), steps, tag)
      ensures if found then steps < |fields| && Matches(fields[pos], tag) else steps == |fields|
    {
      var start := pos;
      steps := 0;
      while true
        invariant Valid() && steps < |fields| && pos == Ahead(start, steps, |fields|)
        invariant NoMatch(fields, start, steps, tag)
        decreases |fields| - steps
      {
        if Matches(fields[pos], tag) {
          return true, steps;
        }
        var _ := Next();
        steps := steps + 1;
        if pos == start {
          return false, steps;
        }
      }
    }
  }

  /** An iterator on the first field of a struct at `destStruct`. */
  method Iterate(fields: seq<Field>, destStruct: int) returns (iter: FieldIter, more: bool)
    requires forall i | 0 <= i < |fields| :: fields[i].tag != 0
    ensures fresh(iter) && iter.Valid() && iter.fields == fields && iter.destStruct == destStruct
    ensures iter.pos == 0 && more == (fields != [])
  {
    ghost var data, size := SomePlaces(fields);
    iter := new FieldIter(fields, destStruct, data, size);
    more := iter.Begin();
  }

  // ----- places and slots

  /** Members of the struct are not empty. */
  ghost predicate Spacious(fs: seq<Field>) {
    forall i | 0 <= i < |fs| :: MemberSize(fs[i]) > 0
  }

  /** Offsets never go back, and advance exactly when a new slot begins. */
  lemma {:induction false} OffsetsFollowSlots(fs: seq<Field>, data: seq<int>, size: seq<int>, i: nat, j: nat)
    requires Describes(fs, data, size) && Spacious(fs) && i <= j < |fs|
    ensures data[i] <= data[j]
    ensures data[i] == data[j] <==> SlotAt(fs, i) == SlotAt(fs, j)
    decreases j
  {
    if i < j {
      OffsetsFollowSlots(fs, data, size, i, j - 1);
      OffsetsAdvance(fs, data, size, j);
      assert SlotAt(fs, i) <= SlotAt(fs, j - 1) by { SlotsMonotone(fs, i + 1, j); }
    }
  }

  lemma OffsetsAdvance(fs: seq<Field>, data: seq<int>, size: seq<int>, j: nat)
    requires Describes(fs, data, size) && Spacious(fs) && 0 < j < |fs|
    ensures if Joins(fs[j - 1], fs[j]) then data[j - 1] == data[j] && SlotAt(fs, j - 1) == SlotAt(fs, j)
            else data[j - 1] < data[j] && SlotAt(fs, j - 1) + 1 == SlotAt(fs, j)
  {
    assert MemberSize(fs[j - 1]) > 0;
  }

  /** Two fields share a place in the struct exactly if they share a slot of the message. */
  lemma SlotsArePlaces(fs: seq<Field>, data: seq<int>, size: seq<int>, i: nat, j: nat)
    requires Describes(fs, data, size) && Spacious(fs) && i < |fs| && j < |fs|
    ensures data[i] == data[j] <==> SlotAt(fs, i) == SlotAt(fs, j)
  {
    if i <= j { OffsetsFollowSlots(fs, data, size, i, j); } else { OffsetsFollowSlots(fs, data, size, j, i); }
  }

  /** A descriptor determines the places it describes. */
  lemma {:induction false} PlacesAreDetermined(fs: seq<Field>, data: seq<int>, size: seq<int>,
                                               data': seq<int>, size': seq<int>, i: nat)
    requires Describes(fs, data, size) && Describes(fs, data', size') && i < |fs|
    ensures data[i] == data'[i] && size[i] == size'[i]
  {
    if i > 0 { PlacesAreDetermined(fs, data, size, data', size', i - 1); }
  }
}
