/** The iterator over the fields of a descriptor, and the geometry of the struct it
    walks through. */
module FieldIterator {
  import opened Descriptor

  // ------------------------------------------------------- a walk from the start

  function Padding(f: Field): nat {
    match f.placement
    case Behind(padding) => padding
    case InUnion => PB_SIZE_MAX
  }

  /** Bytes that a static field takes up. */
  function Extent(f: Field): nat {
    if f.htype.Repeated? then f.dataSize * f.arraySize else f.dataSize
  }

  /** Address of the data of field i in a struct at address dest. */
  function DataAt(fields: seq<Field>, dest: int, i: nat): int
    requires i < |fields|
  {
    if i == 0 then dest + Padding(fields[0])
    else if Continues(fields, i) then DataAt(fields, dest, i - 1)
    else DataAt(fields, dest, i - 1) + Extent(fields[i - 1]) + Padding(fields[i])
  }

  /** Address of the has_ flag, count or which_ tag of field i. */
  function SizeAt(fields: seq<Field>, dest: int, i: nat): int
    requires i < |fields|
  {
    if Continues(fields, i) then SizeAt(fields, dest, i - 1)
    else DataAt(fields, dest, i) + fields[i].sizeOffset
  }

  /** The members of a union share their data and their tag with its first member, whose
      slot holds them. */
  lemma {:induction false} UnionIsShared(fields: seq<Field>, dest: int, i: nat)
    requires i < |fields|
    ensures DataAt(fields, dest, i) == DataAt(fields, dest, SlotOf(fields, i))
    ensures SizeAt(fields, dest, i) == SizeAt(fields, dest, SlotOf(fields, i))
  {
    if Continues(fields, i) { UnionIsShared(fields, dest, i - 1); }
  }

  /** A field that no member of its union follows, as any field outside unions, ends before
      any later field starts. */
  lemma {:induction false} DataDoesNotOverlap(fields: seq<Field>, dest: int, i: nat, j: nat)
    requires i < j < |fields| && !Continues(fields, i + 1)
    ensures DataAt(fields, dest, i) + Extent(fields[i]) <= DataAt(fields, dest, j)
  {
    if j > i + 1 { DataDoesNotOverlap(fields, dest, i, j - 1); }
  }

  // ---------------------------------------------------------------- the iterator

  class Iterator {
    const fields: seq<Field>
    const dest: int
    var pos: nat
    var requiredFieldIndex: nat
    var pData: int
    var pSize: int

    /** All the iterator knows is what a fresh walk to its position yields. Only in an
        empty descriptor does it stand on the terminator. */
    ghost predicate Valid()
      reads this
    {
      && (if fields == [] then pos == 0 else pos < |fields|)
      && requiredFieldIndex == Ordinal(fields, pos)
      && (fields == [] ==> pData == pSize == dest)
      && (fields != [] ==> pData == DataAt(fields, dest, pos) && pSize == SizeAt(fields, dest, pos))
    }

    constructor (fields: seq<Field>, dest: int)
      requires WellFormed(fields)
      ensures this.fields == fields && this.dest == dest
      ensures Valid() && pos == 0
    {
      this.fields := fields;
      this.dest := dest;
      new;
      var _ := Begin();
    }

    /** Tag of the field at the iterator; that of the terminator is 0. */
    function Tag(): (tag: nat)
      requires Valid()
      reads this
      ensures fields == [] ==> tag == 0
      ensures fields != [] ==> tag == fields[pos].tag
    {
      if pos == |fields| then 0 else fields[pos].tag
    }

    method Begin() returns (ok: bool)
      requires WellFormed(fields)
      modifies this
      ensures Valid() && pos == 0
      ensures ok == (fields != [])
    {
      pos := 0;
      requiredFieldIndex := 0;
      if fields == [] {
        pData := dest;
        pSize := pData;
      } else {
        pData := dest + Padding(fields[0]);
        pSize := pData + fields[0].sizeOffset;
      }
      ok := pos < |fields|;
    }

    method Next() returns (ok: bool)
      requires Valid() && WellFormed(fields)
      modifies this
      ensures Valid()
      ensures ok == (old(pos) + 1 < |fields|)
      ensures pos == if ok then old(pos) + 1 else 0
    {
      if pos == |fields| { return false; }
      var prev := fields[pos];
      pos := pos + 1;
      if pos == |fields| {
        var _ := Begin();
        return false;
      }
      assert WellFormedField(fields, pos);
      var prevSize: nat := prev.dataSize;
      if prev.htype.Oneof? && fields[pos].htype.Oneof? && fields[pos].placement.InUnion? {
        return true;
      } else if prev.htype.Repeated? {
        prevSize := prevSize * prev.arraySize;
      }
      if prev.htype.Required? {
        requiredFieldIndex := requiredFieldIndex + 1;
      }
      pData := pData + prevSize + Padding(fields[pos]);
      pSize := pData + fields[pos].sizeOffset;
      return true;
    }

    /** Searches at most once around, beginning at the current field. */
    method Find(tag: nat) returns (found: bool)
      requires Valid() && WellFormed(fields)
      modifies this
      ensures Valid()
      ensures found <==> IndexOf(fields, tag) < |fields| || (fields == [] && tag == 0)
      ensures found ==> pos == IndexOf(fields, tag)
      ensures !found ==> pos == old(pos)
    {
      var start := pos;
      if Tag() == tag {
        TagLeadsBack(fields, pos, tag);
        return true;
      }
      var more := Next();
      ghost var wrapped := !more;
      while pos != start
        invariant Valid()
        invariant if wrapped then pos <= start else start < pos
        invariant forall i | 0 <= i < |fields| && Visited(start, pos, wrapped, i) :: fields[i].tag != tag
        decreases !wrapped, |fields| - pos
      {
        if Tag() == tag {
          TagLeadsBack(fields, pos, tag);
          return true;
        }
        more := Next();
        if !more { wrapped := true; }
      }
      return false;
    }
  }

  /** Field i lies between the start of a search and its current position, where the
      search may have wrapped around the end. */
  ghost predicate Visited(start: nat, pos: nat, wrapped: bool, i: nat) {
    if wrapped then i >= start || i < pos else start <= i < pos
  }

  lemma {:induction false} TagLeadsBack(fields: seq<Field>, i: nat, tag: nat)
    requires WellFormed(fields)
    requires if fields == [] then i == 0 else i < |fields| && fields[i].tag == tag
    ensures IndexOf(fields, tag) == i
  {
    if fields != [] { assert WellFormedField(fields, i); }
  }
}
