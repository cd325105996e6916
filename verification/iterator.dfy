/** The circular cursor over a field table (pb_common.c). */
module Iterator {
  import opened Common
  import opened Descriptor

  /** A tag of 0 marks the end of a table. */
  predicate Terminated(fields: seq<Field>) {
    forall i :: 0 <= i < |fields| ==> fields[i].tag > 0
  }

  lemma TablesTerminated(fields: seq<Field>)
    requires WellFormed(fields)
    ensures Terminated(fields)
  {
    forall i | 0 <= i < |fields| ensures fields[i].tag > 0 { assert WellFormedField(fields[i]); }
  }

  /** pData and pSize are kept relative to the start of the struct. */
  class FieldIter {
    const fields: seq<Field>
    var pos: nat
    var requiredFieldIndex: nat
    var pData: int
    var pSize: int

    /** Everything the cursor holds is a function of the field it is on. On an empty table it is on the terminator. */
    predicate Valid()
      reads this
    {
      && Terminated(fields)
      && if fields == [] then pos == 0 && requiredFieldIndex == 0
      else
        && pos < |fields|
        && requiredFieldIndex == RequiredBefore(fields, pos)
        && pData == DataOffset(fields, pos)
        && pSize == SizeOffset(fields, pos)
    }

    /** The pointers are the offsets of the field's members in the C struct that the table was made for. */
    ghost predicate OnMembers()
      reads this
    {
      pos < |fields| ==> forall l: Layout :: LaidOut(fields, l) ==> pData == l.data[pos] && pSize == l.size[pos]
    }

    lemma StandsOnMembers()
      requires Valid()
      ensures OnMembers()
    {
      if pos < |fields| {
        forall l: Layout | LaidOut(fields, l) ensures pData == l.data[pos] && pSize == l.size[pos] {
          OffsetsOfMembers(fields, l, pos);
        }
      }
    }

    /** tag and repetition rule at the cursor; the terminator is all zeros, which reads as tag 0, required. */
    function Tag(): nat
      reads this
    {
      if pos < |fields| then fields[pos].tag else 0
    }

    function Rule(): HType
      reads this
    {
      if pos < |fields| then fields[pos].htype else Required
    }

    constructor (fields: seq<Field>)
      requires Terminated(fields)
      ensures this.fields == fields && Valid() && pos == 0
    {
      this.fields := fields;
      pos, requiredFieldIndex := 0, 0;
      pData := if fields == [] then 0 else fields[0].dataOffset;
      pSize := if fields == [] then 0 else fields[0].dataOffset + fields[0].sizeOffset;
    }

    method Begin() returns (some: bool)
      requires Terminated(fields)
      modifies this
      ensures Valid() && OnMembers() && pos == 0
      ensures some <==> fields != []
    {
      pos, requiredFieldIndex := 0, 0;
      pData := if fields == [] then 0 else fields[0].dataOffset;
      pSize := pData + if fields == [] then 0 else fields[0].sizeOffset;
      some := Tag() != 0;
      StandsOnMembers();
    }

    /** One step on; from the last field back to the first, which is reported. */
    method Next() returns (more: bool)
      requires Valid()
      modifies this
      ensures Valid() && OnMembers()
      ensures fields == [] ==> !more
      ensures fields != [] ==> (more <==> old(pos) + 1 < |fields|)
      ensures pos == if more then old(pos) + 1 else 0
    {
      if Tag() == 0 {
        StandsOnMembers();
        return false;
      }
      var prev := fields[pos];
      pos := pos + 1;
      if Tag() == 0 {
        var _ := Begin();
        return false;
      }
      var prevSize := prev.dataSize;
      if prev.htype == Oneof && fields[pos].htype == Oneof && fields[pos].dataOffset == PB_SIZE_MAX {
        StandsOnMembers();
        return true;
      } else if prev.htype == Repeated {
        prevSize := prevSize * prev.arraySize;
      }
      if prev.htype == Required {
        requiredFieldIndex := requiredFieldIndex + 1;
      }
      pData := pData + prevSize + fields[pos].dataOffset;
      pSize := pData + fields[pos].sizeOffset;
      StandsOnMembers();
      return true;
    }

    /** The circular search finds a tag from anywhere exactly when the table has it, on its field and with that
        field's pointers; otherwise it ends up where it began. On an empty table, tag 0 is found on the terminator. */
    method Search(tag: nat) returns (found: bool)
      requires Valid() && DistinctTags(fields)
      modifies this
      ensures Valid()
      ensures found <==> Find(fields, tag).Some? || (fields == [] && tag == 0)
      ensures found && fields != [] ==> Find(fields, tag) == Some(pos)
      ensures !found ==> pos == old(pos)
    {
      var start := pos;
      ghost var wrapped := false;
      while true
        invariant Valid()
        invariant !wrapped ==> start <= pos && forall j :: start <= j < pos ==> fields[j].tag != tag
        invariant wrapped ==> pos < start && forall j :: 0 <= j < pos || start <= j < |fields| ==> fields[j].tag != tag
        decreases if wrapped then start - pos else |fields| + 1 + start - pos
      {
        if Tag() == tag {
          if fields != [] {
            FindUnique(fields, pos);
          }
          return true;
        }
        var more := Next();
        if pos == start {
          break;
        }
        wrapped := wrapped || !more;
      }
      return false;
    }
  }
}
