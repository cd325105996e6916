/** The decoder (pb_decode.c): imperative readers that fill a struct in place, proved against the wire format. */
module Decoder {
  import opened Common
  import opened Wire
  import opened Descriptor
  import opened Format
  import opened Iterator
  import opened Streams
  import opened Bitmap
  import opened Invariant
  import opened Failure

  /** The destination struct. */
  class Struct {
    var slots: Msg

    constructor (slots: Msg)
      ensures this.slots == slots
    {
      this.slots := slots;
    }
  }

  // ---- Contracts ----

  /** Reading one item from `bs`: success exactly when the format says so, with its value and its remainder; and on
      failure too, what the item then holds. */
  predicate Stored(f: Field, prior: Value, bs: bytes, ok: bool, v: Value, left: bytes) {
    var t := Take(FramingOf(f.ltype), bs);
    && (ok <==> t.Some? && DecodeValue(f, prior, t.value.0).Some?)
    && (ok ==> left == t.value.1 && DecodeValue(f, prior, t.value.0) == Some(v))
    && v == LeftValue(f, prior, bs)
  }

  predicate SlotStored(f: Field, wire: nat, s: Slot, bs: bytes, ok: bool, s': Slot, left: bytes) {
    var t := Take(FramingFor(f, wire), bs);
    && (ok <==> t.Some? && DecodeSlot(f, wire, s, t.value.0).Some?)
    && (ok ==> left == t.value.1 && DecodeSlot(f, wire, s, t.value.0) == Some(s'))
    && s' == LeftSlot(f, wire, s, bs)
  }

  // ---- Scalars: the PB_DECODERS table ----

  /** The item is stored, cut to its width, before the test for overflow. */
  method DecVarint(stream: InStream, f: Field, prior: Value) returns (ok: bool, v: Value)
    requires stream.Valid() && WellFormedField(f) && f.ltype == LVarint && FitsValue(f, prior, Loose)
    modifies stream
    ensures stream.Valid() && stream.End() == old(stream.End())
    ensures Stored(f, prior, old(stream.Left()), ok, v, stream.Left()) && FitsValue(f, v, Loose)
  {
    var value: nat;
    ok, value := stream.DecodeVarint();
    if !ok {
      return false, prior;
    }
    var svalue := if f.dataSize == 8 then CastSigned(value, 8) else CastSigned(value, 4);
    var clamped := CastSigned(svalue, f.dataSize);
    return clamped == svalue, Num(clamped);
  }

  method DecUvarint(stream: InStream, f: Field, prior: Value) returns (ok: bool, v: Value)
    requires stream.Valid() && WellFormedField(f) && f.ltype == LUVarint && FitsValue(f, prior, Loose)
    modifies stream
    ensures stream.Valid() && stream.End() == old(stream.End())
    ensures Stored(f, prior, old(stream.Left()), ok, v, stream.Left()) && FitsValue(f, v, Loose)
  {
    var value: nat;
    ok, value := stream.DecodeVarint();
    if !ok {
      return false, prior;
    }
    var clamped := CastUnsigned(value, f.dataSize);
    return clamped == value, Num(clamped);
  }

  method DecSvarint(stream: InStream, f: Field, prior: Value) returns (ok: bool, v: Value)
    requires stream.Valid() && WellFormedField(f) && f.ltype == LSVarint && FitsValue(f, prior, Loose)
    modifies stream
    ensures stream.Valid() && stream.End() == old(stream.End())
    ensures Stored(f, prior, old(stream.Left()), ok, v, stream.Left()) && FitsValue(f, v, Loose)
  {
    var value: int;
    ok, value := stream.DecodeSvarint();
    if !ok {
      return false, prior;
    }
    var clamped := CastSigned(value, f.dataSize);
    return clamped == value, Num(clamped);
  }

  method DecFixed(stream: InStream, f: Field, prior: Value) returns (ok: bool, v: Value)
    requires stream.Valid() && WellFormedField(f) && f.ltype in {LFixed32, LFixed64} && FitsValue(f, prior, Loose)
    modifies stream
    ensures stream.Valid() && stream.End() == old(stream.End())
    ensures Stored(f, prior, old(stream.Left()), ok, v, stream.Left()) && FitsValue(f, v, Loose)
  {
    Pow256Values();
    ghost var bs := stream.Left();
    var value: nat;
    if f.ltype == LFixed32 {
      ok, value := stream.DecodeFixed32();
      if ok { FromLittleEndianRoundTrip(bs[..4]); }
    } else {
      ok, value := stream.DecodeFixed64();
      if ok { FromLittleEndianRoundTrip(bs[..8]); }
    }
    v := if ok then Num(value) else prior;
  }

  /** When the data runs out, the size is already stored, over the bytes that were there. */
  method DecBytes(stream: InStream, f: Field, prior: Value) returns (ok: bool, v: Value)
    requires stream.Valid() && WellFormedField(f) && f.ltype == LBytes && FitsValue(f, prior, Loose)
    modifies stream
    ensures stream.Valid() && stream.End() == old(stream.End())
    ensures Stored(f, prior, old(stream.Left()), ok, v, stream.Left()) && FitsValue(f, v, Loose)
  {
    var size: nat;
    ok, size := stream.DecodeVarint32();
    if !ok || size > PB_SIZE_MAX || size + BYTES_HEADER > f.dataSize {
      return false, prior;
    }
    var data: bytes;
    ok, data := stream.Read(size);
    v := if ok then Buf(data) else CutOff(f, prior, size);
  }

  /** The terminator is stored whether or not the characters arrived. */
  method DecString(stream: InStream, f: Field, prior: Value) returns (ok: bool, v: Value)
    requires stream.Valid() && WellFormedField(f) && f.ltype == LString && FitsValue(f, prior, Loose)
    modifies stream
    ensures stream.Valid() && stream.End() == old(stream.End())
    ensures Stored(f, prior, old(stream.Left()), ok, v, stream.Left()) && FitsValue(f, v, Loose)
  {
    var size: nat;
    ok, size := stream.DecodeVarint32();
    if !ok || size + 1 > f.dataSize {
      return false, prior;
    }
    var data: bytes;
    ok, data := stream.Read(size);
    v := if ok then Buf(UpToNul(data)) else CutOff(f, prior, size);
  }

  method DecFixedLengthBytes(stream: InStream, f: Field, prior: Value) returns (ok: bool, v: Value)
    requires stream.Valid() && WellFormedField(f) && f.ltype == LFixedLengthBytes && FitsValue(f, prior, Loose)
    modifies stream
    ensures stream.Valid() && stream.End() == old(stream.End())
    ensures Stored(f, prior, old(stream.Left()), ok, v, stream.Left()) && FitsValue(f, v, Loose)
  {
    var size: nat;
    ok, size := stream.DecodeVarint32();
    if !ok || size > PB_SIZE_MAX {
      return false, prior;
    }
    if size == 0 {
      return true, Buf(Zeros(f.dataSize));
    }
    if size != f.dataSize {
      return false, prior;
    }
    var data: bytes;
    ok, data := stream.Read(f.dataSize);
    v := if ok then Buf(data) else prior;
  }

  // ---- Initialising: pb_message_set_to_defaults ----

  /** pb_field_set_to_default. Arrays and unions only lose their count and their which_ member. */
  method FieldSetToDefault(f: Field, hasFlag: bool) returns (s: Slot)
    requires WellFormedField(f) && (f.htype == Optional ==> (hasFlag <==> f.sizeOffset != 0))
    ensures s == DefaultSlot(f) && InitialSlot(f, s)
    decreases f, 1
  {
    DefaultIsInitial(f);
    if f.htype == Repeated {
      return Many([]);
    }
    if f.htype == Oneof {
      return Union(0, Indeterminate);
    }
    var v: Value;
    match f.ptr {
      case Fields(sub) => v := FreshSubmessage(sub);
      case Default(d) => v := d;
      case Null => v := ZeroValue(f);
    }
    s := if f.htype == Optional && hasFlag then Opt(false, v) else One(v);
  }

  /** A submessage initialised in place. */
  method FreshSubmessage(sub: seq<Field>) returns (v: Value)
    requires WellFormed(sub)
    ensures v == Sub(Defaults(sub))
    decreases sub, 4
  {
    var child := new Struct(seq(SlotCount(sub, |sub|), _ => One(Indeterminate)));
    SetToDefaults(sub, child);
    v := Sub(child.slots);
  }

  /** The first n fields hold their defaults. */
  predicate Initialised(fields: seq<Field>, m: Msg, n: nat)
    requires n <= |fields|
  {
    && |m| == SlotCount(fields, |fields|) && SlotCount(fields, n) <= |m|
    && m[..SlotCount(fields, n)] == DefaultsUpTo(fields, n)
  }

  lemma DefaultsStep(fields: seq<Field>, m: Msg, i: nat)
    requires i < |fields| && Initialised(fields, m, i)
    ensures SlotOf(fields, i) < |m|
    ensures Initialised(fields, m[SlotOf(fields, i) := DefaultSlot(fields[i])], i + 1)
  {
    SlotCountMonotone(fields, i + 1, |fields|);
    if JoinsUnion(fields, i) {
      DefaultsAt(fields, i, i - 1);
      assert m[SlotOf(fields, i)] == DefaultSlot(fields[i]);
    }
  }

  lemma AllInitialised(fields: seq<Field>, m: Msg)
    requires Initialised(fields, m, |fields|)
    ensures m == Defaults(fields)
  {
  }

  /** The field the cursor is on. */
  method DefaultAt(iter: FieldIter, dest: Struct)
    requires iter.Valid() && WellFormed(iter.fields) && iter.fields != []
    requires Initialised(iter.fields, dest.slots, iter.pos)
    modifies dest
    ensures Initialised(iter.fields, dest.slots, iter.pos + 1)
    decreases iter.fields, 2
  {
    DefaultsStep(iter.fields, dest.slots, iter.pos);
    var s := FieldSetToDefault(iter.fields[iter.pos], iter.pSize != iter.pData);
    dest.slots := dest.slots[SlotOf(iter.fields, iter.pos) := s];
  }

  /** Whatever the struct holds before, afterwards it holds the defaults. */
  method SetToDefaults(fields: seq<Field>, dest: Struct)
    requires WellFormed(fields) && |dest.slots| == SlotCount(fields, |fields|)
    modifies dest
    ensures dest.slots == Defaults(fields) && InitialMsg(fields, dest.slots)
    decreases fields, 3
  {
    DefaultsAreInitial(fields);
    TablesTerminated(fields);
    var iter := new FieldIter(fields);
    var more := iter.Begin();
    if !more {
      return;
    }
    while more
      invariant iter.Valid() && Initialised(fields, dest.slots, if more then iter.pos else |fields|)
      decreases more, |fields| - iter.pos
    {
      DefaultAt(iter, dest);
      more := iter.Next();
    }
    AllInitialised(fields, dest.slots);
  }

  // ---- Submessages ----

  /** New array entries are initialised first; others go on from what they hold. */
  method DecodeChild(sub: InStream, f: Field, prior: Value) returns (ok: bool, v: Value)
    requires sub.Valid() && WellFormedField(f) && f.ltype == LSubmessage && FitsValue(f, prior, Loose)
    requires |sub.Left()| < TWO32
    modifies sub
    ensures sub.Valid() && sub.End() <= old(sub.End()) && FitsValue(f, v, Loose)
    ensures ok ==> sub.End() == old(sub.End())
    ensures var r := DecodeValue(f, prior, Payload(old(sub.Left())));
      (ok <==> r.Some?) && (ok ==> r == Some(v))
    ensures v == if StartsOn(f, prior) then Sub(LeftMsg(f.ptr.sub, ChildStart(f, prior), old(sub.Left()))) else prior
    decreases f, 0
  {
    var fields := f.ptr.sub;
    var child: Struct;
    if f.htype == Repeated {
      child := new Struct(seq(SlotCount(fields, |fields|), _ => One(Indeterminate)));
      ok := DecodeInto(sub, fields, child);
    } else {
      if !prior.Sub? {
        return false, prior;
      }
      child := new Struct(prior.msg);
      ok := DecodeNoinitInto(sub, fields, child);
    }
    v := Sub(child.slots);
  }

  /** The parent ends up behind the payload also when the submessage met an end mark early. */
  method DecSubmessage(stream: InStream, f: Field, prior: Value) returns (ok: bool, v: Value)
    requires stream.Valid() && WellFormedField(f) && f.ltype == LSubmessage && FitsValue(f, prior, Loose)
    modifies stream
    ensures stream.Valid() && stream.End() <= old(stream.End())
    ensures Stored(f, prior, old(stream.Left()), ok, v, stream.Left()) && FitsValue(f, v, Loose)
    ensures ok ==> stream.End() == old(stream.End())
    decreases f, 1
  {
    var sub: InStream;
    ok, sub := stream.MakeStringSubstream();
    if !ok || !f.ptr.Fields? {
      return false, prior;
    }
    ok, v := DecodeChild(sub, f, prior);
    var _ := stream.CloseStringSubstream(sub);
  }

  method DecItem(stream: InStream, f: Field, prior: Value) returns (ok: bool, v: Value)
    requires stream.Valid() && WellFormedField(f) && FitsValue(f, prior, Loose)
    modifies stream
    ensures stream.Valid() && stream.End() <= old(stream.End())
    ensures Stored(f, prior, old(stream.Left()), ok, v, stream.Left()) && FitsValue(f, v, Loose)
    ensures ok ==> stream.End() == old(stream.End())
    decreases f, 2
  {
    match f.ltype
    case LVarint => ok, v := DecVarint(stream, f, prior);
    case LUVarint => ok, v := DecUvarint(stream, f, prior);
    case LSVarint => ok, v := DecSvarint(stream, f, prior);
    case LFixed32 => ok, v := DecFixed(stream, f, prior);
    case LFixed64 => ok, v := DecFixed(stream, f, prior);
    case LBytes => ok, v := DecBytes(stream, f, prior);
    case LString => ok, v := DecString(stream, f, prior);
    case LSubmessage => ok, v := DecSubmessage(stream, f, prior);
    case LFixedLengthBytes => ok, v := DecFixedLengthBytes(stream, f, prior);
  }

  // ---- One field's slot: decode_static_field ----

  predicate FitsItems(f: Field, items: seq<Value>) {
    |items| <= f.arraySize && forall v :: v in items ==> FitsValue(f, v, Loose)
  }

  /** A packed record: items until the payload is used up, the array is full, or one does not decode. */
  method DecodePackedInto(stream: InStream, f: Field, prior: seq<Value>) returns (ok: bool, items: seq<Value>)
    requires stream.Valid() && WellFormedField(f) && Packable(f.ltype) && FitsItems(f, prior)
    modifies stream
    ensures stream.Valid() && stream.End() <= old(stream.End()) && FitsItems(f, items) && prior <= items
    ensures var t := Take(AsString, old(stream.Left()));
            && (ok <==> t.Some? && DecodePacked(f, prior, t.value.0.data).Some?)
            && (ok ==> stream.Left() == t.value.1 && stream.End() == old(stream.End())
                       && DecodePacked(f, prior, t.value.0.data) == Some(items))
            && items == if t.Some? then LeftPacked(f, prior, t.value.0.data) else prior
    decreases f, 3
  {
    items := prior;
    var sub: InStream;
    ok, sub := stream.MakeStringSubstream();
    if !ok {
      return;
    }
    ghost var payload, end, parentPos, parentLeft := sub.Left(), sub.End(), stream.pos, stream.bytesLeft;
    var status := true;
    while status && sub.bytesLeft > 0 && |items| < f.arraySize
      invariant stream.Valid() && sub.Valid() && stream.pos == parentPos && stream.bytesLeft == parentLeft
      invariant sub.End() <= end && FitsItems(f, items) && prior <= items
      invariant if status then sub.End() == end && DecodePacked(f, prior, payload) == DecodePacked(f, items, sub.Left())
                else DecodePacked(f, prior, payload).None?
      invariant LeftPacked(f, prior, payload) == if status then LeftPacked(f, items, sub.Left()) else items
      decreases status, sub.bytesLeft
    {
      var v: Value;
      status, v := DecItem(sub, f, Indeterminate);
      if status {
        items := items + [v];
      }
    }
    if sub.bytesLeft != 0 {
      return false, items;
    }
    var _ := stream.CloseStringSubstream(sub);
    ok := status;
  }

  /** A required or optional field. Its has_ flag is set before the item is read. */
  method DecodeSingular(stream: InStream, wire: nat, f: Field, hasFlag: bool, s: Slot) returns (ok: bool, s': Slot)
    requires stream.Valid() && WellFormedField(f) && f.htype in {Required, Optional} && FitsSlot(f, s, Loose)
    requires f.htype == Optional ==> (hasFlag <==> f.sizeOffset != 0)
    modifies stream
    ensures stream.Valid() && stream.End() <= old(stream.End())
    ensures SlotStored(f, wire, s, old(stream.Left()), ok, s', stream.Left()) && FitsSlot(f, s', Loose)
    ensures ok ==> stream.End() == old(stream.End())
    ensures f.htype == Optional && hasFlag ==> s'.has
    decreases f, 4
  {
    var v: Value;
    ok, v := DecItem(stream, f, s.value);
    s' := if f.htype == Optional && hasFlag then Opt(true, v) else One(v);
  }

  /** A packed record, or one more item, for which the count is raised before it is read. Items that the array already
      holds stay as they are. */
  method DecodeRepeated(stream: InStream, wire: nat, f: Field, s: Slot) returns (ok: bool, s': Slot)
    requires stream.Valid() && WellFormedField(f) && f.htype == Repeated && FitsSlot(f, s, Loose)
    modifies stream
    ensures stream.Valid() && stream.End() <= old(stream.End())
    ensures SlotStored(f, wire, s, old(stream.Left()), ok, s', stream.Left()) && FitsSlot(f, s', Loose)
    ensures ok ==> stream.End() == old(stream.End())
    ensures s.items <= s'.items
    decreases f, 4
  {
    if wire == WT_STRING && Packable(f.ltype) {
      var items: seq<Value>;
      ok, items := DecodePackedInto(stream, f, s.items);
      s' := Many(items);
    } else {
      if |s.items| >= f.arraySize {
        return false, s;
      }
      var v: Value;
      ok, v := DecItem(stream, f, Indeterminate);
      s' := Many(s.items + [v]);
    }
  }

  /** A member of a union. The which_ member is set before it is read, and a submessage starts over. */
  method DecodeMember(stream: InStream, wire: nat, f: Field, s: Slot) returns (ok: bool, s': Slot)
    requires stream.Valid() && WellFormedField(f) && f.htype == Oneof && FitsSlot(f, s, Loose)
    modifies stream
    ensures stream.Valid() && stream.End() <= old(stream.End())
    ensures SlotStored(f, wire, s, old(stream.Left()), ok, s', stream.Left()) && FitsSlot(f, s', Loose)
    ensures ok ==> stream.End() == old(stream.End())
    ensures s'.which == f.tag
    decreases f, 4
  {
    var start := if s.which == f.tag then s.value else Indeterminate;
    if f.ltype == LSubmessage {
      start := FreshSubmessage(f.ptr.sub);
      DefaultSlotFits(f);
      FitsWeakens(f, DefaultValue(f), Determined, Loose);
    }
    var v: Value;
    ok, v := DecItem(stream, f, start);
    s' := Union(f.tag, v);
  }

  method DecodeSlotInto(stream: InStream, wire: nat, f: Field, hasFlag: bool, s: Slot) returns (ok: bool, s': Slot)
    requires stream.Valid() && WellFormedField(f) && FitsSlot(f, s, Loose)
    requires f.htype == Optional ==> (hasFlag <==> f.sizeOffset != 0)
    modifies stream
    ensures stream.Valid() && stream.End() <= old(stream.End())
    ensures SlotStored(f, wire, s, old(stream.Left()), ok, s', stream.Left()) && FitsSlot(f, s', Loose)
    ensures ok ==> stream.End() == old(stream.End())
    ensures f.htype == Oneof ==> s'.which == f.tag
    ensures f.htype == Optional && hasFlag ==> s'.has
    ensures f.htype == Repeated ==> s.items <= s'.items
    decreases f, 5
  {
    match f.htype
    case Required => ok, s' := DecodeSingular(stream, wire, f, hasFlag, s);
    case Optional => ok, s' := DecodeSingular(stream, wire, f, hasFlag, s);
    case Repeated => ok, s' := DecodeRepeated(stream, wire, f, s);
    case Oneof => ok, s' := DecodeMember(stream, wire, f, s);
  }

  // ---- Records ----

  /** The field the cursor is on. Nothing but its own slot is written. */
  method DecodeField(stream: InStream, wire: nat, iter: FieldIter, dest: Struct) returns (ok: bool)
    requires stream.Valid() && iter.Valid() && iter.fields != [] && WellFormed(iter.fields)
    requires FitsMsg(iter.fields, dest.slots, Loose)
    modifies stream, dest
    ensures stream.Valid() && stream.End() <= old(stream.End()) && FitsMsg(iter.fields, dest.slots, Loose)
    ensures var k := SlotOf(iter.fields, iter.pos);
      && k < |old(dest.slots)| && dest.slots == old(dest.slots)[k := dest.slots[k]]
      && SlotStored(iter.fields[iter.pos], wire, old(dest.slots)[k], old(stream.Left()), ok, dest.slots[k],
                    stream.Left())
    ensures ok ==> stream.End() == old(stream.End())
    decreases iter.fields, 4
  {
    var f, k := iter.fields[iter.pos], SlotOf(iter.fields, iter.pos);
    SlotInRange(iter.fields, iter.pos);
    assert FitsSlot(f, dest.slots[k], Loose);
    var s: Slot;
    ok, s := DecodeSlotInto(stream, wire, f, iter.pSize != iter.pData, dest.slots[k]);
    SlotUpdateFits(iter.fields, dest.slots, iter.pos, s, Loose);
    dest.slots := dest.slots[k := s];
  }

  /** fields_seen[required_field_index >> 5] |= 1 << (required_field_index & 31) */
  method MarkSeen(iter: FieldIter, fieldsSeen: array<nat>, ghost bits: seq<bool>, ghost seen: set<nat>)
    returns (ghost bits': seq<bool>)
    requires iter.Valid() && iter.fields != [] && fieldsSeen.Length == 2
    requires Marks(iter.fields, bits, seen) && fieldsSeen[..] == Words(bits)
    modifies fieldsSeen
    ensures Marks(iter.fields, bits', seen + {iter.pos}) && fieldsSeen[..] == Words(bits')
  {
    bits' := bits;
    MarkOne(iter.fields, bits, seen, iter.pos);
    if iter.Rule() == Required && iter.requiredFieldIndex < 64 {
      var b := iter.requiredFieldIndex;
      MarkWord(bits, b);
      bits' := bits[b := true];
      assert fieldsSeen[b / 32] == fieldsSeen[..][b / 32];
      fieldsSeen[b / 32] := OrBit(fieldsSeen[b / 32], b % 32);
    }
  }

  /** A record whose tag has been read: stored, or skipped when the table does not know it. */
  method DecodeBody(stream: InStream, wire: nat, tag: nat, iter: FieldIter, dest: Struct, fieldsSeen: array<nat>,
                    ghost bits: seq<bool>, ghost seen: set<nat>)
    returns (ok: bool, ghost bits': seq<bool>)
    requires stream.Valid() && iter.Valid() && WellFormed(iter.fields) && FitsMsg(iter.fields, dest.slots, Loose)
    requires fieldsSeen.Length == 2 && Marks(iter.fields, bits, seen) && fieldsSeen[..] == Words(bits)
    modifies stream, iter, dest, fieldsSeen
    ensures stream.Valid() && stream.End() <= old(stream.End()) && FitsMsg(iter.fields, dest.slots, Loose)
    ensures var r := DecodeRecord(iter.fields, old(dest.slots), tag, wire, old(stream.Left()));
      (ok <==> r.Some?) && (ok ==> r == Some((dest.slots, stream.Left())) && stream.End() == old(stream.End()))
    ensures dest.slots == LeftRecord(iter.fields, old(dest.slots), tag, wire, old(stream.Left()))
    ensures iter.Valid()
    ensures ok ==> Marks(iter.fields, bits', seen + SeenBy(iter.fields, tag)) && fieldsSeen[..] == Words(bits')
    decreases iter.fields, 5
  {
    bits' := bits;
    var found := iter.Search(tag);
    if !found {
      ok := stream.SkipField(wire);
      assert seen + {} == seen;
      return;
    }
    if iter.fields == [] {
      // on the terminator, which reads as a varint of no size
      var _, _ := stream.DecodeVarint();
      return false, bits;
    }
    bits' := MarkSeen(iter, fieldsSeen, bits, seen);
    ok := DecodeField(stream, wire, iter, dest);
  }

  /** One turn of the record loop: a record, an end mark, or an error. */
  method DecodeOne(stream: InStream, iter: FieldIter, dest: Struct, fieldsSeen: array<nat>,
                   ghost bits: seq<bool>, ghost seen: set<nat>)
    returns (ok: bool, eof: bool, ghost bits': seq<bool>, ghost seen': set<nat>)
    requires stream.Valid() && iter.Valid() && WellFormed(iter.fields) && FitsMsg(iter.fields, dest.slots, Loose)
    requires fieldsSeen.Length == 2 && Marks(iter.fields, bits, seen) && fieldsSeen[..] == Words(bits)
    requires stream.bytesLeft > 0
    modifies stream, iter, dest, fieldsSeen
    ensures stream.Valid() && stream.End() <= old(stream.End()) && FitsMsg(iter.fields, dest.slots, Loose)
    ensures DecodeRecords(iter.fields, old(dest.slots), seen, old(stream.Left())) ==
            if ok then DecodeRecords(iter.fields, dest.slots, seen', stream.Left())
            else if eof then Some(Run(dest.slots, seen', stream.Left(), true)) else None
    ensures LeftMsg(iter.fields, old(dest.slots), old(stream.Left())) ==
            if ok then LeftMsg(iter.fields, dest.slots, stream.Left()) else dest.slots
    ensures ok || eof ==> stream.End() == old(stream.End())
                          && Marks(iter.fields, bits', seen') && fieldsSeen[..] == Words(bits')
    ensures iter.Valid() && (ok ==> !eof && stream.bytesLeft < old(stream.bytesLeft))
    decreases iter.fields, 6
  {
    bits', seen' := bits, seen;
    var wire, tag;
    ok, wire, tag, eof := stream.DecodeTag();
    if ok {
      ok, bits' := DecodeBody(stream, wire, tag, iter, dest, fieldsSeen, bits, seen);
      seen' := seen + SeenBy(iter.fields, tag);
    }
  }

  /** The record loop: to the end of the stream or to an end mark. */
  method DecodeAll(stream: InStream, iter: FieldIter, dest: Struct, fieldsSeen: array<nat>)
    returns (ok: bool, ghost bits: seq<bool>, ghost seen: set<nat>)
    requires stream.Valid() && iter.Valid() && WellFormed(iter.fields) && FitsMsg(iter.fields, dest.slots, Loose)
    requires fieldsSeen.Length == 2 && fieldsSeen[..] == [0, 0]
    modifies stream, iter, dest, fieldsSeen
    ensures stream.Valid() && stream.End() <= old(stream.End()) && FitsMsg(iter.fields, dest.slots, Loose)
    ensures iter.Valid()
    ensures var r := DecodeRecords(iter.fields, old(dest.slots), {}, old(stream.Left()));
      && (ok <==> r.Some?)
      && (ok ==> r.value.msg == dest.slots && r.value.seen == seen && r.value.rest == stream.Left())
    ensures dest.slots == LeftMsg(iter.fields, old(dest.slots), old(stream.Left()))
    ensures ok ==> stream.End() == old(stream.End()) && Marks(iter.fields, bits, seen) && fieldsSeen[..] == Words(bits)
    decreases iter.fields, 7
  {
    ghost var fields, end := iter.fields, stream.End();
    bits, seen := NoBits(), {};
    NothingMarked(fields, bits);
    ghost var whole := DecodeRecords(fields, dest.slots, {}, stream.Left());
    ghost var final := LeftMsg(fields, dest.slots, stream.Left());
    var eof := false;
    while stream.bytesLeft > 0 && !eof
      invariant stream.Valid() && stream.End() == end && FitsMsg(fields, dest.slots, Loose)
      invariant iter.Valid() && Marks(fields, bits, seen) && fieldsSeen[..] == Words(bits)
      invariant whole == if eof then Some(Run(dest.slots, seen, stream.Left(), true))
                         else DecodeRecords(fields, dest.slots, seen, stream.Left())
      invariant final == if eof then dest.slots else LeftMsg(fields, dest.slots, stream.Left())
      decreases !eof, stream.bytesLeft
    {
      ok, eof, bits, seen := DecodeOne(stream, iter, dest, fieldsSeen, bits, seen);
      if !ok && !eof {
        assert whole == None && final == dest.slots;
        return;
      }
    }
    assert !eof ==> stream.Left() == [];
    assert whole.Some? && whole.value.msg == dest.slots && final == dest.slots;
    ok := true;
  }

  /** How many required fields the table has is only known at its end; then the words are compared. */
  method CheckRequired(iter: FieldIter, fieldsSeen: array<nat>) returns (ok: bool)
    requires iter.Valid() && fieldsSeen.Length == 2 && RequiredCountOk(RequiredBefore(iter.fields, |iter.fields|))
    modifies iter
    ensures ok <==> AllMarked(fieldsSeen[..], RequiredBefore(iter.fields, |iter.fields|))
  {
    var count: nat, last, more := 0, Required, true;
    while more
      invariant iter.Valid()
      invariant !more ==> iter.pos == 0 && if iter.fields == [] then count == 0
        else count == RequiredBefore(iter.fields, |iter.fields| - 1) && last == iter.fields[|iter.fields| - 1].htype
      decreases more, |iter.fields| - iter.pos
    {
      count, last := iter.requiredFieldIndex, iter.Rule();
      more := iter.Next();
    }
    if last == Required && iter.Tag() != 0 {
      count := count + 1;
    }
    assert count == RequiredBefore(iter.fields, |iter.fields|);
    if count > 0 {
      var i := 0;
      while i < count / 32
        invariant i <= count / 32 && forall j :: 0 <= j < i ==> fieldsSeen[j] == TWO32 - 1
      {
        if fieldsSeen[i] != TWO32 - 1 {
          assert fieldsSeen[..][i] != TWO32 - 1;
          return false;
        }
        i := i + 1;
      }
      if fieldsSeen[count / 32] != (TWO32 - 1) / Pow2(32 - count % 32) {
        return false;
      }
    }
    return true;
  }

  /** pb_decode_noinit: the records, then the test for required fields. */
  method DecodeNoinitInto(stream: InStream, fields: seq<Field>, dest: Struct) returns (ok: bool)
    requires stream.Valid() && WellFormed(fields) && FitsMsg(fields, dest.slots, Loose)
    modifies stream, dest
    ensures stream.Valid() && stream.End() <= old(stream.End()) && FitsMsg(fields, dest.slots, Loose)
    ensures DecodeNoinit(fields, old(dest.slots), old(stream.Left()))
            == if ok then Some((dest.slots, stream.Left())) else None
    ensures ok ==> stream.End() == old(stream.End())
    ensures ok <==> var r := DecodeRecords(fields, old(dest.slots), {}, old(stream.Left()));
                    r.Some? && forall i :: 0 <= i < |fields| && fields[i].htype == Required ==> i in r.value.seen
    ensures dest.slots == LeftMsg(fields, old(dest.slots), old(stream.Left()))
    ensures Contained(fields, old(dest.slots), old(stream.Left()), dest.slots)
    decreases fields, 8
  {
    TablesTerminated(fields);
    ghost var was, bs := dest.slots, stream.Left();
    ghost var left := LeftMsg(fields, was, bs);
    assert Contained(fields, was, bs, left) by { LeftIsContained(fields, was, bs); }
    var fieldsSeen := new nat[2][0, 0];
    var iter := new FieldIter(fields);
    var _ := iter.Begin();
    ghost var bits, seen;
    ok, bits, seen := DecodeAll(stream, iter, dest, fieldsSeen);
    if ok {
      ok := CheckRequired(iter, fieldsSeen);
      AllMarkedIff(fields, bits, seen);
    }
    assert dest.slots == left;
  }

  /** pb_decode. */
  method DecodeInto(stream: InStream, fields: seq<Field>, dest: Struct) returns (ok: bool)
    requires stream.Valid() && WellFormed(fields) && |dest.slots| == SlotCount(fields, |fields|)
    modifies stream, dest
    ensures stream.Valid() && stream.End() <= old(stream.End()) && FitsMsg(fields, dest.slots, Loose)
    ensures Decode(fields, old(stream.Left())) == if ok then Some((dest.slots, stream.Left())) else None
    ensures ok ==> stream.End() == old(stream.End()) && FitsMsg(fields, dest.slots, Determined)
    ensures dest.slots == LeftMsg(fields, Defaults(fields), old(stream.Left()))
    ensures Contained(fields, Defaults(fields), old(stream.Left()), dest.slots)
    decreases fields, 9
  {
    SetToDefaults(fields, dest);
    DefaultsFit(fields);
    FitsMsgWeakens(fields, dest.slots, Determined, Loose);
    DecodedFits(fields, stream.Left());
    ok := DecodeNoinitInto(stream, fields, dest);
  }

  /** The struct that a frame leaves: what its payload leaves, and without a complete frame an untouched one. */
  predicate FrameLeaves(fields: seq<Field>, was: Msg, bs: bytes, left: Msg) {
    match Take(AsString, bs)
    case None => left == was
    case Some((c, _)) => left == LeftMsg(fields, Defaults(fields), c.data) && FitsMsg(fields, left, Loose)
  }

  /** pb_decode_delimited. */
  method DecodeDelimitedInto(stream: InStream, fields: seq<Field>, dest: Struct) returns (ok: bool)
    requires stream.Valid() && WellFormed(fields) && |dest.slots| == SlotCount(fields, |fields|)
    modifies stream, dest
    ensures stream.Valid() && stream.End() <= old(stream.End())
    ensures DecodeDelimited(fields, old(stream.Left())) == if ok then Some((dest.slots, stream.Left())) else None
    ensures ok ==> stream.End() == old(stream.End()) && FitsMsg(fields, dest.slots, Determined)
    ensures FrameLeaves(fields, old(dest.slots), old(stream.Left()), dest.slots)
  {
    var sub: InStream;
    ok, sub := stream.MakeStringSubstream();
    if !ok {
      return;
    }
    ghost var payload := sub.Left();
    ok := DecodeInto(sub, fields, dest);
    ghost var slots := dest.slots;
    assert ok ==> Decode(fields, payload).value.0 == slots;
    var _ := stream.CloseStringSubstream(sub);
    assert dest.slots == slots;
  }
}
