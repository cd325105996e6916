/** The encoder (pb_encode.c): imperative writers, proved against the wire format. */
module Encoder {
  import opened Common
  import opened Wire
  import opened Descriptor
  import opened Format
  import opened Iterator
  import opened OutStreams

  // ---- Values of the C types that the table names ----

  /** Byte totals fit size_t. */
  predicate SizeFits(e: Option<bytes>) {
    e.Some? ==> |e.value| < TWO64
  }

  /** The C type system: a value of the field's own kind, with no claim about ranges, lengths or terminators. */
  predicate ShapedValue(f: Field, v: Value, z: Memory)
    decreases f, 0
  {
    match f.ltype
    case LBytes | LString => v.Buf?
    case LFixedLengthBytes => v.Buf? && |v.data| == f.dataSize
    case LSubmessage =>
      v.Sub? && f.ptr.Fields? && ShapedMsg(f.ptr.sub, v.msg, z) && SizeFits(EncodeMsg(f.ptr.sub, v.msg, z))
    case _ => v.Num?
  }

  predicate ShapedItems(f: Field, items: seq<Value>, z: Memory)
    decreases f, 1
  {
    forall k :: 0 <= k < |items| ==> ShapedValue(f, items[k], z.In(k))
  }

  predicate ShapedSlot(f: Field, s: Slot, z: Memory)
    decreases f, 2
  {
    match f.htype
    case Required => s.One? && ShapedValue(f, s.value, z)
    case Optional =>
      if f.sizeOffset == 0 then s.One? && (TestsUnset(f, s.value, z) || ShapedValue(f, s.value, z))
      else s.Opt? && (s.has ==> ShapedValue(f, s.value, z))
    case Repeated => s.Many? && ShapedItems(f, s.items, z)
    case Oneof => s.Union? && (s.which == f.tag ==> ShapedValue(f, s.value, z))
  }

  predicate ShapedMsg(fields: seq<Field>, m: Msg, z: Memory)
    decreases fields, 2
  {
    && |m| == SlotCount(fields, |fields|)
    && forall i {:trigger SlotOf(fields, i)} :: 0 <= i < |fields| ==>
         (SlotInRange(fields, i); ShapedSlot(fields[i], m[SlotOf(fields, i)], z.In(fields[i].tag)))
  }

  // ---- Scalars ----

  method EncodeSvarint(st: OutStream, value: int) returns (ok: bool)
    requires st.Valid() && -(TWO64 / 2) <= value < TWO64 / 2
    modifies st, st.buf
    ensures st.Valid() && Emits(old(st.Now()), st.Now(), Some(Varint(ZigZag(value))), ok)
  {
    // the cast to uint64_t, shifted left by one in 64 bits, and complemented when negative
    var shifted := (2 * (value % TWO64)) % TWO64;
    var zigzagged := if value < 0 then TWO64 - 1 - shifted else shifted;
    ok := st.EncodeVarint(zigzagged);
  }

  lemma LittleEndianOfFour(v: nat)
    ensures LittleEndian(v, 4) == [v % 256, v / 0x100 % 256, v / 0x1_0000 % 256, v / 0x100_0000 % 256]
  {
    assert v / 256 / 256 == v / 0x1_0000;
    assert v / 256 / 256 / 256 == v / 0x100_0000;
    assert LittleEndian(v / 0x100_0000, 1) == [v / 0x100_0000 % 256] + LittleEndian(v / 0x100_0000 / 256, 0);
    assert LittleEndian(v / 0x1_0000, 2) == [v / 0x1_0000 % 256] + LittleEndian(v / 0x100_0000, 1);
    assert LittleEndian(v / 0x100, 3) == [v / 0x100 % 256] + LittleEndian(v / 0x1_0000, 2);
  }

  lemma LittleEndianOfEight(v: nat)
    ensures LittleEndian(v, 8) ==
            LittleEndian(v, 4) + LittleEndian(v / TWO32, 4)
  {
    assert v / 256 / 256 == v / 0x1_0000;
    assert v / 256 / 256 / 256 == v / 0x100_0000;
    assert v / 256 / 256 / 256 / 256 == v / TWO32;
    assert LittleEndian(v / 0x100_0000, 1) == [v / 0x100_0000 % 256] + LittleEndian(v / TWO32, 0);
    assert LittleEndian(v / 0x100_0000, 5) == [v / 0x100_0000 % 256] + LittleEndian(v / TWO32, 4);
    assert LittleEndian(v / 0x1_0000, 6) == [v / 0x1_0000 % 256] + LittleEndian(v / 0x100_0000, 5);
    assert LittleEndian(v / 0x100, 7) == [v / 0x100 % 256] + LittleEndian(v / 0x1_0000, 6);
    assert LittleEndian(v, 8) == [v % 256] + LittleEndian(v / 0x100, 7);
    LittleEndianOfFour(v);
  }

  method EncodeFixed32(st: OutStream, val: nat) returns (ok: bool)
    requires st.Valid() && val < TWO32
    modifies st, st.buf
    ensures st.Valid() && Emits(old(st.Now()), st.Now(), Some(LittleEndian(val, 4)), ok)
  {
    LittleEndianOfFour(val);
    ok := st.WriteBytes([val % 256, val / 0x100 % 256, val / 0x1_0000 % 256, val / 0x100_0000 % 256]);
  }

  method EncodeFixed64(st: OutStream, val: nat) returns (ok: bool)
    requires st.Valid() && val < TWO64
    modifies st, st.buf
    ensures st.Valid() && Emits(old(st.Now()), st.Now(), Some(LittleEndian(val, 8)), ok)
  {
    LittleEndianOfFour(val);
    LittleEndianOfFour(val / TWO32);
    LittleEndianOfEight(val);
    ok := st.WriteBytes([
      val % 256, val / 0x100 % 256, val / 0x1_0000 % 256, val / 0x100_0000 % 256,
      val / TWO32 % 256, val / TWO32 / 0x100 % 256, val / TWO32 / 0x1_0000 % 256, val / TWO32 / 0x100_0000 % 256]);
  }

  method EncodeTag(st: OutStream, wire: nat, tag: nat) returns (ok: bool)
    requires st.Valid() && wire < 8 && tag < TWO32
    modifies st, st.buf
    ensures st.Valid() && Emits(old(st.Now()), st.Now(), Some(TagBytes(wire, tag)), ok)
  {
    ok := st.EncodeVarint(8 * tag + wire);
  }

  method EncodeString(st: OutStream, data: bytes) returns (ok: bool)
    requires st.Valid() && |data| < TWO64
    modifies st, st.buf
    ensures st.Valid() && Emits(old(st.Now()), st.Now(), Some(ChunkBytes(Payload(data))), ok)
  {
    ghost var start := st.Now();
    ok := st.EncodeVarint(|data|);
    ghost var mid := st.Now();
    if ok {
      ok := st.WriteBytes(data);
      EmitsChain(start, mid, st.Now(), Varint(|data|), Some(data), ok);
    } else {
      EmitsStops(start, mid, Some(Varint(|data|)), Some(Varint(|data|) + data));
    }
  }

  // ---- One item: the PB_ENCODERS table ----

  method EncVarint(st: OutStream, f: Field, v: Value, ghost z: Memory) returns (ok: bool)
    requires st.Valid() && f.ltype == LVarint && v.Num?
    modifies st, st.buf
    ensures st.Valid() && Emits(old(st.Now()), st.Now(), EncodeValue(f, v, z), ok)
  {
    if f.dataSize !in {1, 2, 4, 8} {
      return false;
    }
    ok := st.EncodeVarint(CastUnsigned(v.n, 8));
  }

  method EncUvarint(st: OutStream, f: Field, v: Value, ghost z: Memory) returns (ok: bool)
    requires st.Valid() && f.ltype == LUVarint && v.Num?
    modifies st, st.buf
    ensures st.Valid() && Emits(old(st.Now()), st.Now(), EncodeValue(f, v, z), ok)
  {
    if f.dataSize !in {1, 2, 4, 8} {
      return false;
    }
    ok := st.EncodeVarint(CastUnsigned(v.n, 8));
  }

  method EncSvarint(st: OutStream, f: Field, v: Value, ghost z: Memory) returns (ok: bool)
    requires st.Valid() && f.ltype == LSVarint && v.Num?
    modifies st, st.buf
    ensures st.Valid() && Emits(old(st.Now()), st.Now(), EncodeValue(f, v, z), ok)
  {
    if f.dataSize !in {1, 2, 4, 8} {
      return false;
    }
    ok := EncodeSvarint(st, CastSigned(v.n, 8));
  }

  method EncBytes(st: OutStream, f: Field, v: Value, ghost z: Memory) returns (ok: bool)
    requires st.Valid() && f.ltype == LBytes && v.Buf? && f.dataSize < TWO64
    modifies st, st.buf
    ensures st.Valid() && Emits(old(st.Now()), st.Now(), EncodeValue(f, v, z), ok)
  {
    if |v.data| + BYTES_HEADER > f.dataSize {
      return false;
    }
    ok := EncodeString(st, v.data);
  }

  /** Measures the string with a loop, up to its NUL or the size of its buffer. */
  method EncString(st: OutStream, f: Field, v: Value, ghost z: Memory) returns (ok: bool)
    requires st.Valid() && f.ltype == LString && v.Buf? && f.dataSize < TWO64
    modifies st, st.buf
    ensures st.Valid() && Emits(old(st.Now()), st.Now(), EncodeValue(f, v, z), ok)
  {
    var size: nat := 0;
    while size < f.dataSize && size < |v.data| && v.data[size] != 0
      modifies {}
      invariant size <= f.dataSize && size <= |v.data| && 0 !in v.data[..size]
    {
      size := size + 1;
    }
    MeasuredString(v.data, f.dataSize, size);
    ok := EncodeString(st, v.data[..size]);
  }

  lemma MeasuredString(data: bytes, max: nat, size: nat)
    requires size <= max && size <= |data| && 0 !in data[..size]
    requires size < max && size < |data| ==> data[size] == 0
    ensures data[..size] == Clip(UpToNul(data), max)
  {
    var s := UpToNul(data);
    assert forall k :: 0 <= k < |s| ==> s[k] == data[k] && s[k] in s;
    if size < |s| {
      assert size == max;
    }
  }

  method EncFixedLengthBytes(st: OutStream, f: Field, v: Value, ghost z: Memory) returns (ok: bool)
    requires st.Valid() && f.ltype == LFixedLengthBytes && v.Buf? && |v.data| == f.dataSize < TWO64
    modifies st, st.buf
    ensures st.Valid() && Emits(old(st.Now()), st.Now(), EncodeValue(f, v, z), ok)
  {
    ok := EncodeString(st, v.data);
  }

  method EncSubmessage(st: OutStream, f: Field, v: Value, z: Memory) returns (ok: bool)
    requires st.Valid() && f.ltype == LSubmessage && WellFormedField(f) && ShapedValue(f, v, z)
    modifies st, st.buf
    ensures st.Valid() && Emits(old(st.Now()), st.Now(), EncodeValue(f, v, z), ok)
    decreases f, 0, 0
  {
    ok := EncodeSubmessage(st, f.ptr.sub, v.msg, z);
  }

  method EncodeItem(st: OutStream, f: Field, v: Value, z: Memory) returns (ok: bool)
    requires st.Valid() && WellFormedField(f) && ShapedValue(f, v, z)
    modifies st, st.buf
    ensures st.Valid() && Emits(old(st.Now()), st.Now(), EncodeValue(f, v, z), ok)
    decreases f, 1, 0
  {
    match f.ltype
    case LVarint => ok := EncVarint(st, f, v, z);
    case LUVarint => ok := EncUvarint(st, f, v, z);
    case LSVarint => ok := EncSvarint(st, f, v, z);
    case LFixed32 => ok := EncodeFixed32(st, CastUnsigned(v.n, 4));
    case LFixed64 => ok := EncodeFixed64(st, CastUnsigned(v.n, 8));
    case LBytes => ok := EncBytes(st, f, v, z);
    case LString => ok := EncString(st, f, v, z);
    case LSubmessage => ok := EncSubmessage(st, f, v, z);
    case LFixedLengthBytes => ok := EncFixedLengthBytes(st, f, v, z);
  }

  method EncodeTagForField(st: OutStream, f: Field) returns (ok: bool)
    requires st.Valid() && f.tag < TWO32
    modifies st, st.buf
    ensures st.Valid() && Emits(old(st.Now()), st.Now(), Some(TagBytes(WireOf(f.ltype), f.tag)), ok)
  {
    var wire;
    match f.ltype {
      case LVarint | LUVarint | LSVarint => wire := 0;
      case LFixed32 => wire := 5;
      case LFixed64 => wire := 1;
      case LBytes | LString | LSubmessage | LFixedLengthBytes => wire := 2;
    }
    ok := EncodeTag(st, wire, f.tag);
  }

  method EncodeOne(st: OutStream, f: Field, v: Value, z: Memory) returns (ok: bool)
    requires st.Valid() && WellFormedField(f) && ShapedValue(f, v, z)
    modifies st, st.buf
    ensures st.Valid() && Emits(old(st.Now()), st.Now(), EncodeRecord(f, v, z), ok)
    decreases f, 2, 0
  {
    ghost var start, tag := st.Now(), TagBytes(WireOf(f.ltype), f.tag);
    ok := EncodeTagForField(st, f);
    ghost var mid := st.Now();
    if ok {
      ok := EncodeItem(st, f, v, z);
      EmitsChain(start, mid, st.Now(), tag, EncodeValue(f, v, z), ok);
    } else {
      EmitsStops(start, mid, Some(tag), EncodeRecord(f, v, z));
    }
  }

  // ---- Arrays ----

  lemma {:induction false} ItemsPrefix(f: Field, items: seq<Value>, k: nat, n: nat, z: Memory)
    requires k <= n <= |items|
    ensures EncodeItems(f, items, n, z).Some? ==>
              EncodeItems(f, items, k, z).Some?
              && EncodeItems(f, items, k, z).value <= EncodeItems(f, items, n, z).value
    ensures EncodeRecords(f, items, n, z).Some? ==>
              EncodeRecords(f, items, k, z).Some?
              && EncodeRecords(f, items, k, z).value <= EncodeRecords(f, items, n, z).value
    decreases n
  {
    if k < n {
      ItemsPrefix(f, items, k, n - 1, z);
    }
  }

  /** The shortcut sizes of packed words, and the bound that keeps the length of a packed array in size_t. */
  lemma {:induction false} PackedSize(f: Field, items: seq<Value>, n: nat, z: Memory)
    requires n <= |items| && Packable(f.ltype) && EncodeItems(f, items, n, z).Some?
    ensures |EncodeItems(f, items, n, z).value| <= 10 * n
    ensures f.ltype == LFixed32 ==> |EncodeItems(f, items, n, z).value| == 4 * n
    ensures f.ltype == LFixed64 ==> |EncodeItems(f, items, n, z).value| == 8 * n
    decreases n
  {
    if n > 0 {
      PackedSize(f, items, n - 1, z);
      match ToChunk(f, items[n - 1], z.In(n - 1)).value
      case Number(u) => VarintFits(u);
      case _ =>
    }
  }

  lemma {:induction false} WordsEncode(f: Field, items: seq<Value>, n: nat, z: Memory)
    requires n <= |items| && f.ltype in {LFixed32, LFixed64} && forall v :: v in items ==> v.Num?
    ensures EncodeItems(f, items, n, z).Some?
    decreases n
  {
    if n > 0 {
      WordsEncode(f, items, n - 1, z);
      assert items[n - 1] in items;
      assert ToChunk(f, items[n - 1], z.In(n - 1)).Some?;
    }
  }

  /** The next item of a packed array, behind those before it. */
  method EncodeItemAt(st: OutStream, f: Field, items: seq<Value>, i: nat, z: Memory, ghost start: View,
                      ghost sofar: Option<bytes>)
    returns (ok: bool, ghost next: Option<bytes>)
    requires st.Valid() && WellFormedField(f) && ShapedItems(f, items, z) && i < |items|
    requires sofar == EncodeItems(f, items, i, z) && Emits(start, st.Now(), sofar, true)
    modifies st, st.buf
    ensures st.Valid() && next == EncodeItems(f, items, i + 1, z)
    ensures if ok then Emits(start, st.Now(), next, true)
            else Emits(start, st.Now(), EncodeItems(f, items, |items|, z), false)
    decreases f, 2, 0
  {
    ghost var mid := st.Now();
    ok := EncodeItem(st, f, items[i], z.In(i));
    EmitsChain(start, mid, st.Now(), sofar.value, EncodeValue(f, items[i], z.In(i)), ok);
    next := EncodeItems(f, items, i + 1, z);
    if !ok {
      ItemsPrefix(f, items, i + 1, |items|, z);
      EmitsStops(start, st.Now(), next, EncodeItems(f, items, |items|, z));
    }
  }

  /** The items without tags, as both passes over a packed array write them. */
  method EncodeItemsLoop(st: OutStream, f: Field, items: seq<Value>, z: Memory) returns (ok: bool)
    requires st.Valid() && WellFormedField(f) && ShapedItems(f, items, z)
    modifies st, st.buf
    ensures st.Valid() && Emits(old(st.Now()), st.Now(), EncodeItems(f, items, |items|, z), ok)
    decreases f, 3, 0
  {
    var i := 0;
    ghost var start, sofar := st.Now(), Some([]);
    while i < |items|
      invariant i <= |items| && sofar == EncodeItems(f, items, i, z)
      invariant st.Valid() && Emits(start, st.Now(), sofar, true)
    {
      ok, sofar := EncodeItemAt(st, f, items, i, z, start, sofar);
      if !ok {
        return false;
      }
      i := i + 1;
    }
    return true;
  }

  /** The next item of an array that is not packed, with its tag. */
  method EncodeRecordAt(st: OutStream, f: Field, items: seq<Value>, i: nat, z: Memory, ghost start: View,
                        ghost sofar: Option<bytes>)
    returns (ok: bool, ghost next: Option<bytes>)
    requires st.Valid() && WellFormedField(f) && ShapedItems(f, items, z) && i < |items|
    requires sofar == EncodeRecords(f, items, i, z) && Emits(start, st.Now(), sofar, true)
    modifies st, st.buf
    ensures st.Valid() && next == EncodeRecords(f, items, i + 1, z)
    ensures if ok then Emits(start, st.Now(), next, true)
            else Emits(start, st.Now(), EncodeRecords(f, items, |items|, z), false)
    decreases f, 3, 0
  {
    ghost var mid := st.Now();
    ok := EncodeOne(st, f, items[i], z.In(i));
    EmitsChain(start, mid, st.Now(), sofar.value, EncodeRecord(f, items[i], z.In(i)), ok);
    next := EncodeRecords(f, items, i + 1, z);
    if !ok {
      ItemsPrefix(f, items, i + 1, |items|, z);
      EmitsStops(start, st.Now(), next, EncodeRecords(f, items, |items|, z));
    }
  }

  method EncodeRecordsLoop(st: OutStream, f: Field, items: seq<Value>, z: Memory) returns (ok: bool)
    requires st.Valid() && WellFormedField(f) && ShapedItems(f, items, z)
    modifies st, st.buf
    ensures st.Valid() && Emits(old(st.Now()), st.Now(), EncodeRecords(f, items, |items|, z), ok)
    decreases f, 4, 0
  {
    var i := 0;
    ghost var start, sofar := st.Now(), Some([]);
    while i < |items|
      invariant i <= |items| && sofar == EncodeRecords(f, items, i, z)
      invariant st.Valid() && Emits(start, st.Now(), sofar, true)
    {
      ok, sofar := EncodeRecordAt(st, f, items, i, z, start, sofar);
      if !ok {
        return false;
      }
      i := i + 1;
    }
    return true;
  }

  /** How long the items are: a shortcut for words, a sizing stream otherwise. */
  method MeasureItems(f: Field, items: seq<Value>, z: Memory) returns (ok: bool, size: nat)
    requires WellFormedField(f) && Packable(f.ltype) && ShapedItems(f, items, z)
    ensures ok <==> EncodeItems(f, items, |items|, z).Some?
    ensures ok ==> size == |EncodeItems(f, items, |items|, z).value| && size <= 10 * |items|
    decreases f, 4, 0
  {
    var count := |items|;
    if f.ltype == LFixed32 {
      WordsEncode(f, items, count, z);
      ok, size := true, 4 * count;
    } else if f.ltype == LFixed64 {
      WordsEncode(f, items, count, z);
      ok, size := true, 8 * count;
    } else {
      var sizes := new OutStream.Sizing();
      ok := EncodeItemsLoop(sizes, f, items, z);
      size := sizes.bytesWritten;
    }
    if ok {
      PackedSize(f, items, count, z);
    }
  }

  /** The payload of a packed array: its length, then the items, unless the stream only counts. */
  method EncodePackedPayload(st: OutStream, f: Field, items: seq<Value>, size: nat, z: Memory) returns (ok: bool)
    requires st.Valid() && WellFormedField(f) && ShapedItems(f, items, z)
    requires EncodeItems(f, items, |items|, z).Some? && size == |EncodeItems(f, items, |items|, z).value| < TWO64
    modifies st, st.buf
    ensures st.Valid()
    ensures Emits(old(st.Now()), st.Now(), Some(ChunkBytes(Payload(EncodeItems(f, items, |items|, z).value))), ok)
    decreases f, 4, 0
  {
    ghost var start, body := st.Now(), EncodeItems(f, items, |items|, z).value;
    ok := st.EncodeVarint(size);
    ghost var mid := st.Now();
    if !ok {
      EmitsStops(start, mid, Some(Varint(size)), Some(Varint(size) + body));
      return false;
    }
    if st.sizing {
      ok := st.Write([], size);
    } else {
      ok := EncodeItemsLoop(st, f, items, z);
    }
    EmitsChain(start, mid, st.Now(), Varint(size), Some(body), ok);
  }

  /** encode_array: packed whenever the type allows it. */
  method EncodeArrayField(st: OutStream, f: Field, items: seq<Value>, z: Memory) returns (ok: bool)
    requires st.Valid() && WellFormedField(f) && ShapedItems(f, items, z)
    modifies st, st.buf
    ensures st.Valid() && Emits(old(st.Now()), st.Now(), EncodeArray(f, items, z), ok)
    decreases f, 5, 0
  {
    if |items| == 0 {
      return true;
    }
    if |items| > f.arraySize {
      return false;
    }
    if !Packable(f.ltype) {
      ok := EncodeRecordsLoop(st, f, items, z);
      return;
    }
    ghost var start, tag := st.Now(), TagBytes(WT_STRING, f.tag);
    ok := EncodeTag(st, WT_STRING, f.tag);
    ghost var mid := st.Now();
    if !ok {
      EmitsStops(start, mid, Some(tag), EncodeArray(f, items, z));
      return false;
    }
    var size: nat;
    ok, size := MeasureItems(f, items, z);
    if !ok {
      return false;
    }
    ok := EncodePackedPayload(st, f, items, size, z);
    EmitsChain(start, mid, st.Now(), tag, Some(ChunkBytes(Payload(EncodeItems(f, items, |items|, z).value))), ok);
  }

  // ---- Fields and messages ----

  predicate AllUnset(fields: seq<Field>, v: Value, n: nat, z: Memory)
    requires n <= |fields|
  {
    forall i {:trigger ReadIn(fields, v, i)} :: 0 <= i < n ==>
      TestsUnset(fields[i], ReadIn(fields, v, i), PlaceOf(fields[i], z))
  }

  /** pb_check_proto3_default_value: a submessage is unset when every field in it is. What the message does not
      determine is read from memory. */
  method CheckUnset(f: Field, v: Value, z: Memory) returns (unset: bool)
    requires WellFormedField(f)
    ensures unset <==> TestsUnset(f, v, z)
    decreases f, 0
  {
    unset := z.Zero();
    match f.ltype
    case LBytes =>
      if v.Buf? { unset := |v.data| == 0; } else if v.Torn? { unset := v.size == 0; }
    case LString =>
      if v.Buf? { unset := |v.data| == 0 || v.data[0] == 0; } else if v == Torn(0) { unset := true; }
    case LFixedLengthBytes => unset := f.dataSize == 0;
    case LSubmessage => unset := CheckAllUnset(f, v, z);
    case _ => if v.Num? { unset := v.n == 0; }
  }

  method CheckAllUnset(f: Field, v: Value, z: Memory) returns (unset: bool)
    requires WellFormedField(f) && f.ltype == LSubmessage
    ensures unset <==> TestsUnset(f, v, z)
    decreases f.ptr.sub, 1
  {
    var fields := f.ptr.sub;
    TablesTerminated(fields);
    var iter := new FieldIter(fields);
    var more := iter.Begin();
    while more
      invariant iter.Valid()
      invariant AllUnset(fields, v, if more then iter.pos else |fields|, z)
      decreases more, |fields| - iter.pos
    {
      var g := fields[iter.pos];
      unset := CheckUnset(g, ReadIn(fields, v, iter.pos), PlaceOf(g, z));
      if !unset {
        return;
      }
      more := iter.Next();
    }
    return true;
  }

  method EncodeField(st: OutStream, f: Field, s: Slot, z: Memory) returns (ok: bool)
    requires st.Valid() && WellFormedField(f) && ShapedSlot(f, s, z)
    modifies st, st.buf
    ensures st.Valid() && Emits(old(st.Now()), st.Now(), EncodeSlot(f, s, z), ok)
    decreases f, 6, 0
  {
    match f.htype
    case Required => ok := EncodeOne(st, f, s.value, z);
    case Optional =>
      var has;
      if f.sizeOffset != 0 {
        has := s.has;
      } else {
        var unset := CheckUnset(f, s.value, z);
        has := !unset;
      }
      if has {
        ok := EncodeOne(st, f, s.value, z);
      } else {
        ok := true;
      }
    case Repeated => ok := EncodeArrayField(st, f, s.items, z);
    case Oneof =>
      if s.which == f.tag {
        ok := EncodeOne(st, f, s.value, z);
      } else {
        ok := true;
      }
  }

  /** The field at the cursor, behind those before it. */
  method EncodeFieldAt(st: OutStream, fields: seq<Field>, m: Msg, i: nat, z: Memory, ghost start: View)
    returns (ok: bool)
    requires st.Valid() && WellFormed(fields) && ShapedMsg(fields, m, z) && i < |fields|
    requires Emits(start, st.Now(), EncodeUpTo(fields, m, i, z), true)
    modifies st, st.buf
    ensures st.Valid()
    ensures ok ==> Emits(start, st.Now(), EncodeUpTo(fields, m, i + 1, z), true)
    ensures !ok ==> Emits(start, st.Now(), EncodeMsg(fields, m, z), false)
    decreases fields, 5, 0
  {
    SlotInRange(fields, i);
    var s := m[SlotOf(fields, i)];
    ghost var y := z.In(fields[i].tag);
    assert ShapedSlot(fields[i], s, y);
    ghost var mid := st.Now();
    ok := EncodeField(st, fields[i], s, z.In(fields[i].tag));
    EmitsChain(start, mid, st.Now(), EncodeUpTo(fields, m, i, z).value, EncodeSlot(fields[i], s, y), ok);
    if !ok {
      EncodePrefix(fields, m, i + 1, |fields|, z);
      EmitsStops(start, st.Now(), EncodeUpTo(fields, m, i + 1, z), EncodeMsg(fields, m, z));
    }
  }

  /** One turn of the loop of pb_encode. */
  method EncodeNext(st: OutStream, iter: FieldIter, m: Msg, z: Memory, ghost start: View) returns (ok: bool, more: bool)
    requires st.Valid() && iter.Valid() && iter.fields != []
    requires WellFormed(iter.fields) && ShapedMsg(iter.fields, m, z)
    requires Emits(start, st.Now(), EncodeUpTo(iter.fields, m, iter.pos, z), true)
    modifies st, st.buf, iter
    ensures st.Valid() && iter.Valid()
    ensures !ok ==> Emits(start, st.Now(), EncodeMsg(iter.fields, m, z), false)
    ensures ok && !more ==> Emits(start, st.Now(), EncodeMsg(iter.fields, m, z), true)
    ensures ok && more ==> iter.pos == old(iter.pos) + 1
                           && Emits(start, st.Now(), EncodeUpTo(iter.fields, m, iter.pos, z), true)
    decreases iter.fields, 6, 0
  {
    ok := EncodeFieldAt(st, iter.fields, m, iter.pos, z, start);
    more := false;
    if ok {
      more := iter.Next();
    }
  }

  /** The do-while loop of pb_encode, from the first field on. */
  method EncodeFields(st: OutStream, iter: FieldIter, m: Msg, z: Memory) returns (ok: bool)
    requires st.Valid() && iter.Valid() && iter.fields != [] && iter.pos == 0
    requires WellFormed(iter.fields) && ShapedMsg(iter.fields, m, z)
    modifies st, st.buf, iter
    ensures st.Valid() && Emits(old(st.Now()), st.Now(), EncodeMsg(iter.fields, m, z), ok)
    decreases iter.fields, 7, 0
  {
    ghost var start := st.Now();
    var more: bool;
    ok, more := EncodeNext(st, iter, m, z, start);
    while ok && more
      invariant st.Valid() && iter.Valid()
      invariant !ok ==> Emits(start, st.Now(), EncodeMsg(iter.fields, m, z), false)
      invariant ok && !more ==> Emits(start, st.Now(), EncodeMsg(iter.fields, m, z), true)
      invariant ok && more ==> Emits(start, st.Now(), EncodeUpTo(iter.fields, m, iter.pos, z), true)
      decreases ok && more, |iter.fields| - iter.pos
    {
      ok, more := EncodeNext(st, iter, m, z, start);
    }
  }

  /** pb_encode: every field in table order. */
  method EncodeStruct(st: OutStream, fields: seq<Field>, m: Msg, z: Memory) returns (ok: bool)
    requires st.Valid() && WellFormed(fields) && ShapedMsg(fields, m, z)
    modifies st, st.buf
    ensures st.Valid() && Emits(old(st.Now()), st.Now(), EncodeMsg(fields, m, z), ok)
    decreases fields, 8, 0
  {
    TablesTerminated(fields);
    var iter := new FieldIter(fields);
    var some := iter.Begin();
    if some {
      ok := EncodeFields(st, iter, m, z);
    } else {
      ok := true;
    }
  }

  /** The message is encoded twice: to measure it, and into a window of exactly that size. The second pass writes what
      the first one measured, so it never fails, and never finds the size changed. */
  method EncodeSubmessage(st: OutStream, fields: seq<Field>, m: Msg, z: Memory) returns (ok: bool)
    requires st.Valid() && WellFormed(fields) && ShapedMsg(fields, m, z) && SizeFits(EncodeMsg(fields, m, z))
    modifies st, st.buf
    ensures st.Valid() && Emits(old(st.Now()), st.Now(), EncodeDelimited(fields, m, z), ok)
    decreases fields, 10, 0
  {
    var measure := new OutStream.Sizing();
    ok := EncodeStruct(measure, fields, m, z);
    if !ok {
      return false;
    }
    var size := measure.bytesWritten;
    ghost var start, body := st.Now(), EncodeMsg(fields, m, z).value;
    ok := st.EncodeVarint(size);
    ghost var mid := st.Now();
    if !ok {
      EmitsStops(start, mid, Some(Varint(size)), Some(Varint(size) + body));
      return false;
    }
    if st.sizing {
      ok := st.Write([], size);
    } else if st.bytesWritten + size > st.maxSize {
      ok := false;
    } else {
      ok := WriteMeasured(st, fields, m, size, z);
    }
    EmitsChain(start, mid, st.Now(), Varint(size), Some(body), ok);
  }

  /** The second pass. */
  method WriteMeasured(st: OutStream, fields: seq<Field>, m: Msg, size: nat, z: Memory) returns (ok: bool)
    requires st.Valid() && !st.sizing && st.bytesWritten + size <= st.maxSize && WellFormed(fields)
    requires ShapedMsg(fields, m, z)
    requires EncodeMsg(fields, m, z).Some? && size == |EncodeMsg(fields, m, z).value|
    modifies st, st.buf
    ensures ok && st.Valid() && Emits(old(st.Now()), st.Now(), EncodeMsg(fields, m, z), ok)
    decreases fields, 9, 0
  {
    var sub := new OutStream.Window(st, size);
    ghost var was, start, body := st.buf[..], st.Now(), EncodeMsg(fields, m, z).value;
    var status := EncodeStruct(sub, fields, m, z);
    st.Absorb(sub, was, start, body, status);
    ok := status && sub.bytesWritten == size;
  }

  /** pb_encode_delimited. */
  method EncodeDelimitedStruct(st: OutStream, fields: seq<Field>, m: Msg, z: Memory) returns (ok: bool)
    requires st.Valid() && WellFormed(fields) && ShapedMsg(fields, m, z) && SizeFits(EncodeMsg(fields, m, z))
    modifies st, st.buf
    ensures st.Valid() && Emits(old(st.Now()), st.Now(), EncodeDelimited(fields, m, z), ok)
  {
    ok := EncodeSubmessage(st, fields, m, z);
  }

  /** pb_get_encoded_size: exactly the number of bytes a real encoding has. */
  method GetEncodedSize(fields: seq<Field>, m: Msg, z: Memory) returns (ok: bool, size: nat)
    requires WellFormed(fields) && ShapedMsg(fields, m, z)
    ensures ok <==> EncodeMsg(fields, m, z).Some?
    ensures ok ==> size == |EncodeMsg(fields, m, z).value|
  {
    var st := new OutStream.Sizing();
    ok := EncodeStruct(st, fields, m, z);
    size := st.bytesWritten;
  }

  /** Into a fresh buffer of n bytes: encoding succeeds exactly when the measured size is at most n, fills that many
      bytes with the encoding, and leaves the rest of the buffer alone. */
  method EncodeToBuffer(buf: array<byte>, n: nat, fields: seq<Field>, m: Msg, z: Memory)
    returns (ok: bool, written: nat)
    requires n <= buf.Length && WellFormed(fields) && ShapedMsg(fields, m, z)
    modifies buf
    ensures ok <==> EncodeMsg(fields, m, z).Some? && |EncodeMsg(fields, m, z).value| <= n
    ensures ok ==> written == |EncodeMsg(fields, m, z).value| && buf[..written] == EncodeMsg(fields, m, z).value
    ensures buf[n..] == old(buf[n..])
  {
    var st := new OutStream.FromBuffer(buf, n);
    ok := EncodeStruct(st, fields, m, z);
    written := st.bytesWritten;
  }
}
