/** What is written, in the terms of the Protocol Buffers encoding itself: which bytes each value becomes, how arrays
    are laid out, what is left out, and which messages have no encoding. */
module Conformance {
  import opened Common
  import opened Wire
  import opened Descriptor
  import opened Format
  import opened Encoder

  // ---- One item ----

  /** Numbers. Negative ones of any width are extended to 64 bits, or folded. */
  function NumberOf(f: Field, n: int): int {
    if f.ltype == LSVarint then if n < 0 then -2 * n - 1 else 2 * n
    else if n < 0 then n + TWO64 else n
  }

  /** Every integer that fits a field fits 64 bits, signed or unsigned. */
  lemma FitsIn64(f: Field, n: int)
    requires f.dataSize in {1, 2, 4, 8} && FitsScalar(f, Num(n)) && f.ltype in {LVarint, LUVarint, LSVarint}
    ensures f.ltype != LUVarint ==> -(TWO64 / 2) <= n < TWO64 / 2
    ensures f.ltype == LUVarint ==> 0 <= n < TWO64
  {
  }

  lemma NumberForm(f: Field, n: int, z: Memory)
    requires WellFormedField(f) && f.ltype in {LVarint, LUVarint, LSVarint} && FitsScalar(f, Num(n))
    ensures 0 <= NumberOf(f, n) < TWO64 && EncodeValue(f, Num(n), z) == Some(Varint(NumberOf(f, n)))
    ensures EncodeRecord(f, Num(n), z) == Some(Varint(8 * f.tag) + Varint(NumberOf(f, n)))
    ensures f.ltype == LVarint && n < 0 ==> |Varint(NumberOf(f, n))| == 10
  {
    FitsIn64(f, n);
    if f.ltype == LSVarint {
      ZigZagBijective(n, 0);
    } else {
      ExtendedTo64(n);
    }
    assert ToChunk(f, Num(n), z) == Some(Number(NumberOf(f, n)));
    assert EncodeValue(f, Num(n), z) == Some(Varint(NumberOf(f, n)));
  }

  lemma ExtendedTo64(n: int)
    requires -(TWO64 / 2) <= n < TWO64
    ensures n % TWO64 == if n < 0 then n + TWO64 else n
    ensures n < 0 ==> |Varint(n + TWO64)| == 10
  {
    if n < 0 {
      assert n % TWO64 == n + TWO64;
      Pow128Values();
      assert Pow128(10) == 128 * Pow128(9);
      VarintLength(n + TWO64, 9);
      VarintFits(n + TWO64);
    }
  }

  /** Words are written low byte first. */
  lemma FixedForm(f: Field, n: int, z: Memory)
    requires WellFormedField(f) && f.ltype in {LFixed32, LFixed64} && FitsScalar(f, Num(n))
    ensures var e, head := EncodeRecord(f, Num(n), z), Varint(8 * f.tag + if f.ltype == LFixed32 then 5 else 1);
      && e.Some? && |e.value| == |head| + f.dataSize && e.value[..|head|] == head
      && FromLittleEndian(e.value[|head|..]) == n
  {
    var head, w := TagBytes(WireOf(f.ltype), f.tag), LittleEndian(n, f.dataSize);
    Pow256Values();
    LittleEndianRoundTrip(n, f.dataSize);
    assert ToChunk(f, Num(n), z) == Some(Word(w));
    assert EncodeValue(f, Num(n), z) == Some(w);
    assert (head + w)[|head|..] == w;
  }

  /** Strings, bytes and submessages: their length, and then they themselves. */
  lemma PayloadForm(f: Field, v: Value, z: Memory)
    requires WellFormedField(f) && FitsValue(f, v, Determined) && FramingOf(f.ltype) == AsString
    ensures f.ltype != LSubmessage ==> v.Buf?
    ensures f.ltype == LSubmessage ==> v.Sub?
    ensures EncodeRecord(f, v, z) ==
            match (if f.ltype == LSubmessage then EncodeMsg(f.ptr.sub, v.msg, z) else Some(v.data))
            case None => None
            case Some(b) => Some(Varint(8 * f.tag + 2) + (Varint(|b|) + b))
  {
    if f.ltype != LSubmessage {
      assert ToChunk(f, v, z) == Some(Payload(v.data));
      assert EncodeValue(f, v, z) == Some(Varint(|v.data|) + v.data);
    } else {
      assert ToChunk(f, v, z) ==
             match EncodeMsg(f.ptr.sub, v.msg, z) case None => None case Some(b) => Some(Payload(b));
      assert EncodeValue(f, v, z) ==
             match EncodeMsg(f.ptr.sub, v.msg, z) case None => None case Some(b) => Some(Varint(|b|) + b);
    }
  }

  lemma NumberReads(g: Field, n: int, prior: Value)
    requires WellFormedField(g) && g.ltype in {LVarint, LUVarint} && FitsScalar(g, Num(n)) && -(TWO64 / 2) <= n < TWO64
    ensures DecodeValue(g, prior, Number(n % TWO64)) == Some(Num(n))
  {
    ExtendedTo64(n);
    if g.ltype == LVarint {
      CastRoundTrip(n, g.dataSize);
    }
  }

  lemma FoldedReads(g: Field, n: int, prior: Value)
    requires WellFormedField(g) && g.ltype == LSVarint && FitsScalar(g, Num(n))
    ensures -(TWO64 / 2) <= n < TWO64 / 2 && DecodeValue(g, prior, Number(ZigZag(n))) == Some(Num(n))
  {
    FitsIn64(g, n);
    ZigZagBijective(n, 0);
  }

  /** A delimited message: its length in front. */
  lemma FrameForm(fields: seq<Field>, m: Msg, z: Memory)
    ensures EncodeDelimited(fields, m, z) ==
            match EncodeMsg(fields, m, z)
            case None => None
            case Some(b) => Some(Varint(|b|) + b)
  {
  }

  /** int32, int64, uint32, uint64 and bool fields read each other's values, whatever the widths, as long as the value
      is one of both; so do sint32 and sint64. */
  lemma NumbersCompatible(f: Field, g: Field, n: int, prior: Value, z: Memory, rest: bytes)
    requires WellFormedField(f) && WellFormedField(g) && FitsScalar(f, Num(n)) && FitsScalar(g, Num(n))
    requires {f.ltype, g.ltype} <= {LVarint, LUVarint} || f.ltype == g.ltype == LSVarint
    ensures EncodeValue(f, Num(n), z).Some?
    ensures var t := Take(AsVarint, EncodeValue(f, Num(n), z).value + rest);
      t.Some? && t.value.1 == rest && DecodeValue(g, prior, t.value.0) == Some(Num(n))
  {
    assert f.ltype in {f.ltype, g.ltype} && g.ltype in {f.ltype, g.ltype};
    NumberForm(f, n, z);
    var c := Number(NumberOf(f, n));
    TakeInverts(AsVarint, c, rest);
    FitsIn64(f, n);
    if f.ltype == LSVarint {
      ZigZagBijective(n, 0);
      FoldedReads(g, n, prior);
    } else {
      ExtendedTo64(n);
      NumberReads(g, n, prior);
    }
  }

  // ---- Arrays ----

  lemma {:induction false} JoinedSnoc(parts: seq<bytes>, b: bytes)
    ensures Joined(parts + [b]) == Joined(parts) + b
    decreases |parts|
  {
    if parts == [] {
      assert [b][1..] == [] && [b] + [] == [b];
      assert Joined([b]) == b + Joined([]) == b;
    } else {
      assert (parts + [b])[1..] == parts[1..] + [b];
      JoinedSnoc(parts[1..], b);
    }
  }

  /** The items of an array, one behind the other. */
  lemma {:induction false} ItemsInOrder(f: Field, items: seq<Value>, n: nat, z: Memory, e: bytes)
    returns (parts: seq<bytes>)
    requires n <= |items| && EncodeItems(f, items, n, z) == Some(e)
    ensures |parts| == n && e == Joined(parts)
    ensures forall k :: 0 <= k < n ==> EncodeValue(f, items[k], z.In(k)) == Some(parts[k])
    decreases n
  {
    if n == 0 {
      parts := [];
    } else {
      var b := EncodeValue(f, items[n - 1], z.In(n - 1)).value;
      parts := ItemsInOrder(f, items, n - 1, z, EncodeItems(f, items, n - 1, z).value);
      JoinedSnoc(parts, b);
      parts := parts + [b];
    }
  }

  lemma {:induction false} RecordsInOrder(f: Field, items: seq<Value>, n: nat, z: Memory, e: bytes)
    returns (parts: seq<bytes>)
    requires n <= |items| && EncodeRecords(f, items, n, z) == Some(e)
    ensures |parts| == n && e == Joined(parts)
    ensures forall k :: 0 <= k < n ==> EncodeRecord(f, items[k], z.In(k)) == Some(parts[k])
    decreases n
  {
    if n == 0 {
      parts := [];
    } else {
      var b := EncodeRecord(f, items[n - 1], z.In(n - 1)).value;
      parts := RecordsInOrder(f, items, n - 1, z, EncodeRecords(f, items, n - 1, z).value);
      JoinedSnoc(parts, b);
      parts := parts + [b];
    }
  }

  lemma PackedForm(f: Field, items: seq<Value>, z: Memory, e: bytes) returns (p: bytes)
    requires f.htype == Repeated && Packable(f.ltype) && items != [] && EncodeSlot(f, Many(items), z) == Some(e)
    ensures EncodeItems(f, items, |items|, z) == Some(p) && e == TagBytes(2, f.tag) + ChunkBytes(Payload(p))
  {
    assert EncodeArray(f, items, z) == Some(e);
    p := EncodeItems(f, items, |items|, z).value;
  }

  /** Arrays are packed whenever their type allows it: a reader finds one record with wire type 2, and in it the items'
      own bytes in order, without tags. */
  lemma PackedOnWire(f: Field, items: seq<Value>, z: Memory, e: bytes, rest: bytes) returns (parts: seq<bytes>)
    requires WellFormedField(f) && f.htype == Repeated && Packable(f.ltype) && items != []
    requires EncodeSlot(f, Many(items), z) == Some(e) && |e| < TWO32
    ensures |parts| == |items|
    ensures forall k :: 0 <= k < |items| ==> EncodeValue(f, items[k], z.In(k)) == Some(parts[k])
    ensures var t := ReadTag(e + rest);
      && t.Tag? && t.tag == f.tag && t.wire == 2
      && Take(AsString, t.body) == Some((Payload(Joined(parts)), rest))
  {
    var p := PackedForm(f, items, z, e);
    parts := ItemsInOrder(f, items, |items|, z, p);
    var body := ChunkBytes(Payload(p)) + rest;
    assert e + rest == TagBytes(2, f.tag) + body;
    ReadInvertsTag(2, f.tag, body);
    TakeInverts(AsString, Payload(p), rest);
  }

  /** Other arrays are one record for each item, in order. */
  lemma UnpackedOnWire(f: Field, items: seq<Value>, z: Memory, e: bytes) returns (parts: seq<bytes>)
    requires f.htype == Repeated && !Packable(f.ltype) && EncodeSlot(f, Many(items), z) == Some(e)
    ensures |parts| == |items| && e == Joined(parts)
    ensures forall k :: 0 <= k < |items| ==> EncodeRecord(f, items[k], z.In(k)) == Some(parts[k])
  {
    assert EncodeArray(f, items, z) == Some(e);
    if items == [] {
      parts := [];
    } else {
      parts := RecordsInOrder(f, items, |items|, z, e);
    }
  }

  // ---- What is written at all ----

  /** Nothing is written for a field exactly when it has no has_ flag and tests as unset, its has_ flag is off, its
      array is empty, or its union is on another member. */
  lemma WrittenIff(f: Field, s: Slot, z: Memory)
    requires EncodeSlot(f, s, z).Some?
    ensures EncodeSlot(f, s, z).value == [] <==>
            match s
            case One(v) => f.htype == Optional && TestsUnset(f, v, z)
            case Opt(has, _) => !has
            case Many(items) => items == []
            case Union(which, _) => which != f.tag
  {
    assert |TagBytes(WireOf(f.ltype), f.tag)| > 0 && |TagBytes(WT_STRING, f.tag)| > 0;
    match s
    case Many(items) =>
      assert EncodeSlot(f, s, z) == EncodeArray(f, items, z);
      if items != [] && !Packable(f.ltype) {
        assert EncodeRecords(f, items, |items|, z).Some?;
        assert EncodeRecord(f, items[|items| - 1], z.In(|items| - 1)).Some?;
      }
    case _ =>
  }

  /** No array that is written is longer than array_size, and no bytes field than its buffer, at every depth. */
  predicate Encodable(fields: seq<Field>, m: Msg, z: Memory)
    decreases fields, 2
  {
    |m| == SlotCount(fields, |fields|) ==>
      forall i {:trigger SlotOf(fields, i)} :: 0 <= i < |fields| ==>
        (SlotInRange(fields, i); EncodableSlot(fields[i], m[SlotOf(fields, i)], z.In(fields[i].tag)))
  }

  predicate EncodableSlot(f: Field, s: Slot, z: Memory)
    decreases f, 1
  {
    match s
    case One(v) => (HasLess(f) && TestsUnset(f, v, z)) || EncodableValue(f, v, z)
    case Opt(has, v) => has ==> EncodableValue(f, v, z)
    case Many(items) =>
      |items| <= f.arraySize && forall k :: 0 <= k < |items| ==> EncodableValue(f, items[k], z.In(k))
    case Union(which, v) => which == f.tag ==> EncodableValue(f, v, z)
  }

  predicate EncodableValue(f: Field, v: Value, z: Memory)
    decreases f, 0
  {
    && (f.ltype == LBytes && v.Buf? ==> |v.data| + BYTES_HEADER <= f.dataSize)
    && (f.ltype == LSubmessage && v.Sub? && f.ptr.Fields? ==> Encodable(f.ptr.sub, v.msg, z))
  }

  /** Encoding, into a stream with room, fails for these two reasons only. */
  lemma {:induction false} EncodesIff(fields: seq<Field>, m: Msg, z: Memory)
    requires WellFormed(fields) && ShapedMsg(fields, m, z)
    ensures EncodeMsg(fields, m, z).Some? <==> Encodable(fields, m, z)
    decreases fields, 3
  {
    forall i | 0 <= i < |fields|
      ensures SlotOf(fields, i) < |m|
      ensures var s, y := m[SlotOf(fields, i)], z.In(fields[i].tag);
        EncodeSlot(fields[i], s, y).Some? <==> EncodableSlot(fields[i], s, y)
    {
      SlotInRange(fields, i);
      assert ShapedSlot(fields[i], m[SlotOf(fields, i)], z.In(fields[i].tag));
      SlotEncodesIff(fields[i], m[SlotOf(fields, i)], z.In(fields[i].tag));
    }
    AllEncode(fields, m, |fields|, z);
  }

  lemma {:induction false} AllEncode(fields: seq<Field>, m: Msg, n: nat, z: Memory)
    requires |m| == SlotCount(fields, |fields|) && n <= |fields|
    ensures EncodeUpTo(fields, m, n, z).Some? <==>
            forall i {:trigger SlotOf(fields, i)} :: 0 <= i < n ==>
              SlotOf(fields, i) < |m| && EncodeSlot(fields[i], m[SlotOf(fields, i)], z.In(fields[i].tag)).Some?
    decreases n
  {
    if n > 0 {
      SlotInRange(fields, n - 1);
      AllEncode(fields, m, n - 1, z);
    }
  }

  lemma SlotEncodesIff(f: Field, s: Slot, z: Memory)
    requires WellFormedField(f) && ShapedSlot(f, s, z)
    ensures EncodeSlot(f, s, z).Some? <==> EncodableSlot(f, s, z)
    decreases f, 2
  {
    match s
    case One(v) => if !(HasLess(f) && TestsUnset(f, v, z)) { RecordEncodesIff(f, v, z); }
    case Opt(has, v) => if has { RecordEncodesIff(f, v, z); }
    case Many(items) => ArrayEncodesIff(f, items, z);
    case Union(which, v) => if which == f.tag { RecordEncodesIff(f, v, z); }
  }

  lemma ArrayEncodesIff(f: Field, items: seq<Value>, z: Memory)
    requires WellFormedField(f) && f.htype == Repeated && ShapedItems(f, items, z)
    ensures EncodeSlot(f, Many(items), z).Some? <==> EncodableSlot(f, Many(items), z)
    decreases f, 1
  {
    assert EncodeSlot(f, Many(items), z) == EncodeArray(f, items, z);
    forall k | 0 <= k < |items|
      ensures EncodeRecord(f, items[k], z.In(k)).Some? <==> EncodableValue(f, items[k], z.In(k))
      ensures EncodeValue(f, items[k], z.In(k)).Some? <==> EncodableValue(f, items[k], z.In(k))
    {
      RecordEncodesIff(f, items[k], z.In(k));
    }
    if EncodableSlot(f, Many(items), z) {
      ItemsEncode(f, items, |items|, z);
    }
    if EncodeItems(f, items, |items|, z).Some? {
      var _ := ItemsInOrder(f, items, |items|, z, EncodeItems(f, items, |items|, z).value);
    }
    if EncodeRecords(f, items, |items|, z).Some? {
      var _ := RecordsInOrder(f, items, |items|, z, EncodeRecords(f, items, |items|, z).value);
    }
  }

  lemma {:induction false} ItemsEncode(f: Field, items: seq<Value>, n: nat, z: Memory)
    requires n <= |items| && forall k :: 0 <= k < n ==> EncodeValue(f, items[k], z.In(k)).Some?
    ensures EncodeItems(f, items, n, z).Some? && EncodeRecords(f, items, n, z).Some?
    decreases n
  {
    if n > 0 {
      ItemsEncode(f, items, n - 1, z);
      assert EncodeRecord(f, items[n - 1], z.In(n - 1)).Some?;
    }
  }

  lemma RecordEncodesIff(f: Field, v: Value, z: Memory)
    requires WellFormedField(f) && ShapedValue(f, v, z)
    ensures EncodeValue(f, v, z).Some? <==> EncodableValue(f, v, z)
    ensures EncodeRecord(f, v, z).Some? <==> EncodableValue(f, v, z)
    decreases f, 0
  {
    if f.ltype == LSubmessage {
      EncodesIff(f.ptr.sub, v.msg, z);
    }
    assert ToChunk(f, v, z).Some? <==> EncodableValue(f, v, z);
    assert EncodeValue(f, v, z).Some? <==> ToChunk(f, v, z).Some?;
  }
}
