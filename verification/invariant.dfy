/** What decoding keeps, over every input, and what re-encoding an accepted input gives. */
module Invariant {
  import opened Common
  import opened Wire
  import opened Descriptor
  import opened Format
  import opened Fidelity
  import opened Lossless

  // ---- A decoded message fits its table ----

  lemma ScalarDecodesFit(f: Field, prior: Value, c: Chunk)
    requires WellFormedField(f) && ChunkOk(FramingOf(f.ltype), c) && f.ltype != LSubmessage
    requires DecodeValue(f, prior, c).Some?
    ensures FitsScalar(f, DecodeValue(f, prior, c).value)
  {
    if c.Word? {
      Pow256Values();
      FromLittleEndianRoundTrip(c.data);
    }
  }

  lemma {:induction false} ValueDecodesFit(f: Field, prior: Value, c: Chunk, grade: Grade)
    requires WellFormedField(f) && ChunkOk(FramingOf(f.ltype), c)
    requires f.htype != Repeated && prior.Sub? ==> FitsValue(f, prior, grade)
    requires DecodeValue(f, prior, c).Some?
    ensures FitsValue(f, DecodeValue(f, prior, c).value, grade)
    decreases f, 0, 0
  {
    if f.ltype == LSubmessage {
      var sub := f.ptr.sub;
      DefaultsFit(sub);
      FitsMsgWeakens(sub, Defaults(sub), Determined, grade);
      var start := if f.htype == Repeated then Defaults(sub) else prior.msg;
      RecordsDecodeFit(sub, start, {}, c.data, grade);
    } else {
      ScalarDecodesFit(f, prior, c);
    }
  }

  lemma {:induction false} PackedDecodesFit(f: Field, items: seq<Value>, bs: bytes, grade: Grade)
    requires WellFormedField(f) && Packable(f.ltype) && |items| <= f.arraySize
    requires forall v :: v in items ==> FitsValue(f, v, grade)
    requires DecodePacked(f, items, bs).Some?
    ensures var r := DecodePacked(f, items, bs).value;
            |r| <= f.arraySize && forall v :: v in r ==> FitsValue(f, v, grade)
    decreases |bs|
  {
    if bs != [] {
      var (c, rest) := Take(FramingOf(f.ltype), bs).value;
      ScalarDecodesFit(f, Indeterminate, c);
      PackedDecodesFit(f, items + [DecodeValue(f, Indeterminate, c).value], rest, grade);
    }
  }

  lemma {:induction false} SlotDecodesFit(f: Field, wire: nat, s: Slot, c: Chunk, grade: Grade)
    requires WellFormedField(f) && FitsSlot(f, s, grade) && ChunkOk(FramingFor(f, wire), c)
    requires DecodeSlot(f, wire, s, c).Some?
    ensures FitsSlot(f, DecodeSlot(f, wire, s, c).value, grade)
    ensures f.htype == Oneof ==> DecodeSlot(f, wire, s, c).value.which == f.tag
    decreases f, 1, 0
  {
    match s
    case One(v) => ValueDecodesFit(f, v, c, grade);
    case Opt(has, v) => ValueDecodesFit(f, v, c, grade);
    case Many(items) =>
      if IsPacked(f, wire) {
        PackedDecodesFit(f, items, c.data, grade);
      } else {
        ValueDecodesFit(f, Indeterminate, c, grade);
      }
    case Union(_, v) =>
      if f.ltype == LSubmessage {
        DefaultSlotFits(f);
        FitsWeakens(f, DefaultValue(f), Determined, grade);
      }
      ValueDecodesFit(f, UnionStart(f, s), c, grade);
  }

  lemma RecordDecodesFit(fields: seq<Field>, m: Msg, tag: nat, wire: nat, body: bytes, grade: Grade)
    requires WellFormed(fields) && FitsMsg(fields, m, grade)
    requires DecodeRecord(fields, m, tag, wire, body).Some?
    ensures FitsMsg(fields, DecodeRecord(fields, m, tag, wire, body).value.0, grade)
    decreases fields, 2, 0
  {
    match Find(fields, tag)
    case None =>
    case Some(i) =>
      SlotInRange(fields, i);
      var (c, rest) := Take(FramingFor(fields[i], wire), body).value;
      var s := m[SlotOf(fields, i)];
      assert FitsSlot(fields[i], s, grade);
      SlotDecodesFit(fields[i], wire, s, c, grade);
      SlotUpdateFits(fields, m, i, DecodeSlot(fields[i], wire, s, c).value, grade);
  }

  /** Over every input: counts stay within array_size, strings terminated, bytes within capacity, which_ members 0 or
      a member's tag, and nothing live is left undetermined. */
  lemma {:induction false} RecordsDecodeFit(fields: seq<Field>, m: Msg, seen: set<nat>, bs: bytes, grade: Grade)
    requires WellFormed(fields) && FitsMsg(fields, m, grade)
    ensures var r := DecodeRecords(fields, m, seen, bs); r.Some? ==> FitsMsg(fields, r.value.msg, grade)
    decreases fields, 3, |bs|
  {
    if bs != [] && ReadTag(bs).Tag? {
      var t := ReadTag(bs);
      match DecodeRecord(fields, m, t.tag, t.wire, t.body)
      case None =>
      case Some((m', rest)) =>
        RecordDecodesFit(fields, m, t.tag, t.wire, t.body, grade);
        RecordsDecodeFit(fields, m', seen + SeenBy(fields, t.tag), rest, grade);
    }
  }

  /** Whatever pb_decode accepts, the struct it fills is one the encoder takes. */
  lemma DecodedFits(fields: seq<Field>, bs: bytes)
    requires WellFormed(fields)
    ensures var r := Decode(fields, bs); r.Some? ==> FitsMsg(fields, r.value.0, Determined)
  {
    DefaultsFit(fields);
    RecordsDecodeFit(fields, Defaults(fields), {}, bs, Determined);
  }

  // ---- In plain tables the encoding depends only on what accessors can see ----

  lemma {:induction false} SameTestsUnset(f: Field, a: Value, b: Value, z: Memory, y: Memory)
    requires WellFormedField(f) && SameValue(f, a, b) && (f.ptr.Fields? ==> Plain(f.ptr.sub))
    requires FitsValue(f, a, Determined) && FitsValue(f, b, Determined)
    ensures TestsUnset(f, a, z) <==> TestsUnset(f, b, y)
    decreases f, 0
  {
    if f.ltype == LSubmessage {
      var sub := f.ptr.sub;
      forall i | 0 <= i < |sub|
        ensures TestsUnset(sub[i], ReadIn(sub, a, i), PlaceOf(sub[i], z))
                <==> TestsUnset(sub[i], ReadIn(sub, b, i), PlaceOf(sub[i], y))
      {
        SlotInRange(sub, i);
        assert PlainField(sub[i]);
        var s, t := a.msg[SlotOf(sub, i)], b.msg[SlotOf(sub, i)];
        assert FitsSlot(sub[i], s, Determined) && FitsSlot(sub[i], t, Determined) && SameSlot(sub[i], s, t);
        SameTestsUnset(sub[i], s.value, t.value, PlaceOf(sub[i], z), PlaceOf(sub[i], y));
      }
    }
  }

  lemma {:induction false} SameItemsEncodeSame(f: Field, vs: seq<Value>, ws: seq<Value>, n: nat, z: Memory, y: Memory)
    requires WellFormedField(f) && PlainTablesField(f) && n <= |vs| == |ws|
    requires forall v :: v in vs ==> FitsValue(f, v, Determined)
    requires forall v :: v in ws ==> FitsValue(f, v, Determined)
    requires forall k :: 0 <= k < |vs| ==> SameValue(f, vs[k], ws[k])
    ensures EncodeItems(f, vs, n, z) == EncodeItems(f, ws, n, y)
    ensures EncodeRecords(f, vs, n, z) == EncodeRecords(f, ws, n, y)
    decreases f, 1, n
  {
    if n > 0 {
      SameItemsEncodeSame(f, vs, ws, n - 1, z, y);
      SameValueEncodesSame(f, vs[n - 1], ws[n - 1], z.In(n - 1), y.In(n - 1));
    }
  }

  lemma SameValueEncodesSame(f: Field, v: Value, w: Value, z: Memory, y: Memory)
    requires WellFormedField(f) && PlainTablesField(f) && SameValue(f, v, w)
    requires FitsValue(f, v, Determined) && FitsValue(f, w, Determined)
    ensures ToChunk(f, v, z) == ToChunk(f, w, y)
    decreases f, 0, 0
  {
    if f.ltype == LSubmessage {
      SameEncodesSame(f.ptr.sub, v.msg, w.msg, z, y);
    }
  }

  lemma SameSlotEncodesSame(f: Field, s: Slot, t: Slot, z: Memory, y: Memory)
    requires WellFormedField(f) && PlainTablesField(f) && SameSlot(f, s, t)
    requires FitsSlot(f, s, Determined) && FitsSlot(f, t, Determined)
    ensures EncodeSlot(f, s, z) == EncodeSlot(f, t, y)
    decreases f, 2, 0
  {
    match s
    case One(v) =>
      if HasLess(f) && CanBeUnset(f) { SameTestsUnset(f, v, t.value, z, y); }
      NeverUnset(f, v, z);
      NeverUnset(f, t.value, y);
      SameRecordEncodesSame(f, v, t.value, z, y);
    case Opt(has, v) => if has { SameRecordEncodesSame(f, v, t.value, z, y); }
    case Many(items) => SameItemsEncodeSame(f, items, t.items, |items|, z, y);
    case Union(which, v) => if which == f.tag { SameRecordEncodesSame(f, v, t.value, z, y); }
  }

  lemma SameRecordEncodesSame(f: Field, v: Value, w: Value, z: Memory, y: Memory)
    requires WellFormedField(f) && PlainTablesField(f) && SameValue(f, v, w)
    requires FitsValue(f, v, Determined) && FitsValue(f, w, Determined)
    ensures EncodeRecord(f, v, z) == EncodeRecord(f, w, y)
    decreases f, 1, 0
  {
    SameValueEncodesSame(f, v, w, z, y);
  }

  lemma {:induction false} SameEncodesUpTo(fields: seq<Field>, a: Msg, b: Msg, n: nat, z: Memory, y: Memory)
    requires WellFormed(fields) && PlainTables(fields) && SameMsg(fields, a, b)
    requires FitsMsg(fields, a, Determined) && FitsMsg(fields, b, Determined)
    requires n <= |fields|
    ensures EncodeUpTo(fields, a, n, z) == EncodeUpTo(fields, b, n, y)
    decreases fields, 1, n
  {
    if n > 0 {
      SameEncodesUpTo(fields, a, b, n - 1, z, y);
      SlotInRange(fields, n - 1);
      var f, k := fields[n - 1], SlotOf(fields, n - 1);
      assert FitsSlot(f, a[k], Determined) && FitsSlot(f, b[k], Determined);
      assert SameSlot(f, a[k], b[k]) && PlainTablesField(f);
      SameSlotEncodesSame(f, a[k], b[k], z.In(f.tag), y.In(f.tag));
    }
  }

  lemma {:induction false} SameEncodesSame(fields: seq<Field>, a: Msg, b: Msg, z: Memory, y: Memory)
    requires WellFormed(fields) && PlainTables(fields) && SameMsg(fields, a, b)
    requires FitsMsg(fields, a, Determined) && FitsMsg(fields, b, Determined)
    ensures EncodeMsg(fields, a, z) == EncodeMsg(fields, b, y)
    decreases fields, 2, 0
  {
    SameEncodesUpTo(fields, a, b, |fields|, z, y);
  }

  /** Whatever pb_decode accepts re-encodes, whatever undetermined memory reads as. Decoding the result succeeds, uses
      up its bytes, and gives the same message again precisely when the first one is faithful. */
  lemma {:induction false} CanonicalisesIff(fields: seq<Field>, bs: bytes, z: Memory)
    requires WellFormed(fields) && Decode(fields, bs).Some?
    requires var e := EncodeMsg(fields, Decode(fields, bs).value.0, z); e.Some? ==> |e.value| < TWO32
    ensures var m := Decode(fields, bs).value.0;
            && EncodeMsg(fields, m, z).Some?
            && var r := Decode(fields, EncodeMsg(fields, m, z).value);
               r.Some? && r.value.1 == [] && (SameMsg(fields, m, r.value.0) <==> FaithfulMsg(fields, fields, m, z))
  {
    DecodedFits(fields, bs);
    RoundTripsIff(fields, Decode(fields, bs).value.0, z);
  }

  /** Canonical form, in loss-free tables: any input that pb_decode accepts re-encodes; the result decodes to the same
      message again, and, in plain tables, encoding that once more gives the same bytes. */
  lemma {:induction false} Canonicalises(fields: seq<Field>, bs: bytes, z: Memory, y: Memory)
    requires WellFormed(fields) && LossFree(fields, fields) && Decode(fields, bs).Some?
    requires var e := EncodeMsg(fields, Decode(fields, bs).value.0, z); e.Some? ==> |e.value| < TWO32
    ensures var m := Decode(fields, bs).value.0;
            && EncodeMsg(fields, m, z).Some?
            && var r := Decode(fields, EncodeMsg(fields, m, z).value);
               && r.Some? && r.value.1 == [] && SameMsg(fields, m, r.value.0)
               && (PlainTables(fields) ==> EncodeMsg(fields, r.value.0, y) == EncodeMsg(fields, m, z))
  {
    DecodedFits(fields, bs);
    var m := Decode(fields, bs).value.0;
    RoundTrips(fields, m, z);
    var r := Decode(fields, EncodeMsg(fields, m, z).value).value.0;
    if PlainTables(fields) {
      DecodedFits(fields, EncodeMsg(fields, m, z).value);
      SameEncodesSame(fields, m, r, z, y);
    }
  }
}
