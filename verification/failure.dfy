/** What decoding leaves in the struct, whatever becomes of it. */
module Failure {
  import opened Common
  import opened Wire
  import opened Descriptor
  import opened Format
  import opened Merge
  import opened Invariant

  // ---- One item ----

  /** How far a pb_dec_* function gets: it leaves the item alone, stores only a size or a terminator since the data runs
      out, fills the item, be it with a value that it then rejects, or goes on inside a submessage. */
  datatype Outcome = Untouched | Cut(size: nat) | Filled(value: Value) | Inside(payload: bytes)

  function Reached(f: Field, bs: bytes): (o: Outcome)
    ensures o.Inside? ==> |o.payload| < |bs|
  {
    match f.ltype
    case LVarint | LUVarint | LSVarint =>
      (match Take(AsVarint, bs)
       case None => Untouched
       case Some((c, _)) => if f.dataSize in {1, 2, 4, 8} then Filled(Num(CutToWidth(f, c.n))) else Untouched)
    case LFixed32 | LFixed64 =>
      (match Take(FramingOf(f.ltype), bs)
       case None => Untouched
       case Some((c, _)) => Filled(Num(FromLittleEndian(c.data))))
    case LBytes =>
      (match ReadVarint32(bs)
       case None => Untouched
       case Some((n, rest)) =>
         if n > PB_SIZE_MAX || n + BYTES_HEADER > f.dataSize then Untouched
         else if |rest| < n then Cut(n) else Filled(Buf(rest[..n])))
    case LString =>
      (match ReadVarint32(bs)
       case None => Untouched
       case Some((n, rest)) =>
         if n + 1 > f.dataSize then Untouched
         else if |rest| < n then Cut(n) else Filled(Buf(UpToNul(rest[..n]))))
    case LFixedLengthBytes =>
      (match Take(AsString, bs)
       case None => Untouched
       case Some((c, _)) =>
         if |c.data| > PB_SIZE_MAX then Untouched
         else if c.data == [] then Filled(Buf(Zeros(f.dataSize)))
         else if |c.data| != f.dataSize then Untouched
         else Filled(Buf(c.data)))
    case LSubmessage =>
      match Take(AsString, bs)
      case None => Untouched
      case Some((c, _)) => Inside(c.data)
  }

  /** An integer is stored before the test whether all of it was. */
  function CutToWidth(f: Field, n: nat): int
    requires f.dataSize in {1, 2, 4, 8} && n < TWO64
  {
    match f.ltype
    case LUVarint => CastUnsigned(n, f.dataSize)
    case LSVarint => CastSigned(UnZigZag(n), f.dataSize)
    case _ => CastSigned(if f.dataSize == 8 then CastSigned(n, 8) else CastSigned(n, 4), f.dataSize)
  }

  /** A new size, or a terminator at that place, over the bytes that were there. */
  function CutOff(f: Field, prior: Value, size: nat): Value {
    if f.ltype == LString then
      if prior.Buf? then Buf(Clip(prior.data, size))
      else if prior.Torn? && prior.size < size then prior
      else Torn(size)
    else
      if prior.Buf? && size <= |prior.data| then Buf(prior.data[..size]) else Torn(size)
  }

  function LeftValue(f: Field, prior: Value, bs: bytes): Value
    decreases f, 0, 0
  {
    match Reached(f, bs)
    case Untouched => prior
    case Cut(size) => CutOff(f, prior, size)
    case Filled(v) => v
    case Inside(payload) =>
      if StartsOn(f, prior) then Sub(LeftMsg(f.ptr.sub, ChildStart(f, prior), payload)) else prior
  }

  /** The submessage that pb_dec_submessage works on is one: a new array entry is initialised first. */
  predicate StartsOn(f: Field, prior: Value) {
    f.ptr.Fields? && (f.htype == Repeated || (prior.Sub? && |prior.msg| == SlotCount(f.ptr.sub, |f.ptr.sub|)))
  }

  function ChildStart(f: Field, prior: Value): (m: Msg)
    requires StartsOn(f, prior)
    ensures |m| == SlotCount(f.ptr.sub, |f.ptr.sub|)
  {
    if f.htype == Repeated then Defaults(f.ptr.sub) else prior.msg
  }

  // ---- A field's slot ----

  /** The count of a packed array is raised behind each item. */
  function LeftPacked(f: Field, items: seq<Value>, bs: bytes): seq<Value>
    decreases |bs|
  {
    if bs == [] || |items| >= f.arraySize then items
    else
      match Take(FramingOf(f.ltype), bs)
      case None => items
      case Some((c, rest)) =>
        match DecodeValue(f, Indeterminate, c)
        case None => items
        case Some(v) => LeftPacked(f, items + [v], rest)
  }

  /** has_ flags, counts of other arrays, and which_ members are set before the item is read. */
  function LeftSlot(f: Field, wire: nat, s: Slot, bs: bytes): Slot
    decreases f, 1, 0
  {
    match (f.htype, s)
    case (Required, One(prior)) => One(LeftValue(f, prior, bs))
    case (Optional, One(prior)) => if f.sizeOffset == 0 then One(LeftValue(f, prior, bs)) else s
    case (Optional, Opt(_, prior)) => if f.sizeOffset == 0 then s else Opt(true, LeftValue(f, prior, bs))
    case (Repeated, Many(items)) =>
      if IsPacked(f, wire) then
        match Take(AsString, bs)
        case None => s
        case Some((c, _)) => Many(LeftPacked(f, items, c.data))
      else if |items| >= f.arraySize then s
      else Many(items + [LeftValue(f, Indeterminate, bs)])
    case (Oneof, Union(_, _)) => Union(f.tag, LeftValue(f, UnionStart(f, s), bs))
    case _ => s
  }

  // ---- The struct ----

  function LeftRecord(fields: seq<Field>, m: Msg, tag: nat, wire: nat, body: bytes): (r: Msg)
    requires |m| == SlotCount(fields, |fields|)
    ensures |r| == |m|
    decreases fields, 2, 0
  {
    match Find(fields, tag)
    case None => m
    case Some(i) =>
      SlotInRange(fields, i);
      var k := SlotOf(fields, i);
      m[k := LeftSlot(fields[i], wire, m[k], body)]
  }

  /** The struct after pb_decode_noinit, also when that fails: every record leaves what it leaves, and one that fails is
      the last. */
  function LeftMsg(fields: seq<Field>, m: Msg, bs: bytes): (r: Msg)
    requires |m| == SlotCount(fields, |fields|)
    ensures |r| == |m|
    decreases fields, 3, |bs|
  {
    if bs == [] then m
    else
      match ReadTag(bs)
      case Eof(_) => m
      case Bad => m
      case Tag(tag, wire, body) =>
        var left := LeftRecord(fields, m, tag, wire, body);
        match DecodeRecord(fields, m, tag, wire, body)
        case None => left
        case Some((_, rest)) => LeftMsg(fields, left, rest)
  }

  // ---- Success leaves what was decoded ----

  lemma {:induction false} ValueAgrees(f: Field, prior: Value, bs: bytes)
    requires WellFormedField(f)
    requires var t := Take(FramingOf(f.ltype), bs); t.Some? && DecodeValue(f, prior, t.value.0).Some?
    ensures DecodeValue(f, prior, Take(FramingOf(f.ltype), bs).value.0) == Some(LeftValue(f, prior, bs))
    decreases f, 0
  {
    if f.ltype == LSubmessage {
      MsgAgrees(f.ptr.sub, ChildStart(f, prior), {}, Take(AsString, bs).value.0.data);
    }
  }

  lemma {:induction false} PackedAgrees(f: Field, items: seq<Value>, bs: bytes)
    requires DecodePacked(f, items, bs).Some?
    ensures DecodePacked(f, items, bs) == Some(LeftPacked(f, items, bs))
    decreases |bs|
  {
    if bs != [] {
      var (c, rest) := Take(FramingOf(f.ltype), bs).value;
      PackedAgrees(f, items + [DecodeValue(f, Indeterminate, c).value], rest);
    }
  }

  lemma SlotAgrees(f: Field, wire: nat, s: Slot, bs: bytes)
    requires WellFormedField(f)
    requires var t := Take(FramingFor(f, wire), bs); t.Some? && DecodeSlot(f, wire, s, t.value.0).Some?
    ensures DecodeSlot(f, wire, s, Take(FramingFor(f, wire), bs).value.0) == Some(LeftSlot(f, wire, s, bs))
    decreases f, 1
  {
    match s
    case One(prior) => ValueAgrees(f, prior, bs);
    case Opt(_, prior) => ValueAgrees(f, prior, bs);
    case Many(items) =>
      if IsPacked(f, wire) {
        PackedAgrees(f, items, Take(AsString, bs).value.0.data);
      } else {
        ValueAgrees(f, Indeterminate, bs);
      }
    case Union(_, _) => ValueAgrees(f, UnionStart(f, s), bs);
  }

  lemma RecordAgrees(fields: seq<Field>, m: Msg, tag: nat, wire: nat, body: bytes)
    requires WellFormed(fields) && |m| == SlotCount(fields, |fields|)
    requires DecodeRecord(fields, m, tag, wire, body).Some?
    ensures DecodeRecord(fields, m, tag, wire, body).value.0 == LeftRecord(fields, m, tag, wire, body)
    decreases fields, 1, 0
  {
    match Find(fields, tag)
    case None =>
    case Some(i) =>
      SlotInRange(fields, i);
      assert WellFormedField(fields[i]);
      SlotAgrees(fields[i], wire, m[SlotOf(fields, i)], body);
  }

  lemma {:induction false} MsgAgrees(fields: seq<Field>, m: Msg, seen: set<nat>, bs: bytes)
    requires WellFormed(fields) && |m| == SlotCount(fields, |fields|) && DecodeRecords(fields, m, seen, bs).Some?
    ensures DecodeRecords(fields, m, seen, bs).value.msg == LeftMsg(fields, m, bs)
    decreases fields, 2, |bs|
  {
    if bs != [] && ReadTag(bs).Tag? {
      var t := ReadTag(bs);
      var (m', rest) := DecodeRecord(fields, m, t.tag, t.wire, t.body).value;
      RecordAgrees(fields, m, t.tag, t.wire, t.body);
      MsgAgrees(fields, m', seen + SeenBy(fields, t.tag), rest);
    }
  }

  // ---- Which slots are written ----

  /** The slots of the fields whose records the run reads, the one that breaks it included. */
  function Targeted(fields: seq<Field>, m: Msg, bs: bytes): set<nat>
    requires |m| == SlotCount(fields, |fields|)
    decreases |bs|
  {
    if bs == [] || !ReadTag(bs).Tag? then {}
    else
      var t := ReadTag(bs);
      var here := match Find(fields, t.tag) case None => {} case Some(i) => {SlotOf(fields, i)};
      match DecodeRecord(fields, m, t.tag, t.wire, t.body)
      case None => here
      case Some((m', rest)) => here + Targeted(fields, m', rest)
  }

  /** Slots without a record stay as they were, on success and on failure. */
  lemma {:induction false} OthersKept(fields: seq<Field>, m: Msg, bs: bytes)
    requires WellFormed(fields) && |m| == SlotCount(fields, |fields|)
    ensures forall k :: 0 <= k < |m| && k !in Targeted(fields, m, bs) ==> LeftMsg(fields, m, bs)[k] == m[k]
    decreases |bs|
  {
    if bs != [] && ReadTag(bs).Tag? {
      var t := ReadTag(bs);
      match DecodeRecord(fields, m, t.tag, t.wire, t.body)
      case None =>
      case Some((m', rest)) =>
        RecordAgrees(fields, m, t.tag, t.wire, t.body);
        OthersKept(fields, m', rest);
    }
  }

  // ---- When undetermined content is left behind ----

  /** The item ends up worse than the grade. From what the item held and the bytes that are there. */
  predicate SpoilsValue(f: Field, prior: Value, bs: bytes, grade: Grade)
    decreases f, 0, 0
  {
    match Reached(f, bs)
    case Untouched => !FitsValue(f, prior, grade)
    case Cut(size) => grade == Determined && !(prior.Buf? && (f.ltype == LString || size <= |prior.data|))
    case Filled(_) => false
    case Inside(payload) =>
      if StartsOn(f, prior) then SpoilsMsg(f.ptr.sub, ChildStart(f, prior), payload, grade)
      else !FitsValue(f, prior, grade)
  }

  predicate SpoilsSlot(f: Field, wire: nat, s: Slot, bs: bytes, grade: Grade)
    decreases f, 1, 0
  {
    match s
    case One(prior) => SpoilsValue(f, prior, bs, grade)
    case Opt(_, prior) => SpoilsValue(f, prior, bs, grade)
    case Many(items) => !IsPacked(f, wire) && |items| < f.arraySize && SpoilsValue(f, Indeterminate, bs, grade)
    case Union(_, _) => SpoilsValue(f, UnionStart(f, s), bs, grade)
  }

  /** The record that breaks the run does it. */
  predicate SpoilsMsg(fields: seq<Field>, m: Msg, bs: bytes, grade: Grade)
    requires |m| == SlotCount(fields, |fields|)
    decreases fields, 2, |bs|
  {
    if bs == [] || !ReadTag(bs).Tag? then false
    else
      var t := ReadTag(bs);
      match DecodeRecord(fields, m, t.tag, t.wire, t.body)
      case Some((m', rest)) => SpoilsMsg(fields, m', rest, grade)
      case None =>
        match Find(fields, t.tag)
        case None => false
        case Some(i) =>
          SlotInRange(fields, i);
          SpoilsSlot(fields[i], t.wire, m[SlotOf(fields, i)], t.body, grade)
  }

  /** Which priors the exact condition is stated for: of the grade as far as decoding goes on inside. */
  predicate StartFits(f: Field, prior: Value, grade: Grade) {
    FitsValue(f, prior, Loose) && (prior.Sub? ==> FitsValue(f, prior, grade))
  }

  lemma FilledFits(f: Field, bs: bytes, grade: Grade)
    requires WellFormedField(f) && Reached(f, bs).Filled?
    ensures FitsValue(f, Reached(f, bs).value, grade)
  {
    if f.ltype in {LFixed32, LFixed64} {
      Pow256Values();
      FromLittleEndianRoundTrip(Take(FramingOf(f.ltype), bs).value.0.data);
    }
  }

  lemma CutFits(f: Field, prior: Value, bs: bytes, grade: Grade)
    requires WellFormedField(f) && FitsValue(f, prior, Loose) && Reached(f, bs).Cut?
    ensures FitsValue(f, CutOff(f, prior, Reached(f, bs).size), grade) <==> !SpoilsValue(f, prior, bs, grade)
  {
  }

  lemma {:induction false} ValueSpoiltIff(f: Field, prior: Value, bs: bytes, grade: Grade)
    requires WellFormedField(f) && StartFits(f, prior, grade)
    ensures FitsValue(f, LeftValue(f, prior, bs), grade) <==> !SpoilsValue(f, prior, bs, grade)
    decreases f, 0, 0
  {
    match Reached(f, bs)
    case Untouched =>
    case Cut(_) => CutFits(f, prior, bs, grade);
    case Filled(_) => FilledFits(f, bs, grade);
    case Inside(payload) =>
      if StartsOn(f, prior) {
        DefaultsFit(f.ptr.sub);
        FitsMsgWeakens(f.ptr.sub, Defaults(f.ptr.sub), Determined, grade);
        MsgSpoiltIff(f.ptr.sub, ChildStart(f, prior), payload, grade);
      }
  }

  lemma {:induction false} LeftPackedFits(f: Field, items: seq<Value>, bs: bytes, grade: Grade)
    requires WellFormedField(f) && Packable(f.ltype) && |items| <= f.arraySize
    requires forall v :: v in items ==> FitsValue(f, v, grade)
    ensures var r := LeftPacked(f, items, bs);
            items <= r && |r| <= f.arraySize && forall v :: v in r ==> FitsValue(f, v, grade)
    decreases |bs|
  {
    if bs != [] && |items| < f.arraySize {
      var t := Take(FramingOf(f.ltype), bs);
      if t.Some? && DecodeValue(f, Indeterminate, t.value.0).Some? {
        ScalarDecodesFit(f, Indeterminate, t.value.0);
        LeftPackedFits(f, items + [DecodeValue(f, Indeterminate, t.value.0).value], t.value.1, grade);
      }
    }
  }

  lemma UnionStartFits(f: Field, s: Slot, grade: Grade)
    requires WellFormedField(f) && f.htype == Oneof && FitsSlot(f, s, grade)
    ensures StartFits(f, UnionStart(f, s), grade)
  {
    DefaultSlotFits(f);
    if f.ltype == LSubmessage {
      FitsWeakens(f, DefaultValue(f), Determined, grade);
      FitsWeakens(f, DefaultValue(f), Determined, Loose);
    } else if s.which == f.tag {
      FitsWeakens(f, s.value, grade, Loose);
    }
  }

  lemma {:induction false} SlotSpoiltIff(f: Field, wire: nat, s: Slot, bs: bytes, grade: Grade)
    requires WellFormedField(f) && FitsSlot(f, s, grade)
    ensures FitsSlot(f, LeftSlot(f, wire, s, bs), grade) <==> !SpoilsSlot(f, wire, s, bs, grade)
    ensures f.htype == Oneof ==> LeftSlot(f, wire, s, bs).which == f.tag
    decreases f, 1, 0
  {
    match s
    case One(prior) =>
      FitsWeakens(f, prior, grade, Loose);
      ValueSpoiltIff(f, prior, bs, grade);
    case Opt(has, prior) =>
      if has || !prior.Indeterminate? { FitsWeakens(f, prior, grade, Loose); }
      ValueSpoiltIff(f, prior, bs, grade);
    case Many(items) =>
      if IsPacked(f, wire) {
        if Take(AsString, bs).Some? {
          LeftPackedFits(f, items, Take(AsString, bs).value.0.data, grade);
        }
      } else if |items| < f.arraySize {
        ValueSpoiltIff(f, Indeterminate, bs, grade);
        var v := LeftValue(f, Indeterminate, bs);
        assert v in items + [v];
      }
    case Union(_, _) =>
      UnionStartFits(f, s, grade);
      ValueSpoiltIff(f, UnionStart(f, s), bs, grade);
  }

  /** The failing record's slot: whether the struct keeps its grade is decided there alone. */
  lemma RecordSpoiltIff(fields: seq<Field>, m: Msg, i: nat, wire: nat, bs: bytes, grade: Grade)
    requires WellFormed(fields) && FitsMsg(fields, m, grade) && i < |fields|
    ensures SlotOf(fields, i) < |m|
    ensures var k := SlotOf(fields, i);
      FitsMsg(fields, m[k := LeftSlot(fields[i], wire, m[k], bs)], grade)
      <==> !SpoilsSlot(fields[i], wire, m[k], bs, grade)
    decreases fields, 0, 0
  {
    SlotInRange(fields, i);
    var k := SlotOf(fields, i);
    assert FitsSlot(fields[i], m[k], grade);
    SlotSpoiltIff(fields[i], wire, m[k], bs, grade);
    var s := LeftSlot(fields[i], wire, m[k], bs);
    if FitsSlot(fields[i], s, grade) {
      SlotUpdateFits(fields, m, i, s, grade);
    } else {
      assert m[k := s][SlotOf(fields, i)] == s;
    }
  }

  /** From a struct of some grade, decoding leaves one of that grade if and only if the run does not break on a record
      that spoils it. The grade Loose is never lost. */
  lemma {:induction false} MsgSpoiltIff(fields: seq<Field>, m: Msg, bs: bytes, grade: Grade)
    requires WellFormed(fields) && FitsMsg(fields, m, grade)
    ensures FitsMsg(fields, LeftMsg(fields, m, bs), grade) <==> !SpoilsMsg(fields, m, bs, grade)
    decreases fields, 1, |bs|
  {
    if bs != [] && ReadTag(bs).Tag? {
      var t := ReadTag(bs);
      match DecodeRecord(fields, m, t.tag, t.wire, t.body)
      case Some((m', rest)) =>
        RecordDecodesFit(fields, m, t.tag, t.wire, t.body, grade);
        RecordAgrees(fields, m, t.tag, t.wire, t.body);
        MsgSpoiltIff(fields, m', rest, grade);
      case None =>
        if Find(fields, t.tag).Some? {
          RecordSpoiltIff(fields, m, Find(fields, t.tag).value, t.wire, t.body, grade);
        }
    }
  }

  // ---- The grade Loose is never lost: counts, which_ members, sizes and terminators that are stored ----

  lemma {:induction false} LooseValue(f: Field, prior: Value, bs: bytes)
    requires WellFormedField(f) && FitsValue(f, prior, Loose)
    ensures !SpoilsValue(f, prior, bs, Loose)
    decreases f, 0, 0
  {
    if Reached(f, bs).Inside? && StartsOn(f, prior) {
      DefaultsFit(f.ptr.sub);
      FitsMsgWeakens(f.ptr.sub, Defaults(f.ptr.sub), Determined, Loose);
      LooseMsg(f.ptr.sub, ChildStart(f, prior), Reached(f, bs).payload);
    }
  }

  lemma LooseSlot(f: Field, wire: nat, s: Slot, bs: bytes)
    requires WellFormedField(f) && FitsSlot(f, s, Loose)
    ensures !SpoilsSlot(f, wire, s, bs, Loose)
    decreases f, 1, 0
  {
    match s
    case One(prior) => LooseValue(f, prior, bs);
    case Opt(_, prior) => LooseValue(f, prior, bs);
    case Many(_) => LooseValue(f, Indeterminate, bs);
    case Union(_, _) =>
      UnionStartFits(f, s, Loose);
      LooseValue(f, UnionStart(f, s), bs);
  }

  lemma {:induction false} LooseMsg(fields: seq<Field>, m: Msg, bs: bytes)
    requires WellFormed(fields) && FitsMsg(fields, m, Loose)
    ensures !SpoilsMsg(fields, m, bs, Loose)
    decreases fields, 1, |bs|
  {
    if bs != [] && ReadTag(bs).Tag? {
      var t := ReadTag(bs);
      match DecodeRecord(fields, m, t.tag, t.wire, t.body)
      case Some((m', rest)) =>
        RecordDecodesFit(fields, m, t.tag, t.wire, t.body, Loose);
        LooseMsg(fields, m', rest);
      case None =>
        if Find(fields, t.tag).Some? {
          var i := Find(fields, t.tag).value;
          SlotInRange(fields, i);
          LooseSlot(fields[i], t.wire, m[SlotOf(fields, i)], t.body);
        }
    }
  }

  /** Over every input, on success and on failure: counts stay within array_size, which_ members are 0 or a member's
      tag, and whatever size or terminator was stored is within its buffer. */
  lemma LeftFits(fields: seq<Field>, m: Msg, bs: bytes)
    requires WellFormed(fields) && FitsMsg(fields, m, Loose)
    ensures FitsMsg(fields, LeftMsg(fields, m, bs), Loose)
  {
    LooseMsg(fields, m, bs);
    MsgSpoiltIff(fields, m, bs, Loose);
  }

  lemma LeftSlotFits(f: Field, wire: nat, s: Slot, bs: bytes)
    requires WellFormedField(f) && FitsSlot(f, s, Loose)
    ensures FitsSlot(f, LeftSlot(f, wire, s, bs), Loose)
    ensures f.htype == Oneof ==> LeftSlot(f, wire, s, bs).which == f.tag
  {
    LooseSlot(f, wire, s, bs);
    SlotSpoiltIff(f, wire, s, bs, Loose);
  }

  lemma LeftValueFits(f: Field, prior: Value, bs: bytes)
    requires WellFormedField(f) && FitsValue(f, prior, Loose)
    ensures FitsValue(f, LeftValue(f, prior, bs), Loose)
  {
    LooseValue(f, prior, bs);
    ValueSpoiltIff(f, prior, bs, Loose);
  }

  // ---- The condition, type by type ----

  /** The record goes to a place that holds nothing: the next item of an array, a union that is on another member, or an
      optional field that nothing has initialised. */
  predicate Fresh(f: Field, wire: nat, s: Slot) {
    match s
    case One(v) => false
    case Opt(_, v) => v.Indeterminate?
    case Many(items) => !IsPacked(f, wire) && |items| < f.arraySize
    case Union(which, _) => which != f.tag
  }

  /** Numbers, strings, bytes. At a fresh place the item is undetermined unless all of it arrives; and a string is
      unterminated, or a bytes size out of bounds, exactly when the length does not arrive or is too large: the count or
      which_ member is raised before. Elsewhere only bytes can become undetermined, by a size that grows over data that
      does not arrive. */
  lemma SpoiltExactly(f: Field, wire: nat, s: Slot, bs: bytes)
    requires WellFormedField(f) && f.ltype != LSubmessage && FitsSlot(f, s, Determined)
    ensures SpoilsSlot(f, wire, s, bs, Bounded) <==>
            Fresh(f, wire, s) && f.ltype in {LBytes, LString} && Reached(f, bs).Untouched?
    ensures SpoilsSlot(f, wire, s, bs, Determined) <==>
            if Fresh(f, wire, s) then !Reached(f, bs).Filled?
            else !s.Many? && f.ltype == LBytes && s.value.Buf? && Reached(f, bs).Cut?
                 && Reached(f, bs).size > |s.value.data|
  {
    match s
    case One(v) => FitsWeakens(f, v, Determined, Bounded);
    case Opt(_, v) => if !v.Indeterminate? { FitsWeakens(f, v, Determined, Bounded); }
    case Many(_) =>
    case Union(which, v) => if which == f.tag { FitsWeakens(f, v, Determined, Bounded); }
  }

  /** Where a submessage's decoding sets out from. */
  predicate SetsOut(f: Field, s: Slot, start: Msg) {
    && f.ptr.Fields? && |start| == SlotCount(f.ptr.sub, |f.ptr.sub|)
    && match s
       case One(v) => v == Sub(start)
       case Opt(_, v) => v == Sub(start)
       case _ => start == Defaults(f.ptr.sub)
  }

  /** Submessages. One that is there already, or is initialised first, is spoilt from inside only; a new item of an
      array is also undetermined when its length does not arrive or is too large. */
  lemma SpoiltInside(f: Field, wire: nat, s: Slot, bs: bytes, start: Msg, grade: Grade)
    requires WellFormedField(f) && f.ltype == LSubmessage && FitsSlot(f, s, Determined) && grade != Loose
    requires SetsOut(f, s, start)
    ensures SpoilsSlot(f, wire, s, bs, grade) <==>
            && (s.Many? ==> |s.items| < f.arraySize)
            && match Take(AsString, bs)
               case None => s.Many?
               case Some((c, _)) => SpoilsMsg(f.ptr.sub, start, c.data, grade)
  {
    DefaultSlotFits(f);
    FitsWeakens(f, DefaultValue(f), Determined, grade);
    match s
    case One(v) => FitsWeakens(f, v, Determined, grade);
    case Opt(_, v) => FitsWeakens(f, v, Determined, grade);
    case Many(_) =>
    case Union(_, _) =>
  }

  /** What a field that holds something determined keeps, but for bytes and what is inside a submessage. */
  lemma DeterminedStays(f: Field, prior: Value, bs: bytes)
    requires WellFormedField(f) && f.ltype !in {LBytes, LSubmessage} && FitsValue(f, prior, Determined)
    ensures FitsValue(f, LeftValue(f, prior, bs), Determined)
  {
    FitsWeakens(f, prior, Determined, Loose);
    ValueSpoiltIff(f, prior, bs, Determined);
  }

  // ---- Damage is confined to one place at each depth ----

  ghost predicate NearlyValue(f: Field, v: Value, grade: Grade)
    decreases f, 0
  {
    FitsValue(f, v, Loose) && (v.Sub? && f.ptr.Fields? ==> NearlyMsg(f.ptr.sub, v.msg, grade))
  }

  /** Of an array only the last item may be damaged. */
  ghost predicate NearlySlot(f: Field, s: Slot, grade: Grade)
    decreases f, 1
  {
    && FitsSlot(f, s, Loose)
    && match s
       case One(v) => NearlyValue(f, v, grade)
       case Opt(has, v) => has ==> NearlyValue(f, v, grade)
       case Many(items) =>
         items == [] || (NearlyValue(f, items[|items| - 1], grade)
                         && forall v :: v in items[..|items| - 1] ==> FitsValue(f, v, grade))
       case Union(which, v) => which == f.tag ==> NearlyValue(f, v, grade)
  }

  /** All slots but one have the grade, and that one nearly has it. */
  ghost predicate DamagedAt(fields: seq<Field>, m: Msg, grade: Grade, k: nat)
    decreases fields, 2
  {
    && |m| == SlotCount(fields, |fields|)
    && forall i {:trigger SlotOf(fields, i)} :: 0 <= i < |fields| ==>
         (SlotInRange(fields, i);
          if SlotOf(fields, i) == k then NearlySlot(fields[i], m[k], grade)
          else FitsSlot(fields[i], m[SlotOf(fields, i)], grade))
  }

  ghost predicate NearlyMsg(fields: seq<Field>, m: Msg, grade: Grade)
    decreases fields, 3
  {
    exists k :: DamagedAt(fields, m, grade, k)
  }

  /** The slot of the record that breaks the run, or none. */
  function BreaksAt(fields: seq<Field>, m: Msg, bs: bytes): nat
    requires |m| == SlotCount(fields, |fields|)
    decreases |bs|
  {
    if bs == [] || !ReadTag(bs).Tag? then |m|
    else
      var t := ReadTag(bs);
      match DecodeRecord(fields, m, t.tag, t.wire, t.body)
      case Some((m', rest)) => BreaksAt(fields, m', rest)
      case None =>
        match Find(fields, t.tag)
        case None => |m|
        case Some(i) => SlotOf(fields, i)
  }

  lemma FitsNearlyMsg(fields: seq<Field>, m: Msg, grade: Grade)
    requires FitsMsg(fields, m, grade)
    ensures DamagedAt(fields, m, grade, |m|) && NearlyMsg(fields, m, grade)
  {
    forall i | 0 <= i < |fields| ensures SlotOf(fields, i) < |m| && FitsSlot(fields[i], m[SlotOf(fields, i)], grade) {
      SlotInRange(fields, i);
    }
  }

  lemma FitsNearlyValue(f: Field, v: Value, grade: Grade)
    requires FitsValue(f, v, grade)
    ensures NearlyValue(f, v, grade)
  {
    FitsWeakens(f, v, grade, Loose);
    if v.Sub? && f.ptr.Fields? {
      FitsNearlyMsg(f.ptr.sub, v.msg, grade);
    }
  }

  lemma {:induction false} LeftValueNearly(f: Field, prior: Value, bs: bytes, grade: Grade)
    requires WellFormedField(f) && StartFits(f, prior, grade)
    ensures NearlyValue(f, LeftValue(f, prior, bs), grade)
    decreases f, 0, 0
  {
    LeftValueFits(f, prior, bs);
    match Reached(f, bs)
    case Untouched => if prior.Sub? { FitsNearlyValue(f, prior, grade); }
    case Cut(_) =>
    case Filled(_) =>
    case Inside(payload) =>
      if StartsOn(f, prior) {
        DefaultsFit(f.ptr.sub);
        FitsMsgWeakens(f.ptr.sub, Defaults(f.ptr.sub), Determined, grade);
        LeftMsgNearly(f.ptr.sub, ChildStart(f, prior), payload, grade);
      } else if prior.Sub? {
        FitsNearlyValue(f, prior, grade);
      }
  }

  lemma {:induction false} LeftSlotNearly(f: Field, wire: nat, s: Slot, bs: bytes, grade: Grade)
    requires WellFormedField(f) && FitsSlot(f, s, grade)
    ensures NearlySlot(f, LeftSlot(f, wire, s, bs), grade)
    decreases f, 1, 0
  {
    FitsSlotWeakens(f, s, grade, Loose);
    LeftSlotFits(f, wire, s, bs);
    match s
    case One(prior) =>
      FitsWeakens(f, prior, grade, Loose);
      LeftValueNearly(f, prior, bs, grade);
    case Opt(has, prior) =>
      if has || !prior.Indeterminate? { FitsWeakens(f, prior, grade, Loose); }
      LeftValueNearly(f, prior, bs, grade);
    case Many(items) => LeftItemsNearly(f, wire, items, bs, grade);
    case Union(_, _) =>
      UnionStartFits(f, s, grade);
      LeftValueNearly(f, UnionStart(f, s), bs, grade);
  }

  lemma {:induction false} LeftItemsNearly(f: Field, wire: nat, items: seq<Value>, bs: bytes, grade: Grade)
    requires WellFormedField(f) && f.htype == Repeated && FitsSlot(f, Many(items), grade)
    requires FitsSlot(f, LeftSlot(f, wire, Many(items), bs), Loose)
    ensures NearlySlot(f, LeftSlot(f, wire, Many(items), bs), grade)
    decreases f, 0, 1
  {
    var left := LeftSlot(f, wire, Many(items), bs).items;
    if !IsPacked(f, wire) && |items| < f.arraySize {
      var v := LeftValue(f, Indeterminate, bs);
      LeftValueNearly(f, Indeterminate, bs, grade);
      assert left[..|left| - 1] == items && left[|left| - 1] == v;
    } else {
      if IsPacked(f, wire) && Take(AsString, bs).Some? {
        LeftPackedFits(f, items, Take(AsString, bs).value.0.data, grade);
      }
      assert forall v :: v in left ==> FitsValue(f, v, grade);
      if left != [] {
        FitsNearlyValue(f, left[|left| - 1], grade);
      }
    }
  }

  lemma RecordNearly(fields: seq<Field>, m: Msg, i: nat, wire: nat, bs: bytes, grade: Grade)
    requires WellFormed(fields) && FitsMsg(fields, m, grade) && i < |fields|
    ensures SlotOf(fields, i) < |m|
    ensures var k := SlotOf(fields, i); DamagedAt(fields, m[k := LeftSlot(fields[i], wire, m[k], bs)], grade, k)
    decreases fields, 0, 0
  {
    SlotInRange(fields, i);
    var k := SlotOf(fields, i);
    assert FitsSlot(fields[i], m[k], grade);
    FitsSlotWeakens(fields[i], m[k], grade, Loose);
    LeftSlotNearly(fields[i], wire, m[k], bs, grade);
    LeftSlotFits(fields[i], wire, m[k], bs);
    var m' := m[k := LeftSlot(fields[i], wire, m[k], bs)];
    forall j | 0 <= j < |fields|
      ensures SlotOf(fields, j) < |m'|
      ensures if SlotOf(fields, j) == k then NearlySlot(fields[j], m'[k], grade)
              else FitsSlot(fields[j], m'[SlotOf(fields, j)], grade)
    {
      SlotInRange(fields, j);
      assert FitsSlot(fields[j], m[SlotOf(fields, j)], grade);
      if j != i && SlotOf(fields, j) == k {
        SlotOwn(fields, i, j);
        TagsAreDistinct(fields, i, j);
      }
    }
  }

  /** On failure, from a struct of some grade, every slot still has it but the slot of the record that broke the run; of
      an array there it is the last item, and in a submessage again one slot only. */
  lemma {:induction false} LeftMsgNearly(fields: seq<Field>, m: Msg, bs: bytes, grade: Grade)
    requires WellFormed(fields) && FitsMsg(fields, m, grade)
    ensures DamagedAt(fields, LeftMsg(fields, m, bs), grade, BreaksAt(fields, m, bs))
    ensures NearlyMsg(fields, LeftMsg(fields, m, bs), grade)
    decreases fields, 1, |bs|
  {
    FitsNearlyMsg(fields, m, grade);
    if bs != [] && ReadTag(bs).Tag? {
      var t := ReadTag(bs);
      match DecodeRecord(fields, m, t.tag, t.wire, t.body)
      case Some((m', rest)) =>
        RecordDecodesFit(fields, m, t.tag, t.wire, t.body, grade);
        RecordAgrees(fields, m, t.tag, t.wire, t.body);
        LeftMsgNearly(fields, m', rest, grade);
      case None =>
        if Find(fields, t.tag).Some? {
          RecordNearly(fields, m, Find(fields, t.tag).value, t.wire, t.body, grade);
        }
    }
  }

  // ---- All of this of one run ----

  /** The slot k is as before unless one of its fields has a record; and from a struct of the grade, one of that grade
      is left if and only if no record spoils it, and otherwise every slot but that of the record that broke the run
      still has it. */
  ghost predicate ContainedAt(fields: seq<Field>, was: Msg, bs: bytes, left: Msg, k: nat, grade: Grade) {
    && |was| == |left| == SlotCount(fields, |fields|)
    && (k < |was| && k !in Targeted(fields, was, bs) ==> left[k] == was[k])
    && (FitsMsg(fields, was, grade) ==>
          && (FitsMsg(fields, left, grade) <==> !SpoilsMsg(fields, was, bs, grade))
          && DamagedAt(fields, left, grade, BreaksAt(fields, was, bs)))
  }

  ghost predicate Contained(fields: seq<Field>, was: Msg, bs: bytes, left: Msg) {
    forall k: nat, grade :: ContainedAt(fields, was, bs, left, k, grade)
  }

  lemma LeftIsContained(fields: seq<Field>, m: Msg, bs: bytes)
    requires WellFormed(fields) && |m| == SlotCount(fields, |fields|)
    ensures Contained(fields, m, bs, LeftMsg(fields, m, bs))
  {
    OthersKept(fields, m, bs);
    forall k: nat, grade | true ensures ContainedAt(fields, m, bs, LeftMsg(fields, m, bs), k, grade) {
      if FitsMsg(fields, m, grade) {
        MsgSpoiltIff(fields, m, bs, grade);
        LeftMsgNearly(fields, m, bs, grade);
      }
    }
  }

  // ---- A string that was never written ----

  const NAMES := Field(1, LString, Repeated, 4, -4, 8, 2, Null)

  /** One byte, the tag of a repeated string: decoding fails, with the count at 1 over memory that nothing wrote. */
  lemma CountBeforeItem()
    ensures WellFormed([NAMES]) && SlotCount([NAMES], 1) == 1 && FitsMsg([NAMES], [Many([])], Determined)
    ensures DecodeNoinit([NAMES], [Many([])], [0x0A]).None?
    ensures LeftMsg([NAMES], [Many([])], [0x0A]) == [Many([Indeterminate])]
    ensures SpoilsMsg([NAMES], [Many([])], [0x0A], Bounded)
    ensures !FitsMsg([NAMES], LeftMsg([NAMES], [Many([])], [0x0A]), Bounded)
  {
    assert SlotCount([NAMES], 0) == 0 && SlotOf([NAMES], 0) == 0 && RequiredBefore([NAMES], 0) == 0;
    forall i | 0 <= i < 1 ensures SlotOf([NAMES], i) == 0 && FitsSlot([NAMES][i], Many([]), Determined) {
      assert i == 0;
    }
    assert FindFrom([NAMES], 1, 0) == Some(0);
    assert ScanVarint([0x0A], ROOM32) == Done(0x0A, []);
    assert ReadTag([0x0A]) == Tag(1, 2, []);
    assert ScanVarint([], ROOM32) == Broken([]);
    assert Take(AsString, []) == None && Reached(NAMES, []) == Untouched;
    assert DecodeRecord([NAMES], [Many([])], 1, 2, []) == None;
    assert LeftSlot(NAMES, 2, Many([]), []) == Many([Indeterminate]);
    assert LeftRecord([NAMES], [Many([])], 1, 2, []) == [Many([Indeterminate])];
    FitsMsgWeakens([NAMES], [Many([])], Determined, Bounded);
    MsgSpoiltIff([NAMES], [Many([])], [0x0A], Bounded);
  }

  // ---- What a failure leaves, item by item ----

  /** A number that is read is stored, cast to the type of its field, also when it is then rejected for not fitting; and
      one that breaks off leaves the field alone. */
  lemma NumberLeft(f: Field, prior: Value, bs: bytes)
    requires WellFormedField(f) && f.ltype in {LVarint, LUVarint, LSVarint}
    ensures LeftValue(f, prior, bs) ==
            match ReadVarint64(bs)
            case None => prior
            case Some((n, _)) =>
              if f.ltype == LUVarint then Num(CastUnsigned(n, f.dataSize))
              else Num(CastSigned(if f.ltype == LSVarint then UnZigZag(n) else n, f.dataSize))
  {
    match ReadVarint64(bs)
    case None =>
    case Some((n, _)) =>
      if f.ltype == LVarint && f.dataSize != 8 {
        CastTwice(n, f.dataSize);
      }
  }

  /** A string or bytes field whose data breaks off: the terminator or the size is stored over what was there. */
  lemma CutShort(f: Field, prior: Value, n: nat, d: bytes)
    requires f.ltype in {LString, LBytes} && FitsValue(f, prior, Loose) && n < TWO32 && n <= PB_SIZE_MAX && |d| < n
    requires if f.ltype == LString then n < f.dataSize else n + BYTES_HEADER <= f.dataSize
    ensures LeftValue(f, prior, Varint(n) + d) ==
            if prior.Buf? && n <= |prior.data| then Buf(prior.data[..n])
            else if f.ltype == LString && (prior.Buf? || (prior.Torn? && prior.size < n)) then prior
            else Torn(n)
  {
    ReadInvertsVarint32(n, d);
  }

  /** What is left alone: words and fixed-length fields of which not all arrives, and fields whose length does not
      arrive or does not fit. */
  lemma LeftAlone(f: Field, prior: Value, bs: bytes)
    requires WellFormedField(f) && FramingOf(f.ltype) != AsVarint
    ensures f.ltype in {LFixed32, LFixed64} && |bs| < f.dataSize ==> LeftValue(f, prior, bs) == prior
    ensures FramingOf(f.ltype) == AsString && ReadVarint32(bs).None? ==> LeftValue(f, prior, bs) == prior
    ensures FramingOf(f.ltype) == AsString && ReadVarint32(bs).Some? ==>
              var (n, rest) := ReadVarint32(bs).value;
              && (f.ltype == LBytes && n + BYTES_HEADER > f.dataSize ==> LeftValue(f, prior, bs) == prior)
              && (f.ltype == LString && n >= f.dataSize ==> LeftValue(f, prior, bs) == prior)
              && (f.ltype == LFixedLengthBytes && (n !in {0, f.dataSize} || |rest| < n) ==>
                    LeftValue(f, prior, bs) == prior)
              && (f.ltype == LSubmessage && |rest| < n ==> LeftValue(f, prior, bs) == prior)
  {
  }

  /** The has_ flag, the count and the which_ member are set whether the item then arrives or not. */
  lemma MarkedFirst(f: Field, wire: nat, s: Slot, bs: bytes)
    requires FitsSlot(f, s, Loose)
    ensures var t := LeftSlot(f, wire, s, bs);
      && (s.Opt? ==> t.Opt? && t.has)
      && (s.Union? ==> t.Union? && t.which == f.tag)
      && (s.Many? && !(wire == 2 && Packable(f.ltype)) && |s.items| < f.arraySize ==>
            t.Many? && |t.items| == |s.items| + 1 && t.items[..|s.items|] == s.items)
      && (s.Many? && wire == 2 && Packable(f.ltype) && Take(AsString, bs).None? ==> t == s)
  {
  }

  /** A submessage member of a union is initialised before its length is read, whatever the union was on. */
  lemma MemberReset(f: Field, wire: nat, s: Slot, bs: bytes)
    requires WellFormedField(f) && f.htype == Oneof && f.ltype == LSubmessage && s.Union? && Take(AsString, bs).None?
    ensures var t := LeftSlot(f, wire, s, bs);
      t.Union? && t.which == f.tag && t.value.Sub? && InitialMsg(f.ptr.sub, t.value.msg)
  {
    DefaultsAreInitial(f.ptr.sub);
  }

  /** What complete records in front have left stays, whatever becomes of the bytes behind them. */
  lemma {:induction false} LeftComposes(fields: seq<Field>, m: Msg, seen: set<nat>, a: bytes, b: bytes)
    requires WellFormed(fields) && |m| == SlotCount(fields, |fields|)
    requires var r := DecodeRecords(fields, m, seen, a); r.Some? && !r.value.stopped
    ensures LeftMsg(fields, m, a + b) == LeftMsg(fields, DecodeRecords(fields, m, seen, a).value.msg, b)
    decreases |a|
  {
    if a == [] {
      assert a + b == b;
    } else {
      var t := ReadTag(a);
      ReadTagExtends(a, b);
      DecodeRecordExtends(fields, m, t.tag, t.wire, t.body, b);
      RecordAgrees(fields, m, t.tag, t.wire, t.body + b);
      var (m', rest) := DecodeRecord(fields, m, t.tag, t.wire, t.body).value;
      LeftComposes(fields, m', seen + SeenBy(fields, t.tag), rest, b);
    }
  }

  /** A packed payload keeps the items before the first that does not arrive. */
  lemma {:induction false} PackedKeeps(f: Field, items: seq<Value>, a: bytes, b: bytes)
    requires DecodePacked(f, items, a).Some?
    ensures LeftPacked(f, items, a + b) == LeftPacked(f, DecodePacked(f, items, a).value, b)
    decreases |a|
  {
    if a == [] {
      assert [] + b == b;
    } else {
      TakeExtends(FramingOf(f.ltype), a, b);
      var (c, rest) := Take(FramingOf(f.ltype), a).value;
      PackedKeeps(f, items + [DecodeValue(f, Indeterminate, c).value], rest, b);
    }
  }

  lemma PackedStops(f: Field, items: seq<Value>, b: bytes)
    requires |items| >= f.arraySize || Take(FramingOf(f.ltype), b).None?
             || DecodeValue(f, Indeterminate, Take(FramingOf(f.ltype), b).value.0).None?
    ensures LeftPacked(f, items, b) == items
  {
  }
}
