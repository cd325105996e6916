/** Decoding what the encoder wrote: into any struct, and with any table that knows some of the sender's fields. */
module RoundTrip {
  import opened Common
  import opened Wire
  import opened Descriptor
  import opened Format
  import opened Merge

  // ---- One item ----

  lemma NumberRoundTrip(f: Field, n: int, prior: Value, z: Memory)
    requires f.dataSize in {1, 2, 4, 8} && f.ltype in {LVarint, LUVarint, LSVarint} && FitsScalar(f, Num(n))
    ensures ToChunk(f, Num(n), z).Some?
    ensures var c := ToChunk(f, Num(n), z).value;
            ChunkOk(AsVarint, c) && DecodeValue(f, prior, c) == Some(Num(n))
  {
    if f.ltype == LVarint {
      CastRoundTrip(n, f.dataSize);
    } else if f.ltype == LSVarint {
      ZigZagBijective(n, 0);
    }
  }

  lemma WordRoundTrip(f: Field, n: int, prior: Value, z: Memory)
    requires f.ltype in {LFixed32, LFixed64} && FitsScalar(f, Num(n))
    ensures ToChunk(f, Num(n), z).Some?
    ensures var c := ToChunk(f, Num(n), z).value;
            ChunkOk(FramingOf(f.ltype), c) && DecodeValue(f, prior, c) == Some(Num(n))
  {
    Pow256Values();
    LittleEndianRoundTrip(n, if f.ltype == LFixed32 then 4 else 8);
  }

  /** The scalar pb_enc_* and pb_dec_* functions are inverse on every value that the field's C type can hold. */
  lemma ScalarRoundTrip(f: Field, v: Value, prior: Value, z: Memory)
    requires WellFormedField(f) && FitsScalar(f, v)
    ensures ToChunk(f, v, z).Some?
    ensures var c := ToChunk(f, v, z).value;
            ChunkOk(FramingOf(f.ltype), c) && DecodeValue(f, prior, c) == Some(v)
  {
    match FramingOf(f.ltype)
    case AsVarint => NumberRoundTrip(f, v.n, prior, z);
    case AsWord(_) => WordRoundTrip(f, v.n, prior, z);
    case AsString =>
  }

  // ---- Every fitting message encodes, whatever undetermined memory holds ----

  lemma {:induction false} FittingEncodes(fields: seq<Field>, m: Msg, z: Memory)
    requires WellFormed(fields) && FitsMsg(fields, m, Determined)
    ensures EncodeMsg(fields, m, z).Some?
    decreases fields, 2, 0
  {
    FittingEncodesUpTo(fields, m, |fields|, z);
  }

  lemma {:induction false} FittingEncodesUpTo(fields: seq<Field>, m: Msg, n: nat, z: Memory)
    requires WellFormed(fields) && FitsMsg(fields, m, Determined) && n <= |fields|
    ensures EncodeUpTo(fields, m, n, z).Some?
    decreases fields, 1, n
  {
    if n > 0 {
      FittingEncodesUpTo(fields, m, n - 1, z);
      SlotInRange(fields, n - 1);
      FittingSlotEncodes(fields[n - 1], m[SlotOf(fields, n - 1)], z.In(fields[n - 1].tag));
    }
  }

  lemma FittingSlotEncodes(f: Field, s: Slot, z: Memory)
    requires WellFormedField(f) && FitsSlot(f, s, Determined)
    ensures EncodeSlot(f, s, z).Some?
    decreases f, 2, 0
  {
    match s
    case One(v) => FittingRecordEncodes(f, v, z);
    case Opt(has, v) => if has { FittingRecordEncodes(f, v, z); }
    case Many(items) => FittingItemsEncode(f, items, |items|, z);
    case Union(which, v) => if which == f.tag { FittingRecordEncodes(f, v, z); }
  }

  lemma FittingRecordEncodes(f: Field, v: Value, z: Memory)
    requires WellFormedField(f) && FitsValue(f, v, Determined)
    ensures EncodeRecord(f, v, z).Some?
    decreases f, 1, 0
  {
    FittingValueEncodes(f, v, z);
  }

  lemma {:induction false} FittingItemsEncode(f: Field, items: seq<Value>, n: nat, z: Memory)
    requires WellFormedField(f) && n <= |items| && forall v :: v in items ==> FitsValue(f, v, Determined)
    ensures EncodeItems(f, items, n, z).Some? && EncodeRecords(f, items, n, z).Some?
    decreases f, 1, n
  {
    if n > 0 {
      FittingItemsEncode(f, items, n - 1, z);
      FittingValueEncodes(f, items[n - 1], z.In(n - 1));
    }
  }

  lemma FittingValueEncodes(f: Field, v: Value, z: Memory)
    requires WellFormedField(f) && FitsValue(f, v, Determined)
    ensures ToChunk(f, v, z).Some?
    decreases f, 0, 0
  {
    if f.ltype == LSubmessage {
      FittingEncodes(f.ptr.sub, v.msg, z);
    }
  }

  // ---- Tables that know some of a sender's fields ----

  /** g is the receiver's version of the sender's field f: of the same type, with room for at least as many items, and,
      for a submessage, with a table that knows some of the fields of the sender's. */
  predicate SubField(g: Field, f: Field)
    decreases g, 0
  {
    && g.tag == f.tag && g.ltype == f.ltype && g.htype == f.htype
    && (g.htype == Optional ==> (g.sizeOffset == 0 <==> f.sizeOffset == 0))
    && f.arraySize <= g.arraySize
    && if g.ltype == LSubmessage then g.ptr.Fields? && f.ptr.Fields? && SubTable(g.ptr.sub, f.ptr.sub)
       else g.dataSize == f.dataSize
  }

  /** Where the sender's table has the receiver's field j. */
  function SenderOf(sub: seq<Field>, big: seq<Field>, j: nat): Option<nat>
    requires j < |sub|
  {
    Find(big, sub[j].tag)
  }

  /** Every field of `sub` is in `big`, in any order, and fields that share a union in `sub` do so in `big`. */
  predicate SubTable(sub: seq<Field>, big: seq<Field>)
    decreases sub, 1
  {
    && (forall j {:trigger SenderOf(sub, big, j)} :: 0 <= j < |sub| ==>
          SenderOf(sub, big, j).Some? && SubField(sub[j], big[SenderOf(sub, big, j).value]))
    && (forall i, j {:trigger SenderOf(sub, big, i), SenderOf(sub, big, j)} ::
          0 <= i < j < |sub| && SlotOf(sub, i) == SlotOf(sub, j) ==>
            SenderOf(sub, big, i).Some? && SenderOf(sub, big, j).Some?
            && SlotOf(big, SenderOf(sub, big, i).value) == SlotOf(big, SenderOf(sub, big, j).value))
  }

  /** A field that the receiver finds is the receiver's version of the sender's. */
  lemma KnownField(sub: seq<Field>, big: seq<Field>, i: nat, j: nat)
    requires SubTable(sub, big) && DistinctTags(big) && i < |big| && Find(sub, big[i].tag) == Some(j)
    ensures SenderOf(sub, big, j) == Some(i) && SubField(sub[j], big[i])
  {
    FindUnique(big, i);
    assert SenderOf(sub, big, j).Some?;
  }

  /** Every table knows its own fields. */
  lemma {:induction false} SubTableReflexive(fields: seq<Field>)
    requires WellFormed(fields)
    ensures SubTable(fields, fields)
    decreases fields
  {
    forall j | 0 <= j < |fields|
      ensures SenderOf(fields, fields, j) == Some(j) && SubField(fields[j], fields[j])
    {
      FindUnique(fields, j);
      SubFieldReflexive(fields[j]);
    }
  }

  lemma SubFieldReflexive(f: Field)
    requires WellFormedField(f)
    ensures SubField(f, f)
    decreases f
  {
    if f.ltype == LSubmessage {
      SubTableReflexive(f.ptr.sub);
    }
  }

  // ---- Merging a message into a struct ----

  /** What an item becomes: a number or string is replaced, a submessage merged. */
  function MergeValue(g: Field, f: Field, prior: Value, v: Value, z: Memory): Option<Value>
    decreases g, 0, 0
  {
    if g.ltype != LSubmessage then Some(v)
    else if !(g.ptr.Fields? && f.ptr.Fields? && v.Sub? && |v.msg| == SlotCount(f.ptr.sub, |f.ptr.sub|)) then None
    else
      var sub := g.ptr.sub;
      var start := if g.htype == Repeated then Sub(Defaults(sub)) else prior;
      if start.Sub? && |start.msg| == SlotCount(sub, |sub|) then
        match Merged(sub, f.ptr.sub, v.msg, start.msg, z)
        case None => None
        case Some(r) => Some(Sub(r))
      else None
  }

  /** Items are appended while there is room. */
  function MergeItems(g: Field, f: Field, held: seq<Value>, items: seq<Value>, n: nat, z: Memory): Option<seq<Value>>
    requires n <= |items|
    decreases g, 1, n
  {
    if n == 0 then Some(held)
    else
      match MergeItems(g, f, held, items, n - 1, z)
      case None => None
      case Some(r) =>
        if |r| >= g.arraySize then None
        else
          match MergeValue(g, f, Indeterminate, items[n - 1], z.In(n - 1))
          case None => None
          case Some(v) => Some(r + [v])
  }

  /** A field that is not written leaves the receiver's slot alone; a union goes over to the member that is. */
  function MergeSlot(g: Field, f: Field, s: Slot, held: Slot, z: Memory): Option<Slot>
    decreases g, 2, 0
  {
    match (s, held)
    case (One(v), One(prior)) =>
      if HasLess(f) && TestsUnset(f, v, z) then Some(held)
      else (match MergeValue(g, f, prior, v, z)
            case None => None
            case Some(w) => Some(One(w)))
    case (Opt(has, v), Opt(_, prior)) =>
      if !has then Some(held)
      else (match MergeValue(g, f, prior, v, z)
            case None => None
            case Some(w) => Some(Opt(true, w)))
    case (Many(items), Many(prior)) =>
      (match MergeItems(g, f, prior, items, |items|, z)
       case None => None
       case Some(r) => Some(Many(r)))
    case (Union(which, v), Union(_, _)) =>
      if which != f.tag then Some(held)
      else (match MergeValue(g, f, UnionStart(g, held), v, z)
            case None => None
            case Some(w) => Some(Union(which, w)))
    case _ => None
  }

  /** The sender's first n fields merged, as far as the receiver knows them. */
  function MergeUpTo(sub: seq<Field>, big: seq<Field>, m: Msg, st: Msg, n: nat, z: Memory): (r: Option<Msg>)
    requires |m| == SlotCount(big, |big|) && |st| == SlotCount(sub, |sub|) && n <= |big|
    ensures r.Some? ==> |r.value| == |st|
    decreases sub, 3, n
  {
    if n == 0 then Some(st)
    else
      match MergeUpTo(sub, big, m, st, n - 1, z)
      case None => None
      case Some(r) => MergeOne(sub, big, m, r, n - 1, z)
  }

  function MergeOne(sub: seq<Field>, big: seq<Field>, m: Msg, st: Msg, i: nat, z: Memory): (r: Option<Msg>)
    requires |m| == SlotCount(big, |big|) && |st| == SlotCount(sub, |sub|) && i < |big|
    ensures r.Some? ==> |r.value| == |st|
    decreases sub, 2, 0
  {
    match Find(sub, big[i].tag)
    case None => Some(st)
    case Some(j) =>
      SlotInRange(sub, j);
      SlotInRange(big, i);
      var k := SlotOf(sub, j);
      match MergeSlot(sub[j], big[i], m[SlotOf(big, i)], st[k], z.In(big[i].tag))
      case None => None
      case Some(s) => Some(st[k := s])
  }

  /** The sender's message merged into the receiver's struct. */
  function Merged(sub: seq<Field>, big: seq<Field>, m: Msg, st: Msg, z: Memory): (r: Option<Msg>)
    requires |m| == SlotCount(big, |big|) && |st| == SlotCount(sub, |sub|)
    ensures r.Some? ==> |r.value| == |st|
    decreases sub, 4, 0
  {
    MergeUpTo(sub, big, m, st, |big|, z)
  }

  // ---- A merge keeps a struct fitting ----

  lemma {:induction false} MergeValueFits(g: Field, f: Field, prior: Value, v: Value, z: Memory, grade: Grade)
    requires WellFormedField(g) && WellFormedField(f) && SubField(g, f) && FitsValue(f, v, Determined)
    requires g.htype != Repeated && prior.Sub? ==> FitsValue(g, prior, grade)
    ensures var r := MergeValue(g, f, prior, v, z); r.Some? ==> FitsValue(g, r.value, grade)
    decreases g, 0, 0
  {
    if g.ltype == LSubmessage {
      var sub := g.ptr.sub;
      DefaultsFit(sub);
      FitsMsgWeakens(sub, Defaults(sub), Determined, grade);
      var start := if g.htype == Repeated then Sub(Defaults(sub)) else prior;
      if start.Sub? && |start.msg| == SlotCount(sub, |sub|) {
        MergeFits(sub, f.ptr.sub, v.msg, start.msg, |f.ptr.sub|, z, grade);
      }
    } else {
      assert FitsScalar(g, v);
    }
  }

  lemma {:induction false} MergeItemsFit(g: Field, f: Field, held: seq<Value>, items: seq<Value>, n: nat, z: Memory,
                                         grade: Grade)
    requires WellFormedField(g) && WellFormedField(f) && SubField(g, f) && n <= |items| && |held| <= g.arraySize
    requires forall v :: v in items ==> FitsValue(f, v, Determined)
    requires forall v :: v in held ==> FitsValue(g, v, grade)
    ensures var r := MergeItems(g, f, held, items, n, z);
            r.Some? ==> |r.value| <= g.arraySize && forall v :: v in r.value ==> FitsValue(g, v, grade)
    decreases g, 1, n
  {
    if n > 0 {
      MergeItemsFit(g, f, held, items, n - 1, z, grade);
      assert items[n - 1] in items;
      MergeValueFits(g, f, Indeterminate, items[n - 1], z.In(n - 1), grade);
    }
  }

  lemma {:induction false} MergeSlotFits(g: Field, f: Field, s: Slot, held: Slot, z: Memory, grade: Grade)
    requires WellFormedField(g) && WellFormedField(f) && SubField(g, f) && FitsSlot(f, s, Determined)
    requires FitsSlot(g, held, grade)
    ensures var r := MergeSlot(g, f, s, held, z);
            r.Some? ==> FitsSlot(g, r.value, grade) && (g.htype == Oneof && r.value != held ==> r.value.which == g.tag)
    decreases g, 2, 0
  {
    match s
    case One(v) => MergeValueFits(g, f, held.value, v, z, grade);
    case Opt(has, v) => if has { MergeValueFits(g, f, held.value, v, z, grade); }
    case Many(items) => MergeItemsFit(g, f, held.items, items, |items|, z, grade);
    case Union(which, v) =>
      if which == f.tag {
        DefaultSlotFits(g);
        FitsWeakens(g, DefaultValue(g), Determined, grade);
        MergeValueFits(g, f, UnionStart(g, held), v, z, grade);
      }
  }

  predicate SomeFits(fields: seq<Field>, m: Option<Msg>, grade: Grade) {
    m.Some? ==> FitsMsg(fields, m.value, grade)
  }

  lemma MergeOneFits(sub: seq<Field>, big: seq<Field>, m: Msg, st: Msg, i: nat, z: Memory, grade: Grade)
    requires WellFormed(sub) && WellFormed(big) && SubTable(sub, big)
    requires FitsMsg(big, m, Determined) && FitsMsg(sub, st, grade) && i < |big|
    ensures SomeFits(sub, MergeOne(sub, big, m, st, i, z), grade)
    decreases sub, 0, 0
  {
    match Find(sub, big[i].tag)
    case None =>
    case Some(j) =>
      SlotInRange(sub, j);
      SlotInRange(big, i);
      KnownField(sub, big, i, j);
      var k := SlotOf(sub, j);
      assert FitsSlot(big[i], m[SlotOf(big, i)], Determined) && FitsSlot(sub[j], st[k], grade);
      MergeSlotFits(sub[j], big[i], m[SlotOf(big, i)], st[k], z.In(big[i].tag), grade);
      var s := MergeSlot(sub[j], big[i], m[SlotOf(big, i)], st[k], z.In(big[i].tag));
      if s == Some(st[k]) {
        assert st[k := st[k]] == st;
      } else if s.Some? {
        SlotUpdateFits(sub, st, j, s.value, grade);
      }
  }

  lemma {:induction false} MergeFits(sub: seq<Field>, big: seq<Field>, m: Msg, st: Msg, n: nat, z: Memory, grade: Grade)
    requires WellFormed(sub) && WellFormed(big) && SubTable(sub, big)
    requires FitsMsg(big, m, Determined) && FitsMsg(sub, st, grade) && n <= |big|
    ensures SomeFits(sub, MergeUpTo(sub, big, m, st, n, z), grade)
    decreases sub, 1, n
  {
    if n == 0 {
      assert MergeUpTo(sub, big, m, st, n, z) == Some(st);
    } else {
      MergeFits(sub, big, m, st, n - 1, z, grade);
      match MergeUpTo(sub, big, m, st, n - 1, z)
      case None =>
        assert MergeUpTo(sub, big, m, st, n, z) == None;
      case Some(r) =>
        assert MergeUpTo(sub, big, m, st, n, z) == MergeOne(sub, big, m, r, n - 1, z);
        MergeOneFits(sub, big, m, r, n - 1, z, grade);
    }
  }

  // ---- Which fields are seen ----

  /** The receiver's fields that the sender's first n ones have records for. */
  function Sent(sub: seq<Field>, big: seq<Field>, m: Msg, n: nat, z: Memory): set<nat>
    requires |m| == SlotCount(big, |big|) && n <= |big|
  {
    if n == 0 then {}
    else
      SlotInRange(big, n - 1);
      var f := big[n - 1];
      Sent(sub, big, m, n - 1, z) +
      if EncodeSlot(f, m[SlotOf(big, n - 1)], z.In(f.tag)) == Some([]) then {} else SeenBy(sub, f.tag)
  }

  lemma {:induction false} SentAt(sub: seq<Field>, big: seq<Field>, m: Msg, n: nat, i: nat, z: Memory)
    requires |m| == SlotCount(big, |big|) && i < n <= |big|
    ensures SlotOf(big, i) < |m|
    ensures EncodeSlot(big[i], m[SlotOf(big, i)], z.In(big[i].tag)) != Some([]) ==>
              SeenBy(sub, big[i].tag) <= Sent(sub, big, m, n, z)
    decreases n
  {
    SlotInRange(big, i);
    if i < n - 1 {
      SentAt(sub, big, m, n - 1, i, z);
    }
  }

  lemma RequiredWritten(f: Field, s: Slot, z: Memory)
    requires f.htype == Required && s.One?
    ensures EncodeSlot(f, s, z) != Some([])
  {
    assert |TagBytes(WireOf(f.ltype), f.tag)| > 0;
  }

  /** Every required field is sent. */
  lemma RequiredSent(sub: seq<Field>, big: seq<Field>, m: Msg, z: Memory)
    requires DistinctTags(sub) && SubTable(sub, big) && FitsMsg(big, m, Determined)
    ensures RequiredSeen(sub, Sent(sub, big, m, |big|, z))
  {
    forall j | 0 <= j < |sub| && sub[j].htype == Required ensures j in Sent(sub, big, m, |big|, z) {
      var i := SenderOf(sub, big, j).value;
      FindUnique(sub, j);
      SentAt(sub, big, m, |big|, i, z);
      assert FitsSlot(big[i], m[SlotOf(big, i)], Determined);
      RequiredWritten(big[i], m[SlotOf(big, i)], z.In(big[i].tag));
      assert j in SeenBy(sub, big[i].tag);
    }
  }

  // ---- Decoding an encoding merges it ----

  lemma {:induction false} ValueMerges(g: Field, f: Field, prior: Value, v: Value, z: Memory)
    requires WellFormedField(g) && WellFormedField(f) && SubField(g, f) && FitsValue(f, v, Determined)
    requires g.htype != Repeated && prior.Sub? ==> FitsValue(g, prior, Loose)
    requires EncodeValue(f, v, z).Some? && |EncodeValue(f, v, z).value| < TWO32
    ensures ToChunk(f, v, z).Some?
    ensures var c := ToChunk(f, v, z).value;
            ChunkOk(FramingOf(g.ltype), c) && DecodeValue(g, prior, c) == MergeValue(g, f, prior, v, z)
    decreases g, 0, 0
  {
    if g.ltype == LSubmessage {
      var sub := g.ptr.sub;
      var start := if g.htype == Repeated then Sub(Defaults(sub)) else prior;
      DefaultsFit(sub);
      FitsMsgWeakens(sub, Defaults(sub), Determined, Loose);
      if start.Sub? && |start.msg| == SlotCount(sub, |sub|) {
        MessageMerges(sub, f.ptr.sub, v.msg, start.msg, z);
      }
    } else {
      ScalarRoundTrip(f, v, prior, z);
      SameScalar(g, f, prior, ToChunk(f, v, z).value);
    }
  }

  lemma SameScalar(g: Field, f: Field, prior: Value, c: Chunk)
    requires SubField(g, f) && g.ltype != LSubmessage && ChunkOk(FramingOf(g.ltype), c)
    ensures DecodeValue(g, prior, c) == DecodeValue(f, prior, c)
  {
  }

  /** One packed item, in front of anything. */
  lemma PackedStep(g: Field, f: Field, held: seq<Value>, v: Value, b: bytes, z: Memory, tail: bytes)
    requires WellFormedField(f) && SubField(g, f) && Packable(g.ltype) && FitsValue(f, v, Determined)
    requires EncodeValue(f, v, z) == Some(b)
    ensures MergeValue(g, f, Indeterminate, v, z) == Some(v)
    ensures DecodePacked(g, held, b + tail) == if |held| >= g.arraySize then None else DecodePacked(g, held + [v], tail)
  {
    ScalarRoundTrip(f, v, Indeterminate, z);
    var c := ToChunk(f, v, z).value;
    SameScalar(g, f, Indeterminate, c);
    TakeInverts(FramingOf(g.ltype), c, tail);
    assert ChunkBytes(c) != [];
  }

  lemma {:induction false} PackedMerges(g: Field, f: Field, held: seq<Value>, items: seq<Value>, e: bytes, n: nat,
                                        z: Memory, tail: bytes)
    requires WellFormedField(f) && SubField(g, f) && Packable(g.ltype)
    requires n <= |items| && forall v :: v in items ==> FitsValue(f, v, Determined)
    requires EncodeItems(f, items, n, z) == Some(e)
    ensures DecodePacked(g, held, e + tail) ==
            match MergeItems(g, f, held, items, n, z)
            case None => None
            case Some(r) => DecodePacked(g, r, tail)
    decreases n
  {
    if n == 0 {
      assert [] + tail == tail;
    } else {
      var v, y := items[n - 1], z.In(n - 1);
      var a, b := EncodeItems(f, items, n - 1, z).value, EncodeValue(f, v, y).value;
      assert v in items && e + tail == a + (b + tail);
      PackedMerges(g, f, held, items, a, n - 1, z, b + tail);
      match MergeItems(g, f, held, items, n - 1, z)
      case None =>
        assert MergeItems(g, f, held, items, n, z) == None;
      case Some(r) =>
        PackedStep(g, f, r, v, b, y, tail);
    }
  }

  lemma {:induction false} RecordMerges(sub: seq<Field>, st: Msg, seen: set<nat>, j: nat, f: Field, v: Value,
                                        prior: Value, z: Memory, rest: bytes)
    requires |st| == SlotCount(sub, |sub|) && DistinctTags(sub) && j < |sub| && SlotOf(sub, j) < |st|
    requires WellFormedField(sub[j]) && WellFormedField(f) && SubField(sub[j], f) && FitsValue(f, v, Determined)
    requires EncodeRecord(f, v, z).Some? && |EncodeRecord(f, v, z).value| < TWO32
    requires !IsPacked(sub[j], WireOf(f.ltype))
    requires sub[j].htype != Repeated && prior.Sub? ==> FitsValue(sub[j], prior, Loose)
    ensures ToChunk(f, v, z).Some?
    ensures var c := ToChunk(f, v, z).value;
      && ChunkOk(FramingOf(sub[j].ltype), c)
      && DecodeValue(sub[j], prior, c) == MergeValue(sub[j], f, prior, v, z)
      && DecodeRecords(sub, st, seen, EncodeRecord(f, v, z).value + rest) ==
         match DecodeSlot(sub[j], WireOf(f.ltype), st[SlotOf(sub, j)], c)
         case None => None
         case Some(s) => DecodeRecords(sub, st[SlotOf(sub, j) := s], seen + {j}, rest)
    decreases sub[j], 1, 0
  {
    ValueMerges(sub[j], f, prior, v, z);
    RecordThen(sub, st, seen, j, WireOf(f.ltype), ToChunk(f, v, z).value, rest);
  }

  lemma {:induction false} ItemsMerge(sub: seq<Field>, st: Msg, seen: set<nat>, j: nat, f: Field, items: seq<Value>,
                                      n: nat, z: Memory, rest: bytes)
    requires |st| == SlotCount(sub, |sub|) && DistinctTags(sub) && j < |sub| && SlotOf(sub, j) < |st|
    requires WellFormedField(sub[j]) && WellFormedField(f) && SubField(sub[j], f)
    requires f.htype == Repeated && !Packable(f.ltype) && st[SlotOf(sub, j)].Many?
    requires n <= |items| && forall v :: v in items ==> FitsValue(f, v, Determined)
    requires EncodeRecords(f, items, n, z).Some? && |EncodeRecords(f, items, n, z).value| < TWO32
    ensures DecodeRecords(sub, st, seen, EncodeRecords(f, items, n, z).value + rest) ==
            match MergeItems(sub[j], f, st[SlotOf(sub, j)].items, items, n, z)
            case None => None
            case Some(r) =>
              DecodeRecords(sub, st[SlotOf(sub, j) := Many(r)], if n == 0 then seen else seen + {j}, rest)
    decreases sub[j], 2, n
  {
    var k := SlotOf(sub, j);
    if n == 0 {
      assert [] + rest == rest && st[k := Many(st[k].items)] == st;
    } else {
      var b := EncodeRecord(f, items[n - 1], z.In(n - 1)).value;
      assert EncodeRecords(f, items, n, z).value + rest == EncodeRecords(f, items, n - 1, z).value + (b + rest);
      ItemsMerge(sub, st, seen, j, f, items, n - 1, z, b + rest);
      var r := MergeItems(sub[j], f, st[k].items, items, n - 1, z);
      if r.Some? {
        var st1, seen1 := st[k := Many(r.value)], if n == 1 then seen else seen + {j};
        RecordMerges(sub, st1, seen1, j, f, items[n - 1], Indeterminate, z.In(n - 1), rest);
        assert seen1 + {j} == seen + {j};
        var done := MergeItems(sub[j], f, st[k].items, items, n, z);
        assert done.Some? ==> st1[k := Many(done.value)] == st[k := Many(done.value)];
      }
    }
  }

  /** A field with one item, which is sent: it starts from what the receiver holds, or in a union from the start. */
  lemma {:induction false} SentMerges(sub: seq<Field>, st: Msg, seen: set<nat>, j: nat, f: Field, s: Slot, z: Memory,
                                      rest: bytes)
    requires |st| == SlotCount(sub, |sub|) && DistinctTags(sub) && j < |sub| && SlotOf(sub, j) < |st|
    requires WellFormedField(sub[j]) && WellFormedField(f) && SubField(sub[j], f) && FitsSlot(f, s, Determined)
    requires FitsSlot(sub[j], st[SlotOf(sub, j)], Loose)
    requires EncodeSlot(f, s, z).Some? && |EncodeSlot(f, s, z).value| < TWO32
    requires f.htype != Repeated && EncodeSlot(f, s, z) != Some([])
    ensures DecodeRecords(sub, st, seen, EncodeSlot(f, s, z).value + rest) ==
            match MergeSlot(sub[j], f, s, st[SlotOf(sub, j)], z)
            case None => None
            case Some(t) => DecodeRecords(sub, st[SlotOf(sub, j) := t], seen + {j}, rest)
    decreases sub[j], 2, 0
  {
    var g, k := sub[j], SlotOf(sub, j);
    if f.htype == Oneof {
      DefaultSlotFits(g);
      FitsWeakens(g, DefaultValue(g), Determined, Loose);
      RecordMerges(sub, st, seen, j, f, s.value, UnionStart(g, st[k]), z, rest);
    } else {
      RecordMerges(sub, st, seen, j, f, s.value, st[k].value, z, rest);
    }
  }

  lemma UnsentStays(g: Field, f: Field, s: Slot, held: Slot, z: Memory)
    requires SubField(g, f) && FitsSlot(f, s, Determined) && FitsSlot(g, held, Loose) && EncodeSlot(f, s, z) == Some([])
    ensures MergeSlot(g, f, s, held, z) == Some(held)
  {
    assert |TagBytes(WireOf(f.ltype), f.tag)| > 0 && |TagBytes(WT_STRING, f.tag)| > 0;
    if s.Many? && s.items != [] && !Packable(f.ltype) {
      RecordsAreLong(f, s.items, |s.items|, z);
    }
  }

  lemma {:induction false} RecordsAreLong(f: Field, items: seq<Value>, n: nat, z: Memory)
    requires 0 < n <= |items|
    ensures EncodeRecords(f, items, n, z) != Some([])
    decreases n
  {
    assert |TagBytes(WireOf(f.ltype), f.tag)| > 0;
  }

  /** One field's bytes, in front of anything: the receiver's slot becomes what the merge says, or the run fails. */
  lemma {:induction false} SlotMerges(sub: seq<Field>, st: Msg, seen: set<nat>, j: nat, f: Field, s: Slot, z: Memory,
                                      rest: bytes)
    requires |st| == SlotCount(sub, |sub|) && DistinctTags(sub) && j < |sub| && SlotOf(sub, j) < |st|
    requires WellFormedField(sub[j]) && WellFormedField(f) && SubField(sub[j], f) && FitsSlot(f, s, Determined)
    requires FitsSlot(sub[j], st[SlotOf(sub, j)], Loose)
    requires EncodeSlot(f, s, z).Some? && |EncodeSlot(f, s, z).value| < TWO32
    ensures DecodeRecords(sub, st, seen, EncodeSlot(f, s, z).value + rest) ==
            match MergeSlot(sub[j], f, s, st[SlotOf(sub, j)], z)
            case None => None
            case Some(t) =>
              DecodeRecords(sub, st[SlotOf(sub, j) := t],
                            if EncodeSlot(f, s, z) == Some([]) then seen else seen + {j}, rest)
    decreases sub[j], 3, 0
  {
    var k := SlotOf(sub, j);
    if EncodeSlot(f, s, z) == Some([]) {
      UnsentStays(sub[j], f, s, st[k], z);
      assert st[k := st[k]] == st && [] + rest == rest;
    } else if f.htype != Repeated {
      SentMerges(sub, st, seen, j, f, s, z, rest);
    } else if Packable(f.ltype) {
      PackedSlotMerges(sub, st, seen, j, f, s.items, z, rest);
    } else {
      ItemsMerge(sub, st, seen, j, f, s.items, |s.items|, z, rest);
    }
  }

  lemma PackedSlotMerges(sub: seq<Field>, st: Msg, seen: set<nat>, j: nat, f: Field, items: seq<Value>, z: Memory,
                         rest: bytes)
    requires |st| == SlotCount(sub, |sub|) && DistinctTags(sub) && j < |sub| && SlotOf(sub, j) < |st|
    requires WellFormedField(sub[j]) && WellFormedField(f) && SubField(sub[j], f)
    requires f.htype == Repeated && Packable(f.ltype) && st[SlotOf(sub, j)].Many?
    requires items != [] && forall v :: v in items ==> FitsValue(f, v, Determined)
    requires EncodeArray(f, items, z).Some? && |EncodeArray(f, items, z).value| < TWO32
    ensures DecodeRecords(sub, st, seen, EncodeArray(f, items, z).value + rest) ==
            match MergeItems(sub[j], f, st[SlotOf(sub, j)].items, items, |items|, z)
            case None => None
            case Some(r) => DecodeRecords(sub, st[SlotOf(sub, j) := Many(r)], seen + {j}, rest)
  {
    var g, k := sub[j], SlotOf(sub, j);
    var payload := EncodeItems(f, items, |items|, z).value;
    PackedMerges(g, f, st[k].items, items, payload, |items|, z, []);
    assert payload + [] == payload;
    RecordThen(sub, st, seen, j, WT_STRING, Payload(payload), rest);
  }

  // ---- What the receiver does not know is skipped ----

  lemma SkippedRecord(sub: seq<Field>, st: Msg, seen: set<nat>, t: LType, tag: nat, c: Chunk, rest: bytes)
    requires |st| == SlotCount(sub, |sub|) && Find(sub, tag).None? && 1 <= tag < 0x2000_0000
    requires ChunkOk(FramingOf(t), c)
    ensures DecodeRecords(sub, st, seen, TagBytes(WireOf(t), tag) + ChunkBytes(c) + rest)
            == DecodeRecords(sub, st, seen, rest)
  {
    var body := ChunkBytes(c) + rest;
    assert TagBytes(WireOf(t), tag) + ChunkBytes(c) + rest == TagBytes(WireOf(t), tag) + body;
    ReadInvertsTag(WireOf(t), tag, body);
    SkipInverts(t, c, rest);
    assert seen + {} == seen;
    assert DecodeRecord(sub, st, tag, WireOf(t), body) == Some((st, rest));
  }

  lemma SkippedValue(sub: seq<Field>, st: Msg, seen: set<nat>, f: Field, v: Value, z: Memory, rest: bytes)
    requires |st| == SlotCount(sub, |sub|) && WellFormedField(f) && Find(sub, f.tag).None?
    requires EncodeRecord(f, v, z).Some? && |EncodeRecord(f, v, z).value| < TWO32
    ensures DecodeRecords(sub, st, seen, EncodeRecord(f, v, z).value + rest) == DecodeRecords(sub, st, seen, rest)
  {
    SkippedRecord(sub, st, seen, f.ltype, f.tag, ToChunk(f, v, z).value, rest);
  }

  lemma {:induction false} SkippedItems(sub: seq<Field>, st: Msg, seen: set<nat>, f: Field, items: seq<Value>, n: nat,
                                        z: Memory, rest: bytes)
    requires |st| == SlotCount(sub, |sub|) && WellFormedField(f) && Find(sub, f.tag).None? && n <= |items|
    requires EncodeRecords(f, items, n, z).Some? && |EncodeRecords(f, items, n, z).value| < TWO32
    ensures DecodeRecords(sub, st, seen, EncodeRecords(f, items, n, z).value + rest)
            == DecodeRecords(sub, st, seen, rest)
    decreases n
  {
    if n == 0 {
      assert [] + rest == rest;
    } else {
      var b := EncodeRecord(f, items[n - 1], z.In(n - 1)).value;
      assert EncodeRecords(f, items, n, z).value + rest == EncodeRecords(f, items, n - 1, z).value + (b + rest);
      SkippedItems(sub, st, seen, f, items, n - 1, z, b + rest);
      SkippedValue(sub, st, seen, f, items[n - 1], z.In(n - 1), rest);
    }
  }

  lemma SkippedSlot(sub: seq<Field>, st: Msg, seen: set<nat>, f: Field, s: Slot, z: Memory, rest: bytes)
    requires |st| == SlotCount(sub, |sub|) && WellFormedField(f) && Find(sub, f.tag).None?
    requires EncodeSlot(f, s, z).Some? && |EncodeSlot(f, s, z).value| < TWO32
    ensures DecodeRecords(sub, st, seen, EncodeSlot(f, s, z).value + rest) == DecodeRecords(sub, st, seen, rest)
  {
    if EncodeSlot(f, s, z).value == [] {
      assert [] + rest == rest;
    } else {
      match s
      case One(v) => SkippedValue(sub, st, seen, f, v, z, rest);
      case Opt(_, v) => SkippedValue(sub, st, seen, f, v, z, rest);
      case Union(_, v) => SkippedValue(sub, st, seen, f, v, z, rest);
      case Many(items) =>
        if Packable(f.ltype) {
          SkippedRecord(sub, st, seen, LString, f.tag, Payload(EncodeItems(f, items, |items|, z).value), rest);
        } else {
          SkippedItems(sub, st, seen, f, items, |items|, z, rest);
        }
    }
  }

  // ---- Fields, one after the other ----

  lemma EncodeSplits(fields: seq<Field>, m: Msg, i: nat, e: bytes, z: Memory) returns (a: bytes, b: bytes)
    requires |m| == SlotCount(fields, |fields|) && i < |fields| && EncodeUpTo(fields, m, i + 1, z) == Some(e)
    ensures SlotOf(fields, i) < |m| && e == a + b && EncodeUpTo(fields, m, i, z) == Some(a)
    ensures EncodeSlot(fields[i], m[SlotOf(fields, i)], z.In(fields[i].tag)) == Some(b)
  {
    SlotInRange(fields, i);
    a := EncodeUpTo(fields, m, i, z).value;
    b := EncodeSlot(fields[i], m[SlotOf(fields, i)], z.In(fields[i].tag)).value;
  }

  /** The next field of the sender, known to the receiver or not. */
  lemma FieldMerges(sub: seq<Field>, big: seq<Field>, m: Msg, st: Msg, seen: set<nat>, i: nat, z: Memory, rest: bytes)
    requires WellFormed(sub) && WellFormed(big) && SubTable(sub, big) && FitsMsg(big, m, Determined)
    requires FitsMsg(sub, st, Loose)
    requires i < |big| && SlotOf(big, i) < |m|
    requires var e := EncodeSlot(big[i], m[SlotOf(big, i)], z.In(big[i].tag)); e.Some? && |e.value| < TWO32
    ensures var e := EncodeSlot(big[i], m[SlotOf(big, i)], z.In(big[i].tag));
      DecodeRecords(sub, st, seen, e.value + rest) ==
      match MergeOne(sub, big, m, st, i, z)
      case None => None
      case Some(r) => DecodeRecords(sub, r, if e == Some([]) then seen else seen + SeenBy(sub, big[i].tag), rest)
    decreases sub, 0, 0
  {
    var f, s, y := big[i], m[SlotOf(big, i)], z.In(big[i].tag);
    assert FitsSlot(f, s, Determined);
    match Find(sub, f.tag)
    case None =>
      SkippedSlot(sub, st, seen, f, s, y, rest);
      assert seen + {} == seen;
    case Some(j) =>
      SlotInRange(sub, j);
      KnownField(sub, big, i, j);
      assert FitsSlot(sub[j], st[SlotOf(sub, j)], Loose);
      SlotMerges(sub, st, seen, j, f, s, y, rest);
  }

  /** A message of the sender's table, and a struct of the receiver's. */
  predicate Mergeable(sub: seq<Field>, big: seq<Field>, m: Msg, st: Msg) {
    && WellFormed(sub) && WellFormed(big) && SubTable(sub, big)
    && FitsMsg(big, m, Determined) && FitsMsg(sub, st, Loose)
  }

  /** What comes of the next field, once the first i are merged. */
  lemma FieldsStep(sub: seq<Field>, big: seq<Field>, m: Msg, st: Msg, r: Msg, b: bytes, seen: set<nat>, i: nat,
                   z: Memory, rest: bytes)
    requires Mergeable(sub, big, m, st)
    requires i < |big| && SlotOf(big, i) < |m| && MergeUpTo(sub, big, m, st, i, z) == Some(r)
    requires EncodeSlot(big[i], m[SlotOf(big, i)], z.In(big[i].tag)) == Some(b) && |b| < TWO32
    ensures DecodeRecords(sub, r, seen + Sent(sub, big, m, i, z), b + rest) ==
            match MergeUpTo(sub, big, m, st, i + 1, z)
            case None => None
            case Some(next) => DecodeRecords(sub, next, seen + Sent(sub, big, m, i + 1, z), rest)
    decreases sub, 1, 0
  {
    MergeFits(sub, big, m, st, i, z, Loose);
    var sent := Sent(sub, big, m, i, z);
    FieldMerges(sub, big, m, r, seen + sent, i, z, rest);
    assert seen + sent + SeenBy(sub, big[i].tag) == seen + (sent + SeenBy(sub, big[i].tag));
    assert seen + sent == seen + (sent + {});
  }

  /** The encoding of the first n fields, in front of further bytes. */
  lemma {:induction false} FieldsMerge(sub: seq<Field>, big: seq<Field>, m: Msg, e: bytes, st: Msg, seen: set<nat>,
                                       n: nat, z: Memory, rest: bytes)
    requires Mergeable(sub, big, m, st)
    requires n <= |big| && EncodeUpTo(big, m, n, z) == Some(e) && |e| < TWO32
    ensures DecodeRecords(sub, st, seen, e + rest) ==
            match MergeUpTo(sub, big, m, st, n, z)
            case None => None
            case Some(r) => DecodeRecords(sub, r, seen + Sent(sub, big, m, n, z), rest)
    decreases sub, 2, n
  {
    if n == 0 {
      assert [] + rest == rest && seen + {} == seen;
    } else {
      var a, b := EncodeSplits(big, m, n - 1, e, z);
      assert e + rest == a + (b + rest);
      FieldsMerge(sub, big, m, a, st, seen, n - 1, z, b + rest);
      match MergeUpTo(sub, big, m, st, n - 1, z)
      case None =>
        assert MergeUpTo(sub, big, m, st, n, z).None?;
      case Some(r) =>
        FieldsStep(sub, big, m, st, r, b, seen, n - 1, z, rest);
    }
  }

  /** Decoding an encoded message into any struct, with any table that knows some of its fields, merges it: it succeeds
      exactly when the merge does, uses up the bytes, and leaves the merged struct. */
  lemma {:induction false} MessageMerges(sub: seq<Field>, big: seq<Field>, m: Msg, st: Msg, z: Memory)
    requires Mergeable(sub, big, m, st)
    requires EncodeMsg(big, m, z).Some? && |EncodeMsg(big, m, z).value| < TWO32
    ensures DecodeNoinit(sub, st, EncodeMsg(big, m, z).value) ==
            match Merged(sub, big, m, st, z)
            case None => None
            case Some(r) => Some((r, []))
    decreases sub, 3, 0
  {
    var b := EncodeMsg(big, m, z).value;
    FieldsMerge(sub, big, m, b, st, {}, |big|, z, []);
    assert b + [] == b && {} + Sent(sub, big, m, |big|, z) == Sent(sub, big, m, |big|, z);
    RequiredSent(sub, big, m, z);
  }
}
