/** Field descriptor tables, the messages they describe, and where the fields live in the C struct. */
module Descriptor {
  import opened Common
  import opened Wire

  datatype LType =
    | LVarint | LUVarint | LSVarint | LFixed32 | LFixed64
    | LBytes | LString | LSubmessage | LFixedLengthBytes

  datatype HType = Required | Optional | Repeated | Oneof

  /** pb_field_t.ptr: nothing, a default value, or the table of a submessage. */
  datatype Ptr = Null | Default(value: Value) | Fields(sub: seq<Field>)

  datatype Field = Field(
    tag: nat, ltype: LType, htype: HType,
    dataOffset: nat, sizeOffset: int, dataSize: nat, arraySize: nat, ptr: Ptr)

  /** What the memory of one item holds.
      Buf is the content of a bytes field, of a fixed-length field, or of a string up to its first NUL.
      Torn is a bytes field of that size, or a string with a NUL at that index, over content that never arrived.
      Indeterminate is memory that nothing has written since it was last meaningful. */
  datatype Value = Num(n: int) | Buf(data: bytes) | Sub(msg: Msg) | Torn(size: nat) | Indeterminate

  /** A place in the struct: an item, an item with a has_ flag, an array with its live items, or a union. */
  datatype Slot =
    | One(value: Value)
    | Opt(has: bool, value: Value)
    | Many(items: seq<Value>)
    | Union(which: nat, value: Value)

  type Msg = seq<Slot>

  predicate Packable(t: LType) {
    t in {LVarint, LUVarint, LSVarint, LFixed32, LFixed64}
  }

  /** Proto3 style: optional, but without a has_ flag of its own. */
  predicate HasLess(f: Field) {
    f.htype == Optional && f.sizeOffset == 0
  }

  // ---- Slots: the members of one union share a place, every other field has its own ----

  predicate JoinsUnion(fields: seq<Field>, i: nat)
    requires i < |fields|
  {
    i > 0 && fields[i - 1].htype == Oneof && fields[i].htype == Oneof && fields[i].dataOffset == PB_SIZE_MAX
  }

  function SlotCount(fields: seq<Field>, n: nat): (c: nat)
    requires n <= |fields|
    ensures n > 0 ==> c > 0
    ensures c <= n
  {
    if n == 0 then 0 else SlotCount(fields, n - 1) + if JoinsUnion(fields, n - 1) then 0 else 1
  }

  function SlotOf(fields: seq<Field>, i: nat): (s: nat)
    requires i < |fields|
  {
    SlotCount(fields, i + 1) - 1
  }

  lemma {:induction false} SlotCountMonotone(fields: seq<Field>, m: nat, n: nat)
    requires m <= n <= |fields|
    ensures SlotCount(fields, m) <= SlotCount(fields, n)
    decreases n
  {
    if m < n {
      SlotCountMonotone(fields, m, n - 1);
    }
  }

  /** Two fields share a slot only when both are members of the same union. */
  lemma {:induction false} SlotShared(fields: seq<Field>, i: nat, j: nat)
    requires i < j < |fields|
    ensures SlotOf(fields, i) <= SlotOf(fields, j) < SlotCount(fields, |fields|)
    ensures SlotOf(fields, i) == SlotOf(fields, j) ==> fields[i].htype == Oneof && fields[j].htype == Oneof
    ensures SlotOf(fields, i) == SlotOf(fields, j) ==> JoinsUnion(fields, j)
    decreases j
  {
    SlotCountMonotone(fields, i + 1, j);
    SlotCountMonotone(fields, j + 1, |fields|);
    if i < j - 1 {
      SlotShared(fields, i, j - 1);
    }
  }

  lemma SlotInRange(fields: seq<Field>, i: nat)
    requires i < |fields|
    ensures SlotOf(fields, i) < SlotCount(fields, |fields|)
  {
    SlotCountMonotone(fields, i + 1, |fields|);
  }

  lemma SlotOwn(fields: seq<Field>, i: nat, j: nat)
    requires i < |fields| && j < |fields| && i != j
    requires SlotOf(fields, i) == SlotOf(fields, j)
    ensures fields[i].htype == Oneof && fields[j].htype == Oneof
  {
    if i < j { SlotShared(fields, i, j); } else { SlotShared(fields, j, i); }
  }

  /** Every slot belongs to some field. */
  lemma {:induction false} SlotOwner(fields: seq<Field>, n: nat, s: nat) returns (i: nat)
    requires n <= |fields| && s < SlotCount(fields, n)
    ensures i < n && SlotOf(fields, i) == s
    decreases n
  {
    if SlotOf(fields, n - 1) == s {
      i := n - 1;
    } else {
      i := SlotOwner(fields, n - 1, s);
    }
  }

  function MemberTags(fields: seq<Field>, slot: nat): set<nat> {
    set j | 0 <= j < |fields| && fields[j].htype == Oneof && SlotOf(fields, j) == slot :: fields[j].tag
  }

  // ---- Byte offsets: the running pointers of pb_field_iter_t ----

  function Extent(f: Field): nat {
    if f.htype == Repeated then f.dataSize * f.arraySize else f.dataSize
  }

  function DataOffset(fields: seq<Field>, i: nat): nat
    requires i < |fields|
  {
    if i == 0 then fields[0].dataOffset
    else if JoinsUnion(fields, i) then DataOffset(fields, i - 1)
    else DataOffset(fields, i - 1) + Extent(fields[i - 1]) + fields[i].dataOffset
  }

  function SizeOffset(fields: seq<Field>, i: nat): int
    requires i < |fields|
  {
    if JoinsUnion(fields, i) then SizeOffset(fields, i - 1)
    else DataOffset(fields, i) + fields[i].sizeOffset
  }

  /** A C struct with a member for each field. `data[i]` is the offset of the member, `size[i]` that of its has_ flag,
      count or which_ member, and of the member itself where there is none of these. `joined[i]` tells whether the field
      is a further member of the union that the previous one is in. */
  datatype Layout = Layout(data: seq<nat>, size: seq<int>, joined: seq<bool>)

  /** The table that the macros in pb.h make for that struct: the first offset, the gap behind the previous member, or
      PB_SIZE_MAX inside a union; and the way from the member to its has_ flag, count or which_ member. An array takes
      its items' size once for each of them. */
  predicate LaidOut(fields: seq<Field>, l: Layout) {
    && |l.data| == |l.size| == |l.joined| == |fields|
    && forall i :: 0 <= i < |fields| ==> LaidAt(fields, l, i)
  }

  predicate LaidAt(fields: seq<Field>, l: Layout, i: nat)
    requires |l.data| == |l.size| == |l.joined| == |fields| && i < |fields|
  {
    && l.size[i] == l.data[i] + fields[i].sizeOffset
    && if i == 0 then !l.joined[i] && fields[i].dataOffset == l.data[i]
       else
         var prev := fields[i - 1];
         var size := if prev.htype == Repeated then prev.dataSize * prev.arraySize else prev.dataSize;
         var union := prev.htype == Oneof && fields[i].htype == Oneof && fields[i].dataOffset == PB_SIZE_MAX;
         if l.joined[i] then union && l.data[i] == l.data[i - 1] && l.size[i] == l.size[i - 1]
         else !union && l.data[i] == l.data[i - 1] + size + fields[i].dataOffset
  }

  /** The cursor's running pointers are the members' offsets. */
  lemma {:induction false} OffsetsOfMembers(fields: seq<Field>, l: Layout, i: nat)
    requires LaidOut(fields, l) && i < |fields|
    ensures DataOffset(fields, i) == l.data[i] && SizeOffset(fields, i) == l.size[i]
    decreases i
  {
    assert LaidAt(fields, l, i);
    if i > 0 {
      OffsetsOfMembers(fields, l, i - 1);
    }
  }

  /** What offsetof guarantees of a union: the next struct member starts behind its largest member. */
  predicate UnionsFit(fields: seq<Field>) {
    forall i, k :: 0 <= i < k < |fields| && SlotOf(fields, k) == SlotOf(fields, i) + 1 && !JoinsUnion(fields, k)
      ==> DataOffset(fields, i) + Extent(fields[i]) <= DataOffset(fields, k)
  }

  lemma {:induction false} DataOffsetOfUnion(fields: seq<Field>, i: nat, j: nat)
    requires i <= j < |fields| && SlotOf(fields, i) == SlotOf(fields, j)
    ensures DataOffset(fields, i) == DataOffset(fields, j)
    ensures SizeOffset(fields, i) == SizeOffset(fields, j)
    decreases j
  {
    if i < j {
      SlotShared(fields, i, j);
      DataOffsetOfUnion(fields, i, j - 1);
    }
  }

  /** Fields in different slots occupy disjoint bytes of the struct, so writing one leaves the others alone;
      the members of one union all start at the same byte. */
  lemma {:induction false} LayoutDisjoint(fields: seq<Field>, i: nat, j: nat)
    requires UnionsFit(fields) && i < j < |fields|
    ensures SlotOf(fields, i) != SlotOf(fields, j) ==>
              DataOffset(fields, i) + Extent(fields[i]) <= DataOffset(fields, j)
    ensures SlotOf(fields, i) == SlotOf(fields, j) ==> DataOffset(fields, i) == DataOffset(fields, j)
    decreases j
  {
    SlotShared(fields, i, j);
    if SlotOf(fields, i) == SlotOf(fields, j) {
      DataOffsetOfUnion(fields, i, j);
    } else if !JoinsUnion(fields, j) {
      if SlotOf(fields, j - 1) != SlotOf(fields, i) {
        LayoutDisjoint(fields, i, j - 1);
      }
    } else {
      LayoutDisjoint(fields, i, j - 1);
    }
  }

  // ---- Looking up fields ----

  function FindFrom(fields: seq<Field>, tag: nat, i: nat): (r: Option<nat>)
    requires i <= |fields|
    ensures r.Some? ==> i <= r.value < |fields| && fields[r.value].tag == tag
    ensures r.None? ==> forall j :: i <= j < |fields| ==> fields[j].tag != tag
    decreases |fields| - i
  {
    if i == |fields| then None else if fields[i].tag == tag then Some(i) else FindFrom(fields, tag, i + 1)
  }

  function Find(fields: seq<Field>, tag: nat): (r: Option<nat>)
    ensures r.Some? ==> r.value < |fields| && fields[r.value].tag == tag
    ensures r.None? ==> forall j :: 0 <= j < |fields| ==> fields[j].tag != tag
  {
    FindFrom(fields, tag, 0)
  }

  predicate TagsDiffer(fields: seq<Field>, i: nat, j: nat)
    requires i < |fields| && j < |fields|
  {
    fields[i].tag != fields[j].tag
  }

  predicate DistinctTags(fields: seq<Field>) {
    forall i, j {:trigger TagsDiffer(fields, i, j)} :: 0 <= i < j < |fields| ==> TagsDiffer(fields, i, j)
  }

  lemma TagsAreDistinct(fields: seq<Field>, i: nat, j: nat)
    requires DistinctTags(fields) && i < |fields| && j < |fields| && i != j
    ensures fields[i].tag != fields[j].tag
  {
    assert if i < j then TagsDiffer(fields, i, j) else TagsDiffer(fields, j, i);
  }

  lemma FindUnique(fields: seq<Field>, i: nat)
    requires DistinctTags(fields) && i < |fields|
    ensures Find(fields, fields[i].tag) == Some(i)
  {
    var j := Find(fields, fields[i].tag).value;
    if j != i {
      TagsAreDistinct(fields, i, j);
    }
  }

  function RequiredBefore(fields: seq<Field>, n: nat): (c: nat)
    requires n <= |fields|
    ensures c <= n
  {
    if n == 0 then 0 else RequiredBefore(fields, n - 1) + if fields[n - 1].htype == Required then 1 else 0
  }

  // ---- Well-formed tables ----

  /** What every C table is by construction, and what the decoder needs of the number of required fields:
      the last test of the bitmap shifts by 32 - R % 32, and there are two 32-bit words. */
  predicate WellFormed(fields: seq<Field>)
    decreases fields, 1
  {
    && DistinctTags(fields)
    && RequiredCountOk(RequiredBefore(fields, |fields|))
    && forall i :: 0 <= i < |fields| ==> WellFormedField(fields[i])
  }

  predicate RequiredCountOk(r: nat) {
    r < 64 && r != 32
  }

  predicate WellFormedField(f: Field)
    decreases f, 0
  {
    && 1 <= f.tag < 0x2000_0000
    && f.dataSize <= PB_SIZE_MAX && f.arraySize <= PB_SIZE_MAX
    && (f.htype == Required ==> f.sizeOffset == 0)
    && (f.htype in {Repeated, Oneof} ==> f.sizeOffset != 0)
    && (f.ltype in {LVarint, LUVarint, LSVarint} ==> f.dataSize in {1, 2, 4, 8})
    && (f.ltype == LFixed32 ==> f.dataSize == 4)
    && (f.ltype == LFixed64 ==> f.dataSize == 8)
    && (f.ltype == LBytes ==> f.dataSize >= BYTES_HEADER)
    && (f.ltype == LString ==> f.dataSize >= 1)
    && (if f.ltype == LSubmessage
        then f.ptr.Fields? && WellFormed(f.ptr.sub)
        else f.ptr.Null? || (f.ptr.Default? && FitsScalar(f, f.ptr.value)))
  }

  /** Whether the encoder's test for unset fields can succeed: not where a fixed-length field always has bytes. */
  predicate CanBeUnset(f: Field)
    decreases f
  {
    match f.ltype
    case LFixedLengthBytes => f.dataSize == 0
    case LSubmessage => f.ptr.Fields? ==> forall i :: 0 <= i < |f.ptr.sub| ==> CanBeUnset(f.ptr.sub[i])
    case _ => true
  }

  /** No has_ flags, arrays or unions, at any depth. */
  predicate Plain(fields: seq<Field>)
    decreases fields, 1
  {
    forall i :: 0 <= i < |fields| ==> PlainField(fields[i])
  }

  predicate PlainField(f: Field)
    decreases f, 0
  {
    (f.htype == Required || HasLess(f)) && (f.ptr.Fields? ==> Plain(f.ptr.sub))
  }

  /** Submessages without has_ flag are plain, unless they cannot be unset. The test looks past has_ flags, counts and
      which_ members, at raw bytes. */
  predicate PlainTables(fields: seq<Field>)
    decreases fields, 1
  {
    forall i :: 0 <= i < |fields| ==> PlainTablesField(fields[i])
  }

  predicate PlainTablesField(f: Field)
    decreases f, 0
  {
    f.ptr.Fields? ==> PlainTables(f.ptr.sub) && (HasLess(f) && CanBeUnset(f) ==> Plain(f.ptr.sub))
  }

  // ---- Messages that fit a table ----

  /** How much is known of live items. Determined: all of them have a value. Bounded: strings are terminated inside
      their buffers and bytes sizes within capacity, whatever the content. Loose: nothing. */
  datatype Grade = Determined | Bounded | Loose

  predicate AtLeast(g: Grade, h: Grade) {
    g == h || g == Determined || h == Loose
  }

  /** The C type of the item can hold the value, and a string is terminated inside its buffer. */
  predicate FitsScalar(f: Field, v: Value) {
    match f.ltype
    case LVarint | LSVarint => v.Num? && -Half(f.dataSize) <= v.n < Half(f.dataSize)
    case LUVarint => v.Num? && 0 <= v.n < 2 * Half(f.dataSize)
    case LFixed32 => v.Num? && 0 <= v.n < TWO32
    case LFixed64 => v.Num? && 0 <= v.n < TWO64
    case LBytes => v.Buf? && |v.data| + BYTES_HEADER <= f.dataSize
    case LString => v.Buf? && 0 !in v.data && |v.data| < f.dataSize
    case LFixedLengthBytes => v.Buf? && |v.data| == f.dataSize
    case LSubmessage => false
  }

  predicate FitsTorn(f: Field, size: nat) {
    match f.ltype
    case LBytes => size + BYTES_HEADER <= f.dataSize
    case LString => size < f.dataSize
    case _ => false
  }

  predicate FitsValue(f: Field, v: Value, grade: Grade)
    decreases f, 0
  {
    if v.Indeterminate? then grade == Loose || (grade == Bounded && f.ltype !in {LBytes, LString, LSubmessage})
    else if v.Torn? then grade != Determined && FitsTorn(f, v.size)
    else if f.ltype == LSubmessage then f.ptr.Fields? && v.Sub? && FitsMsg(f.ptr.sub, v.msg, grade)
    else FitsScalar(f, v)
  }

  predicate FitsSlot(f: Field, s: Slot, grade: Grade)
    decreases f, 1
  {
    match f.htype
    case Required => s.One? && FitsValue(f, s.value, grade)
    case Optional =>
      if f.sizeOffset == 0 then s.One? && FitsValue(f, s.value, grade)
      else s.Opt? && ((!s.has && s.value.Indeterminate?) || FitsValue(f, s.value, grade))
    case Repeated => s.Many? && |s.items| <= f.arraySize && forall v :: v in s.items ==> FitsValue(f, v, grade)
    case Oneof => s.Union? && (s.which == f.tag ==> FitsValue(f, s.value, grade))
  }

  /** Every field's slot fits it, and every which_ member is 0 or the tag of a member of its union. */
  predicate FitsMsg(fields: seq<Field>, m: Msg, grade: Grade)
    decreases fields, 2
  {
    && |m| == SlotCount(fields, |fields|)
    && (forall i {:trigger SlotOf(fields, i)} :: 0 <= i < |fields| ==>
          (SlotInRange(fields, i); FitsSlot(fields[i], m[SlotOf(fields, i)], grade)))
    && (forall s {:trigger MemberTags(fields, s)} :: 0 <= s < |m| && m[s].Union? ==>
          m[s].which == 0 || m[s].which in MemberTags(fields, s))
  }

  // ---- Defaults: pb_message_set_to_defaults ----

  function Zeros(n: nat): (bs: bytes)
    ensures |bs| == n
  {
    seq(n, _ => 0)
  }

  /** memset to zero, as the field's type reads it. */
  function ZeroValue(f: Field): Value {
    match f.ltype
    case LBytes | LString => Buf([])
    case LFixedLengthBytes => Buf(Zeros(f.dataSize))
    case LSubmessage => Indeterminate
    case _ => Num(0)
  }

  function DefaultValue(f: Field): Value
    decreases f, 0
  {
    match f.ptr
    case Fields(sub) => Sub(Defaults(sub))
    case Default(v) => v
    case Null => ZeroValue(f)
  }

  function DefaultSlot(f: Field): Slot
    decreases f, 1
  {
    match f.htype
    case Required => One(DefaultValue(f))
    case Optional => if f.sizeOffset == 0 then One(DefaultValue(f)) else Opt(false, DefaultValue(f))
    case Repeated => Many([])
    case Oneof => Union(0, Indeterminate)
  }

  function DefaultsUpTo(fields: seq<Field>, n: nat): (m: Msg)
    requires n <= |fields|
    ensures |m| == SlotCount(fields, n)
    decreases fields, 2, n
  {
    if n == 0 then []
    else
      var m := DefaultsUpTo(fields, n - 1);
      if JoinsUnion(fields, n - 1) then m else m + [DefaultSlot(fields[n - 1])]
  }

  function Defaults(fields: seq<Field>): (m: Msg)
    ensures |m| == SlotCount(fields, |fields|)
    decreases fields, 3
  {
    DefaultsUpTo(fields, |fields|)
  }

  lemma {:induction false} DefaultsAt(fields: seq<Field>, n: nat, i: nat)
    requires i < n <= |fields|
    ensures SlotOf(fields, i) < SlotCount(fields, n)
    ensures DefaultsUpTo(fields, n)[SlotOf(fields, i)] == DefaultSlot(fields[i])
    decreases n
  {
    SlotCountMonotone(fields, i + 1, n);
    if i == n - 1 {
      if JoinsUnion(fields, i) {
        DefaultsAt(fields, n - 1, i - 1);
      }
    } else {
      DefaultsAt(fields, n - 1, i);
    }
  }

  /** What pb_field_set_to_default leaves: the explicit default if there is one, and zeros otherwise, at every depth;
      no has_ flag, no items, no union member. */
  predicate InitialValue(f: Field, v: Value)
    decreases f, 0
  {
    match f.ptr
    case Default(d) => v == d
    case Fields(sub) => v.Sub? && InitialMsg(sub, v.msg)
    case Null =>
      match f.ltype
      case LBytes | LString => v == Buf([])
      case LFixedLengthBytes => v.Buf? && |v.data| == f.dataSize && forall b :: b in v.data ==> b == 0
      case LSubmessage => false
      case _ => v == Num(0)
  }

  predicate InitialSlot(f: Field, s: Slot)
    decreases f, 1
  {
    match f.htype
    case Required => s.One? && InitialValue(f, s.value)
    case Optional =>
      if f.sizeOffset == 0 then s.One? && InitialValue(f, s.value) else s.Opt? && !s.has && InitialValue(f, s.value)
    case Repeated => s == Many([])
    case Oneof => s.Union? && s.which == 0
  }

  predicate InitialMsg(fields: seq<Field>, m: Msg)
    decreases fields, 2
  {
    && |m| == SlotCount(fields, |fields|)
    && forall i {:trigger SlotOf(fields, i)} :: 0 <= i < |fields| ==>
         (SlotInRange(fields, i); InitialSlot(fields[i], m[SlotOf(fields, i)]))
  }

  lemma {:induction false} DefaultsAreInitial(fields: seq<Field>)
    requires WellFormed(fields)
    ensures InitialMsg(fields, Defaults(fields))
    decreases fields, 1
  {
    forall i | 0 <= i < |fields|
      ensures SlotOf(fields, i) < SlotCount(fields, |fields|)
      ensures InitialSlot(fields[i], Defaults(fields)[SlotOf(fields, i)])
    {
      DefaultsAt(fields, |fields|, i);
      DefaultIsInitial(fields[i]);
    }
  }

  lemma DefaultIsInitial(f: Field)
    requires WellFormedField(f)
    ensures InitialValue(f, DefaultValue(f)) && InitialSlot(f, DefaultSlot(f))
    decreases f, 0
  {
    if f.ltype == LSubmessage {
      DefaultsAreInitial(f.ptr.sub);
    }
  }

  /** A freshly initialised message fits its table. */
  lemma {:induction false} DefaultsFit(fields: seq<Field>)
    requires WellFormed(fields)
    ensures FitsMsg(fields, Defaults(fields), Determined)
    decreases fields, 1
  {
    var m := Defaults(fields);
    forall i | 0 <= i < |fields|
      ensures SlotOf(fields, i) < |m| && m[SlotOf(fields, i)] == DefaultSlot(fields[i])
      ensures FitsSlot(fields[i], m[SlotOf(fields, i)], Determined)
    {
      DefaultsAt(fields, |fields|, i);
      DefaultSlotFits(fields[i]);
    }
    forall s | 0 <= s < |m| && m[s].Union?
      ensures m[s].which == 0
    {
      var i := SlotOwner(fields, |fields|, s);
      assert m[s] == DefaultSlot(fields[i]);
    }
  }

  lemma DefaultSlotFits(f: Field)
    requires WellFormedField(f)
    ensures FitsSlot(f, DefaultSlot(f), Determined)
    ensures FitsValue(f, DefaultValue(f), Determined)
    decreases f, 0
  {
    if f.ltype == LSubmessage {
      DefaultsFit(f.ptr.sub);
    }
  }

  lemma {:induction false} FitsWeakens(f: Field, v: Value, g: Grade, h: Grade)
    requires FitsValue(f, v, g) && AtLeast(g, h)
    ensures FitsValue(f, v, h)
    decreases f, 0
  {
    if f.ltype == LSubmessage && v.Sub? {
      FitsMsgWeakens(f.ptr.sub, v.msg, g, h);
    }
  }

  lemma {:induction false} FitsSlotWeakens(f: Field, s: Slot, g: Grade, h: Grade)
    requires FitsSlot(f, s, g) && AtLeast(g, h)
    ensures FitsSlot(f, s, h)
    decreases f, 1
  {
    match s
    case Many(items) =>
      forall v | v in items ensures FitsValue(f, v, h) { FitsWeakens(f, v, g, h); }
    case One(v) => FitsWeakens(f, v, g, h);
    case Opt(has, v) => if has || !v.Indeterminate? { FitsWeakens(f, v, g, h); }
    case Union(w, v) => if w == f.tag { FitsWeakens(f, v, g, h); }
  }

  lemma {:induction false} FitsMsgWeakens(fields: seq<Field>, m: Msg, g: Grade, h: Grade)
    requires FitsMsg(fields, m, g) && AtLeast(g, h)
    ensures FitsMsg(fields, m, h)
    decreases fields, 2
  {
    forall i | 0 <= i < |fields|
      ensures SlotOf(fields, i) < |m| && FitsSlot(fields[i], m[SlotOf(fields, i)], h)
    {
      SlotInRange(fields, i);
      FitsSlotWeakens(fields[i], m[SlotOf(fields, i)], g, h);
    }
  }

  /** Storing a fitting slot for one field keeps the whole message fitting, also for the other members of a union. */
  lemma SlotUpdateFits(fields: seq<Field>, m: Msg, i: nat, s: Slot, grade: Grade)
    requires WellFormed(fields) && FitsMsg(fields, m, grade) && i < |fields|
    requires FitsSlot(fields[i], s, grade) && (fields[i].htype == Oneof ==> s.which == fields[i].tag)
    ensures SlotOf(fields, i) < |m| && FitsMsg(fields, m[SlotOf(fields, i) := s], grade)
  {
    SlotInRange(fields, i);
    var k := SlotOf(fields, i);
    var m' := m[k := s];
    forall j | 0 <= j < |fields|
      ensures SlotOf(fields, j) < |m'| && FitsSlot(fields[j], m'[SlotOf(fields, j)], grade)
    {
      SlotInRange(fields, j);
      assert FitsSlot(fields[j], m[SlotOf(fields, j)], grade);
      if j != i && SlotOf(fields, j) == k {
        SlotOwn(fields, i, j);
        TagsAreDistinct(fields, i, j);
      }
    }
    forall n | 0 <= n < |m'| && m'[n].Union?
      ensures m'[n].which == 0 || m'[n].which in MemberTags(fields, n)
    {
      if n == k {
        assert fields[i].htype == Oneof;
        assert fields[i].tag in MemberTags(fields, k);
      } else {
        assert m[n].Union?;
      }
    }
  }
}
