/** The wire format as pure functions: what the encoder writes for a message and what the decoder makes of bytes. */
module Format {
  import opened Common
  import opened Wire
  import opened Descriptor

  // ---- Chunks: the self-delimiting payload behind a tag ----

  datatype Chunk = Number(n: nat) | Word(data: bytes) | Payload(data: bytes)

  datatype Framing = AsVarint | AsWord(width: nat) | AsString

  function FramingOf(t: LType): Framing {
    match t
    case LVarint | LUVarint | LSVarint => AsVarint
    case LFixed32 => AsWord(4)
    case LFixed64 => AsWord(8)
    case LBytes | LString | LSubmessage | LFixedLengthBytes => AsString
  }

  predicate ChunkOk(k: Framing, c: Chunk) {
    match k
    case AsVarint => c.Number? && c.n < TWO64
    case AsWord(w) => c.Word? && |c.data| == w
    case AsString => c.Payload? && |c.data| < TWO32
  }

  function ChunkBytes(c: Chunk): bytes {
    match c
    case Number(n) => Varint(n)
    case Word(data) => data
    case Payload(data) => Varint(|data|) + data
  }

  /** Splits a chunk off the front of the stream. What is consumed depends on the bytes alone. */
  function Take(k: Framing, bs: bytes): (r: Option<(Chunk, bytes)>)
    ensures r.Some? ==> |r.value.1| <= |bs| && ChunkOk(k, r.value.0)
    ensures r.Some? && k != AsWord(0) ==> |r.value.1| < |bs|
    ensures r.Some? && r.value.0.Payload? ==> |r.value.0.data| < |bs|
  {
    match k
    case AsVarint =>
      (match ReadVarint64(bs)
       case None => None
       case Some((n, rest)) => Some((Number(n), rest)))
    case AsWord(w) =>
      if |bs| < w then None else Some((Word(bs[..w]), bs[w..]))
    case AsString =>
      match ReadVarint32(bs)
      case None => None
      case Some((n, rest)) => if |rest| < n then None else Some((Payload(rest[..n]), rest[n..]))
  }

  lemma TakeInverts(k: Framing, c: Chunk, rest: bytes)
    requires ChunkOk(k, c)
    ensures Take(k, ChunkBytes(c) + rest) == Some((c, rest))
  {
    match c
    case Number(n) => ReadInvertsVarint64(n, rest);
    case Word(data) =>
      assert (data + rest)[..|data|] == data && (data + rest)[|data|..] == rest;
    case Payload(data) =>
      ReadInvertsVarint32(|data|, data + rest);
      assert ChunkBytes(c) + rest == Varint(|data|) + (data + rest);
      assert (data + rest)[..|data|] == data && (data + rest)[|data|..] == rest;
  }

  lemma TakeExtends(k: Framing, a: bytes, b: bytes)
    requires Take(k, a).Some?
    ensures Take(k, a + b) == Some((Take(k, a).value.0, Take(k, a).value.1 + b))
  {
    match k
    case AsVarint => ScanExtends(a, b, ROOM64);
    case AsWord(w) =>
      assert (a + b)[..w] == a[..w];
      assert (a + b)[w..] == a[w..] + b;
    case AsString =>
      ScanExtends(a, b, ROOM32);
      var (n, rest) := ReadVarint32(a).value;
      assert (rest + b)[..n] == rest[..n];
      assert (rest + b)[n..] == rest[n..] + b;
  }

  // ---- Tags ----

  function WireOf(t: LType): (w: nat)
    ensures w < 8
  {
    match FramingOf(t)
    case AsVarint => 0
    case AsWord(w) => if w == 4 then 5 else 1
    case AsString => 2
  }

  const WT_STRING := 2

  function TagBytes(wire: nat, tag: nat): bytes {
    Varint(8 * tag + wire)
  }

  /** pb_decode_tag. A tag that the input breaks off, at its very end, counts as the end of the message; so does a
      tag of value zero. */
  datatype TagRead = Eof(rest: bytes) | Bad | Tag(tag: nat, wire: nat, body: bytes)

  function ReadTag(bs: bytes): (r: TagRead)
    ensures r.Tag? ==> |r.body| < |bs| && r.wire < 8 && r.tag < 0x2000_0000
  {
    match ScanVarint(bs, ROOM32)
    case Broken(rest) => if rest == [] then Eof(rest) else Bad
    case Done(v, rest) =>
      var t := v % TWO32;
      if t == 0 then Eof(rest) else Tag(t / 8, t % 8, rest)
  }

  lemma ReadInvertsTag(wire: nat, tag: nat, rest: bytes)
    requires wire < 8 && tag < 0x2000_0000 && (tag > 0 || wire > 0)
    ensures ReadTag(TagBytes(wire, tag) + rest) == Tag(tag, wire, rest)
  {
    var v := 8 * tag + wire;
    VarintFits(v);
    ScanInvertsVarint(v, ROOM32, rest);
    ModSmall(v, TWO32);
  }

  lemma ReadTagExtends(a: bytes, b: bytes)
    requires ReadTag(a).Tag?
    ensures ReadTag(a + b) == ReadTag(a).(body := ReadTag(a).body + b)
  {
    ScanExtends(a, b, ROOM32);
  }

  /** pb_skip_field: an unknown field's payload, told from its wire type only. */
  function Skip(wire: nat, bs: bytes): (r: Option<bytes>)
    ensures r.Some? ==> |r.value| <= |bs|
  {
    if wire == 0 then
      match ScanVarint(bs, |bs|)
      case Done(_, rest) => Some(rest)
      case Broken(_) => None
    else if wire == 1 then if |bs| < 8 then None else Some(bs[8..])
    else if wire == 2 then
      match Take(AsString, bs)
      case None => None
      case Some((_, rest)) => Some(rest)
    else if wire == 5 then if |bs| < 4 then None else Some(bs[4..])
    else None
  }

  lemma SkipExtends(wire: nat, a: bytes, b: bytes)
    requires Skip(wire, a).Some?
    ensures Skip(wire, a + b) == Some(Skip(wire, a).value + b)
  {
    if wire == 0 {
      ScanExtends(a, b, |a|);
      ScanRoom(a + b, |a|, |a + b|);
    } else if wire == 2 {
      TakeExtends(AsString, a, b);
    } else {
      TakeExtends(if wire == 1 then AsWord(8) else AsWord(4), a, b);
    }
  }

  /** Skipping consumes exactly what any field of that wire type was written as. */
  lemma SkipInverts(t: LType, c: Chunk, rest: bytes)
    requires ChunkOk(FramingOf(t), c)
    ensures Skip(WireOf(t), ChunkBytes(c) + rest) == Some(rest)
  {
    TakeInverts(FramingOf(t), c, rest);
    if c.Number? {
      var bs := ChunkBytes(c) + rest;
      VarintFits(c.n);
      ScanInvertsVarint(c.n, |bs|, rest);
    }
  }

  // ---- Encoding ----

  /** A string's content: up to its first NUL. */
  function UpToNul(bs: bytes): (s: bytes)
    ensures |s| <= |bs| && s == bs[..|s|] && 0 !in s
    ensures |s| < |bs| ==> bs[|s|] == 0
    ensures 0 !in bs ==> s == bs
  {
    if bs == [] || bs[0] == 0 then [] else [bs[0]] + UpToNul(bs[1..])
  }

  function Clip(bs: bytes, n: nat): bytes {
    if |bs| <= n then bs else bs[..n]
  }

  function Joined(parts: seq<bytes>): bytes {
    if parts == [] then [] else parts[0] + Joined(parts[1..])
  }

  function Append(a: Option<bytes>, b: Option<bytes>): Option<bytes> {
    if a.Some? && b.Some? then Some(a.value + b.value) else None
  }

  /** What the test for an unset field finds in memory that a message does not determine: whether the bytes at a place,
      named by the tags and indexes that lead there, are zero. Both passes of the encoder find the same. */
  datatype Memory = Memory(zero: seq<nat> -> bool, place: seq<nat>) {
    function In(k: nat): Memory {
      Memory(zero, place + [k])
    }

    predicate Zero() {
      zero(place)
    }
  }

  /** The payload of one item. A value of another C type than the field's has none. */
  function ToChunk(f: Field, v: Value, z: Memory): Option<Chunk>
    decreases f, 0, 0
  {
    match f.ltype
    case LVarint | LUVarint =>
      if v.Num? && f.dataSize in {1, 2, 4, 8} then Some(Number(CastUnsigned(v.n, 8))) else None
    case LSVarint =>
      if v.Num? && f.dataSize in {1, 2, 4, 8} then Some(Number(ZigZag(CastSigned(v.n, 8)))) else None
    case LFixed32 => if v.Num? then Some(Word(LittleEndian(CastUnsigned(v.n, 4), 4))) else None
    case LFixed64 => if v.Num? then Some(Word(LittleEndian(CastUnsigned(v.n, 8), 8))) else None
    case LBytes => if v.Buf? && |v.data| + BYTES_HEADER <= f.dataSize then Some(Payload(v.data)) else None
    case LString => if v.Buf? then Some(Payload(Clip(UpToNul(v.data), f.dataSize))) else None
    case LFixedLengthBytes => if v.Buf? && |v.data| == f.dataSize then Some(Payload(v.data)) else None
    case LSubmessage =>
      if v.Sub? && f.ptr.Fields? then
        match EncodeMsg(f.ptr.sub, v.msg, z)
        case None => None
        case Some(b) => Some(Payload(b))
      else None
  }

  function EncodeValue(f: Field, v: Value, z: Memory): Option<bytes>
    decreases f, 1, 0
  {
    match ToChunk(f, v, z)
    case None => None
    case Some(c) => Some(ChunkBytes(c))
  }

  /** The first n items, one behind the other. */
  function EncodeItems(f: Field, items: seq<Value>, n: nat, z: Memory): Option<bytes>
    requires n <= |items|
    decreases f, 2, n
  {
    if n == 0 then Some([])
    else Append(EncodeItems(f, items, n - 1, z), EncodeValue(f, items[n - 1], z.In(n - 1)))
  }

  function EncodeRecord(f: Field, v: Value, z: Memory): Option<bytes>
    decreases f, 2, 0
  {
    Append(Some(TagBytes(WireOf(f.ltype), f.tag)), EncodeValue(f, v, z))
  }

  /** The first n items, each as a record of its own. */
  function EncodeRecords(f: Field, items: seq<Value>, n: nat, z: Memory): Option<bytes>
    requires n <= |items|
    decreases f, 3, n
  {
    if n == 0 then Some([])
    else Append(EncodeRecords(f, items, n - 1, z), EncodeRecord(f, items[n - 1], z.In(n - 1)))
  }

  /** Arrays are packed whenever their type allows it. */
  function EncodeArray(f: Field, items: seq<Value>, z: Memory): Option<bytes>
    decreases f, 4, 0
  {
    if items == [] then Some([])
    else if |items| > f.arraySize then None
    else if Packable(f.ltype) then
      match EncodeItems(f, items, |items|, z)
      case None => None
      case Some(b) => Some(TagBytes(WT_STRING, f.tag) + ChunkBytes(Payload(b)))
    else EncodeRecords(f, items, |items|, z)
  }

  /** The memory at a field's place, read as the field's type, as far as it is determined: has_ flags, counts and which_
      members are not looked at. */
  function ReadBy(f: Field, s: Slot): Value {
    match s
    case One(v) => v
    case Opt(_, v) => v
    case Many(items) => if items == [] then Indeterminate else items[0]
    case Union(which, v) => if which == f.tag then v else Indeterminate
  }

  /** The same for a field of a submessage, of which nothing may be determined. */
  function ReadIn(fields: seq<Field>, v: Value, i: nat): Value
    requires i < |fields|
  {
    SlotInRange(fields, i);
    if v.Sub? && |v.msg| == SlotCount(fields, |fields|) then ReadBy(fields[i], v.msg[SlotOf(fields, i)])
    else Indeterminate
  }

  /** Where that is: of an array, its first item. */
  function PlaceOf(f: Field, z: Memory): Memory {
    if f.htype == Repeated then z.In(f.tag).In(0) else z.In(f.tag)
  }

  /** pb_check_proto3_default_value: whether a field without has_ flag counts as unset. */
  predicate TestsUnset(f: Field, v: Value, z: Memory)
    decreases f, 0
  {
    match f.ltype
    case LBytes => if v.Buf? then v.data == [] else if v.Torn? then v.size == 0 else z.Zero()
    case LString => if v.Buf? then UpToNul(v.data) == [] else v == Torn(0) || z.Zero()
    case LFixedLengthBytes => f.dataSize == 0
    case LSubmessage =>
      if f.ptr.Fields? then
        forall i {:trigger ReadIn(f.ptr.sub, v, i)} :: 0 <= i < |f.ptr.sub| ==>
          TestsUnset(f.ptr.sub[i], ReadIn(f.ptr.sub, v, i), PlaceOf(f.ptr.sub[i], z))
      else z.Zero()
    case _ => if v.Num? then v.n == 0 else z.Zero()
  }

  /** It only succeeds where it can, whatever is read. */
  lemma {:induction false} NeverUnset(f: Field, v: Value, z: Memory)
    ensures TestsUnset(f, v, z) ==> CanBeUnset(f)
    decreases f
  {
    if f.ltype == LSubmessage && f.ptr.Fields? && TestsUnset(f, v, z) {
      var sub := f.ptr.sub;
      forall i | 0 <= i < |sub| ensures CanBeUnset(sub[i]) {
        NeverUnset(sub[i], ReadIn(sub, v, i), PlaceOf(sub[i], z));
      }
    }
  }

  function EncodeSlot(f: Field, s: Slot, z: Memory): Option<bytes>
    decreases f, 5, 0
  {
    match (f.htype, s)
    case (Required, One(v)) => EncodeRecord(f, v, z)
    case (Optional, One(v)) =>
      if f.sizeOffset != 0 then None else if TestsUnset(f, v, z) then Some([]) else EncodeRecord(f, v, z)
    case (Optional, Opt(has, v)) => if f.sizeOffset == 0 then None else if has then EncodeRecord(f, v, z) else Some([])
    case (Repeated, Many(items)) => EncodeArray(f, items, z)
    case (Oneof, Union(which, v)) => if which == f.tag then EncodeRecord(f, v, z) else Some([])
    case _ => None
  }

  /** The first n fields, in table order. */
  function EncodeUpTo(fields: seq<Field>, m: Msg, n: nat, z: Memory): Option<bytes>
    requires |m| == SlotCount(fields, |fields|) && n <= |fields|
    decreases fields, 6, n
  {
    if n == 0 then Some([])
    else
      SlotInRange(fields, n - 1);
      var f := fields[n - 1];
      Append(EncodeUpTo(fields, m, n - 1, z), EncodeSlot(f, m[SlotOf(fields, n - 1)], z.In(f.tag)))
  }

  /** pb_encode. */
  function EncodeMsg(fields: seq<Field>, m: Msg, z: Memory): Option<bytes>
    decreases fields, 7, 0
  {
    if |m| == SlotCount(fields, |fields|) then EncodeUpTo(fields, m, |fields|, z) else None
  }

  lemma {:induction false} EncodePrefix(fields: seq<Field>, m: Msg, k: nat, n: nat, z: Memory)
    requires |m| == SlotCount(fields, |fields|) && k <= n <= |fields|
    ensures EncodeUpTo(fields, m, n, z).Some? ==>
              EncodeUpTo(fields, m, k, z).Some?
              && EncodeUpTo(fields, m, k, z).value <= EncodeUpTo(fields, m, n, z).value
    decreases n
  {
    if k < n {
      EncodePrefix(fields, m, k, n - 1, z);
    }
  }

  /** pb_encode_delimited: the length, then the message. */
  function EncodeDelimited(fields: seq<Field>, m: Msg, z: Memory): Option<bytes> {
    match EncodeMsg(fields, m, z)
    case None => None
    case Some(b) => Some(ChunkBytes(Payload(b)))
  }

  // ---- Decoding ----

  /** Where a record run got to. `stopped` tells a run that met an end mark from one that met the end of its input. */
  datatype Run = Run(msg: Msg, seen: set<nat>, rest: bytes, stopped: bool)

  /** What a pb_dec_* function stores for a chunk. `prior` is what the memory held: only submessages build on it. */
  function DecodeValue(f: Field, prior: Value, c: Chunk): Option<Value>
    requires ChunkOk(FramingOf(f.ltype), c)
    decreases f, 0, 0
  {
    match f.ltype
    case LVarint =>
      if f.dataSize !in {1, 2, 4, 8} then None
      else
        var n := if f.dataSize == 8 then CastSigned(c.n, 8) else CastSigned(c.n, 4);
        if CastSigned(n, f.dataSize) == n then Some(Num(n)) else None
    case LUVarint =>
      if f.dataSize in {1, 2, 4, 8} && CastUnsigned(c.n, f.dataSize) == c.n then Some(Num(c.n)) else None
    case LSVarint =>
      var n := UnZigZag(c.n);
      if f.dataSize in {1, 2, 4, 8} && CastSigned(n, f.dataSize) == n then Some(Num(n)) else None
    case LFixed32 | LFixed64 => Some(Num(FromLittleEndian(c.data)))
    case LBytes =>
      if |c.data| > PB_SIZE_MAX || |c.data| + BYTES_HEADER > f.dataSize then None else Some(Buf(c.data))
    case LString => if |c.data| + 1 > f.dataSize then None else Some(Buf(UpToNul(c.data)))
    case LFixedLengthBytes =>
      if |c.data| > PB_SIZE_MAX then None
      else if c.data == [] then Some(Buf(Zeros(f.dataSize)))
      else if |c.data| != f.dataSize then None
      else Some(Buf(c.data))
    case LSubmessage =>
      if f.ptr.Fields? then
        var sub := f.ptr.sub;
        var start := if f.htype == Repeated then Sub(Defaults(sub)) else prior;
        if start.Sub? && |start.msg| == SlotCount(sub, |sub|) then
          match DecodeNoinit(sub, start.msg, c.data)
          case None => None
          case Some((m, _)) => Some(Sub(m))
        else None
      else None
  }

  /** Items of a packed array until its payload is used up; an item that the array has no room for is an error. */
  function DecodePacked(f: Field, items: seq<Value>, bs: bytes): Option<seq<Value>>
    decreases f, 1, |bs|
  {
    if bs == [] then Some(items)
    else if |items| >= f.arraySize then None
    else
      match Take(FramingOf(f.ltype), bs)
      case None => None
      case Some((c, rest)) =>
        match DecodeValue(f, Indeterminate, c)
        case None => None
        case Some(v) => DecodePacked(f, items + [v], rest)
  }

  predicate IsPacked(f: Field, wire: nat) {
    f.htype == Repeated && wire == WT_STRING && Packable(f.ltype)
  }

  /** The wire type chooses between packed and single items, and nothing else. */
  function FramingFor(f: Field, wire: nat): Framing {
    if IsPacked(f, wire) then AsString else FramingOf(f.ltype)
  }

  /** What a union member of a submessage type, or of another type, starts from. */
  function UnionStart(f: Field, s: Slot): Value
    requires s.Union?
  {
    if f.ptr.Fields? then Sub(Defaults(f.ptr.sub)) else if s.which == f.tag then s.value else Indeterminate
  }

  /** decode_static_field on an already delimited payload. */
  function DecodeSlot(f: Field, wire: nat, s: Slot, c: Chunk): Option<Slot>
    requires ChunkOk(FramingFor(f, wire), c)
    decreases f, 2, 0
  {
    match (f.htype, s)
    case (Required, One(prior)) =>
      (match DecodeValue(f, prior, c)
       case None => None
       case Some(v) => Some(One(v)))
    case (Optional, One(prior)) =>
      if f.sizeOffset != 0 then None
      else (match DecodeValue(f, prior, c)
            case None => None
            case Some(v) => Some(One(v)))
    case (Optional, Opt(_, prior)) =>
      if f.sizeOffset == 0 then None
      else (match DecodeValue(f, prior, c)
            case None => None
            case Some(v) => Some(Opt(true, v)))
    case (Repeated, Many(items)) =>
      if IsPacked(f, wire) then
        match DecodePacked(f, items, c.data)
        case None => None
        case Some(items') => Some(Many(items'))
      else if |items| >= f.arraySize then None
      else
        (match DecodeValue(f, Indeterminate, c)
         case None => None
         case Some(v) => Some(Many(items + [v])))
    case (Oneof, Union(_, _)) =>
      (match DecodeValue(f, UnionStart(f, s), c)
       case None => None
       case Some(v) => Some(Union(f.tag, v)))
    case _ => None
  }

  /** One record whose tag has been read. A search for tag 0 in an empty table finds the terminator, and decoding
      into that fails. */
  function DecodeRecord(fields: seq<Field>, m: Msg, tag: nat, wire: nat, body: bytes): (r: Option<(Msg, bytes)>)
    requires |m| == SlotCount(fields, |fields|)
    ensures r.Some? ==> |r.value.0| == |m| && |r.value.1| <= |body|
    decreases fields, 3, 0
  {
    match Find(fields, tag)
    case None =>
      if fields == [] && tag == 0 then None
      else
        (match Skip(wire, body)
         case None => None
         case Some(rest) => Some((m, rest)))
    case Some(i) =>
      SlotInRange(fields, i);
      match Take(FramingFor(fields[i], wire), body)
      case None => None
      case Some((c, rest)) =>
        match DecodeSlot(fields[i], wire, m[SlotOf(fields, i)], c)
        case None => None
        case Some(s) => Some((m[SlotOf(fields, i) := s], rest))
  }

  function SeenBy(fields: seq<Field>, tag: nat): set<nat> {
    match Find(fields, tag)
    case None => {}
    case Some(i) => {i}
  }

  /** The record loop of pb_decode_noinit. */
  function DecodeRecords(fields: seq<Field>, m: Msg, seen: set<nat>, bs: bytes): (r: Option<Run>)
    requires |m| == SlotCount(fields, |fields|)
    ensures r.Some? ==> |r.value.msg| == |m|
    decreases fields, 4, |bs|
  {
    if bs == [] then Some(Run(m, seen, [], false))
    else
      match ReadTag(bs)
      case Eof(rest) => Some(Run(m, seen, rest, true))
      case Bad => None
      case Tag(tag, wire, body) =>
        match DecodeRecord(fields, m, tag, wire, body)
        case None => None
        case Some((m', rest)) => DecodeRecords(fields, m', seen + SeenBy(fields, tag), rest)
  }

  predicate RequiredSeen(fields: seq<Field>, seen: set<nat>) {
    forall i :: 0 <= i < |fields| && fields[i].htype == Required ==> i in seen
  }

  /** pb_decode_noinit: records merged into m, then the test for required fields. */
  function DecodeNoinit(fields: seq<Field>, m: Msg, bs: bytes): (r: Option<(Msg, bytes)>)
    requires |m| == SlotCount(fields, |fields|)
    ensures r.Some? ==> |r.value.0| == |m|
    decreases fields, 5, 0
  {
    match DecodeRecords(fields, m, {}, bs)
    case None => None
    case Some(run) => if RequiredSeen(fields, run.seen) then Some((run.msg, run.rest)) else None
  }

  /** pb_decode. */
  function Decode(fields: seq<Field>, bs: bytes): Option<(Msg, bytes)> {
    DecodeNoinit(fields, Defaults(fields), bs)
  }

  /** pb_decode_delimited: what the message leaves of its own bytes is dropped. */
  function DecodeDelimited(fields: seq<Field>, bs: bytes): Option<(Msg, bytes)> {
    match Take(AsString, bs)
    case None => None
    case Some((c, rest)) =>
      match Decode(fields, c.data)
      case None => None
      case Some((m, _)) => Some((m, rest))
  }
}
