/** Where the decoder is more, or less, than the format asks for. */
module Edges {
  import opened Common
  import opened Wire
  import opened Descriptor
  import opened Format
  import opened Merge
  import opened RoundTrip
  import opened Fidelity
  import opened Lossless

  // ---- Bits that do not fit ----

  /** All bytes say that more is to come. */
  predicate Unfinished(t: bytes) {
    forall k :: 0 <= k < |t| ==> t[k] >= 128
  }

  /** The last byte of a varint holds its most significant bits. */
  lemma {:induction false} TopByte(bs: bytes, room: nat)
    requires ScanVarint(bs, room).Done?
    ensures var s := ScanVarint(bs, room); var k := |bs| - |s.rest|;
      1 <= k <= room && bs[k - 1] < 128
      && Pow128(k - 1) * bs[k - 1] <= s.value < Pow128(k - 1) * (bs[k - 1] + 1)
    decreases room
  {
    if bs[0] >= 128 {
      TopByte(bs[1..], room - 1);
      var s := ScanVarint(bs[1..], room - 1);
      var k := |bs| - |s.rest|;
      assert bs[1..][k - 2] == bs[k - 1];
      TimesBase(Pow128(k - 2), bs[k - 1]);
      TimesBase(Pow128(k - 2), bs[k - 1] + 1);
    }
  }

  lemma TimesBase(p: nat, d: int)
    ensures 128 * (p * d) == (128 * p) * d
  {
  }

  lemma {:induction false} Pow128Grows(j: nat, k: nat)
    requires j <= k
    ensures Pow128(j) <= Pow128(k)
    decreases k
  {
    if j < k {
      Pow128Grows(j, k - 1);
    }
  }

  lemma Pow128Nine()
    ensures Pow128(9) == TWO64 / 2 && Pow128(4) == 0x1000_0000
  {
    Pow128Values();
    assert Pow128(10) == 128 * Pow128(9) && Pow128(5) == 128 * Pow128(4);
  }

  lemma LinearBound(p: nat, d: int, e: int)
    requires d <= e
    ensures p * d <= p * e
  {
  }

  /** A varint of k bytes, the last of them top, is below 2 * 128^(n-1) exactly when it is shorter than n bytes or its
      n-th byte is within the limit. */
  lemma {:induction false} FitsExactly(bs: bytes, n: nat, limit: nat)
    requires n >= 1 && limit < 128 && ScanVarint(bs, n).Done?
    ensures var s := ScanVarint(bs, n);
      s.value < Pow128(n - 1) * (limit + 1) <==> |bs| - |s.rest| < n || bs[n - 1] <= limit
  {
    TopByte(bs, n);
    var s := ScanVarint(bs, n);
    var k := |bs| - |s.rest|;
    var p := Pow128(n - 1);
    if k < n {
      Pow128Grows(k, n - 1);
      LinearBound(Pow128(k - 1), bs[k - 1] + 1, 128);
      assert Pow128(k) == 128 * Pow128(k - 1);
      LinearBound(p, 1, limit + 1);
    } else if bs[n - 1] <= limit {
      LinearBound(p, bs[n - 1] + 1, limit + 1);
    } else {
      LinearBound(p, limit + 1, bs[n - 1]);
    }
  }

  /** The 64-bit reader takes every varint of at most ten bytes, and returns what the bytes say exactly when a tenth
      byte, if there is one, is 0 or 1; otherwise high bits are lost without an error. */
  lemma Varint64Exact(bs: bytes, k: nat)
    requires k < |bs| && bs[k] < 128 && Unfinished(bs[..k])
    ensures k >= 10 ==> ReadVarint64(bs) == None
    ensures k < 10 ==> ReadVarint64(bs) == Some((Groups(bs[..k + 1]) % TWO64, bs[k + 1..]))
    ensures k < 10 ==> (Groups(bs[..k + 1]) % TWO64 == Groups(bs[..k + 1]) <==> k < 9 || bs[9] <= 1)
  {
    assert forall j :: 0 <= j < k ==> bs[j] == bs[..k][j];
    ScanForm(bs, k, ROOM64);
    if k < 10 {
      Pow128Nine();
      FitsExactly(bs, 10, 1);
      ModSmaller(ScanVarint(bs, ROOM64).value, TWO64);
    }
  }

  /** Likewise the 32-bit reader, for five bytes and a fifth one up to 15. */
  lemma Varint32Exact(bs: bytes, k: nat)
    requires k < |bs| && bs[k] < 128 && Unfinished(bs[..k])
    ensures k >= 5 ==> ReadVarint32(bs) == None
    ensures k < 5 ==> ReadVarint32(bs) == Some((Groups(bs[..k + 1]) % TWO32, bs[k + 1..]))
    ensures k < 5 ==> (Groups(bs[..k + 1]) % TWO32 == Groups(bs[..k + 1]) <==> k < 4 || bs[4] <= 15)
  {
    assert forall j :: 0 <= j < k ==> bs[j] == bs[..k][j];
    ScanForm(bs, k, ROOM32);
    if k < 5 {
      Pow128Nine();
      FitsExactly(bs, 5, 15);
      ModSmaller(ScanVarint(bs, ROOM32).value, TWO32);
    }
  }

  /** A tag, however long it is written: the low 32 bits of its number, of which the lowest three are the wire type. */
  lemma TagExact(bs: bytes, k: nat)
    requires k < |bs| && bs[k] < 128 && Unfinished(bs[..k])
    ensures k >= 5 ==> ReadTag(bs) == Bad
    ensures k < 5 ==>
              var t := Groups(bs[..k + 1]) % TWO32;
              ReadTag(bs) == if t == 0 then Eof(bs[k + 1..]) else Tag(t / 8, t % 8, bs[k + 1..])
  {
    assert forall j :: 0 <= j < k ==> bs[j] == bs[..k][j];
    ScanForm(bs, k, ROOM32);
  }

  lemma ModSmaller(v: nat, m: nat)
    requires m > 0
    ensures v % m == v <==> v < m
  {
    if v < m {
      ModSmall(v, m);
    }
  }

  /** Which wire values the integer fields take: unsigned and zig-zag fields reject exactly those out of range. A signed
      field of at most 32 bits only looks at the low 32 bits, so a value out of range may be taken for another. */
  lemma IntegersAccepted(f: Field, n: nat, prior: Value)
    requires f.dataSize in {1, 2, 4, 8} && f.ltype in {LVarint, LUVarint, LSVarint} && n < TWO64
    ensures f.ltype == LUVarint ==>
              DecodeValue(f, prior, Number(n)) == if n < 2 * Half(f.dataSize) then Some(Num(n)) else None
    ensures f.ltype == LSVarint ==>
              var v := UnZigZag(n);
              DecodeValue(f, prior, Number(n)) ==
              if -Half(f.dataSize) <= v < Half(f.dataSize) then Some(Num(v)) else None
    ensures f.ltype == LVarint ==>
              var v := if f.dataSize == 8 then Signed(n, TWO64 / 2) else Signed(n % TWO32, TWO32 / 2);
              DecodeValue(f, prior, Number(n)) ==
              if -Half(f.dataSize) <= v < Half(f.dataSize) then Some(Num(v)) else None
    ensures f.ltype == LVarint && f.dataSize <= 4 ==>
              DecodeValue(f, prior, Number(n)) == DecodeValue(f, prior, Number(n % TWO32))
  {
    if f.ltype == LVarint && f.dataSize <= 4 {
      ModMod(n);
      ModSmall(n % TWO32, TWO32);
    }
  }

  /** Which payloads bytes, string and fixed-length fields take, and what they then hold: a string what comes before the
      first NUL, and a fixed-length field that comes empty zeros. */
  lemma PayloadsAccepted(f: Field, d: bytes, prior: Value)
    requires WellFormedField(f) && |d| < TWO32
    ensures f.ltype == LBytes ==>
              DecodeValue(f, prior, Payload(d)) == if |d| + BYTES_HEADER <= f.dataSize then Some(Buf(d)) else None
    ensures f.ltype == LString ==>
              if |d| >= f.dataSize then DecodeValue(f, prior, Payload(d)) == None
              else exists n :: 0 <= n <= |d| && 0 !in d[..n] && (n < |d| ==> d[n] == 0)
                               && DecodeValue(f, prior, Payload(d)) == Some(Buf(d[..n]))
    ensures f.ltype == LFixedLengthBytes && d != [] ==>
              DecodeValue(f, prior, Payload(d)) == if |d| == f.dataSize then Some(Buf(d)) else None
    ensures f.ltype == LFixedLengthBytes && d == [] ==>
              var r := DecodeValue(f, prior, Payload(d));
              r.Some? && r.value.Buf? && |r.value.data| == f.dataSize && forall b :: b in r.value.data ==> b == 0
  {
    if f.ltype == LString && |d| < f.dataSize {
      var s := UpToNul(d);
      assert s == d[..|s|] && 0 !in d[..|s|];
    }
  }

  // ---- Strings without a terminator ----

  /** A buffer that its string fills to the last byte is written, but not read back: it is exactly when the buffer
      holds a terminator. */
  lemma TerminatedReadsBack(f: Field, memory: bytes, prior: Value, z: Memory)
    requires WellFormedField(f) && f.ltype == LString && |memory| == f.dataSize
    ensures ToChunk(f, Buf(memory), z).Some?
    ensures var r := DecodeValue(f, prior, ToChunk(f, Buf(memory), z).value);
      (r.Some? <==> 0 in memory) && (r.Some? ==> r == Some(Buf(UpToNul(memory))))
  {
    var s := UpToNul(memory);
    if 0 in memory {
      assert |s| < |memory|;
    } else {
      assert s == memory;
    }
  }

  // ---- The end of a message ----

  /** The bytes are records to its last byte. */
  predicate Runs(sub: seq<Field>, m: Msg, a: bytes) {
    |m| == SlotCount(sub, |sub|) && var r := DecodeRecords(sub, m, {}, a); r.Some? && !r.value.stopped
  }

  /** A varint of at most five bytes whose low 32 bits are zero. */
  predicate EndMark(mark: bytes) {
    && 1 <= |mark| <= 5 && mark[|mark| - 1] < 128 && (forall k :: 0 <= k < |mark| - 1 ==> mark[k] >= 128)
    && Groups(mark) % TWO32 == 0
  }

  lemma MarkEnds(fields: seq<Field>, m: Msg, seen: set<nat>, mark: bytes, junk: bytes)
    requires |m| == SlotCount(fields, |fields|) && EndMark(mark)
    ensures DecodeRecords(fields, m, seen, mark + junk) == Some(Run(m, seen, junk, true))
  {
    ScanForm(mark + junk, |mark| - 1, ROOM32);
    assert (mark + junk)[..|mark|] == mark && (mark + junk)[|mark|..] == junk;
  }

  /** A tag of zero, however it is written, ends the message there: what follows is not looked at, and stays in the
      stream. */
  lemma {:induction false} EndMarkStops(fields: seq<Field>, m: Msg, a: bytes, mark: bytes, junk: bytes)
    requires |m| == SlotCount(fields, |fields|) && EndMark(mark)
    requires var r := DecodeRecords(fields, m, {}, a); r.Some? && !r.value.stopped
    ensures DecodeNoinit(fields, m, a + (mark + junk)) ==
            match DecodeNoinit(fields, m, a)
            case None => None
            case Some((msg, _)) => Some((msg, junk))
  {
    var r := DecodeRecords(fields, m, {}, a).value;
    RunsCompose(fields, m, {}, a, mark + junk);
    MarkEnds(fields, r.msg, r.seen, mark, junk);
  }

  /** In a submessage and in a delimited message too; what is behind the mark is dropped there. */
  lemma EndMarkInside(f: Field, prior: Msg, a: bytes, mark: bytes, junk: bytes)
    requires f.ltype == LSubmessage && f.ptr.Fields? && EndMark(mark) && |a| + |mark| + |junk| < TWO32
    requires |prior| == SlotCount(f.ptr.sub, |f.ptr.sub|)
    requires var start := if f.htype == Repeated then Defaults(f.ptr.sub) else prior; Runs(f.ptr.sub, start, a)
    ensures DecodeValue(f, Sub(prior), Payload(a + (mark + junk))) == DecodeValue(f, Sub(prior), Payload(a))
  {
    var start := if f.htype == Repeated then Defaults(f.ptr.sub) else prior;
    EndMarkStops(f.ptr.sub, start, a, mark, junk);
  }

  lemma EndMarkInFrame(fields: seq<Field>, a: bytes, mark: bytes, junk: bytes, rest: bytes)
    requires EndMark(mark) && |a| + |mark| + |junk| < TWO32 && Runs(fields, Defaults(fields), a)
    ensures var b := a + (mark + junk);
      DecodeDelimited(fields, Varint(|b|) + b + rest) == DecodeDelimited(fields, Varint(|a|) + a + rest)
  {
    var b := a + (mark + junk);
    EndMarkStops(fields, Defaults(fields), a, mark, junk);
    TakeInverts(AsString, Payload(a), rest);
    TakeInverts(AsString, Payload(b), rest);
  }

  lemma {:induction false} UnfinishedScan(t: bytes, room: nat)
    requires Unfinished(t)
    ensures ScanVarint(t, room) == Broken(t[if room < |t| then room else |t|..])
    decreases room
  {
    if room > 0 && t != [] {
      UnfinishedScan(t[1..], room - 1);
    }
  }

  /** An input that breaks off in the middle of a tag is taken for complete, unless more than five bytes of it are
      there. */
  lemma {:induction false} BrokenTagEnds(fields: seq<Field>, m: Msg, a: bytes, t: bytes)
    requires |m| == SlotCount(fields, |fields|)
    requires var r := DecodeRecords(fields, m, {}, a); r.Some? && !r.value.stopped
    requires t != [] && Unfinished(t)
    ensures DecodeNoinit(fields, m, a + t) == if |t| <= 5 then DecodeNoinit(fields, m, a) else None
  {
    UnfinishedScan(t, ROOM32);
    RunsCompose(fields, m, {}, a, t);
    RunsCompose(fields, m, {}, a, []);
    assert a + [] == a;
    assert RequiredSeen(fields, DecodeRecords(fields, m, {}, a).value.seen) ==>
           DecodeRecords(fields, m, {}, a).value.rest == [];
  }

  // ---- Fields that the table does not have ----

  /** They are skipped by their wire type alone: to the first byte without the top bit, eight or four bytes, or as many
      as a length in front says. Other wire types, and what breaks off, are rejected. */
  lemma UnknownField(fields: seq<Field>, m: Msg, seen: set<nat>, tag: nat, wire: nat, body: bytes)
    requires |m| == SlotCount(fields, |fields|) && tag < 0x2000_0000 && wire < 8 && (tag > 0 || wire > 0)
    requires Find(fields, tag).None?
    ensures var run := DecodeRecords(fields, m, seen, TagBytes(wire, tag) + body);
      && (wire in {3, 4, 6, 7} || (fields == [] && tag == 0) ==> run == None)
      && (fields != [] || tag > 0 ==>
            && (wire == 1 ==> run == if |body| < 8 then None else DecodeRecords(fields, m, seen, body[8..]))
            && (wire == 5 ==> run == if |body| < 4 then None else DecodeRecords(fields, m, seen, body[4..]))
            && (wire == 0 && Unfinished(body) ==> run == None))
  {
    ReadInvertsTag(wire, tag, body);
    assert seen + {} == seen;
    if wire == 0 && Unfinished(body) {
      UnfinishedScan(body, |body|);
    }
  }

  lemma UnknownNumber(fields: seq<Field>, m: Msg, seen: set<nat>, tag: nat, number: bytes, rest: bytes)
    requires |m| == SlotCount(fields, |fields|) && 1 <= tag < 0x2000_0000 && Find(fields, tag).None?
    requires number != [] && number[|number| - 1] < 128 && Unfinished(number[..|number| - 1])
    ensures DecodeRecords(fields, m, seen, TagBytes(0, tag) + (number + rest)) == DecodeRecords(fields, m, seen, rest)
  {
    var body, k := number + rest, |number| - 1;
    ReadInvertsTag(0, tag, body);
    assert forall j :: 0 <= j < k ==> body[j] == number[..k][j];
    ScanForm(body, k, |body|);
    assert body[k + 1..] == rest && seen + {} == seen;
  }

  lemma UnknownPayload(fields: seq<Field>, m: Msg, seen: set<nat>, tag: nat, n: nat, d: bytes, rest: bytes)
    requires |m| == SlotCount(fields, |fields|) && 1 <= tag < 0x2000_0000 && Find(fields, tag).None? && n < TWO32
    ensures |d| == n ==>
              DecodeRecords(fields, m, seen, TagBytes(2, tag) + (Varint(n) + (d + rest)))
              == DecodeRecords(fields, m, seen, rest)
    ensures |d| < n ==> DecodeRecords(fields, m, seen, TagBytes(2, tag) + (Varint(n) + d)) == None
  {
    ReadInvertsTag(2, tag, Varint(n) + (d + rest));
    ReadInvertsTag(2, tag, Varint(n) + d);
    ReadInvertsVarint32(n, d + rest);
    ReadInvertsVarint32(n, d);
    assert |d| == n ==> (d + rest)[n..] == rest;
    assert seen + {} == seen;
  }

  // ---- A submessage in several pieces ----

  function Piece(f: Field, payload: bytes): bytes {
    TagBytes(WT_STRING, f.tag) + ChunkBytes(Payload(payload))
  }

  predicate Holds(f: Field, s: Slot, msg: Msg) {
    if f.htype == Required || HasLess(f) then s == One(Sub(msg)) else s.Opt? && s.value == Sub(msg)
  }

  /** Whenever the two payloads together have every required field, each of them has. */
  predicate Divisible(sub: seq<Field>, m: Msg, a: bytes, b: bytes)
    requires Runs(sub, m, a)
  {
    var ra := DecodeRecords(sub, m, {}, a).value;
    var rb := DecodeRecords(sub, ra.msg, {}, b);
    rb.Some? && RequiredSeen(sub, ra.seen + rb.value.seen) ==>
      RequiredSeen(sub, ra.seen) && RequiredSeen(sub, rb.value.seen)
  }

  /** One payload stored behind another. */
  function StoreBoth(f: Field, s: Slot, a: bytes, b: bytes): Option<Slot>
    requires f.ltype == LSubmessage && |a| < TWO32 && |b| < TWO32
  {
    match DecodeSlot(f, WT_STRING, s, Payload(a))
    case None => None
    case Some(s1) => DecodeSlot(f, WT_STRING, s1, Payload(b))
  }

  function StoreBothValues(f: Field, prior: Value, a: bytes, b: bytes): Option<Value>
    requires f.ltype == LSubmessage && |a| < TWO32 && |b| < TWO32
  {
    match DecodeValue(f, prior, Payload(a))
    case None => None
    case Some(v) => DecodeValue(f, v, Payload(b))
  }

  lemma PiecesInValue(f: Field, prior: Msg, a: bytes, b: bytes)
    requires f.ltype == LSubmessage && f.ptr.Fields? && f.htype != Repeated && |a| + |b| < TWO32
    requires Runs(f.ptr.sub, prior, a)
    ensures var pieces, whole := StoreBothValues(f, Sub(prior), a, b), DecodeValue(f, Sub(prior), Payload(a + b));
      (pieces == whole <==> Divisible(f.ptr.sub, prior, a, b)) && (pieces.Some? ==> pieces == whole)
  {
    var sub := f.ptr.sub;
    ConcatenationAccepted(sub, prior, a, b);
    RunsCompose(sub, prior, {}, a, b);
    var ra := DecodeRecords(sub, prior, {}, a).value;
    SeenAdds(sub, ra.msg, ra.seen, {}, b);
    assert ra.seen + {} == ra.seen;
    var rb := DecodeRecords(sub, ra.msg, {}, b);
    assert DecodeValue(f, Sub(prior), Payload(a + b)) ==
           if rb.Some? && RequiredSeen(sub, ra.seen + rb.value.seen) then Some(Sub(rb.value.msg)) else None;
    assert DecodeValue(f, Sub(prior), Payload(a)) == if RequiredSeen(sub, ra.seen) then Some(Sub(ra.msg)) else None;
    assert DecodeValue(f, Sub(ra.msg), Payload(b)) ==
           if rb.Some? && RequiredSeen(sub, rb.value.seen) then Some(Sub(rb.value.msg)) else None;
  }

  lemma PiecesInSlot(f: Field, s: Slot, prior: Msg, a: bytes, b: bytes)
    requires f.ltype == LSubmessage && f.ptr.Fields? && f.htype in {Required, Optional} && Holds(f, s, prior)
    requires |a| + |b| < TWO32 && Runs(f.ptr.sub, prior, a)
    ensures var pieces, whole := StoreBoth(f, s, a, b), DecodeSlot(f, WT_STRING, s, Payload(a + b));
      (pieces == whole <==> Divisible(f.ptr.sub, prior, a, b)) && (pieces.Some? ==> pieces == whole)
  {
    PiecesInValue(f, prior, a, b);
  }

  lemma RunsBoth(fields: seq<Field>, m: Msg, seen: set<nat>, i: nat, a: bytes, b: bytes, rest: bytes)
    requires |m| == SlotCount(fields, |fields|) && DistinctTags(fields) && i < |fields| && SlotOf(fields, i) < |m|
    requires fields[i].ltype == LSubmessage && 1 <= fields[i].tag < 0x2000_0000 && |a| < TWO32 && |b| < TWO32
    ensures DecodeRecords(fields, m, seen, Piece(fields[i], a) + (Piece(fields[i], b) + rest)) ==
            match StoreBoth(fields[i], m[SlotOf(fields, i)], a, b)
            case None => None
            case Some(s) => DecodeRecords(fields, m[SlotOf(fields, i) := s], seen + {i}, rest)
  {
    var f, k := fields[i], SlotOf(fields, i);
    RecordThen(fields, m, seen, i, WT_STRING, Payload(a), Piece(f, b) + rest);
    var s := DecodeSlot(f, WT_STRING, m[k], Payload(a));
    if s.Some? {
      RecordThen(fields, m[k := s.value], seen + {i}, i, WT_STRING, Payload(b), rest);
      var t := StoreBoth(f, m[k], a, b);
      assert t.Some? ==> m[k := s.value][k := t.value] == m[k := t.value];
      assert seen + {i} + {i} == seen + {i};
    }
  }

  /** A required or optional submessage that comes in two records is the one that comes in one record with both
      payloads, whatever follows, precisely when they are divisible: each record is checked for required fields by
      itself. Otherwise the pieces are rejected where the whole is not. */
  lemma {:induction false} PiecesMerge(fields: seq<Field>, m: Msg, seen: set<nat>, i: nat, prior: Msg,
                                       a: bytes, b: bytes, rest: bytes)
    requires |m| == SlotCount(fields, |fields|) && DistinctTags(fields) && i < |fields| && SlotOf(fields, i) < |m|
    requires var f := fields[i];
      && f.ltype == LSubmessage && f.ptr.Fields? && f.htype in {Required, Optional} && 1 <= f.tag < 0x2000_0000
      && Holds(f, m[SlotOf(fields, i)], prior) && Runs(f.ptr.sub, prior, a)
    requires |a| + |b| < TWO32
    ensures var pieces := DecodeRecords(fields, m, seen, Piece(fields[i], a) + (Piece(fields[i], b) + rest));
      var whole := DecodeRecords(fields, m, seen, Piece(fields[i], a + b) + rest);
      && (Divisible(fields[i].ptr.sub, prior, a, b) ==> pieces == whole)
      && (!Divisible(fields[i].ptr.sub, prior, a, b) ==> pieces.None? && (rest == [] ==> whole.Some?))
  {
    var f, k := fields[i], SlotOf(fields, i);
    PiecesInSlot(f, m[k], prior, a, b);
    RunsBoth(fields, m, seen, i, a, b, rest);
    RecordThen(fields, m, seen, i, WT_STRING, Payload(a + b), rest);
  }

  /** In a union the later record starts over: the earlier one leaves no trace in the message. */
  lemma {:induction false} UnionStartsOver(fields: seq<Field>, m: Msg, seen: set<nat>, i: nat, a: bytes, b: bytes,
                                           rest: bytes)
    requires |a| < TWO32 && |b| < TWO32
    requires |m| == SlotCount(fields, |fields|) && DistinctTags(fields) && i < |fields| && SlotOf(fields, i) < |m|
    requires var f := fields[i];
      && f.ltype == LSubmessage && f.ptr.Fields? && f.htype == Oneof && 1 <= f.tag < 0x2000_0000
      && m[SlotOf(fields, i)].Union? && DecodeSlot(f, WT_STRING, m[SlotOf(fields, i)], Payload(a)).Some?
    ensures DecodeRecords(fields, m, seen, Piece(fields[i], a) + (Piece(fields[i], b) + rest))
            == DecodeRecords(fields, m, seen, Piece(fields[i], b) + rest)
  {
    RunsBoth(fields, m, seen, i, a, b, rest);
    RecordThen(fields, m, seen, i, WT_STRING, Payload(b), rest);
  }

  // ---- Submessages without has_ flag that are not plain ----

  lemma SingleField(f: Field, s: Slot, z: Memory)
    ensures SlotCount([f], 1) == 1 && SlotOf([f], 0) == 0
    ensures Defaults([f]) == [DefaultSlot(f)]
    ensures EncodeMsg([f], [s], z) == EncodeSlot(f, s, z.In(f.tag))
    ensures SenderOf([f], [f], 0) == Some(0)
  {
    assert SlotCount([f], 0) == 0 && !JoinsUnion([f], 0);
    assert DefaultsUpTo([f], 0) == [];
    assert EncodeUpTo([f], [s], 0, z) == Some([]);
    assert EncodeUpTo([f], [s], 1, z) == Append(Some([]), EncodeSlot(f, s, z.In(f.tag)));
    if EncodeSlot(f, s, z.In(f.tag)).Some? {
      assert [] + EncodeSlot(f, s, z.In(f.tag)).value == EncodeSlot(f, s, z.In(f.tag)).value;
    }
  }

  lemma SingleFits(f: Field, s: Slot)
    requires WellFormedField(f) && FitsSlot(f, s, Determined) && f.htype != Oneof
    ensures WellFormed([f]) && SlotCount([f], 1) == 1 && FitsMsg([f], [s], Determined)
  {
    assert SlotCount([f], 0) == 0 && !JoinsUnion([f], 0) && RequiredBefore([f], 0) == 0;
    forall i | 0 <= i < 1 ensures SlotOf([f], i) < 1 && FitsSlot([f][i], [s][SlotOf([f], i)], Determined) {
      assert i == 0;
    }
  }

  /** One field in a submessage that has no has_ flag. */
  function Box(inner: Field): Field {
    Field(1, LSubmessage, Optional, 0, 0, inner.dataOffset + Extent(inner), 0, Fields([inner]))
  }

  lemma BoxFits(inner: Field, s: Slot)
    requires WellFormedField(inner) && FitsSlot(inner, s, Determined) && inner.htype != Oneof
    requires inner.dataOffset + Extent(inner) <= PB_SIZE_MAX
    ensures WellFormed([Box(inner)]) && SlotCount([Box(inner)], 1) == 1
    ensures FitsMsg([Box(inner)], [One(Sub([s]))], Determined)
  {
    SingleFits(inner, s);
    SingleFits(Box(inner), One(Sub([s])));
  }

  lemma BoxIsUnset(inner: Field, s: Slot, z: Memory)
    requires WellFormedField(inner) && inner.htype != Oneof
    ensures TestsUnset(Box(inner), Sub([s]), z) <==> TestsUnset(inner, ReadBy(inner, s), PlaceOf(inner, z))
  {
    SingleField(inner, s, z);
    assert ReadIn([inner], Sub([s]), 0) == ReadBy(inner, s);
    assert forall i :: 0 <= i < 1 ==> [inner][i] == inner;
  }

  lemma BoxIsFaithful(inner: Field, s: Slot, z: Memory)
    requires WellFormedField(inner) && FitsSlot(inner, s, Determined) && inner.htype != Oneof
    requires inner.dataOffset + Extent(inner) <= PB_SIZE_MAX && TestsUnset(Box(inner), Sub([s]), z)
    ensures FaithfulSlot(Box(inner), Box(inner), One(Sub([s])), z) <==> SameSlot(inner, s, DefaultSlot(inner))
  {
    SingleField(inner, s, z);
    SingleFits(inner, s);
    AgreeIsSame([inner], [s], [DefaultSlot(inner)]);
    assert SameMsg([inner], [s], [DefaultSlot(inner)]) <==> SameSlot(inner, s, DefaultSlot(inner));
    assert DefaultValue(Box(inner)) == Sub([DefaultSlot(inner)]);
  }

  /** Whether such a message comes back: the submessage is left out exactly when the field reads as unset, and then the
      message is faithful exactly when the field holds what the receiver starts from. */
  lemma BoxedIsLost(inner: Field, s: Slot, z: Memory)
    requires WellFormedField(inner) && FitsSlot(inner, s, Determined) && inner.htype != Oneof
    requires inner.dataOffset + Extent(inner) <= PB_SIZE_MAX
    ensures WellFormed([Box(inner)]) && SlotCount([Box(inner)], 1) == 1
    ensures FitsMsg([Box(inner)], [One(Sub([s]))], Determined)
    ensures var unset := TestsUnset(inner, ReadBy(inner, s), PlaceOf(inner, z.In(1)));
      && (EncodeMsg([Box(inner)], [One(Sub([s]))], z) == Some([]) <==> unset)
      && (unset ==>
            (FaithfulMsg([Box(inner)], [Box(inner)], [One(Sub([s]))], z) <==> SameSlot(inner, s, DefaultSlot(inner))))
  {
    var box, outer := Box(inner), One(Sub([s]));
    SingleField(box, outer, z);
    BoxFits(inner, s);
    BoxIsUnset(inner, s, z.In(1));
    assert |TagBytes(WireOf(LSubmessage), 1)| > 0;
    assert FaithfulMsg([box], [box], [outer], z) <==> FaithfulSlot(box, box, outer, z.In(1));
    if TestsUnset(box, Sub([s]), z.In(1)) {
      BoxIsFaithful(inner, s, z.In(1));
    }
  }

  const FLAGGED := Field(1, LVarint, Optional, 1, -1, 4, 0, Null)
  const NUMBERS := Field(1, LVarint, Repeated, 4, -4, 4, 2, Null)

  /** The test does not look at has_ flags, so a field that is present with value 0 is dropped; and it looks at the
      first item of an array only, so [0, 5] is dropped. */
  lemma PresenceIsLost(z: Memory)
    ensures EncodeMsg([Box(FLAGGED)], [One(Sub([Opt(true, Num(0))]))], z) == Some([])
    ensures !FaithfulMsg([Box(FLAGGED)], [Box(FLAGGED)], [One(Sub([Opt(true, Num(0))]))], z)
    ensures EncodeMsg([Box(NUMBERS)], [One(Sub([Many([Num(0), Num(5)])]))], z) == Some([])
    ensures !FaithfulMsg([Box(NUMBERS)], [Box(NUMBERS)], [One(Sub([Many([Num(0), Num(5)])]))], z)
  {
    BoxedIsLost(FLAGGED, Opt(true, Num(0)), z);
    BoxedIsLost(NUMBERS, Many([Num(0), Num(5)]), z);
  }

  /** An absent value is looked at all the same, and so is what lies behind the count of an empty array: a stale 5 under
      a has_ flag that is off makes the submessage be written, and behind an empty array memory decides. */
  lemma StaleIsSeen(z: Memory)
    ensures EncodeMsg([Box(FLAGGED)], [One(Sub([Opt(false, Num(5))]))], z) != Some([])
    ensures EncodeMsg([Box(FLAGGED)], [One(Sub([Opt(false, Num(0))]))], z) == Some([])
    ensures EncodeMsg([Box(NUMBERS)], [One(Sub([Many([])]))], z) == Some([]) <==> z.In(1).In(1).In(0).Zero()
  {
    BoxedIsLost(FLAGGED, Opt(false, Num(5)), z);
    BoxedIsLost(FLAGGED, Opt(false, Num(0)), z);
    BoxedIsLost(NUMBERS, Many([]), z);
  }

  lemma {:induction false} SameReflexive(fields: seq<Field>, m: Msg)
    requires WellFormed(fields) && FitsMsg(fields, m, Determined)
    ensures SameMsg(fields, m, m)
    decreases fields, 1
  {
    forall i | 0 <= i < |fields|
      ensures SlotOf(fields, i) < |m| && SameSlot(fields[i], m[SlotOf(fields, i)], m[SlotOf(fields, i)])
    {
      SlotInRange(fields, i);
      var g, s := fields[i], m[SlotOf(fields, i)];
      assert FitsSlot(g, s, Determined);
      match s
      case One(w) => SameAsItself(g, w);
      case Opt(has, w) => if has { SameAsItself(g, w); }
      case Many(ws) => forall w | w in ws ensures SameValue(g, w, w) { SameAsItself(g, w); }
      case Union(t, w) => if t == g.tag { SameAsItself(g, w); }
    }
  }

  lemma SameAsItself(f: Field, v: Value)
    requires WellFormedField(f) && FitsValue(f, v, Determined)
    ensures SameValue(f, v, v)
    decreases f, 0
  {
    if f.ltype == LSubmessage {
      SameReflexive(f.ptr.sub, v.msg);
    }
  }

  /** What is written for a fresh struct may hang on memory that nothing determines, as for an empty array in such a
      submessage; but it is faithful in any case. */
  lemma FreshIsFaithful(fields: seq<Field>, z: Memory)
    requires WellFormed(fields)
    ensures FaithfulMsg(fields, fields, Defaults(fields), z)
  {
    SubTableReflexive(fields);
    DefaultsFit(fields);
    SameReflexive(fields, Defaults(fields));
    AgreeIsSame(fields, Defaults(fields), Defaults(fields));
    DefaultsAreFaithful(fields, fields, Defaults(fields), z);
  }
}
