/** Concatenating encodings merges messages. */
module Merge {
  import opened Common
  import opened Descriptor
  import opened Format

  /** A record's outcome does not depend on what follows it. */
  lemma DecodeRecordExtends(fields: seq<Field>, m: Msg, tag: nat, wire: nat, a: bytes, b: bytes)
    requires |m| == SlotCount(fields, |fields|)
    requires DecodeRecord(fields, m, tag, wire, a).Some?
    ensures var r := DecodeRecord(fields, m, tag, wire, a).value;
            DecodeRecord(fields, m, tag, wire, a + b) == Some((r.0, r.1 + b))
  {
    match Find(fields, tag)
    case None => SkipExtends(wire, a, b);
    case Some(i) => TakeExtends(FramingFor(fields[i], wire), a, b);
  }

  /** A run over a ++ b is a run over b from where the run over a, unless it met an end mark, got to. */
  lemma {:induction false} RunsCompose(fields: seq<Field>, m: Msg, seen: set<nat>, a: bytes, b: bytes)
    requires |m| == SlotCount(fields, |fields|)
    requires var r := DecodeRecords(fields, m, seen, a); r.Some? && !r.value.stopped
    ensures var r := DecodeRecords(fields, m, seen, a).value;
            DecodeRecords(fields, m, seen, a + b) == DecodeRecords(fields, r.msg, r.seen, b)
    decreases |a|
  {
    if a == [] {
      assert a + b == b;
    } else {
      var t := ReadTag(a);
      ReadTagExtends(a, b);
      DecodeRecordExtends(fields, m, t.tag, t.wire, t.body, b);
      var (m', rest) := DecodeRecord(fields, m, t.tag, t.wire, t.body).value;
      RunsCompose(fields, m', seen + SeenBy(fields, t.tag), rest, b);
    }
  }

  /** Fields already seen only add to the fields a run sees. */
  lemma {:induction false} SeenAdds(fields: seq<Field>, m: Msg, before: set<nat>, seen: set<nat>, bs: bytes)
    requires |m| == SlotCount(fields, |fields|)
    ensures DecodeRecords(fields, m, before + seen, bs).Some? == DecodeRecords(fields, m, seen, bs).Some?
    ensures var r := DecodeRecords(fields, m, seen, bs);
            r.Some? ==> DecodeRecords(fields, m, before + seen, bs).value == r.value.(seen := before + r.value.seen)
    decreases |bs|
  {
    if bs != [] && ReadTag(bs).Tag? {
      var t := ReadTag(bs);
      match DecodeRecord(fields, m, t.tag, t.wire, t.body)
      case None =>
      case Some((m', rest)) =>
        SeenAdds(fields, m', before, seen + SeenBy(fields, t.tag), rest);
        assert before + (seen + SeenBy(fields, t.tag)) == before + seen + SeenBy(fields, t.tag);
    }
  }

  /** Decoding a ++ b into a struct is decoding a into it and then b into the result. */
  lemma {:induction false} ConcatenationMerges(fields: seq<Field>, m: Msg, a: bytes, b: bytes)
    requires |m| == SlotCount(fields, |fields|)
    requires var r := DecodeRecords(fields, m, {}, a); r.Some? && !r.value.stopped
    requires DecodeNoinit(fields, m, a).Some?
    requires DecodeNoinit(fields, DecodeNoinit(fields, m, a).value.0, b).Some?
    ensures DecodeNoinit(fields, m, a + b) == DecodeNoinit(fields, DecodeNoinit(fields, m, a).value.0, b)
  {
    RunsCompose(fields, m, {}, a, b);
    var r := DecodeRecords(fields, m, {}, a).value;
    SeenAdds(fields, r.msg, r.seen, {}, b);
    assert r.seen + {} == r.seen;
  }

  /** With a complete, the whole is accepted exactly when b's records decode: the required fields may come from a. */
  lemma {:induction false} ConcatenationAccepted(fields: seq<Field>, m: Msg, a: bytes, b: bytes)
    requires |m| == SlotCount(fields, |fields|)
    requires var r := DecodeRecords(fields, m, {}, a); r.Some? && !r.value.stopped
    ensures DecodeNoinit(fields, m, a + b).Some? <==>
      var ra := DecodeRecords(fields, m, {}, a).value;
      var rb := DecodeRecords(fields, ra.msg, {}, b);
      rb.Some? && RequiredSeen(fields, ra.seen + rb.value.seen)
  {
    RunsCompose(fields, m, {}, a, b);
    var r := DecodeRecords(fields, m, {}, a).value;
    SeenAdds(fields, r.msg, r.seen, {}, b);
    assert r.seen + {} == r.seen;
  }

  /** The run goes on behind a record exactly as the record's slot decides. */
  lemma RecordThen(fields: seq<Field>, m: Msg, seen: set<nat>, i: nat, wire: nat, c: Chunk, rest: bytes)
    requires |m| == SlotCount(fields, |fields|) && DistinctTags(fields) && i < |fields| && wire < 8
    requires 1 <= fields[i].tag < 0x2000_0000 && ChunkOk(FramingFor(fields[i], wire), c)
    ensures SlotOf(fields, i) < |m|
    ensures DecodeRecords(fields, m, seen, TagBytes(wire, fields[i].tag) + ChunkBytes(c) + rest) ==
            match DecodeSlot(fields[i], wire, m[SlotOf(fields, i)], c)
            case None => None
            case Some(s) => DecodeRecords(fields, m[SlotOf(fields, i) := s], seen + {i}, rest)
  {
    SlotInRange(fields, i);
    FindUnique(fields, i);
    var tag := TagBytes(wire, fields[i].tag);
    assert tag + ChunkBytes(c) + rest == tag + (ChunkBytes(c) + rest);
    ReadInvertsTag(wire, fields[i].tag, ChunkBytes(c) + rest);
    TakeInverts(FramingFor(fields[i], wire), c, rest);
  }
}
