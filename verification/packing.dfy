/** A packed array record and single-item records of the same field. */
module Packing {
  import opened Common
  import opened Descriptor
  import opened Format
  import opened Merge

  predicate ItemsOk(f: Field, cs: seq<Chunk>) {
    forall c :: c in cs ==> ChunkOk(FramingOf(f.ltype), c)
  }

  function ItemsBytes(cs: seq<Chunk>): bytes {
    if cs == [] then [] else ChunkBytes(cs[0]) + ItemsBytes(cs[1..])
  }

  /** One record holding all the items. */
  function PackedBytes(f: Field, cs: seq<Chunk>): bytes {
    TagBytes(WT_STRING, f.tag) + ChunkBytes(Payload(ItemsBytes(cs)))
  }

  /** A record for each item. */
  function SingleBytes(f: Field, cs: seq<Chunk>): bytes {
    if cs == [] then [] else TagBytes(WireOf(f.ltype), f.tag) + ChunkBytes(cs[0]) + SingleBytes(f, cs[1..])
  }

  /** The items appended one at a time, until one does not decode or has no room. */
  function AppendItems(f: Field, items: seq<Value>, cs: seq<Chunk>): (r: Option<seq<Value>>)
    requires ItemsOk(f, cs)
    decreases |cs|
  {
    if cs == [] then Some(items)
    else if |items| >= f.arraySize then None
    else
      assert cs[0] in cs;
      match DecodeValue(f, Indeterminate, cs[0])
      case None => None
      case Some(v) => AppendItems(f, items + [v], cs[1..])
  }

  /** Rejected exactly when an item does not decode or the total would pass array_size. */
  lemma {:induction false} AppendItemsSucceeds(f: Field, items: seq<Value>, cs: seq<Chunk>)
    requires ItemsOk(f, cs) && |items| <= f.arraySize
    ensures AppendItems(f, items, cs).Some? <==>
            |items| + |cs| <= f.arraySize && forall c :: c in cs ==> DecodeValue(f, Indeterminate, c).Some?
    ensures AppendItems(f, items, cs).Some? ==>
            var r := AppendItems(f, items, cs).value;
            |r| == |items| + |cs| && items <= r
            && forall j :: 0 <= j < |cs| ==> Some(r[|items| + j]) == DecodeValue(f, Indeterminate, cs[j])
    decreases |cs|
  {
    if cs != [] {
      var c, tail := cs[0], cs[1..];
      assert cs == [c] + tail && c in cs;
      assert ChunkOk(FramingOf(f.ltype), c);
      match DecodeValue(f, Indeterminate, c)
      case None => assert AppendItems(f, items, cs).None?;
      case Some(v) =>
        if |items| < f.arraySize {
          AppendItemsSucceeds(f, items + [v], tail);
          var r := AppendItems(f, items, cs);
          if r.Some? {
            assert forall j :: 1 <= j < |cs| ==> cs[j] == tail[j - 1];
            assert r.value[|items|] == (items + [v])[|items|];
          }
        }
    }
  }

  lemma {:induction false} PackedAppends(f: Field, items: seq<Value>, cs: seq<Chunk>)
    requires ItemsOk(f, cs)
    ensures DecodePacked(f, items, ItemsBytes(cs)) == AppendItems(f, items, cs)
    decreases |cs|
  {
    if cs != [] {
      var c, tail := cs[0], cs[1..];
      assert c in cs;
      TakeInverts(FramingOf(f.ltype), c, ItemsBytes(tail));
      if DecodeValue(f, Indeterminate, c).Some? {
        PackedAppends(f, items + [DecodeValue(f, Indeterminate, c).value], tail);
      }
    }
  }

  lemma {:induction false} SinglesThen(fields: seq<Field>, m: Msg, seen: set<nat>, i: nat, cs: seq<Chunk>, rest: bytes)
    requires |m| == SlotCount(fields, |fields|) && DistinctTags(fields) && i < |fields|
    requires fields[i].htype == Repeated && Packable(fields[i].ltype) && 1 <= fields[i].tag < 0x2000_0000
    requires ItemsOk(fields[i], cs) && SlotOf(fields, i) < |m| && m[SlotOf(fields, i)].Many?
    ensures DecodeRecords(fields, m, seen, SingleBytes(fields[i], cs) + rest) ==
            match AppendItems(fields[i], m[SlotOf(fields, i)].items, cs)
            case None => None
            case Some(items) =>
              DecodeRecords(fields, m[SlotOf(fields, i) := Many(items)], if cs == [] then seen else seen + {i}, rest)
    decreases |cs|
  {
    var f, k := fields[i], SlotOf(fields, i);
    if cs == [] {
      assert [] + rest == rest;
      assert m[k := Many(m[k].items)] == m;
    } else {
      var c, tail := cs[0], cs[1..];
      assert c in cs;
      var head := TagBytes(WireOf(f.ltype), f.tag) + ChunkBytes(c);
      assert SingleBytes(f, cs) + rest == head + (SingleBytes(f, tail) + rest);
      RecordThen(fields, m, seen, i, WireOf(f.ltype), c, SingleBytes(f, tail) + rest);
      var s := DecodeSlot(f, WireOf(f.ltype), m[k], c);
      if s.Some? {
        SinglesThen(fields, m[k := s.value], seen + {i}, i, tail, rest);
        assert seen + {i} + {i} == seen + {i};
        var done := AppendItems(f, s.value.items, tail);
        if done.Some? {
          assert m[k := s.value][k := Many(done.value)] == m[k := Many(done.value)];
        }
      }
    }
  }

  /** A packed record and single records of the same items, wherever they stand and whatever the array already holds,
      are accepted alike and leave the same array and count. */
  lemma {:induction false} PackedAgreesWithSingles(fields: seq<Field>, m: Msg, seen: set<nat>, i: nat,
                                                       cs: seq<Chunk>, rest: bytes)
    requires |m| == SlotCount(fields, |fields|) && DistinctTags(fields) && i < |fields|
    requires fields[i].htype == Repeated && Packable(fields[i].ltype) && 1 <= fields[i].tag < 0x2000_0000
    requires SlotOf(fields, i) < |m| && m[SlotOf(fields, i)].Many?
    requires ItemsOk(fields[i], cs) && cs != [] && |ItemsBytes(cs)| < TWO32
    ensures DecodeRecords(fields, m, seen, PackedBytes(fields[i], cs) + rest)
            == DecodeRecords(fields, m, seen, SingleBytes(fields[i], cs) + rest)
  {
    PackedAppends(fields[i], m[SlotOf(fields, i)].items, cs);
    RecordThen(fields, m, seen, i, WT_STRING, Payload(ItemsBytes(cs)), rest);
    SinglesThen(fields, m, seen, i, cs, rest);
  }
}
