/** Field order, and packed against unpacked arrays. */
module Order {
  import opened Common
  import opened Descriptor
  import opened Format

  // ---- Records ----

  datatype Record = Record(tag: nat, wire: nat, body: bytes)

  /** The body is exactly one payload, for the field that has the tag or, without one, for its wire type. The wire
      type need not be the one the encoder uses. */
  predicate RecordOk(fields: seq<Field>, r: Record) {
    && 1 <= r.tag < 0x2000_0000 && r.wire < 8
    && match Find(fields, r.tag)
       case None => Skip(r.wire, r.body) == Some([])
       case Some(i) => var t := Take(FramingFor(fields[i], r.wire), r.body); t.Some? && t.value.1 == []
  }

  function RecordBytes(r: Record): bytes
    requires r.wire < 8
  {
    TagBytes(r.wire, r.tag) + r.body
  }

  predicate RecordsOk(fields: seq<Field>, rs: seq<Record>) {
    forall r :: r in rs ==> RecordOk(fields, r)
  }

  function AllBytes(fields: seq<Field>, rs: seq<Record>): bytes
    requires RecordsOk(fields, rs)
  {
    if rs == [] then [] else assert rs[0] in rs; RecordBytes(rs[0]) + AllBytes(fields, rs[1..])
  }

  /** The slot that a record changes. */
  predicate Targets(fields: seq<Field>, r: Record, k: nat) {
    var i := Find(fields, r.tag);
    i.Some? && SlotOf(fields, i.value) == k
  }

  /** The records for one slot, in their order. */
  function RecordsFor(fields: seq<Field>, rs: seq<Record>, k: nat): (r: seq<Record>)
    ensures forall x :: x in r <==> x in rs && Targets(fields, x, k)
  {
    if rs == [] then []
    else if Targets(fields, rs[0], k) then [rs[0]] + RecordsFor(fields, rs[1..], k)
    else RecordsFor(fields, rs[1..], k)
  }

  function StoreRecord(fields: seq<Field>, s: Slot, r: Record): Option<Slot>
    requires RecordOk(fields, r) && Find(fields, r.tag).Some?
  {
    var f := fields[Find(fields, r.tag).value];
    DecodeSlot(f, r.wire, s, Take(FramingFor(f, r.wire), r.body).value.0)
  }

  /** One slot's own history: its records stored one after the other. */
  function SlotRun(fields: seq<Field>, s: Slot, rs: seq<Record>, k: nat): Option<Slot>
    requires RecordsOk(fields, rs) && forall r :: r in rs ==> Targets(fields, r, k)
    decreases |rs|
  {
    if rs == [] then Some(s)
    else
      assert Targets(fields, rs[0], k);
      match StoreRecord(fields, s, rs[0])
      case None => None
      case Some(s') => SlotRun(fields, s', rs[1..], k)
  }

  function SlotResult(fields: seq<Field>, m: Msg, rs: seq<Record>, k: nat): Option<Slot>
    requires RecordsOk(fields, rs) && k < |m|
  {
    SlotRun(fields, m[k], RecordsFor(fields, rs, k), k)
  }

  /** The fields that have a record. */
  function SeenIn(fields: seq<Field>, rs: seq<Record>): set<nat> {
    set r | r in rs && Find(fields, r.tag).Some? :: Find(fields, r.tag).value
  }

  // ---- A run is a product of slot histories ----

  lemma RecordStep(fields: seq<Field>, m: Msg, seen: set<nat>, r: Record, rest: bytes)
    requires |m| == SlotCount(fields, |fields|) && RecordOk(fields, r)
    ensures var i := Find(fields, r.tag);
      i.None? ==> DecodeRecords(fields, m, seen, RecordBytes(r) + rest) == DecodeRecords(fields, m, seen, rest)
    ensures var i := Find(fields, r.tag);
      i.Some? ==>
        SlotOf(fields, i.value) < |m|
        && DecodeRecords(fields, m, seen, RecordBytes(r) + rest) ==
           match StoreRecord(fields, m[SlotOf(fields, i.value)], r)
           case None => None
           case Some(s) => DecodeRecords(fields, m[SlotOf(fields, i.value) := s], seen + {i.value}, rest)
  {
    assert RecordBytes(r) + rest == TagBytes(r.wire, r.tag) + (r.body + rest);
    ReadInvertsTag(r.wire, r.tag, r.body + rest);
    match Find(fields, r.tag)
    case None =>
      SkipExtends(r.wire, r.body, rest);
      assert [] + rest == rest && seen + {} == seen;
      assert DecodeRecord(fields, m, r.tag, r.wire, r.body + rest) == Some((m, rest));
    case Some(i) =>
      SlotInRange(fields, i);
      TakeExtends(FramingFor(fields[i], r.wire), r.body, rest);
      assert [] + rest == rest;
      assert DecodeRecord(fields, m, r.tag, r.wire, r.body + rest) ==
             match StoreRecord(fields, m[SlotOf(fields, i)], r)
             case None => None
             case Some(s) => Some((m[SlotOf(fields, i) := s], rest));
  }

  /** Decoding a sequence of records is, slot by slot, storing the records for that slot: the run succeeds exactly
      when every slot's history does, and each slot ends up with its own result. */
  lemma {:induction false} RunIsProduct(fields: seq<Field>, m: Msg, seen: set<nat>, rs: seq<Record>)
    requires |m| == SlotCount(fields, |fields|) && RecordsOk(fields, rs)
    ensures var r := DecodeRecords(fields, m, seen, AllBytes(fields, rs));
      && (r.Some? <==> forall k :: 0 <= k < |m| ==> SlotResult(fields, m, rs, k).Some?)
      && (r.Some? ==>
            && r.value.rest == [] && !r.value.stopped
            && r.value.seen == seen + SeenIn(fields, rs)
            && forall k :: 0 <= k < |m| ==> Some(r.value.msg[k]) == SlotResult(fields, m, rs, k))
    decreases |rs|
  {
    if rs != [] {
      var r, tail := rs[0], rs[1..];
      assert r in rs;
      RecordStep(fields, m, seen, r, AllBytes(fields, tail));
      match Find(fields, r.tag) {
        case None =>
          assert SeenIn(fields, rs) == SeenIn(fields, tail);
          RunIsProduct(fields, m, seen, tail);
          assert forall k :: 0 <= k < |m| ==> SlotResult(fields, m, rs, k) == SlotResult(fields, m, tail, k);
        case Some(i) =>
          var k0 := SlotOf(fields, i);
          assert RecordsFor(fields, rs, k0) == [r] + RecordsFor(fields, tail, k0);
          match StoreRecord(fields, m[k0], r) {
            case None => assert SlotResult(fields, m, rs, k0).None?;
            case Some(s) =>
              var m' := m[k0 := s];
              RunIsProduct(fields, m', seen + {i}, tail);
              assert seen + {i} + SeenIn(fields, tail) == seen + SeenIn(fields, rs) by { SeenInHead(fields, rs, i); }
              forall k | 0 <= k < |m|
                ensures SlotResult(fields, m, rs, k) == SlotResult(fields, m', tail, k)
              {
                if k != k0 { assert !Targets(fields, r, k); }
              }
          }
      }
    }
  }

  lemma SeenInHead(fields: seq<Field>, rs: seq<Record>, i: nat)
    requires rs != [] && Find(fields, rs[0].tag) == Some(i)
    ensures SeenIn(fields, rs) == {i} + SeenIn(fields, rs[1..])
  {
    assert rs == [rs[0]] + rs[1..];
    forall x | x in SeenIn(fields, rs) ensures x in {i} + SeenIn(fields, rs[1..]) {
      var r :| r in rs && Find(fields, r.tag) == Some(x);
      assert r == rs[0] || r in rs[1..];
    }
    assert rs[0] in rs;
  }

  /** The same records for every slot. Records for different slots, and unknown ones, may be interleaved anyhow, and
      unknown ones added or dropped. */
  predicate SameForEverySlot(fields: seq<Field>, rs: seq<Record>, ts: seq<Record>) {
    forall k :: 0 <= k < SlotCount(fields, |fields|) ==> RecordsFor(fields, rs, k) == RecordsFor(fields, ts, k)
  }

  lemma SameSeen(fields: seq<Field>, rs: seq<Record>, ts: seq<Record>)
    requires SameForEverySlot(fields, rs, ts)
    ensures SeenIn(fields, rs) <= SeenIn(fields, ts)
  {
    forall i | i in SeenIn(fields, rs) ensures i in SeenIn(fields, ts) {
      var r :| r in rs && Find(fields, r.tag) == Some(i);
      SlotInRange(fields, i);
      assert Targets(fields, r, SlotOf(fields, i));
      assert r in RecordsFor(fields, rs, SlotOf(fields, i));
      assert r in RecordsFor(fields, ts, SlotOf(fields, i));
    }
  }

  /** Field order is irrelevant: reordering records, as long as those for the same field or the same union keep their
      relative order, changes neither whether the input is accepted nor the message. */
  lemma {:induction false} OrderIsIrrelevant(fields: seq<Field>, m: Msg, rs: seq<Record>, ts: seq<Record>)
    requires |m| == SlotCount(fields, |fields|)
    requires RecordsOk(fields, rs) && RecordsOk(fields, ts) && SameForEverySlot(fields, rs, ts)
    ensures DecodeNoinit(fields, m, AllBytes(fields, rs)) == DecodeNoinit(fields, m, AllBytes(fields, ts))
  {
    RunIsProduct(fields, m, {}, rs);
    RunIsProduct(fields, m, {}, ts);
    SameSeen(fields, rs, ts);
    SameSeen(fields, ts, rs);
    assert forall k :: 0 <= k < |m| ==> SlotResult(fields, m, rs, k) == SlotResult(fields, m, ts, k);
    var r := DecodeRecords(fields, m, {}, AllBytes(fields, rs));
    var t := DecodeRecords(fields, m, {}, AllBytes(fields, ts));
    if r.Some? {
      assert forall k :: 0 <= k < |m| ==> r.value.msg[k] == t.value.msg[k];
      assert r.value.msg == t.value.msg;
    }
  }

  // ---- Acceptance ----

  /** Records are accepted exactly when every slot's own records can be stored and every required field has one. */
  lemma AcceptedIff(fields: seq<Field>, m: Msg, rs: seq<Record>)
    requires |m| == SlotCount(fields, |fields|) && DistinctTags(fields) && RecordsOk(fields, rs)
    ensures DecodeNoinit(fields, m, AllBytes(fields, rs)).Some? <==>
            && (forall k :: 0 <= k < |m| ==> SlotResult(fields, m, rs, k).Some?)
            && (forall i :: 0 <= i < |fields| && fields[i].htype == Required ==>
                  exists r :: r in rs && r.tag == fields[i].tag)
  {
    RunIsProduct(fields, m, {}, rs);
    forall i | 0 <= i < |fields|
      ensures i in SeenIn(fields, rs) <==> exists r :: r in rs && r.tag == fields[i].tag
    {
      FindUnique(fields, i);
      if i in SeenIn(fields, rs) {
        var r :| r in rs && Find(fields, r.tag) == Some(i);
        assert r.tag == fields[i].tag;
      }
    }
  }

  /** Each submessage is checked by itself. */
  lemma AcceptedInside(f: Field, prior: Msg, rs: seq<Record>)
    requires WellFormedField(f) && f.ltype == LSubmessage && |prior| == SlotCount(f.ptr.sub, |f.ptr.sub|)
    requires RecordsOk(f.ptr.sub, rs) && |AllBytes(f.ptr.sub, rs)| < TWO32
    ensures var sub, start := f.ptr.sub, if f.htype == Repeated then Defaults(f.ptr.sub) else prior;
      DecodeValue(f, Sub(prior), Payload(AllBytes(sub, rs))).Some? <==>
      && (forall k :: 0 <= k < |start| ==> SlotResult(sub, start, rs, k).Some?)
      && (forall i :: 0 <= i < |sub| && sub[i].htype == Required ==> exists r :: r in rs && r.tag == sub[i].tag)
  {
    AcceptedIff(f.ptr.sub, if f.htype == Repeated then Defaults(f.ptr.sub) else prior, rs);
  }

  /** The wire type of a record for a known field is not compared with the field's: it only tells packed records of a
      packable array from single items. */
  lemma WireTypeIgnored(fields: seq<Field>, m: Msg, tag: nat, v: nat, w: nat, body: bytes)
    requires |m| == SlotCount(fields, |fields|) && Find(fields, tag).Some?
    requires var f := fields[Find(fields, tag).value]; f.htype == Repeated && Packable(f.ltype) ==> (v == 2 <==> w == 2)
    ensures DecodeRecord(fields, m, tag, v, body) == DecodeRecord(fields, m, tag, w, body)
  {
  }

  // ---- Fields without a record ----

  predicate NoRecordFor(fields: seq<Field>, rs: seq<Record>, i: nat)
    requires i < |fields|
  {
    forall r, j :: r in rs && 0 <= j < |fields| && SlotOf(fields, j) == SlotOf(fields, i) ==> r.tag != fields[j].tag
  }

  lemma NoHistory(fields: seq<Field>, rs: seq<Record>, i: nat)
    requires i < |fields| && NoRecordFor(fields, rs, i)
    ensures RecordsFor(fields, rs, SlotOf(fields, i)) == []
  {
    var k := SlotOf(fields, i);
    forall r | r in rs ensures !Targets(fields, r, k) {
      var j := Find(fields, r.tag);
      assert j.Some? ==> r.tag == fields[j.value].tag;
    }
    assert forall r :: r !in RecordsFor(fields, rs, k);
  }

  /** They keep what they hold. */
  lemma NoRecordKeeps(fields: seq<Field>, m: Msg, rs: seq<Record>, i: nat)
    requires |m| == SlotCount(fields, |fields|) && RecordsOk(fields, rs) && i < |fields| && NoRecordFor(fields, rs, i)
    ensures SlotOf(fields, i) < |m|
    ensures var r := DecodeNoinit(fields, m, AllBytes(fields, rs));
      r.Some? ==> r.value.0[SlotOf(fields, i)] == m[SlotOf(fields, i)]
  {
    SlotInRange(fields, i);
    NoHistory(fields, rs, i);
    RunIsProduct(fields, m, {}, rs);
    assert SlotResult(fields, m, rs, SlotOf(fields, i)) == Some(m[SlotOf(fields, i)]);
  }

  /** After pb_decode that is the explicit default, or zeros. */
  lemma NoRecordIsInitial(fields: seq<Field>, rs: seq<Record>, i: nat)
    requires WellFormed(fields) && RecordsOk(fields, rs) && i < |fields| && NoRecordFor(fields, rs, i)
    ensures SlotOf(fields, i) < SlotCount(fields, |fields|)
    ensures var r := Decode(fields, AllBytes(fields, rs));
      r.Some? ==> InitialSlot(fields[i], r.value.0[SlotOf(fields, i)])
  {
    NoRecordKeeps(fields, Defaults(fields), rs, i);
    DefaultsAreInitial(fields);
  }

  /** The item that was stored last. */
  function LastItem(s: Slot): Value {
    match s
    case One(v) => v
    case Opt(_, v) => v
    case Many(items) => if items == [] then Indeterminate else items[|items| - 1]
    case Union(_, v) => v
  }

  /** Inside submessages too: the first record of one, each new array item, and each new union member start from there.
      */
  lemma NoRecordInItem(f: Field, prior: Value, rs: seq<Record>, i: nat)
    requires WellFormedField(f) && f.ltype == LSubmessage
    requires f.htype != Repeated ==> prior.Sub? && InitialMsg(f.ptr.sub, prior.msg)
    requires RecordsOk(f.ptr.sub, rs) && |AllBytes(f.ptr.sub, rs)| < TWO32
    requires i < |f.ptr.sub| && NoRecordFor(f.ptr.sub, rs, i)
    ensures var r := DecodeValue(f, prior, Payload(AllBytes(f.ptr.sub, rs)));
      r.Some? ==> r.value.Sub? && SlotOf(f.ptr.sub, i) < |r.value.msg|
                  && InitialSlot(f.ptr.sub[i], r.value.msg[SlotOf(f.ptr.sub, i)])
  {
    DefaultsAreInitial(f.ptr.sub);
    NoRecordKeeps(f.ptr.sub, if f.htype == Repeated then Defaults(f.ptr.sub) else prior.msg, rs, i);
  }

  lemma NoRecordInside(f: Field, s: Slot, rs: seq<Record>, i: nat)
    requires WellFormedField(f) && f.ltype == LSubmessage && (f.htype in {Required, Optional} ==> InitialSlot(f, s))
    requires RecordsOk(f.ptr.sub, rs) && |AllBytes(f.ptr.sub, rs)| < TWO32
    requires i < |f.ptr.sub| && NoRecordFor(f.ptr.sub, rs, i)
    ensures var r := DecodeSlot(f, 2, s, Payload(AllBytes(f.ptr.sub, rs)));
      r.Some? ==>
        var v := LastItem(r.value);
        v.Sub? && SlotOf(f.ptr.sub, i) < |v.msg| && InitialSlot(f.ptr.sub[i], v.msg[SlotOf(f.ptr.sub, i)])
  {
    DefaultsAreInitial(f.ptr.sub);
    var prior := match f.htype
      case Repeated => Indeterminate
      case Oneof => Sub(Defaults(f.ptr.sub))
      case _ => s.value;
    NoRecordInItem(f, prior, rs, i);
    assert !Packable(f.ltype);
  }
}
