/** What a receiver holds after decoding, field by field, and when that is what the sender sent. */
module Fidelity {
  import opened Common
  import opened Descriptor
  import opened Format
  import opened RoundTrip

  // ---- What each field becomes ----

  /** A field with a slot of its own becomes what the merge makes of its slot alone. */
  lemma {:induction false} MergedOwn(sub: seq<Field>, big: seq<Field>, m: Msg, st: Msg, n: nat, j: nat, z: Memory)
    requires DistinctTags(sub) && DistinctTags(big) && SubTable(sub, big) && |m| == SlotCount(big, |big|)
    requires |st| == SlotCount(sub, |sub|)
    requires n <= |big| && MergeUpTo(sub, big, m, st, n, z).Some? && j < |sub| && sub[j].htype != Oneof
    ensures SenderOf(sub, big, j).Some?
    ensures var i, k := SenderOf(sub, big, j).value, SlotOf(sub, j);
      && SlotOf(big, i) < |m| && k < |st|
      && var r := MergeUpTo(sub, big, m, st, n, z).value[k];
         if n <= i then r == st[k]
         else MergeSlot(sub[j], big[i], m[SlotOf(big, i)], st[k], z.In(big[i].tag)) == Some(r)
    decreases n
  {
    var i := SenderOf(sub, big, j).value;
    SlotInRange(big, i);
    SlotInRange(sub, j);
    FindUnique(sub, j);
    if n > 0 {
      MergedOwn(sub, big, m, st, n - 1, j, z);
      var found := Find(sub, big[n - 1].tag);
      if found.Some? {
        KnownField(sub, big, n - 1, found.value);
        SlotInRange(sub, found.value);
        if found.value != j && SlotOf(sub, found.value) == SlotOf(sub, j) {
          SlotOwn(sub, found.value, j);
        }
      }
    }
  }

  /** What the receiver holds of an item, or of a message, that it decodes into nothing. */
  function ReceivedValue(g: Field, f: Field, v: Value, z: Memory): Value {
    if g.ltype == LSubmessage && g.ptr.Fields? && f.ptr.Fields?
       && v.Sub? && |v.msg| == SlotCount(f.ptr.sub, |f.ptr.sub|)
    then Sub(Received(g.ptr.sub, f.ptr.sub, v.msg, z)) else v
  }

  function Received(sub: seq<Field>, big: seq<Field>, m: Msg, z: Memory): (r: Msg)
    requires |m| == SlotCount(big, |big|)
    ensures |r| == SlotCount(sub, |sub|)
  {
    match Merged(sub, big, m, Defaults(sub), z)
    case None => Defaults(sub)
    case Some(r) => r
  }

  /** What a union holds once some of the sender's fields are merged, seen from its member g. */
  predicate MemberState(g: Field, f: Field, written: bool, sent: Slot, held: Slot, z: Memory) {
    && sent.Union? && held.Union?
    && (held.which == g.tag <==> written && sent.which == f.tag)
    && (held.which == g.tag ==> held.value == ReceivedValue(g, f, sent.value, z))
  }

  /** A member of a union: the union ends up on it exactly when the sender's is on it. */
  lemma {:induction false} MergedMember(sub: seq<Field>, big: seq<Field>, m: Msg, n: nat, j: nat, z: Memory)
    requires WellFormed(sub) && WellFormed(big) && SubTable(sub, big) && FitsMsg(big, m, Determined)
    requires n <= |big| && MergeUpTo(sub, big, m, Defaults(sub), n, z).Some? && j < |sub| && sub[j].htype == Oneof
    ensures SenderOf(sub, big, j).Some?
    ensures var i, k := SenderOf(sub, big, j).value, SlotOf(sub, j);
      && SlotOf(big, i) < |m| && k < SlotCount(sub, |sub|)
      && MemberState(sub[j], big[i], i < n, m[SlotOf(big, i)],
                     MergeUpTo(sub, big, m, Defaults(sub), n, z).value[k], z.In(big[i].tag))
    decreases n
  {
    var i := SenderOf(sub, big, j).value;
    SlotInRange(big, i);
    SlotInRange(sub, j);
    assert FitsSlot(big[i], m[SlotOf(big, i)], Determined) && WellFormedField(sub[j]);
    if n == 0 {
      DefaultsAt(sub, |sub|, j);
    } else {
      MergedMember(sub, big, m, n - 1, j, z);
      var found := Find(sub, big[n - 1].tag);
      if found.Some? {
        MemberStep(sub, big, m, MergeUpTo(sub, big, m, Defaults(sub), n - 1, z).value, n - 1, found.value, j, z);
      }
    }
  }

  lemma MemberStep(sub: seq<Field>, big: seq<Field>, m: Msg, st: Msg, n: nat, a: nat, j: nat, z: Memory)
    requires WellFormed(sub) && WellFormed(big) && SubTable(sub, big) && FitsMsg(big, m, Determined)
    requires |st| == SlotCount(sub, |sub|) && n < |big| && MergeOne(sub, big, m, st, n, z).Some?
    requires Find(sub, big[n].tag) == Some(a) && j < |sub| && sub[j].htype == Oneof
    requires SenderOf(sub, big, j).Some?
    requires var i, k := SenderOf(sub, big, j).value, SlotOf(sub, j);
      && SlotOf(big, i) < |m| && k < |st|
      && MemberState(sub[j], big[i], i < n, m[SlotOf(big, i)], st[k], z.In(big[i].tag))
    ensures var i, k := SenderOf(sub, big, j).value, SlotOf(sub, j);
      MemberState(sub[j], big[i], i < n + 1, m[SlotOf(big, i)], MergeOne(sub, big, m, st, n, z).value[k],
                  z.In(big[i].tag))
  {
    KnownField(sub, big, n, a);
    FindUnique(sub, j);
    SlotInRange(sub, a);
    SlotInRange(big, n);
    var s, held := m[SlotOf(big, n)], st[SlotOf(sub, a)];
    if a == j {
      assert FitsSlot(big[n], s, Determined) && WellFormedField(sub[j]) && WellFormedField(big[n]);
      if s.which == big[n].tag {
        ReceivedIsMerged(sub[j], big[n], UnionStart(sub[j], held), s.value, z.In(big[n].tag));
      }
    } else if SlotOf(sub, a) == SlotOf(sub, j) {
      SlotOwn(sub, a, j);
      TagsAreDistinct(sub, a, j);
      assert SlotOf(big, n) == SlotOf(big, SenderOf(sub, big, j).value);
    } else {
      assert MergeOne(sub, big, m, st, n, z).value[SlotOf(sub, j)] == st[SlotOf(sub, j)];
    }
  }

  // ---- When there is room ----

  /** Arrays may only grow to their size, in submessages too, as far as those are merged into what is there. */
  predicate RoomValue(g: Field, f: Field, prior: Value, v: Value, z: Memory)
    decreases g, 0
  {
    g.ltype == LSubmessage && g.htype != Repeated ==>
      && g.ptr.Fields? && f.ptr.Fields? && v.Sub? && prior.Sub?
      && |v.msg| == SlotCount(f.ptr.sub, |f.ptr.sub|) && |prior.msg| == SlotCount(g.ptr.sub, |g.ptr.sub|)
      && Room(g.ptr.sub, f.ptr.sub, v.msg, prior.msg, z)
  }

  predicate RoomSlot(g: Field, f: Field, s: Slot, held: Slot, z: Memory)
    decreases g, 1
  {
    match (s, held)
    case (One(v), One(prior)) => (HasLess(f) && TestsUnset(f, v, z)) || RoomValue(g, f, prior, v, z)
    case (Opt(has, v), Opt(_, prior)) => has ==> RoomValue(g, f, prior, v, z)
    case (Many(items), Many(prior)) => |prior| + |items| <= g.arraySize
    case (Union(_, _), Union(_, _)) => true
    case _ => false
  }

  predicate Room(sub: seq<Field>, big: seq<Field>, m: Msg, st: Msg, z: Memory)
    requires |m| == SlotCount(big, |big|) && |st| == SlotCount(sub, |sub|)
    decreases sub, 2
  {
    forall j {:trigger SenderOf(sub, big, j)} :: 0 <= j < |sub| && SenderOf(sub, big, j).Some? ==>
      (SlotInRange(sub, j); SlotInRange(big, SenderOf(sub, big, j).value);
       var f := big[SenderOf(sub, big, j).value];
       RoomSlot(sub[j], f, m[SlotOf(big, SenderOf(sub, big, j).value)], st[SlotOf(sub, j)], z.In(f.tag)))
  }

  /** A fresh struct has room for any message of the sender's. */
  lemma {:induction false} DefaultsHaveRoom(sub: seq<Field>, big: seq<Field>, m: Msg, z: Memory)
    requires WellFormed(sub) && WellFormed(big) && SubTable(sub, big) && FitsMsg(big, m, Determined)
    ensures Room(sub, big, m, Defaults(sub), z)
    decreases sub, 1
  {
    forall j | 0 <= j < |sub|
      ensures SenderOf(sub, big, j).Some? && SlotOf(sub, j) < SlotCount(sub, |sub|)
      ensures var i := SenderOf(sub, big, j).value;
        SlotOf(big, i) < |m|
        && RoomSlot(sub[j], big[i], m[SlotOf(big, i)], Defaults(sub)[SlotOf(sub, j)], z.In(big[i].tag))
    {
      var i := SenderOf(sub, big, j).value;
      SlotInRange(big, i);
      DefaultsAt(sub, |sub|, j);
      assert FitsSlot(big[i], m[SlotOf(big, i)], Determined) && WellFormedField(sub[j]) && WellFormedField(big[i]);
      DefaultSlotHasRoom(sub[j], big[i], m[SlotOf(big, i)], z.In(big[i].tag));
    }
  }

  lemma DefaultSlotHasRoom(g: Field, f: Field, s: Slot, z: Memory)
    requires WellFormedField(g) && WellFormedField(f) && SubField(g, f) && FitsSlot(f, s, Determined)
    ensures RoomSlot(g, f, s, DefaultSlot(g), z)
    decreases g, 0
  {
    if g.ltype == LSubmessage && g.htype in {Required, Optional} && s.value.Sub? {
      DefaultsHaveRoom(g.ptr.sub, f.ptr.sub, s.value.msg, z);
    }
  }

  lemma {:induction false} ValueRoomIff(g: Field, f: Field, prior: Value, v: Value, z: Memory)
    requires WellFormedField(g) && WellFormedField(f) && SubField(g, f) && FitsValue(f, v, Determined)
    requires g.htype != Repeated && prior.Sub? ==> FitsValue(g, prior, Loose)
    ensures MergeValue(g, f, prior, v, z).Some? <==> RoomValue(g, f, prior, v, z)
    decreases g, 0
  {
    if g.ltype == LSubmessage {
      var sub := g.ptr.sub;
      DefaultsFit(sub);
      FitsMsgWeakens(sub, Defaults(sub), Determined, Loose);
      if g.htype == Repeated {
        DefaultsHaveRoom(sub, f.ptr.sub, v.msg, z);
        RoomIff(sub, f.ptr.sub, v.msg, Defaults(sub), z);
      } else if prior.Sub? {
        RoomIff(sub, f.ptr.sub, v.msg, prior.msg, z);
      }
    }
  }

  /** An item decoded into nothing. */
  lemma ReceivedIsMerged(g: Field, f: Field, prior: Value, v: Value, z: Memory)
    requires WellFormedField(g) && WellFormedField(f) && SubField(g, f) && FitsValue(f, v, Determined)
    requires g.ltype == LSubmessage && g.htype != Repeated ==> prior == DefaultValue(g)
    ensures MergeValue(g, f, prior, v, z) == Some(ReceivedValue(g, f, v, z))
    decreases g, 1
  {
    if g.ltype == LSubmessage {
      var sub := g.ptr.sub;
      DefaultsFit(sub);
      FitsMsgWeakens(sub, Defaults(sub), Determined, Loose);
      DefaultsHaveRoom(sub, f.ptr.sub, v.msg, z);
      RoomIff(sub, f.ptr.sub, v.msg, Defaults(sub), z);
    }
  }

  /** Arrays append: the items held, and then those received, exactly when all of them have room. */
  lemma {:induction false} ItemsAppend(g: Field, f: Field, held: seq<Value>, items: seq<Value>, n: nat, z: Memory)
    requires WellFormedField(g) && WellFormedField(f) && SubField(g, f) && g.htype == Repeated && n <= |items|
    requires |held| <= g.arraySize && forall v :: v in items ==> FitsValue(f, v, Determined)
    ensures var r := MergeItems(g, f, held, items, n, z);
      && (r.Some? <==> |held| + n <= g.arraySize)
      && (r.Some? ==>
            && |r.value| == |held| + n && held <= r.value
            && forall k :: 0 <= k < n ==> r.value[|held| + k] == ReceivedValue(g, f, items[k], z.In(k)))
    decreases g, 2, n
  {
    if n > 0 {
      ItemsAppend(g, f, held, items, n - 1, z);
      assert items[n - 1] in items;
      ReceivedIsMerged(g, f, Indeterminate, items[n - 1], z.In(n - 1));
    }
  }

  lemma SlotRoomIff(g: Field, f: Field, s: Slot, held: Slot, z: Memory)
    requires WellFormedField(g) && WellFormedField(f) && SubField(g, f)
    requires FitsSlot(f, s, Determined) && FitsSlot(g, held, Loose)
    ensures MergeSlot(g, f, s, held, z).Some? <==> RoomSlot(g, f, s, held, z)
    decreases g, 3
  {
    match s
    case One(v) => ValueRoomIff(g, f, held.value, v, z);
    case Opt(has, v) => if has { ValueRoomIff(g, f, held.value, v, z); }
    case Many(items) => ItemsAppend(g, f, held.items, items, |items|, z);
    case Union(which, v) =>
      if which == f.tag { ReceivedIsMerged(g, f, UnionStart(g, held), v, z); }
  }

  /** A message can be merged into a struct if and only if there is room for it. */
  lemma {:induction false} RoomIff(sub: seq<Field>, big: seq<Field>, m: Msg, st: Msg, z: Memory)
    requires WellFormed(sub) && WellFormed(big) && SubTable(sub, big)
    requires FitsMsg(big, m, Determined) && FitsMsg(sub, st, Loose)
    ensures Merged(sub, big, m, st, z).Some? <==> Room(sub, big, m, st, z)
    decreases sub, 3
  {
    if Room(sub, big, m, st, z) {
      RoomEnough(sub, big, m, st, |big|, z);
    }
    if Merged(sub, big, m, st, z).Some? {
      forall j | 0 <= j < |sub|
        ensures SenderOf(sub, big, j).Some? && SlotOf(sub, j) < |st|
        ensures var i := SenderOf(sub, big, j).value;
          SlotOf(big, i) < |m| && RoomSlot(sub[j], big[i], m[SlotOf(big, i)], st[SlotOf(sub, j)], z.In(big[i].tag))
      {
        RoomNeeded(sub, big, m, st, j, z);
      }
    }
  }

  lemma RoomNeeded(sub: seq<Field>, big: seq<Field>, m: Msg, st: Msg, j: nat, z: Memory)
    requires WellFormed(sub) && WellFormed(big) && SubTable(sub, big)
    requires FitsMsg(big, m, Determined) && FitsMsg(sub, st, Loose)
    requires Merged(sub, big, m, st, z).Some? && j < |sub|
    ensures SenderOf(sub, big, j).Some? && SlotOf(sub, j) < |st|
    ensures var i := SenderOf(sub, big, j).value;
      SlotOf(big, i) < |m| && RoomSlot(sub[j], big[i], m[SlotOf(big, i)], st[SlotOf(sub, j)], z.In(big[i].tag))
    decreases sub, 1
  {
    var i := SenderOf(sub, big, j).value;
    SlotInRange(sub, j);
    SlotInRange(big, i);
    assert FitsSlot(big[i], m[SlotOf(big, i)], Determined) && FitsSlot(sub[j], st[SlotOf(sub, j)], Loose);
    assert WellFormedField(sub[j]) && WellFormedField(big[i]);
    if sub[j].htype != Oneof {
      MergedOwn(sub, big, m, st, |big|, j, z);
      SlotRoomIff(sub[j], big[i], m[SlotOf(big, i)], st[SlotOf(sub, j)], z.In(big[i].tag));
    }
  }

  lemma {:induction false} RoomEnough(sub: seq<Field>, big: seq<Field>, m: Msg, st: Msg, n: nat, z: Memory)
    requires WellFormed(sub) && WellFormed(big) && SubTable(sub, big)
    requires FitsMsg(big, m, Determined) && FitsMsg(sub, st, Loose) && Room(sub, big, m, st, z) && n <= |big|
    ensures MergeUpTo(sub, big, m, st, n, z).Some?
    decreases sub, 2, n
  {
    if n > 0 {
      RoomEnough(sub, big, m, st, n - 1, z);
      MergeFits(sub, big, m, st, n - 1, z, Loose);
      var found := Find(sub, big[n - 1].tag);
      if found.Some? {
        RoomForOne(sub, big, m, st, n - 1, found.value, z);
      }
    }
  }

  lemma RoomForOne(sub: seq<Field>, big: seq<Field>, m: Msg, st: Msg, i: nat, j: nat, z: Memory)
    requires WellFormed(sub) && WellFormed(big) && SubTable(sub, big)
    requires FitsMsg(big, m, Determined) && FitsMsg(sub, st, Loose) && Room(sub, big, m, st, z)
    requires i < |big| && Find(sub, big[i].tag) == Some(j)
    requires var r := MergeUpTo(sub, big, m, st, i, z); r.Some? && FitsMsg(sub, r.value, Loose)
    ensures MergeUpTo(sub, big, m, st, i + 1, z).Some?
    decreases sub, 1
  {
    KnownField(sub, big, i, j);
    SlotInRange(sub, j);
    SlotInRange(big, i);
    var r := MergeUpTo(sub, big, m, st, i, z).value;
    assert FitsSlot(big[i], m[SlotOf(big, i)], Determined) && FitsSlot(sub[j], r[SlotOf(sub, j)], Loose);
    assert WellFormedField(sub[j]) && WellFormedField(big[i]);
    if sub[j].htype != Oneof {
      MergedOwn(sub, big, m, st, i, j, z);
    }
    SlotRoomIff(sub[j], big[i], m[SlotOf(big, i)], r[SlotOf(sub, j)], z.In(big[i].tag));
  }

  // ---- Observational equality: what generated accessors can tell apart ----

  predicate SameValue(f: Field, a: Value, b: Value)
    decreases f, 0
  {
    if f.ltype == LSubmessage then
      a.Sub? && b.Sub? && f.ptr.Fields? && SameMsg(f.ptr.sub, a.msg, b.msg)
    else a == b
  }

  /** Ignores the data of absent optional fields and of inactive union members. */
  predicate SameSlot(f: Field, a: Slot, b: Slot)
    decreases f, 1
  {
    match (a, b)
    case (One(v), One(w)) => SameValue(f, v, w)
    case (Opt(has, v), Opt(has', w)) => has == has' && (has ==> SameValue(f, v, w))
    case (Many(vs), Many(ws)) => |vs| == |ws| && forall k :: 0 <= k < |vs| ==> SameValue(f, vs[k], ws[k])
    case (Union(t, v), Union(u, w)) => (t == f.tag <==> u == f.tag) && (t == f.tag ==> SameValue(f, v, w))
    case _ => false
  }

  predicate SameMsg(fields: seq<Field>, a: Msg, b: Msg)
    decreases fields, 2
  {
    && |a| == |b| == SlotCount(fields, |fields|)
    && forall i {:trigger SlotOf(fields, i)} :: 0 <= i < |fields| ==>
         (SlotInRange(fields, i); SameSlot(fields[i], a[SlotOf(fields, i)], b[SlotOf(fields, i)]))
  }

  // ---- The same, between a sender's struct and a receiver's with a smaller table ----

  predicate AgreeValue(g: Field, f: Field, a: Value, b: Value)
    decreases g, 0
  {
    if g.ltype == LSubmessage then
      a.Sub? && b.Sub? && g.ptr.Fields? && f.ptr.Fields? && AgreeMsg(g.ptr.sub, f.ptr.sub, a.msg, b.msg)
    else a == b
  }

  predicate AgreeSlot(g: Field, f: Field, s: Slot, t: Slot)
    decreases g, 1
  {
    match (s, t)
    case (One(v), One(w)) => AgreeValue(g, f, v, w)
    case (Opt(has, v), Opt(has', w)) => has == has' && (has ==> AgreeValue(g, f, v, w))
    case (Many(vs), Many(ws)) => |vs| == |ws| && forall k :: 0 <= k < |vs| ==> AgreeValue(g, f, vs[k], ws[k])
    case (Union(a, v), Union(b, w)) => (a == f.tag <==> b == g.tag) && (a == f.tag ==> AgreeValue(g, f, v, w))
    case _ => false
  }

  /** For each field that the receiver knows, at every depth, it holds what the sender's message has there. */
  predicate AgreeMsg(sub: seq<Field>, big: seq<Field>, m: Msg, x: Msg)
    decreases sub, 2
  {
    && |m| == SlotCount(big, |big|) && |x| == SlotCount(sub, |sub|)
    && forall j {:trigger SenderOf(sub, big, j)} :: 0 <= j < |sub| ==>
         && SenderOf(sub, big, j).Some?
         && (SlotInRange(sub, j); SlotInRange(big, SenderOf(sub, big, j).value);
             AgreeSlot(sub[j], big[SenderOf(sub, big, j).value], m[SlotOf(big, SenderOf(sub, big, j).value)],
                       x[SlotOf(sub, j)]))
  }

  /** With the same table on both sides that is observational equality. */
  lemma {:induction false} AgreeIsSame(fields: seq<Field>, a: Msg, b: Msg)
    requires WellFormed(fields) && |a| == |b| == SlotCount(fields, |fields|)
    ensures AgreeMsg(fields, fields, a, b) <==> SameMsg(fields, a, b)
    decreases fields, 2
  {
    forall i | 0 <= i < |fields|
      ensures SenderOf(fields, fields, i) == Some(i) && SlotOf(fields, i) < |a|
      ensures AgreeSlot(fields[i], fields[i], a[SlotOf(fields, i)], b[SlotOf(fields, i)])
              <==> SameSlot(fields[i], a[SlotOf(fields, i)], b[SlotOf(fields, i)])
    {
      FindUnique(fields, i);
      SlotInRange(fields, i);
      AgreeSlotIsSame(fields[i], a[SlotOf(fields, i)], b[SlotOf(fields, i)]);
    }
  }

  lemma AgreeSlotIsSame(f: Field, s: Slot, t: Slot)
    requires WellFormedField(f)
    ensures AgreeSlot(f, f, s, t) <==> SameSlot(f, s, t)
    decreases f, 1
  {
    match (s, t)
    case (One(v), One(w)) => AgreeValueIsSame(f, v, w);
    case (Opt(_, v), Opt(_, w)) => AgreeValueIsSame(f, v, w);
    case (Union(_, v), Union(_, w)) => AgreeValueIsSame(f, v, w);
    case (Many(vs), Many(ws)) =>
      if |vs| == |ws| {
        forall k | 0 <= k < |vs| ensures AgreeValue(f, f, vs[k], ws[k]) <==> SameValue(f, vs[k], ws[k]) {
          AgreeValueIsSame(f, vs[k], ws[k]);
        }
      }
    case _ =>
  }

  lemma AgreeValueIsSame(f: Field, a: Value, b: Value)
    requires WellFormedField(f)
    ensures AgreeValue(f, f, a, b) <==> SameValue(f, a, b)
    decreases f, 0
  {
    if f.ltype == LSubmessage && a.Sub? && b.Sub? {
      var sub := f.ptr.sub;
      if |a.msg| == |b.msg| == SlotCount(sub, |sub|) {
        AgreeIsSame(sub, a.msg, b.msg);
      }
    }
  }

  // ---- The one way to lose something ----

  /** A field without has_ flag that tests as unset is not written, so it must be what the receiver starts from. */
  predicate FaithfulValue(g: Field, f: Field, v: Value, z: Memory)
    decreases g, 0
  {
    v.Sub? && g.ptr.Fields? && f.ptr.Fields? ==> FaithfulMsg(g.ptr.sub, f.ptr.sub, v.msg, z)
  }

  predicate FaithfulSlot(g: Field, f: Field, s: Slot, z: Memory)
    decreases g, 1
  {
    match s
    case One(v) =>
      if HasLess(f) && TestsUnset(f, v, z) then AgreeValue(g, f, v, DefaultValue(g)) else FaithfulValue(g, f, v, z)
    case Opt(has, v) => has ==> FaithfulValue(g, f, v, z)
    case Many(items) => forall k :: 0 <= k < |items| ==> FaithfulValue(g, f, items[k], z.In(k))
    case Union(which, v) => which == f.tag ==> FaithfulValue(g, f, v, z)
  }

  predicate FaithfulMsg(sub: seq<Field>, big: seq<Field>, m: Msg, z: Memory)
    decreases sub, 2
  {
    |m| == SlotCount(big, |big|) ==>
      forall j {:trigger SenderOf(sub, big, j)} :: 0 <= j < |sub| && SenderOf(sub, big, j).Some? ==>
        (SlotInRange(big, SenderOf(sub, big, j).value);
         var f := big[SenderOf(sub, big, j).value];
         FaithfulSlot(sub[j], f, m[SlotOf(big, SenderOf(sub, big, j).value)], z.In(f.tag)))
  }

  lemma {:induction false} ValueFaithful(g: Field, f: Field, v: Value, z: Memory)
    requires WellFormedField(g) && WellFormedField(f) && SubField(g, f) && FitsValue(f, v, Determined)
    ensures AgreeValue(g, f, v, ReceivedValue(g, f, v, z)) <==> FaithfulValue(g, f, v, z)
    decreases g, 0
  {
    if g.ltype == LSubmessage {
      ReceivedAgreesIff(g.ptr.sub, f.ptr.sub, v.msg, z);
    }
  }

  lemma OwnSlotFaithful(g: Field, f: Field, s: Slot, z: Memory)
    requires WellFormedField(g) && WellFormedField(f) && SubField(g, f) && FitsSlot(f, s, Determined)
    requires f.htype != Oneof
    requires MergeSlot(g, f, s, DefaultSlot(g), z).Some?
    ensures AgreeSlot(g, f, s, MergeSlot(g, f, s, DefaultSlot(g), z).value) <==> FaithfulSlot(g, f, s, z)
    decreases g, 1
  {
    match s
    case One(v) =>
      ReceivedIsMerged(g, f, DefaultValue(g), v, z);
      ValueFaithful(g, f, v, z);
    case Opt(has, v) =>
      if has {
        ReceivedIsMerged(g, f, DefaultValue(g), v, z);
        ValueFaithful(g, f, v, z);
      }
    case Many(items) =>
      ItemsAppend(g, f, [], items, |items|, z);
      forall k | 0 <= k < |items|
        ensures AgreeValue(g, f, items[k], ReceivedValue(g, f, items[k], z.In(k)))
                <==> FaithfulValue(g, f, items[k], z.In(k))
      {
        assert items[k] in items;
        ValueFaithful(g, f, items[k], z.In(k));
      }
    case Union(_, _) =>
  }

  lemma FieldFaithful(sub: seq<Field>, big: seq<Field>, m: Msg, j: nat, z: Memory)
    requires WellFormed(sub) && WellFormed(big) && SubTable(sub, big) && FitsMsg(big, m, Determined) && j < |sub|
    requires Merged(sub, big, m, Defaults(sub), z).Some?
    ensures SenderOf(sub, big, j).Some? && SlotOf(sub, j) < SlotCount(sub, |sub|)
    ensures var i := SenderOf(sub, big, j).value;
      SlotOf(big, i) < |m|
      && (AgreeSlot(sub[j], big[i], m[SlotOf(big, i)], Merged(sub, big, m, Defaults(sub), z).value[SlotOf(sub, j)])
          <==> FaithfulSlot(sub[j], big[i], m[SlotOf(big, i)], z.In(big[i].tag)))
    decreases sub, 0
  {
    var i := SenderOf(sub, big, j).value;
    SlotInRange(sub, j);
    SlotInRange(big, i);
    var g, f, s := sub[j], big[i], m[SlotOf(big, i)];
    assert FitsSlot(f, s, Determined) && WellFormedField(g) && WellFormedField(f);
    if g.htype == Oneof {
      MergedMember(sub, big, m, |big|, j, z);
      if s.which == f.tag { ValueFaithful(g, f, s.value, z.In(f.tag)); }
    } else {
      MergedOwn(sub, big, m, Defaults(sub), |big|, j, z);
      DefaultsAt(sub, |sub|, j);
      OwnSlotFaithful(g, f, s, z.In(f.tag));
    }
  }

  /** What is received agrees with what was sent exactly when no field without has_ flag tests as unset while holding
      something else than the receiver's default. */
  lemma {:induction false} ReceivedAgreesIff(sub: seq<Field>, big: seq<Field>, m: Msg, z: Memory)
    requires WellFormed(sub) && WellFormed(big) && SubTable(sub, big) && FitsMsg(big, m, Determined)
    ensures Merged(sub, big, m, Defaults(sub), z) == Some(Received(sub, big, m, z))
    ensures AgreeMsg(sub, big, m, Received(sub, big, m, z)) <==> FaithfulMsg(sub, big, m, z)
    decreases sub, 1
  {
    DefaultsFit(sub);
    FitsMsgWeakens(sub, Defaults(sub), Determined, Loose);
    DefaultsHaveRoom(sub, big, m, z);
    RoomIff(sub, big, m, Defaults(sub), z);
    forall j | 0 <= j < |sub|
      ensures SenderOf(sub, big, j).Some? && SlotOf(sub, j) < SlotCount(sub, |sub|)
      ensures var i := SenderOf(sub, big, j).value;
        SlotOf(big, i) < |m|
        && (AgreeSlot(sub[j], big[i], m[SlotOf(big, i)], Received(sub, big, m, z)[SlotOf(sub, j)])
            <==> FaithfulSlot(sub[j], big[i], m[SlotOf(big, i)], z.In(big[i].tag)))
    {
      FieldFaithful(sub, big, m, j, z);
    }
  }

  // ---- Round trips ----

  /** A message decoded with a table that knows some of its fields: it is accepted, its bytes are used up, and what is
      received agrees with it precisely when it is faithful. */
  lemma DecodesIff(sub: seq<Field>, big: seq<Field>, m: Msg, z: Memory)
    requires WellFormed(sub) && WellFormed(big) && SubTable(sub, big) && FitsMsg(big, m, Determined)
    requires EncodeMsg(big, m, z).Some? ==> |EncodeMsg(big, m, z).value| < TWO32
    ensures EncodeMsg(big, m, z).Some?
    ensures Decode(sub, EncodeMsg(big, m, z).value) == Some((Received(sub, big, m, z), []))
    ensures AgreeMsg(sub, big, m, Received(sub, big, m, z)) <==> FaithfulMsg(sub, big, m, z)
  {
    FittingEncodes(big, m, z);
    DefaultsFit(sub);
    FitsMsgWeakens(sub, Defaults(sub), Determined, Loose);
    MessageMerges(sub, big, m, Defaults(sub), z);
    ReceivedAgreesIff(sub, big, m, z);
  }

  /** Round trip, for any table, any message, and whatever undetermined memory reads as: decoding what was encoded
      succeeds, uses up exactly its bytes, and gives back the same message precisely for the faithful messages. */
  lemma RoundTripsIff(fields: seq<Field>, m: Msg, z: Memory)
    requires WellFormed(fields) && FitsMsg(fields, m, Determined)
    requires EncodeMsg(fields, m, z).Some? ==> |EncodeMsg(fields, m, z).value| < TWO32
    ensures EncodeMsg(fields, m, z).Some?
    ensures var r := Decode(fields, EncodeMsg(fields, m, z).value);
            r.Some? && r.value.1 == [] && (SameMsg(fields, m, r.value.0) <==> FaithfulMsg(fields, fields, m, z))
  {
    SubTableReflexive(fields);
    DecodesIff(fields, fields, m, z);
    AgreeIsSame(fields, m, Received(fields, fields, m, z));
  }
}
