/** The tables in which every message comes back. */
module Lossless {
  import opened Common
  import opened Descriptor
  import opened Format
  import opened RoundTrip
  import opened Fidelity

  // ---- The condition ----

  /** What tests as unset in the sender's f is the default of the receiver's g: that default is zero, and a submessage
      holds no has_ flags, arrays or unions that the receiver knows. */
  predicate ZeroDefault(g: Field, f: Field)
    decreases g, 0
  {
    if g.ltype == LSubmessage then
      g.ptr.Fields? && f.ptr.Fields? && forall j {:trigger SenderOf(g.ptr.sub, f.ptr.sub, j)} ::
        0 <= j < |g.ptr.sub| && SenderOf(g.ptr.sub, f.ptr.sub, j).Some? ==>
          ZeroSlot(g.ptr.sub[j], f.ptr.sub[SenderOf(g.ptr.sub, f.ptr.sub, j).value])
    else DefaultValue(g) == ZeroValue(g)
  }

  predicate ZeroSlot(g: Field, f: Field)
    decreases g, 1
  {
    if f.htype == Required || HasLess(f) then ZeroDefault(g, f) else f.htype == Repeated && f.arraySize == 0
  }

  predicate LossFreeField(g: Field, f: Field)
    decreases g, 0
  {
    && (HasLess(f) && CanBeUnset(f) ==> ZeroDefault(g, f))
    && (f.ltype == LSubmessage && (f.htype == Repeated ==> f.arraySize > 0) ==>
          g.ptr.Fields? && f.ptr.Fields? && LossFree(g.ptr.sub, f.ptr.sub))
  }

  /** Each field without has_ flag, at every depth, is always written or is the receiver's default when it is not. */
  predicate LossFree(sub: seq<Field>, big: seq<Field>)
    decreases sub, 1
  {
    forall j {:trigger SenderOf(sub, big, j)} :: 0 <= j < |sub| && SenderOf(sub, big, j).Some? ==>
      LossFreeField(sub[j], big[SenderOf(sub, big, j).value])
  }

  // ---- It is enough ----

  lemma {:induction false} UnsetIsDefault(g: Field, f: Field, v: Value, z: Memory)
    requires WellFormedField(g) && WellFormedField(f) && SubField(g, f) && FitsValue(f, v, Determined)
    requires ZeroDefault(g, f) && TestsUnset(f, v, z)
    ensures AgreeValue(g, f, v, DefaultValue(g))
    decreases g, 0
  {
    if g.ltype == LSubmessage {
      var sub, big := g.ptr.sub, f.ptr.sub;
      forall j | 0 <= j < |sub|
        ensures SenderOf(sub, big, j).Some? && SlotOf(sub, j) < SlotCount(sub, |sub|)
        ensures var i := SenderOf(sub, big, j).value;
          SlotOf(big, i) < |v.msg|
          && AgreeSlot(sub[j], big[i], v.msg[SlotOf(big, i)], Defaults(sub)[SlotOf(sub, j)])
      {
        var i := SenderOf(sub, big, j).value;
        SlotInRange(big, i);
        DefaultsAt(sub, |sub|, j);
        assert FitsSlot(big[i], v.msg[SlotOf(big, i)], Determined) && ZeroSlot(sub[j], big[i]);
        assert WellFormedField(sub[j]) && WellFormedField(big[i]);
        assert ReadIn(big, v, i) == ReadBy(big[i], v.msg[SlotOf(big, i)]);
        UnsetSlotIsDefault(sub[j], big[i], v.msg[SlotOf(big, i)], PlaceOf(big[i], z));
      }
    }
  }

  lemma UnsetSlotIsDefault(g: Field, f: Field, s: Slot, z: Memory)
    requires WellFormedField(g) && WellFormedField(f) && SubField(g, f) && FitsSlot(f, s, Determined)
    requires ZeroSlot(g, f) && TestsUnset(f, ReadBy(f, s), z)
    ensures AgreeSlot(g, f, s, DefaultSlot(g))
    decreases g, 1
  {
    if f.htype != Repeated {
      UnsetIsDefault(g, f, s.value, z);
    }
  }

  lemma {:induction false} LossFreeFaithful(sub: seq<Field>, big: seq<Field>, m: Msg, z: Memory)
    requires WellFormed(sub) && WellFormed(big) && SubTable(sub, big) && FitsMsg(big, m, Determined)
    requires LossFree(sub, big)
    ensures FaithfulMsg(sub, big, m, z)
    decreases sub, 1
  {
    forall j | 0 <= j < |sub|
      ensures SenderOf(sub, big, j).Some?
      ensures var i := SenderOf(sub, big, j).value;
        SlotOf(big, i) < |m| && FaithfulSlot(sub[j], big[i], m[SlotOf(big, i)], z.In(big[i].tag))
    {
      var i := SenderOf(sub, big, j).value;
      SlotInRange(big, i);
      assert FitsSlot(big[i], m[SlotOf(big, i)], Determined) && LossFreeField(sub[j], big[i]);
      assert WellFormedField(sub[j]) && WellFormedField(big[i]);
      LossFreeSlot(sub[j], big[i], m[SlotOf(big, i)], z.In(big[i].tag));
    }
  }

  lemma LossFreeSlot(g: Field, f: Field, s: Slot, z: Memory)
    requires WellFormedField(g) && WellFormedField(f) && SubField(g, f) && FitsSlot(f, s, Determined)
    requires LossFreeField(g, f)
    ensures FaithfulSlot(g, f, s, z)
    decreases g, 1
  {
    match s
    case One(v) =>
      if HasLess(f) && TestsUnset(f, v, z) {
        NeverUnset(f, v, z);
        UnsetIsDefault(g, f, v, z);
      } else {
        LossFreeValue(g, f, v, z);
      }
    case Opt(has, v) => if has { LossFreeValue(g, f, v, z); }
    case Many(items) =>
      forall k | 0 <= k < |items| ensures FaithfulValue(g, f, items[k], z.In(k)) {
        assert items[k] in items;
        LossFreeValue(g, f, items[k], z.In(k));
      }
    case Union(which, v) => if which == f.tag { LossFreeValue(g, f, v, z); }
  }

  lemma LossFreeValue(g: Field, f: Field, v: Value, z: Memory)
    requires WellFormedField(g) && WellFormedField(f) && SubField(g, f) && FitsValue(f, v, Determined)
    requires LossFreeField(g, f) && (f.htype == Repeated ==> f.arraySize > 0)
    ensures FaithfulValue(g, f, v, z)
    decreases g, 0
  {
    if g.ltype == LSubmessage {
      LossFreeFaithful(g.ptr.sub, f.ptr.sub, v.msg, z);
    }
  }

  // ---- It is needed: messages of which nothing is set ----

  /** All memory is zero that the message does not determine. */
  ghost predicate Blank(z: Memory) {
    forall p :: z.zero(p)
  }

  lemma {:induction false} BlankIsUnset(f: Field, z: Memory)
    requires Blank(z) && CanBeUnset(f)
    ensures TestsUnset(f, Indeterminate, z)
    decreases f
  {
    if f.ltype == LSubmessage && f.ptr.Fields? {
      var sub := f.ptr.sub;
      forall i | 0 <= i < |sub| ensures TestsUnset(sub[i], ReadIn(sub, Indeterminate, i), PlaceOf(sub[i], z)) {
        BlankIsUnset(sub[i], PlaceOf(sub[i], z));
      }
    }
  }

  lemma {:induction false} UnsetValue(f: Field, z: Memory) returns (v: Value)
    requires WellFormedField(f) && Blank(z) && CanBeUnset(f)
    ensures FitsValue(f, v, Determined) && TestsUnset(f, v, z)
    decreases f, 0, 0
  {
    if f.ltype == LSubmessage {
      var m := UnsetMsg(f.ptr.sub, |f.ptr.sub|, z);
      v := Sub(m);
    } else {
      v := ZeroValue(f);
    }
  }

  lemma UnsetSlot(f: Field, z: Memory) returns (s: Slot)
    requires WellFormedField(f) && Blank(z) && CanBeUnset(f) && f.htype != Oneof
    ensures FitsSlot(f, s, Determined) && TestsUnset(f, ReadBy(f, s), z)
    decreases f, 1, 0
  {
    if f.htype == Required || HasLess(f) {
      var v := UnsetValue(f, z);
      s := One(v);
    } else {
      BlankIsUnset(f, z);
      s := if f.htype == Optional then Opt(false, Indeterminate) else Many([]);
    }
  }

  /** The first n fields are unset, and no union is on a member. */
  lemma {:induction false} UnsetMsg(fields: seq<Field>, n: nat, z: Memory) returns (m: Msg)
    requires WellFormed(fields) && Blank(z) && n <= |fields|
    requires forall i :: 0 <= i < |fields| ==> CanBeUnset(fields[i])
    ensures FitsMsg(fields, m, Determined)
    ensures forall i {:trigger ReadIn(fields, Sub(m), i)} :: 0 <= i < n ==>
              TestsUnset(fields[i], ReadIn(fields, Sub(m), i), PlaceOf(fields[i], z))
    ensures forall i {:trigger SlotOf(fields, i)} :: 0 <= i < |fields| && fields[i].htype == Oneof ==>
              SlotOf(fields, i) < |m| && m[SlotOf(fields, i)] == Union(0, Indeterminate)
    decreases fields, n, 0
  {
    if n == 0 {
      m := Defaults(fields);
      DefaultsFit(fields);
      forall i | 0 <= i < |fields|
        ensures SlotOf(fields, i) < |m| && m[SlotOf(fields, i)] == DefaultSlot(fields[i])
      {
        DefaultsAt(fields, |fields|, i);
      }
    } else {
      var was := UnsetMsg(fields, n - 1, z);
      var f := fields[n - 1];
      if f.htype == Oneof {
        m := was;
        BlankIsUnset(f, PlaceOf(f, z));
      } else {
        var s := UnsetSlot(f, PlaceOf(f, z));
        SlotUpdateFits(fields, was, n - 1, s, Determined);
        m := was[SlotOf(fields, n - 1) := s];
        OthersRead(fields, was, n - 1, s);
      }
    }
  }

  /** A slot of its own is not read through another field. */
  lemma OthersRead(fields: seq<Field>, m: Msg, i: nat, s: Slot)
    requires |m| == SlotCount(fields, |fields|) && i < |fields| && SlotOf(fields, i) < |m|
    ensures forall k {:trigger SlotOf(fields, k)} :: 0 <= k < |fields| && k != i ==>
              SlotOf(fields, k) != SlotOf(fields, i) || (fields[k].htype == Oneof && fields[i].htype == Oneof)
    ensures var m' := m[SlotOf(fields, i) := s];
      forall k {:trigger ReadIn(fields, Sub(m'), k)} :: 0 <= k < |fields| && SlotOf(fields, k) != SlotOf(fields, i) ==>
        ReadIn(fields, Sub(m'), k) == ReadIn(fields, Sub(m), k)
  {
    forall k | 0 <= k < |fields| && k != i && SlotOf(fields, k) == SlotOf(fields, i)
      ensures fields[k].htype == Oneof && fields[i].htype == Oneof
    {
      SlotOwn(fields, i, k);
    }
    var m' := m[SlotOf(fields, i) := s];
    forall k | 0 <= k < |fields| && SlotOf(fields, k) != SlotOf(fields, i)
      ensures ReadIn(fields, Sub(m'), k) == ReadIn(fields, Sub(m), k)
    {
      SlotInRange(fields, k);
    }
  }

  /** Nothing is set but perhaps one field, which does not show. */
  lemma UnsetBut(f: Field, i: nat, s: Slot, z: Memory) returns (m: Msg)
    requires WellFormedField(f) && f.ltype == LSubmessage && Blank(z) && CanBeUnset(f) && i < |f.ptr.sub|
    requires FitsSlot(f.ptr.sub[i], s, Determined) && (f.ptr.sub[i].htype == Oneof ==> s.which == f.ptr.sub[i].tag)
    requires TestsUnset(f.ptr.sub[i], ReadBy(f.ptr.sub[i], s), PlaceOf(f.ptr.sub[i], z))
    ensures FitsMsg(f.ptr.sub, m, Determined) && TestsUnset(f, Sub(m), z)
    ensures SlotOf(f.ptr.sub, i) < |m| && m[SlotOf(f.ptr.sub, i)] == s
  {
    var fields := f.ptr.sub;
    var was := UnsetMsg(fields, |fields|, z);
    SlotUpdateFits(fields, was, i, s, Determined);
    OthersRead(fields, was, i, s);
    m := was[SlotOf(fields, i) := s];
    forall k | 0 <= k < |fields| ensures TestsUnset(fields[k], ReadIn(fields, Sub(m), k), PlaceOf(fields[k], z)) {
      SlotInRange(fields, k);
      if k != i && SlotOf(fields, k) == SlotOf(fields, i) {
        TagsAreDistinct(fields, i, k);
        BlankIsUnset(fields[k], PlaceOf(fields[k], z));
      } else if k != i {
        assert ReadIn(fields, Sub(m), k) == ReadIn(fields, Sub(was), k);
      }
    }
  }

  // ---- It is needed: messages that are lost ----

  /** A value that tests as unset without being the receiver's default. */
  lemma {:induction false} LostValue(g: Field, f: Field, z: Memory) returns (v: Value)
    requires WellFormedField(g) && WellFormedField(f) && SubField(g, f) && Blank(z)
    requires CanBeUnset(f) && !ZeroDefault(g, f)
    ensures FitsValue(f, v, Determined) && TestsUnset(f, v, z) && !AgreeValue(g, f, v, DefaultValue(g))
    decreases g, 0
  {
    if g.ltype == LSubmessage {
      var sub, big := g.ptr.sub, f.ptr.sub;
      var j :| 0 <= j < |sub| && SenderOf(sub, big, j).Some? && !ZeroSlot(sub[j], big[SenderOf(sub, big, j).value]);
      var i := SenderOf(sub, big, j).value;
      assert WellFormedField(sub[j]) && WellFormedField(big[i]) && SubField(sub[j], big[i]) && CanBeUnset(big[i]);
      var s := LostSlot(sub[j], big[i], PlaceOf(big[i], z));
      var m := UnsetBut(f, i, s, z);
      DefaultsAt(sub, |sub|, j);
      v := Sub(m);
    } else {
      v := ZeroValue(f);
    }
  }

  lemma LostSlot(g: Field, f: Field, z: Memory) returns (s: Slot)
    requires WellFormedField(g) && WellFormedField(f) && SubField(g, f) && Blank(z)
    requires CanBeUnset(f) && !ZeroSlot(g, f)
    ensures FitsSlot(f, s, Determined) && TestsUnset(f, ReadBy(f, s), z) && (f.htype == Oneof ==> s.which == f.tag)
    ensures !AgreeSlot(g, f, s, DefaultSlot(g))
    decreases g, 1
  {
    if f.htype == Required || HasLess(f) {
      var v := LostValue(g, f, z);
      s := One(v);
    } else {
      var v := UnsetValue(f, z);
      s := match f.htype
        case Optional => Opt(true, v)
        case Repeated => Many([v])
        case _ => Union(f.tag, v);
    }
  }

  /** What is the receiver's default is faithful. */
  lemma {:induction false} DefaultsAreFaithful(sub: seq<Field>, big: seq<Field>, m: Msg, z: Memory)
    requires WellFormed(sub) && WellFormed(big) && SubTable(sub, big) && AgreeMsg(sub, big, m, Defaults(sub))
    ensures FaithfulMsg(sub, big, m, z)
    decreases sub, 1
  {
    forall j | 0 <= j < |sub|
      ensures SenderOf(sub, big, j).Some?
      ensures var i := SenderOf(sub, big, j).value;
        SlotOf(big, i) < |m| && FaithfulSlot(sub[j], big[i], m[SlotOf(big, i)], z.In(big[i].tag))
    {
      var i := SenderOf(sub, big, j).value;
      SlotInRange(big, i);
      DefaultsAt(sub, |sub|, j);
      assert AgreeSlot(sub[j], big[i], m[SlotOf(big, i)], DefaultSlot(sub[j]));
      assert WellFormedField(sub[j]) && WellFormedField(big[i]) && SubField(sub[j], big[i]);
      match m[SlotOf(big, i)]
      case One(v) => DefaultIsFaithful(sub[j], big[i], v, z.In(big[i].tag));
      case _ =>
    }
  }

  lemma DefaultIsFaithful(g: Field, f: Field, v: Value, z: Memory)
    requires WellFormedField(g) && WellFormedField(f) && SubField(g, f) && AgreeValue(g, f, v, DefaultValue(g))
    ensures FaithfulValue(g, f, v, z)
    decreases g, 0
  {
    if g.ltype == LSubmessage {
      DefaultsAreFaithful(g.ptr.sub, f.ptr.sub, v.msg, z);
    }
  }

  /** A message that does not come back. */
  lemma {:induction false} LostMsg(sub: seq<Field>, big: seq<Field>, z: Memory) returns (m: Msg)
    requires WellFormed(sub) && WellFormed(big) && SubTable(sub, big) && Blank(z) && !LossFree(sub, big)
    ensures FitsMsg(big, m, Determined) && !FaithfulMsg(sub, big, m, z)
    decreases sub, 1
  {
    var j :| 0 <= j < |sub| && SenderOf(sub, big, j).Some? && !LossFreeField(sub[j], big[SenderOf(sub, big, j).value]);
    var i := SenderOf(sub, big, j).value;
    assert WellFormedField(sub[j]) && WellFormedField(big[i]) && SubField(sub[j], big[i]);
    var s := LostField(sub[j], big[i], z.In(big[i].tag));
    DefaultsFit(big);
    SlotUpdateFits(big, Defaults(big), i, s, Determined);
    m := Defaults(big)[SlotOf(big, i) := s];
  }

  lemma LostField(g: Field, f: Field, z: Memory) returns (s: Slot)
    requires WellFormedField(g) && WellFormedField(f) && SubField(g, f) && Blank(z) && !LossFreeField(g, f)
    ensures FitsSlot(f, s, Determined) && (f.htype == Oneof ==> s.which == f.tag) && !FaithfulSlot(g, f, s, z)
    decreases g, 0
  {
    if HasLess(f) && CanBeUnset(f) && !ZeroDefault(g, f) {
      var v := LostValue(g, f, z);
      s := One(v);
    } else {
      var m := LostMsg(g.ptr.sub, f.ptr.sub, if f.htype == Repeated then z.In(0) else z);
      var v := Sub(m);
      assert FitsValue(f, v, Determined);
      match f.htype
      case Required => s := One(v);
      case Optional =>
        if HasLess(f) {
          s := One(v);
          if AgreeValue(g, f, v, DefaultValue(g)) { DefaultIsFaithful(g, f, v, z); }
        } else {
          s := Opt(true, v);
        }
      case Repeated => s := Many([v]);
      case Oneof => s := Union(f.tag, v);
    }
  }

  // ---- Exactly these tables ----

  /** Every message that fits the sender's table is faithful, whatever undetermined memory reads as, if and only if the
      tables are loss-free. */
  lemma LossFreeIff(sub: seq<Field>, big: seq<Field>)
    requires WellFormed(sub) && WellFormed(big) && SubTable(sub, big)
    ensures LossFree(sub, big) <==>
            forall m: Msg, z: Memory :: FitsMsg(big, m, Determined) ==> FaithfulMsg(sub, big, m, z)
  {
    if LossFree(sub, big) {
      forall m: Msg, z: Memory | FitsMsg(big, m, Determined) ensures FaithfulMsg(sub, big, m, z) {
        LossFreeFaithful(sub, big, m, z);
      }
    } else {
      var z := Memory(_ => true, []);
      var m := LostMsg(sub, big, z);
      assert FitsMsg(big, m, Determined) && !FaithfulMsg(sub, big, m, z);
    }
  }

  /** In loss-free tables the round trip gives back every message. */
  lemma RoundTrips(fields: seq<Field>, m: Msg, z: Memory)
    requires WellFormed(fields) && LossFree(fields, fields) && FitsMsg(fields, m, Determined)
    requires EncodeMsg(fields, m, z).Some? ==> |EncodeMsg(fields, m, z).value| < TWO32
    ensures EncodeMsg(fields, m, z).Some?
    ensures var r := Decode(fields, EncodeMsg(fields, m, z).value);
            r.Some? && SameMsg(fields, m, r.value.0) && r.value.1 == []
  {
    RoundTripsIff(fields, m, z);
    SubTableReflexive(fields);
    LossFreeFaithful(fields, fields, m, z);
  }
}
