/** Decoding with a table that knows only some of the sender's fields, encodings one behind the other, and streams of
    delimited messages. */
module Projection {
  import opened Common
  import opened Descriptor
  import opened Format
  import opened RoundTrip
  import opened Fidelity
  import opened Lossless

  // ---- Smaller tables ----

  /** A receiver whose table has only some of the fields, at every depth and in any order, accepts every message of the
      full table and uses up its bytes. It holds, for each field it knows, what the sender's message has there,
      precisely when that part of the message is faithful in the receiver's table. */
  lemma ProjectionDecodesIff(sub: seq<Field>, big: seq<Field>, m: Msg, z: Memory)
    requires WellFormed(sub) && WellFormed(big) && SubTable(sub, big) && FitsMsg(big, m, Determined)
    requires EncodeMsg(big, m, z).Some? ==> |EncodeMsg(big, m, z).value| < TWO32
    ensures EncodeMsg(big, m, z).Some?
    ensures var d := Decode(sub, EncodeMsg(big, m, z).value);
      d.Some? && d.value.1 == [] && (AgreeMsg(sub, big, m, d.value.0) <==> FaithfulMsg(sub, big, m, z))
  {
    DecodesIff(sub, big, m, z);
  }

  /** With loss-free tables that is every message. */
  lemma ProjectionDecodes(sub: seq<Field>, big: seq<Field>, m: Msg, z: Memory)
    requires WellFormed(sub) && WellFormed(big) && SubTable(sub, big) && LossFree(sub, big)
    requires FitsMsg(big, m, Determined)
    requires EncodeMsg(big, m, z).Some? ==> |EncodeMsg(big, m, z).value| < TWO32
    ensures EncodeMsg(big, m, z).Some?
    ensures var d := Decode(sub, EncodeMsg(big, m, z).value);
      d.Some? && d.value.1 == [] && AgreeMsg(sub, big, m, d.value.0)
  {
    LossFreeFaithful(sub, big, m, z);
    DecodesIff(sub, big, m, z);
  }

  // ---- One encoding behind another ----

  lemma ReceivedFits(sub: seq<Field>, big: seq<Field>, m: Msg, z: Memory)
    requires WellFormed(sub) && WellFormed(big) && SubTable(sub, big) && FitsMsg(big, m, Determined)
    ensures FitsMsg(sub, Received(sub, big, m, z), Determined) && FitsMsg(sub, Received(sub, big, m, z), Loose)
    ensures Merged(sub, big, m, Defaults(sub), z) == Some(Received(sub, big, m, z))
  {
    DefaultsFit(sub);
    ReceivedAgreesIff(sub, big, m, z);
    MergeFits(sub, big, m, Defaults(sub), |big|, z, Determined);
    FitsMsgWeakens(sub, Received(sub, big, m, z), Determined, Loose);
  }

  /** Decoding two encodings one behind the other merges the second message into the first: the last value wins, arrays
      append, submessages merge, and a union starts over. It succeeds exactly when every array has room. */
  lemma EncodingsMerge(sub: seq<Field>, big: seq<Field>, a: Msg, b: Msg, z: Memory, y: Memory)
    requires WellFormed(sub) && WellFormed(big) && SubTable(sub, big)
    requires FitsMsg(big, a, Determined) && FitsMsg(big, b, Determined)
    requires EncodeMsg(big, a, z).Some? && |EncodeMsg(big, a, z).value| < TWO32
    requires EncodeMsg(big, b, y).Some? && |EncodeMsg(big, b, y).value| < TWO32
    ensures Decode(sub, EncodeMsg(big, a, z).value + EncodeMsg(big, b, y).value) ==
            match Merged(sub, big, b, Received(sub, big, a, z), y)
            case None => None
            case Some(r) => Some((r, []))
    ensures Merged(sub, big, b, Received(sub, big, a, z), y).Some? <==> Room(sub, big, b, Received(sub, big, a, z), y)
  {
    var first, second, start := EncodeMsg(big, a, z).value, EncodeMsg(big, b, y).value, Received(sub, big, a, z);
    var sent := Sent(sub, big, a, |big|, z);
    ReceivedFits(sub, big, a, z);
    RoomIff(sub, big, b, start, y);
    DefaultsFit(sub);
    FitsMsgWeakens(sub, Defaults(sub), Determined, Loose);
    FieldsMerge(sub, big, a, first, Defaults(sub), {}, |big|, z, second);
    assert {} + sent == sent && second + [] == second;
    FieldsMerge(sub, big, b, second, start, sent, |big|, y, []);
    RequiredSent(sub, big, a, z);
  }

  // ---- Streams of delimited messages ----

  /** n calls of a reader, each from where the last one stopped. */
  function ReadMany<T>(read: bytes -> Option<(T, bytes)>, n: nat, bs: bytes): Option<(seq<T>, bytes)> {
    if n == 0 then Some(([], bs))
    else
      match read(bs)
      case None => None
      case Some((x, rest)) =>
        match ReadMany(read, n - 1, rest)
        case None => None
        case Some((xs, end)) => Some(([x] + xs, end))
  }

  lemma {:induction false} ReadManyJoined<T>(read: bytes -> Option<(T, bytes)>, frames: seq<bytes>, xs: seq<T>,
                                             rest: bytes)
    requires |frames| == |xs|
    requires forall k, r :: 0 <= k < |frames| ==> read(frames[k] + r) == Some((xs[k], r))
    ensures ReadMany(read, |frames|, Joined(frames) + rest) == Some((xs, rest))
    decreases |frames|
  {
    if frames == [] {
      assert [] + rest == rest;
    } else {
      assert Joined(frames) + rest == frames[0] + (Joined(frames[1..]) + rest);
      assert forall k :: 1 <= k < |frames| ==> frames[k] == frames[1..][k - 1] && xs[k] == xs[1..][k - 1];
      ReadManyJoined(read, frames[1..], xs[1..], rest);
      assert [xs[0]] + xs[1..] == xs;
    }
  }

  /** The message fits its table, and its length fits the 32-bit length prefix. */
  predicate Sendable(fields: seq<Field>, m: Msg, z: Memory) {
    FitsMsg(fields, m, Determined) && (EncodeMsg(fields, m, z).Some? ==> |EncodeMsg(fields, m, z).value| < TWO32)
  }

  lemma FrameReadsBack(sub: seq<Field>, big: seq<Field>, m: Msg, z: Memory, rest: bytes)
    requires WellFormed(sub) && WellFormed(big) && SubTable(sub, big) && Sendable(big, m, z)
    ensures EncodeDelimited(big, m, z).Some?
    ensures DecodeDelimited(sub, EncodeDelimited(big, m, z).value + rest) == Some((Received(sub, big, m, z), rest))
  {
    DecodesIff(sub, big, m, z);
    TakeInverts(AsString, Payload(EncodeMsg(big, m, z).value), rest);
  }

  /** Any list of messages written one after the other is read back, in order, from a stream with anything behind, also
      with a smaller table; each of them agrees with the one sent precisely when that one is faithful. */
  lemma DelimitedRoundTripIff(sub: seq<Field>, big: seq<Field>, ms: seq<Msg>, zs: seq<Memory>, frames: seq<bytes>,
                              rest: bytes)
    requires WellFormed(sub) && WellFormed(big) && SubTable(sub, big) && |frames| == |ms| == |zs|
    requires forall k :: 0 <= k < |ms| ==>
               Sendable(big, ms[k], zs[k]) && EncodeDelimited(big, ms[k], zs[k]) == Some(frames[k])
    ensures var d := ReadMany(bs => DecodeDelimited(sub, bs), |ms|, Joined(frames) + rest);
      && d.Some? && d.value.1 == rest && |d.value.0| == |ms|
      && forall k :: 0 <= k < |ms| ==>
           (AgreeMsg(sub, big, ms[k], d.value.0[k]) <==> FaithfulMsg(sub, big, ms[k], zs[k]))
  {
    var xs := seq(|ms|, k requires 0 <= k < |ms| =>
      assert Sendable(big, ms[k], zs[k]);
      Received(sub, big, ms[k], zs[k]));
    forall k, r | 0 <= k < |frames| ensures DecodeDelimited(sub, frames[k] + r) == Some((xs[k], r)) {
      FrameReadsBack(sub, big, ms[k], zs[k], r);
    }
    ReadManyJoined(bs => DecodeDelimited(sub, bs), frames, xs, rest);
    forall k | 0 <= k < |ms|
      ensures AgreeMsg(sub, big, ms[k], xs[k]) <==> FaithfulMsg(sub, big, ms[k], zs[k])
    {
      assert Sendable(big, ms[k], zs[k]);
      ReceivedAgreesIff(sub, big, ms[k], zs[k]);
    }
  }

  /** With one loss-free table on both sides every message of the list comes back. */
  lemma DelimitedRoundTrip(fields: seq<Field>, ms: seq<Msg>, zs: seq<Memory>, frames: seq<bytes>, rest: bytes)
    requires WellFormed(fields) && LossFree(fields, fields) && |frames| == |ms| == |zs|
    requires forall k :: 0 <= k < |ms| ==>
               Sendable(fields, ms[k], zs[k]) && EncodeDelimited(fields, ms[k], zs[k]) == Some(frames[k])
    ensures var d := ReadMany(bs => DecodeDelimited(fields, bs), |ms|, Joined(frames) + rest);
      && d.Some? && d.value.1 == rest && |d.value.0| == |ms|
      && forall k :: 0 <= k < |ms| ==> SameMsg(fields, ms[k], d.value.0[k])
  {
    SubTableReflexive(fields);
    DelimitedRoundTripIff(fields, fields, ms, zs, frames, rest);
    var d := ReadMany(bs => DecodeDelimited(fields, bs), |ms|, Joined(frames) + rest).value.0;
    forall k | 0 <= k < |ms| ensures SameMsg(fields, ms[k], d[k]) {
      assert Sendable(fields, ms[k], zs[k]);
      LossFreeFaithful(fields, fields, ms[k], zs[k]);
      AgreeIsSame(fields, ms[k], d[k]);
    }
  }
}
