/** Input and output streams. */
module Streams {
  import opened Common
  import opened Wire
  import opened Format

  // ---- Reading ----

  /** What a scan of the rest of the input says about the whole, once k bytes worth `sofar` have been read. */
  function Continued(s: Scan, sofar: nat, k: nat): Scan {
    match s
    case Done(v, rest) => Done(sofar + Pow128(k) * v, rest)
    case Broken(rest) => Broken(rest)
  }

  function Truncate(wide: bool, v: nat): nat {
    if wide then v % TWO64 else v % TWO32
  }

  function Room(wide: bool): nat {
    if wide then ROOM64 else ROOM32
  }

  /** Between two bytes of a varint: k bytes are read, worth `sofar`, of which the register keeps `value`. */
  predicate Reading(wide: bool, whole: Scan, bs: bytes, k: nat, sofar: nat, value: nat) {
    && k <= Room(wide) && sofar < Pow128(k)
    && value == Truncate(wide, sofar)
    && whole == Continued(ScanVarint(bs, Room(wide) - k), sofar, k)
  }

  /** (byte & 0x7F) << bitpos, before the register cuts it off. */
  function Shifted(b: byte, bitpos: nat): nat {
    Pow2(bitpos) * (b % 128)
  }

  lemma LinearIn(p: nat, d: int, e: int)
    requires d <= e
    ensures p * d <= p * e
  {
  }

  lemma Distribute(p: nat, x: int, v: nat)
    ensures p * (x + 128 * v) == p * x + (128 * p) * v
  {
  }

  lemma ReadingStarts(wide: bool, bs: bytes)
    ensures Reading(wide, ScanVarint(bs, Room(wide)), bs, 0, 0, 0)
  {
  }

  /** Out of bytes, or out of room. */
  lemma ReadingStops(wide: bool, whole: Scan, bs: bytes, k: nat, sofar: nat, value: nat)
    requires Reading(wide, whole, bs, k, sofar, value) && (bs == [] || k == Room(wide))
    ensures whole == Broken(bs)
  {
  }

  /** What the new bits are does not matter for the register, as long as they are in place. */
  lemma ReadingOn(wide: bool, whole: Scan, bs: bytes, k: nat, sofar: nat, value: nat, bits: nat)
    requires bs != [] && k < Room(wide) && value == Truncate(wide, sofar) && sofar + bits < Pow128(k + 1)
    ensures Truncate(wide, sofar + bits) == Truncate(wide, value + bits)
    ensures whole == Continued(ScanVarint(bs[1..], Room(wide) - k - 1), sofar + bits, k + 1) ==>
              Reading(wide, whole, bs[1..], k + 1, sofar + bits, Truncate(wide, value + bits))
  {
    AddTruncated(wide, sofar, bits);
  }

  /** One byte more. Its bits are a multiple of 2^(7 k) and those already read are below that, so or-ing them in is
      adding; those that do not fit the register are lost. */
  lemma ReadingStep(wide: bool, whole: Scan, bs: bytes, k: nat, sofar: nat, value: nat)
    requires Reading(wide, whole, bs, k, sofar, value) && k < Room(wide) && bs != []
    ensures var bits := Shifted(bs[0], 7 * k);
      && (bs[0] >= 128 ==> Reading(wide, whole, bs[1..], k + 1, sofar + bits, Truncate(wide, value + bits)))
      && (bs[0] < 128 ==> whole == Done(sofar + bits, bs[1..]))
      && Truncate(wide, sofar + bits) == Truncate(wide, value + bits)
    ensures sofar < Pow2(7 * k) && sofar + Shifted(bs[0], 7 * k) < Pow2(7 * k + 7)
  {
    var bits := Shifted(bs[0], 7 * k);
    BitsLandAbove(bs[0], k, sofar);
    ContinuedStep(whole, bs, Room(wide) - k, sofar, k);
    ReadingOn(wide, whole, bs, k, sofar, value, bits);
  }

  lemma BitsLandAbove(b: byte, k: nat, sofar: nat)
    requires sofar < Pow128(k)
    ensures Shifted(b, 7 * k) == Pow128(k) * (b % 128)
    ensures sofar < Pow2(7 * k) && sofar + Shifted(b, 7 * k) < Pow2(7 * k + 7) == Pow128(k + 1)
  {
    Pow2Sevens(k);
    Pow2Sevens(k + 1);
    LinearIn(Pow128(k), b % 128, 127);
  }

  /** The first byte, which the 32-bit reader treats by itself. */
  lemma ReadingFirst(bs: bytes)
    requires bs != []
    ensures bs[0] >= 128 ==> Reading(false, ScanVarint(bs, ROOM32), bs[1..], 1, bs[0] - 128, bs[0] - 128)
    ensures bs[0] < 128 ==> ScanVarint(bs, ROOM32) == Done(bs[0], bs[1..])
  {
    ReadingStarts(false, bs);
    ReadingStep(false, ScanVarint(bs, ROOM32), bs, 0, 0, 0);
    assert Shifted(bs[0], 0) == bs[0] % 128;
  }

  lemma {:induction false} ContinuedStep(whole: Scan, bs: bytes, room: nat, sofar: nat, k: nat)
    requires bs != [] && room > 0 && whole == Continued(ScanVarint(bs, room), sofar, k)
    ensures var bits := Pow128(k) * (bs[0] % 128);
      && (bs[0] >= 128 ==> whole == Continued(ScanVarint(bs[1..], room - 1), sofar + bits, k + 1))
      && (bs[0] < 128 ==> whole == Done(sofar + bits, bs[1..]))
  {
    if bs[0] >= 128 {
      match ScanVarint(bs[1..], room - 1)
      case Done(v, rest) => Distribute(Pow128(k), bs[0] - 128, v);
      case Broken(_) =>
    }
  }

  lemma AddTruncated(wide: bool, a: nat, b: nat)
    ensures Truncate(wide, Truncate(wide, a) + b) == Truncate(wide, a + b)
  {
    if wide {
      assert a + b == (a / TWO64) * TWO64 + (a % TWO64 + b);
    } else {
      assert a + b == (a / TWO32) * TWO32 + (a % TWO32 + b);
    }
  }

  /** Skipping has no bound but the input. */
  lemma SkippingStep(bs: bytes)
    requires bs != []
    ensures var s, t := ScanVarint(bs, |bs|), ScanVarint(bs[1..], |bs[1..]|);
      if bs[0] < 128 then s == Done(bs[0], bs[1..]) else s.rest == t.rest && (s.Done? <==> t.Done?)
  {
  }

  lemma WordOfFour(bs: bytes)
    requires |bs| == 4
    ensures FromLittleEndian(bs) ==
            bs[0] as int + 0x100 * (bs[1] as int) + 0x1_0000 * (bs[2] as int) + 0x100_0000 * (bs[3] as int)
  {
    assert FromLittleEndian(bs[3..]) == bs[3] + 256 * FromLittleEndian(bs[3..][1..]);
    assert bs[2..][1..] == bs[3..] && bs[1..][1..] == bs[2..];
    assert FromLittleEndian(bs[2..]) == bs[2] + 256 * FromLittleEndian(bs[3..]);
    assert FromLittleEndian(bs[1..]) == bs[1] + 256 * FromLittleEndian(bs[2..]);
  }

  lemma WordOfEight(bs: bytes)
    requires |bs| == 8
    ensures FromLittleEndian(bs) ==
            bs[0] as int + 0x100 * (bs[1] as int) + 0x1_0000 * (bs[2] as int) + 0x100_0000 * (bs[3] as int) +
            0x1_0000_0000 * (bs[4] as int) + 0x100_0000_0000 * (bs[5] as int) +
            0x1_0000_0000_0000 * (bs[6] as int) + 0x100_0000_0000_0000 * (bs[7] as int)
  {
    WordOfFour(bs[4..]);
    assert bs[3..][1..] == bs[4..] && bs[2..][1..] == bs[3..] && bs[1..][1..] == bs[2..];
    assert FromLittleEndian(bs[3..]) == bs[3] + 256 * FromLittleEndian(bs[4..]);
    assert FromLittleEndian(bs[2..]) == bs[2] + 256 * FromLittleEndian(bs[3..]);
    assert FromLittleEndian(bs[1..]) == bs[1] + 256 * FromLittleEndian(bs[2..]);
  }

  /** pb_istream_t. A custom stream delivers, by its callback, the bytes of `buf` too; it only differs in that it cannot
      skip without reading. */
  class InStream {
    const buf: bytes
    const buffered: bool
    var pos: nat
    var bytesLeft: nat

    predicate Valid()
      reads this
    {
      pos + bytesLeft <= |buf|
    }

    function Left(): bytes
      requires Valid()
      reads this
    {
      buf[pos..pos + bytesLeft]
    }

    /** Where the stream's own input ends. Reading never moves it. */
    function End(): nat
      reads this
    {
      pos + bytesLeft
    }

    constructor (buf: bytes, buffered: bool, pos: nat, bytesLeft: nat)
      requires pos + bytesLeft <= |buf|
      ensures this.buf == buf && this.buffered == buffered && this.pos == pos && this.bytesLeft == bytesLeft
    {
      this.buf, this.buffered, this.pos, this.bytesLeft := buf, buffered, pos, bytesLeft;
    }

    /** The callback: copies count bytes and moves the state past them. */
    method Callback(count: nat) returns (data: bytes)
      requires pos + count <= |buf|
      modifies this`pos
      ensures pos == old(pos) + count && data == buf[old(pos)..pos]
    {
      var source := pos;
      pos := pos + count;
      data := [];
      var i := 0;
      while i < count
        invariant i <= count && pos == source + count
        invariant data == buf[source..source + i]
      {
        data := data + [buf[source + i]];
        i := i + 1;
      }
    }

    method Read(count: nat) returns (ok: bool, data: bytes)
      requires Valid()
      modifies this
      ensures Valid() && End() == old(End())
      ensures ok <==> count <= old(bytesLeft)
      ensures ok ==> data == old(Left())[..count] && Left() == old(Left())[count..]
      ensures !ok ==> Left() == old(Left())
    {
      data := [];
      if bytesLeft < count {
        return false, data;
      }
      data := Callback(count);
      bytesLeft := bytesLeft - count;
      return true, data;
    }

    /** pb_read without a buffer: in one step for memory, sixteen bytes at a time for a custom stream. Both succeed on
        the same counts and then consume the same bytes. */
    method Skip(count: nat) returns (ok: bool)
      requires Valid()
      modifies this
      ensures Valid() && End() == old(End())
      ensures ok <==> count <= old(bytesLeft)
      ensures ok ==> Left() == old(Left())[count..]
    {
      if !buffered {
        var togo: nat := count;
        while togo > 16
          invariant Valid() && End() == old(End())
          invariant togo <= count && count - togo <= old(bytesLeft)
          invariant Left() == old(Left())[count - togo..]
        {
          var read, _ := Read(16);
          if !read {
            return false;
          }
          togo := togo - 16;
        }
        var read, _ := Read(togo);
        return read;
      }
      if bytesLeft < count {
        return false;
      }
      pos := pos + count;
      bytesLeft := bytesLeft - count;
      return true;
    }

    method ReadByte() returns (ok: bool, b: byte)
      requires Valid()
      modifies this
      ensures Valid() && End() == old(End())
      ensures ok <==> old(Left()) != []
      ensures ok ==> b == old(Left())[0] && Left() == old(Left())[1..]
      ensures !ok ==> Left() == old(Left())
    {
      if bytesLeft == 0 {
        return false, 0;
      }
      var data := Callback(1);
      bytesLeft := bytesLeft - 1;
      return true, data[0];
    }

    method DecodeVarint32() returns (ok: bool, value: nat)
      requires Valid()
      modifies this
      ensures Valid() && End() == old(End())
      ensures ok <==> ReadVarint32(old(Left())).Some?
      ensures ok ==> ReadVarint32(old(Left())) == Some((value, Left()))
      ensures !ok ==> ScanVarint(old(Left()), ROOM32) == Broken(Left())
    {
      ghost var start := Left();
      var b: byte;
      ok, b := ReadByte();
      if !ok {
        return false, 0;
      }
      ReadingFirst(start);
      if b < 128 {
        return true, b;
      }
      ok, value := Multibyte32(b % 128, ScanVarint(start, ROOM32));
    }

    /** The multibyte case: the bytes behind the first. */
    method Multibyte32(first: nat, ghost whole: Scan) returns (ok: bool, value: nat)
      requires Valid() && Reading(false, whole, Left(), 1, first, first)
      modifies this
      ensures Valid() && End() == old(End())
      ensures if ok then whole.Done? && whole.rest == Left() && value == Truncate(false, whole.value)
              else whole == Broken(Left())
    {
      value := first;
      var bitpos := 7;
      ghost var left, k, sofar: nat := Left(), 1, value;
      while true
        invariant Valid() && End() == old(End()) && left == Left()
        invariant bitpos == 7 * k && k <= ROOM32
        invariant Reading(false, whole, left, k, sofar, value)
        decreases ROOM32 - k
      {
        if bitpos >= 32 {
          ReadingStops(false, whole, left, k, sofar, value);
          return false, 0;
        }
        var b: byte;
        ok, b := ReadByte();
        if !ok {
          ReadingStops(false, whole, left, k, sofar, value);
          return false, 0;
        }
        ReadingStep(false, whole, left, k, sofar, value);
        value := Truncate(false, value + Shifted(b, bitpos));
        left, k, sofar := left[1..], k + 1, sofar + Shifted(b, bitpos);
        bitpos := bitpos + 7;
        if b < 128 {
          return true, value;
        }
      }
    }

    method DecodeVarint() returns (ok: bool, value: nat)
      requires Valid()
      modifies this
      ensures Valid() && End() == old(End())
      ensures ok <==> ReadVarint64(old(Left())).Some?
      ensures ok ==> ReadVarint64(old(Left())) == Some((value, Left()))
    {
      ghost var whole, left := ScanVarint(Left(), ROOM64), Left();
      var bitpos := 0;
      value := 0;
      ghost var k, sofar: nat := 0, 0;
      ReadingStarts(true, left);
      while true
        invariant Valid() && End() == old(End()) && left == Left()
        invariant bitpos == 7 * k && k <= ROOM64
        invariant Reading(true, whole, left, k, sofar, value)
        decreases ROOM64 - k
      {
        if bitpos >= 64 {
          ReadingStops(true, whole, left, k, sofar, value);
          return false, 0;
        }
        var b: byte;
        ok, b := ReadByte();
        if !ok {
          ReadingStops(true, whole, left, k, sofar, value);
          return false, 0;
        }
        ReadingStep(true, whole, left, k, sofar, value);
        value := Truncate(true, value + Shifted(b, bitpos));
        left, k, sofar := left[1..], k + 1, sofar + Shifted(b, bitpos);
        bitpos := bitpos + 7;
        if b < 128 {
          return true, value;
        }
      }
    }

    method DecodeSvarint() returns (ok: bool, value: int)
      requires Valid()
      modifies this
      ensures Valid() && End() == old(End())
      ensures ok <==> ReadVarint64(old(Left())).Some?
      ensures ok ==> ReadVarint64(old(Left())).value.1 == Left() && value == UnZigZag(ReadVarint64(old(Left())).value.0)
    {
      var u: nat;
      ok, u := DecodeVarint();
      if !ok {
        return false, 0;
      }
      // (int64_t)~(value >> 1)
      value := if u % 2 == 1 then Signed(TWO64 - 1 - u / 2, TWO64 / 2) else u / 2;
    }

    method DecodeFixed32() returns (ok: bool, value: nat)
      requires Valid()
      modifies this
      ensures Valid() && End() == old(End())
      ensures ok <==> Take(AsWord(4), old(Left())).Some?
      ensures ok ==> Take(AsWord(4), old(Left())).value.1 == Left()
      ensures ok ==> value == FromLittleEndian(old(Left())[..4])
    {
      var bs: bytes;
      ok, bs := Read(4);
      if !ok {
        return false, 0;
      }
      WordOfFour(bs);
      value := bs[0] as int + 0x100 * (bs[1] as int) + 0x1_0000 * (bs[2] as int) + 0x100_0000 * (bs[3] as int);
    }

    method DecodeFixed64() returns (ok: bool, value: nat)
      requires Valid()
      modifies this
      ensures Valid() && End() == old(End())
      ensures ok <==> Take(AsWord(8), old(Left())).Some?
      ensures ok ==> Take(AsWord(8), old(Left())).value.1 == Left()
      ensures ok ==> value == FromLittleEndian(old(Left())[..8])
    {
      var bs: bytes;
      ok, bs := Read(8);
      if !ok {
        return false, 0;
      }
      WordOfEight(bs);
      value := bs[0] as int + 0x100 * (bs[1] as int) + 0x1_0000 * (bs[2] as int) + 0x100_0000 * (bs[3] as int) +
               0x1_0000_0000 * (bs[4] as int) + 0x100_0000_0000 * (bs[5] as int) +
               0x1_0000_0000_0000 * (bs[6] as int) + 0x100_0000_0000_0000 * (bs[7] as int);
    }

    method SkipVarint() returns (ok: bool)
      requires Valid()
      modifies this
      ensures Valid() && End() == old(End())
      ensures ok <==> Format.Skip(0, old(Left())).Some?
      ensures ok ==> Format.Skip(0, old(Left())) == Some(Left())
    {
      ghost var whole, left := ScanVarint(Left(), |Left()|), Left();
      while true
        invariant Valid() && End() == old(End()) && left == Left()
        invariant whole.rest == ScanVarint(left, |left|).rest && whole.Done? == ScanVarint(left, |left|).Done?
        decreases bytesLeft
      {
        var data: bytes;
        ok, data := Read(1);
        if !ok {
          return false;
        }
        SkippingStep(left);
        left := left[1..];
        if data[0] < 128 {
          return true;
        }
      }
    }

    method SkipString() returns (ok: bool)
      requires Valid()
      modifies this
      ensures Valid() && End() == old(End())
      ensures ok <==> Take(AsString, old(Left())).Some?
      ensures ok ==> Take(AsString, old(Left())).value.1 == Left()
    {
      var length: nat;
      ok, length := DecodeVarint32();
      if !ok {
        return false;
      }
      ok := Skip(length);
    }

    method SkipField(wire: nat) returns (ok: bool)
      requires Valid()
      modifies this
      ensures Valid() && End() == old(End())
      ensures ok <==> Format.Skip(wire, old(Left())).Some?
      ensures ok ==> Format.Skip(wire, old(Left())) == Some(Left())
    {
      if wire == 0 {
        ok := SkipVarint();
      } else if wire == 1 {
        ok := Skip(8);
      } else if wire == 2 {
        ok := SkipString();
      } else if wire == 5 {
        ok := Skip(4);
      } else {
        ok := false;
      }
    }

    method DecodeTag() returns (ok: bool, wire: nat, tag: nat, eof: bool)
      requires Valid()
      modifies this
      ensures Valid() && End() == old(End())
      ensures match ReadTag(old(Left()))
              case Eof(rest) => !ok && eof && Left() == rest
              case Bad => !ok && !eof
              case Tag(t, w, body) => ok && !eof && tag == t && wire == w && Left() == body
    {
      wire, tag, eof := 0, 0, false;
      var temp: nat;
      ok, temp := DecodeVarint32();
      if !ok {
        eof := bytesLeft == 0;
        return;
      }
      if temp == 0 {
        ok, eof := false, true;
        return;
      }
      tag, wire := temp / 8, temp % 8;
    }

    /** The parent keeps its place in front of the payload, but no longer counts it as its own. */
    method MakeStringSubstream() returns (ok: bool, sub: InStream)
      requires Valid()
      modifies this
      ensures Valid() && fresh(sub) && sub.Valid() && sub.buf == buf
      ensures ok <==> Take(AsString, old(Left())).Some?
      ensures !ok ==> End() == old(End())
      ensures ok ==>
        var (c, rest) := Take(AsString, old(Left())).value;
        sub.Left() == c.data && sub.pos == pos && bytesLeft == |rest|
        && sub.End() + bytesLeft == old(End()) && buf[sub.End()..sub.End() + bytesLeft] == rest
    {
      var size: nat;
      ok, size := DecodeVarint32();
      if !ok || bytesLeft < size {
        sub := new InStream(buf, buffered, pos, 0);
        return false, sub;
      }
      sub := new InStream(buf, buffered, pos, size);
      bytesLeft := bytesLeft - size;
    }

    /** Reads off what the reader of the payload left, also when it met an end mark early. */
    method CloseStringSubstream(sub: InStream) returns (ok: bool)
      requires Valid() && sub.Valid() && sub != this && sub.buf == buf && sub.End() + bytesLeft <= |buf|
      modifies this, sub
      ensures ok && Valid() && bytesLeft == old(bytesLeft) && pos == old(sub.End())
      ensures Left() == buf[old(sub.End())..old(sub.End() + bytesLeft)]
    {
      if sub.bytesLeft > 0 {
        ok := sub.Skip(sub.bytesLeft);
      }
      pos := sub.pos;
      return true;
    }
  }
}
