/** Bytes, options and the constants of the wire format. */
module Common {
  datatype Option<+T> = None | Some(value: T)

  type byte = b: int | 0 <= b < 256
  type bytes = seq<byte>

  const TWO32 := 0x1_0000_0000
  const TWO64 := 0x1_0000_0000_0000_0000

  // pb_size_t is one of three unsigned widths, chosen when the library is built.
  // Nothing below depends on which one.
  type SizeMax = n: nat | n == 0xFF || n == 0xFFFF || n == 0xFFFF_FFFF witness 0xFF
  const PB_SIZE_MAX: SizeMax

  // offsetof(pb_bytes_array_t, bytes): the size member, without padding.
  const BYTES_HEADER: nat := if PB_SIZE_MAX == 0xFF then 1 else if PB_SIZE_MAX == 0xFFFF then 2 else 4
}

/** Integers on the wire: varints, zig-zag and little-endian words. */
module Wire {
  import opened Common

  // ---- Base 128 varints ----

  /** The minimal base-128 form: seven bits a byte, low bits first, the top bit set on all but the last. */
  function Varint(v: nat): (bs: bytes)
    ensures |bs| >= 1
  {
    if v < 128 then [v] else [v % 128 + 128] + Varint(v / 128)
  }

  /** What a bounded varint reader makes of its input: a value, or a failure with what is left unread. */
  datatype Scan = Done(value: nat, rest: bytes) | Broken(rest: bytes)

  /** Reads a varint of at most `room` bytes. The value is not yet truncated to a register width. */
  function ScanVarint(bs: bytes, room: nat): (r: Scan)
    ensures r.Done? ==> |r.rest| < |bs|
    ensures |r.rest| <= |bs|
    decreases |bs|
  {
    if room == 0 || bs == [] then Broken(bs)
    else if bs[0] < 128 then Done(bs[0], bs[1..])
    else
      match ScanVarint(bs[1..], room - 1)
      case Done(v, r) => Done(bs[0] - 128 + 128 * v, r)
      case Broken(r) => Broken(r)
  }

  // bitpos runs 0, 7, .., 63 in the 64-bit reader and 0, 7, .., 28 in the 32-bit one.
  const ROOM64 := 10
  const ROOM32 := 5

  /** 128^k, the bound of a k-byte varint. */
  function Pow128(k: nat): (p: nat)
    ensures p >= 1
  {
    if k == 0 then 1 else 128 * Pow128(k - 1)
  }

  /** 1 << k. */
  function Pow2(k: nat): (p: nat)
    ensures p >= 1
  {
    if k == 0 then 1 else 2 * Pow2(k - 1)
  }

  lemma {:induction false} Pow2Sevens(k: nat)
    ensures Pow2(7 * k) == Pow128(k)
  {
    if k > 0 {
      Pow2Sevens(k - 1);
      var n := 7 * (k - 1);
      assert Pow2(n + 1) == 2 * Pow2(n);
      assert Pow2(n + 2) == 2 * Pow2(n + 1);
      assert Pow2(n + 3) == 2 * Pow2(n + 2);
      assert Pow2(n + 4) == 2 * Pow2(n + 3);
      assert Pow2(n + 5) == 2 * Pow2(n + 4);
      assert Pow2(n + 6) == 2 * Pow2(n + 5);
      assert Pow2(n + 7) == 2 * Pow2(n + 6);
    }
  }

  /** Exact length: k bytes hold exactly the values below 128^k that fewer bytes do not. */
  lemma {:induction false} VarintLength(v: nat, k: nat)
    requires k >= 1
    ensures |Varint(v)| <= k <==> v < Pow128(k)
    decreases k
  {
    if k == 1 {
      assert Pow128(1) == 128 * Pow128(0);
    } else if v >= 128 {
      VarintLength(v / 128, k - 1);
      assert Pow128(k) == 128 * Pow128(k - 1);
    } else {
      assert Pow128(k) == 128 * Pow128(k - 1);
      VarintLength(0, k - 1);
      assert Pow128(k - 1) >= 1;
    }
  }

  /** The reader inverts the writer under every suffix, whenever it has room for the whole form. */
  lemma {:induction false} ScanInvertsVarint(v: nat, room: nat, rest: bytes)
    requires |Varint(v)| <= room
    ensures ScanVarint(Varint(v) + rest, room) == Done(v, rest)
    decreases room
  {
    if v >= 128 {
      var tail := Varint(v / 128);
      ScanInvertsVarint(v / 128, room - 1, rest);
      assert (Varint(v) + rest)[1..] == tail + rest;
    } else {
      assert (Varint(v) + rest)[1..] == rest;
    }
  }

  /** The value of a varint as the standard defines it: seven-bit groups, the least significant first. */
  function Groups(bs: bytes): nat {
    if bs == [] then 0 else bs[0] % 128 + 128 * Groups(bs[1..])
  }

  /** What is written: the groups of v, all but the last with the top bit set, and no more of them than are needed. */
  lemma {:induction false} VarintForm(v: nat)
    ensures var bs := Varint(v);
      && Groups(bs) == v
      && (forall k :: 0 <= k < |bs| ==> (bs[k] >= 128 <==> k < |bs| - 1))
      && (|bs| > 1 ==> bs[|bs| - 1] > 0)
    decreases v
  {
    if v >= 128 {
      VarintForm(v / 128);
      assert Varint(v)[1..] == Varint(v / 128);
      assert forall k :: 1 <= k < |Varint(v)| ==> Varint(v)[k] == Varint(v / 128)[k - 1];
    }
  }

  /** What is read: the groups up to the first byte without the top bit. */
  lemma {:induction false} ScanForm(bs: bytes, k: nat, room: nat)
    requires k < |bs| && bs[k] < 128 && forall j :: 0 <= j < k ==> bs[j] >= 128
    ensures ScanVarint(bs, room) == if k < room then Done(Groups(bs[..k + 1]), bs[k + 1..]) else Broken(bs[room..])
    decreases k
  {
    if room > 0 {
      assert bs[..k + 1][1..] == bs[1..][..k];
      if k > 0 {
        ScanForm(bs[1..], k - 1, room - 1);
      } else {
        assert bs[..1] == [bs[0]];
      }
    }
  }

  lemma Pow128Values()
    ensures Pow128(5) == 0x8_0000_0000
    ensures Pow128(10) == 0x40_0000_0000_0000_0000
  {
    assert Pow128(1) == 128 * Pow128(0);
    assert Pow128(2) == 128 * Pow128(1);
    assert Pow128(3) == 128 * Pow128(2);
    assert Pow128(4) == 128 * Pow128(3);
    assert Pow128(5) == 128 * Pow128(4);
    assert Pow128(6) == 128 * Pow128(5);
    assert Pow128(7) == 128 * Pow128(6);
    assert Pow128(8) == 128 * Pow128(7);
    assert Pow128(9) == 128 * Pow128(8);
    assert Pow128(10) == 128 * Pow128(9);
  }

  /** Every 64-bit value takes at most ten bytes, and every 32-bit one at most five. */
  lemma VarintFits(v: nat)
    ensures v < TWO64 ==> |Varint(v)| <= ROOM64
    ensures v < TWO32 ==> |Varint(v)| <= ROOM32
  {
    Pow128Values();
    VarintLength(v, 10);
    VarintLength(v, 5);
  }

  /** Minimality: any input that the reader maps to v is at least as long as the form written for v. */
  lemma {:induction false} VarintMinimal(bs: bytes, room: nat)
    requires ScanVarint(bs, room).Done?
    ensures var s := ScanVarint(bs, room); |Varint(s.value)| <= |bs| - |s.rest| <= room
    decreases room
  {
    if bs[0] >= 128 {
      VarintMinimal(bs[1..], room - 1);
      var s := ScanVarint(bs[1..], room - 1);
      var v := bs[0] - 128 + 128 * s.value;
      if v >= 128 {
        assert v / 128 == s.value;
      }
    }
  }

  /** Locality: more bytes behind a complete varint change nothing but the remainder. */
  lemma {:induction false} ScanExtends(a: bytes, b: bytes, room: nat)
    requires ScanVarint(a, room).Done?
    ensures ScanVarint(a + b, room) == Done(ScanVarint(a, room).value, ScanVarint(a, room).rest + b)
    decreases room
  {
    assert (a + b)[1..] == a[1..] + b;
    if a[0] >= 128 {
      ScanExtends(a[1..], b, room - 1);
    }
  }

  /** A reader with more room agrees with one that had enough. */
  lemma {:induction false} ScanRoom(bs: bytes, room: nat, more: nat)
    requires room <= more && ScanVarint(bs, room).Done?
    ensures ScanVarint(bs, more) == ScanVarint(bs, room)
    decreases room
  {
    if bs[0] >= 128 {
      ScanRoom(bs[1..], room - 1, more - 1);
    }
  }

  /** The 64-bit reader keeps 64 bits of what it scans. */
  function ReadVarint64(bs: bytes): (r: Option<(nat, bytes)>)
    ensures r.Some? ==> r.value.0 < TWO64 && |r.value.1| < |bs|
  {
    match ScanVarint(bs, ROOM64)
    case Done(v, rest) => Some((v % TWO64, rest))
    case Broken(_) => None
  }

  /** The 32-bit reader keeps 32 bits and gives up after five bytes. */
  function ReadVarint32(bs: bytes): (r: Option<(nat, bytes)>)
    ensures r.Some? ==> r.value.0 < TWO32 && |r.value.1| < |bs|
  {
    match ScanVarint(bs, ROOM32)
    case Done(v, rest) => Some((v % TWO32, rest))
    case Broken(_) => None
  }

  lemma ModSmall(v: nat, m: nat)
    requires v < m
    ensures v % m == v
  {
  }

  /** The readers invert the writer for every value of their width, under every suffix. */
  lemma ReadInvertsVarint64(v: nat, rest: bytes)
    requires v < TWO64
    ensures ReadVarint64(Varint(v) + rest) == Some((v, rest))
  {
    VarintFits(v);
    ScanInvertsVarint(v, ROOM64, rest);
    ModSmall(v, TWO64);
  }

  lemma ReadInvertsVarint32(v: nat, rest: bytes)
    requires v < TWO32
    ensures ReadVarint32(Varint(v) + rest) == Some((v, rest))
  {
    VarintFits(v);
    ScanInvertsVarint(v, ROOM32, rest);
    ModSmall(v, TWO32);
  }

  lemma ModMod(v: nat)
    ensures v % TWO64 % TWO32 == v % TWO32
  {
    var q := v / TWO64;
    assert v == q * TWO64 + v % TWO64;
    assert v == (q * TWO32) * TWO32 + v % TWO64;
    var r := v % TWO64;
    assert r == (r / TWO32) * TWO32 + r % TWO32;
    assert v == (q * TWO32 + r / TWO32) * TWO32 + r % TWO32;
  }

  /** Whenever the 32-bit reader succeeds, the 64-bit one reads the same bytes and agrees on the low half. */
  lemma Varint32IsLowHalf(bs: bytes)
    requires ReadVarint32(bs).Some?
    ensures ReadVarint64(bs).Some?
    ensures ReadVarint64(bs).value.1 == ReadVarint32(bs).value.1
    ensures ReadVarint64(bs).value.0 % TWO32 == ReadVarint32(bs).value.0
  {
    ScanRoom(bs, ROOM32, ROOM64);
    ModMod(ScanVarint(bs, ROOM32).value);
  }

  // ---- Signed integers ----

  /** Two's complement: the signed reading of a register with 2 * half values. */
  function Signed(u: nat, half: int): (n: int)
    requires u < 2 * half
    ensures -half <= n < half
  {
    if u < half then u else u - 2 * half
  }

  /** Half the number of values of a C integer of `size` bytes; 0 for sizes that no C integer has. */
  function Half(size: nat): int {
    if size == 1 then 0x80 else if size == 2 then 0x8000 else if size == 4 then TWO32 / 2
    else if size == 8 then TWO64 / 2 else 0
  }

  // int8_t, int16_t, int32_t and int64_t keep the low bits of what is assigned to them.

  function Int8(n: int): (r: int)
    ensures -0x80 <= r < 0x80 && (r == n <==> -0x80 <= n < 0x80)
  {
    Signed(n % 0x100, 0x80)
  }

  function Int16(n: int): (r: int)
    ensures -0x8000 <= r < 0x8000 && (r == n <==> -0x8000 <= n < 0x8000)
  {
    Signed(n % 0x1_0000, 0x8000)
  }

  function Int32(n: int): (r: int)
    ensures -(TWO32 / 2) <= r < TWO32 / 2 && (r == n <==> -(TWO32 / 2) <= n < TWO32 / 2)
  {
    Signed(n % TWO32, TWO32 / 2)
  }

  function Int64(n: int): (r: int)
    ensures -(TWO64 / 2) <= r < TWO64 / 2 && (r == n <==> -(TWO64 / 2) <= n < TWO64 / 2)
  {
    Signed(n % TWO64, TWO64 / 2)
  }

  /** A cast to the signed integer of `size` bytes. */
  function CastSigned(n: int, size: nat): (r: int)
    requires size in {1, 2, 4, 8}
    ensures -Half(size) <= r < Half(size)
    ensures r == n <==> -Half(size) <= n < Half(size)
  {
    if size == 1 then Int8(n) else if size == 2 then Int16(n) else if size == 4 then Int32(n) else Int64(n)
  }

  /** A cast to the unsigned integer of `size` bytes. */
  function CastUnsigned(n: int, size: nat): (r: nat)
    requires size in {1, 2, 4, 8}
    ensures 0 <= r < 2 * Half(size)
    ensures r == n <==> 0 <= n < 2 * Half(size)
  {
    if size == 1 then n % 0x100
    else if size == 2 then n % 0x1_0000
    else if size == 4 then n % TWO32
    else n % TWO64
  }

  lemma CastRoundTrip64(n: int)
    requires -(TWO64 / 2) <= n < TWO64 / 2
    ensures CastSigned(CastUnsigned(n, 8), 8) == n
  {
  }

  lemma CastRoundTrip32(n: int)
    requires -(TWO32 / 2) <= n < TWO32 / 2
    ensures CastSigned(CastUnsigned(n, 8), 4) == n
  {
    if n < 0 {
      assert CastUnsigned(n, 8) == n + TWO64;
      assert n + TWO64 == (TWO64 / TWO32 - 1) * TWO32 + (n + TWO32);
    }
  }

  /** Casting to 64 bits unsigned keeps every signed value of at most that width, and its low 32 bits. */
  lemma CastRoundTrip(n: int, size: nat)
    requires size in {1, 2, 4, 8} && -Half(size) <= n < Half(size)
    ensures CastSigned(CastUnsigned(n, 8), 8) == n
    ensures size <= 4 ==> CastSigned(CastUnsigned(n, 8), 4) == n
  {
    CastRoundTrip64(n);
    if size <= 4 {
      CastRoundTrip32(n);
    }
  }

  lemma DivisionIsUnique(n: int, m: nat, q: int, r: int)
    requires m > 0 && 0 <= r < m && n == q * m + r
    ensures n % m == r
  {
    var d := n / m - q;
    assert d * m == (n / m) * m - q * m;
    if d > 0 {
      assert d * m >= m by { MulAtLeastOne(d, m); }
    } else if d < 0 {
      assert -d * m >= m by { MulAtLeastOne(-d, m); }
    }
  }

  lemma MulAtLeastOne(d: int, m: nat)
    requires d >= 1
    ensures d * m >= m
  {
  }

  /** A cast changes a number by a multiple of the number of values of its type. */
  lemma CastByMultiple(n: int, size: nat) returns (q: int, p: int)
    requires size in {1, 2, 4, 8}
    ensures CastSigned(n, size) == n + q * (2 * Half(size))
    ensures CastUnsigned(n, size) == n + p * (2 * Half(size))
  {
    var m := 2 * Half(size);
    p := -(n / m);
    q := if n % m < Half(size) then p else p - 1;
  }

  /** Casting first to 32 bits changes nothing for a narrower type. */
  lemma CastTwice(n: int, size: nat)
    requires size in {1, 2, 4}
    ensures CastSigned(CastSigned(n, 4), size) == CastSigned(n, size)
  {
    var m, t := 2 * Half(size), CastSigned(n, 4);
    var q, _ := CastByMultiple(n, 4);
    var k := if size == 1 then 0x100_0000 else if size == 2 then 0x1_0000 else 1;
    assert k * m == TWO32;
    assert t == (n / m + q * k) * m + n % m;
    DivisionIsUnique(t, m, n / m + q * k, n % m);
  }

  /** pb_encode_svarint's folding: the sign goes to bit 0. ~(u << 1) in 64 bits is TWO64 - 1 - (2u mod TWO64). */
  function ZigZag(n: int): (u: nat)
    requires -(TWO64 / 2) <= n < TWO64 / 2
    ensures u < TWO64
  {
    if n < 0 then TWO64 - 1 - (2 * (n % TWO64)) % TWO64 else 2 * n
  }

  /** pb_decode_svarint's unfolding: int64 of ~(u >> 1) when bit 0 is set. */
  function UnZigZag(u: nat): (n: int)
    requires u < TWO64
    ensures -(TWO64 / 2) <= n < TWO64 / 2
  {
    if u % 2 == 1 then Signed(TWO64 - 1 - u / 2, TWO64 / 2) else u / 2
  }

  /** Zig-zag is a bijection between the signed and the unsigned 64-bit integers, small magnitudes first. */
  lemma ZigZagBijective(n: int, u: nat)
    requires -(TWO64 / 2) <= n < TWO64 / 2 && u < TWO64
    ensures UnZigZag(ZigZag(n)) == n
    ensures ZigZag(UnZigZag(u)) == u
    ensures ZigZag(n) == if n < 0 then -2 * n - 1 else 2 * n
  {
    if n < 0 {
      assert n % TWO64 == n + TWO64;
      assert 2 * (n + TWO64) == 1 * TWO64 + (2 * n + TWO64);
      assert (2 * (n + TWO64)) % TWO64 == 2 * n + TWO64;
    }
    var m := UnZigZag(u);
    if m < 0 {
      assert m % TWO64 == m + TWO64;
      assert (2 * (m + TWO64)) % TWO64 == 2 * m + TWO64;
    }
  }

  // ---- Little-endian words ----

  function LittleEndian(v: nat, width: nat): (bs: bytes)
    ensures |bs| == width
  {
    if width == 0 then [] else [v % 256] + LittleEndian(v / 256, width - 1)
  }

  function FromLittleEndian(bs: bytes): nat {
    if bs == [] then 0 else bs[0] + 256 * FromLittleEndian(bs[1..])
  }

  function Pow256(k: nat): (p: nat)
    ensures p >= 1
  {
    if k == 0 then 1 else 256 * Pow256(k - 1)
  }

  lemma {:induction false} LittleEndianRoundTrip(v: nat, width: nat)
    requires v < Pow256(width)
    ensures FromLittleEndian(LittleEndian(v, width)) == v
    decreases width
  {
    if width > 0 {
      LittleEndianRoundTrip(v / 256, width - 1);
      assert LittleEndian(v, width)[1..] == LittleEndian(v / 256, width - 1);
    }
  }

  lemma {:induction false} FromLittleEndianRoundTrip(bs: bytes)
    ensures FromLittleEndian(bs) < Pow256(|bs|)
    ensures LittleEndian(FromLittleEndian(bs), |bs|) == bs
  {
    if bs != [] {
      FromLittleEndianRoundTrip(bs[1..]);
      var t := FromLittleEndian(bs[1..]);
      assert (bs[0] + 256 * t) / 256 == t;
      assert (bs[0] + 256 * t) % 256 == bs[0];
    }
  }

  lemma Pow256Values()
    ensures Pow256(1) == 0x100 && Pow256(2) == 0x1_0000
    ensures Pow256(4) == TWO32 && Pow256(8) == TWO64
  {
    assert Pow256(1) == 256 * Pow256(0);
    assert Pow256(2) == 256 * Pow256(1);
    assert Pow256(3) == 256 * Pow256(2);
    assert Pow256(4) == 256 * Pow256(3);
    assert Pow256(5) == 256 * Pow256(4);
    assert Pow256(6) == 256 * Pow256(5);
    assert Pow256(7) == 256 * Pow256(6);
    assert Pow256(8) == 256 * Pow256(7);
  }
}
