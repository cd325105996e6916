/** The two-word bitmap of required fields seen. */
module Bitmap {
  import opened Common
  import opened Wire
  import opened Descriptor

  /** A word's value from its bits, lowest first. */
  function Word(bits: seq<bool>): nat {
    if bits == [] then 0 else (if bits[0] then 1 else 0) + 2 * Word(bits[1..])
  }

  /** w | (1 << b). */
  function OrBit(w: nat, b: nat): nat {
    if w / Pow2(b) % 2 == 1 then w else w + Pow2(b)
  }

  lemma {:induction false} DivTwice(w: nat, p: nat)
    requires p > 0
    ensures w / (2 * p) == w / 2 / p
  {
    var q, r := w / 2 / p, w / 2 % p;
    assert w == 2 * (w / 2) + w % 2 && w / 2 == q * p + r;
    assert w == q * (2 * p) + (2 * r + w % 2) && 0 <= 2 * r + w % 2 < 2 * p;
    Quotient(w, 2 * p, q, 2 * r + w % 2);
  }

  lemma MulAtLeast(x: int, d: int)
    requires x >= 1 && d > 0
    ensures x * d >= d
  {
  }

  lemma {:induction false} Quotient(w: nat, d: nat, q: nat, r: nat)
    requires d > 0 && w == q * d + r && r < d
    ensures w / d == q
  {
    var q', r' := w / d, w % d;
    assert w == q' * d + r';
    var x := q - q';
    assert x * d == q * d - q' * d == r' - r;
    if x >= 1 {
      MulAtLeast(x, d);
    } else if x <= -1 {
      MulAtLeast(-x, d);
    }
  }

  lemma {:induction false} BitOf(bits: seq<bool>, b: nat)
    requires b < |bits|
    ensures Word(bits) / Pow2(b) % 2 == if bits[b] then 1 else 0
    decreases b
  {
    var w := Word(bits);
    assert w == (if bits[0] then 1 else 0) + 2 * Word(bits[1..]);
    assert w / 2 == Word(bits[1..]);
    if b > 0 {
      BitOf(bits[1..], b - 1);
      DivTwice(w, Pow2(b - 1));
    }
  }

  lemma {:induction false} RaiseBit(bits: seq<bool>, b: nat)
    requires b < |bits|
    ensures Word(bits[b := true]) == Word(bits) + if bits[b] then 0 else Pow2(b)
    decreases b
  {
    if b > 0 {
      RaiseBit(bits[1..], b - 1);
      assert bits[b := true][1..] == bits[1..][b - 1 := true];
    } else {
      assert bits[0 := true][1..] == bits[1..];
    }
  }

  /** Or-ing in a shifted one sets exactly that bit. */
  lemma OrSetsBit(bits: seq<bool>, b: nat)
    requires b < |bits|
    ensures OrBit(Word(bits), b) == Word(bits[b := true])
  {
    BitOf(bits, b);
    RaiseBit(bits, b);
    if bits[b] {
      assert bits[b := true] == bits;
    }
  }

  /** A word equals 2^n - 1 exactly when its lowest n bits are set and no other. */
  lemma {:induction false} LowBits(bits: seq<bool>, n: nat)
    requires n <= |bits|
    ensures Word(bits) == Pow2(n) - 1 <==> forall b :: 0 <= b < |bits| ==> (bits[b] <==> b < n)
    decreases |bits|
  {
    if bits == [] {
    } else if n == 0 {
      LowBits(bits[1..], 0);
      assert forall b :: 1 <= b < |bits| ==> bits[b] == bits[1..][b - 1];
    } else {
      LowBits(bits[1..], n - 1);
      assert forall b :: 1 <= b < |bits| ==> bits[b] == bits[1..][b - 1];
      assert Pow2(n) == 2 * Pow2(n - 1);
      if forall b :: 0 <= b < |bits| ==> (bits[b] <==> b < n) {
        assert forall b :: 0 <= b < |bits| - 1 ==> (bits[1..][b] <==> bits[b + 1]);
      }
    }
  }

  // ---- Which bit stands for which field ----

  lemma {:induction false} RequiredMonotone(fields: seq<Field>, m: nat, n: nat)
    requires m <= n <= |fields|
    ensures RequiredBefore(fields, m) <= RequiredBefore(fields, n)
    decreases n
  {
    if m < n {
      RequiredMonotone(fields, m, n - 1);
    }
  }

  /** Required fields have different indexes, below the number of required fields. */
  lemma RequiredIndex(fields: seq<Field>, i: nat, j: nat)
    requires i < j < |fields| && fields[i].htype == Required && fields[j].htype == Required
    ensures RequiredBefore(fields, i) < RequiredBefore(fields, j) < RequiredBefore(fields, |fields|)
  {
    RequiredMonotone(fields, i + 1, j);
    RequiredMonotone(fields, j + 1, |fields|);
  }

  lemma {:induction false} RequiredOwner(fields: seq<Field>, n: nat, b: nat) returns (i: nat)
    requires n <= |fields| && b < RequiredBefore(fields, n)
    ensures i < n && fields[i].htype == Required && RequiredBefore(fields, i) == b
    decreases n
  {
    if fields[n - 1].htype == Required && RequiredBefore(fields, n - 1) == b {
      i := n - 1;
    } else {
      i := RequiredOwner(fields, n - 1, b);
    }
  }

  /** The bits stand for the required fields among those seen. */
  predicate Marks(fields: seq<Field>, bits: seq<bool>, seen: set<nat>) {
    && |bits| == 64
    && (forall i {:trigger RequiredBefore(fields, i)} :: 0 <= i < |fields| && fields[i].htype == Required ==>
          RequiredBefore(fields, i) < 64 && (bits[RequiredBefore(fields, i)] <==> i in seen))
    && (forall b :: RequiredBefore(fields, |fields|) <= b < 64 ==> !bits[b])
  }

  lemma MarkOne(fields: seq<Field>, bits: seq<bool>, seen: set<nat>, i: nat)
    requires Marks(fields, bits, seen) && i < |fields|
    ensures fields[i].htype == Required ==>
              RequiredBefore(fields, i) < 64 && Marks(fields, bits[RequiredBefore(fields, i) := true], seen + {i})
    ensures fields[i].htype != Required ==> Marks(fields, bits, seen + {i})
  {
    if fields[i].htype == Required {
      RequiredMonotone(fields, i + 1, |fields|);
      forall j | 0 <= j < |fields| && fields[j].htype == Required && j != i
        ensures RequiredBefore(fields, j) != RequiredBefore(fields, i)
      {
        if i < j { RequiredIndex(fields, i, j); } else { RequiredIndex(fields, j, i); }
      }
    }
  }

  /** fields_seen, from its bits. */
  function Words(bits: seq<bool>): (w: seq<nat>)
    requires |bits| == 64
    ensures |w| == 2
  {
    [Word(bits[..32]), Word(bits[32..])]
  }

  /** Or-ing 1 << (index & 31) into word index >> 5 sets the bit of that index, and no other. */
  lemma MarkWord(bits: seq<bool>, b: nat)
    requires |bits| == 64 && b < 64
    ensures Words(bits)[b / 32 := OrBit(Words(bits)[b / 32], b % 32)] == Words(bits[b := true])
  {
    var lo, hi := bits[..32], bits[32..];
    if b < 32 {
      OrSetsBit(lo, b);
      assert bits[b := true][..32] == lo[b := true] && bits[b := true][32..] == hi;
    } else {
      OrSetsBit(hi, b - 32);
      assert bits[b := true][..32] == lo && bits[b := true][32..] == hi[b - 32 := true];
    }
  }

  lemma {:induction false} NoBitsWord(bits: seq<bool>)
    requires forall b :: 0 <= b < |bits| ==> !bits[b]
    ensures Word(bits) == 0
  {
    if bits != [] {
      NoBitsWord(bits[1..]);
    }
  }

  function NoBits(): (bits: seq<bool>)
    ensures |bits| == 64 && forall b :: 0 <= b < 64 ==> !bits[b]
  {
    seq(64, _ => false)
  }

  /** At the start of a run nothing is marked. */
  lemma NothingMarked(fields: seq<Field>, bits: seq<bool>)
    requires RequiredBefore(fields, |fields|) < 64
    requires |bits| == 64 && forall b :: 0 <= b < 64 ==> !bits[b]
    ensures Words(bits) == [0, 0] && Marks(fields, bits, {})
  {
    NoBitsWord(bits[..32]);
    NoBitsWord(bits[32..]);
    forall i | 0 <= i < |fields| && fields[i].htype == Required ensures RequiredBefore(fields, i) < 64 {
      RequiredMonotone(fields, i, |fields|);
    }
  }

  /** The final test: every whole word full, and the remaining bits of the next one. */
  predicate AllMarked(words: seq<nat>, count: nat)
    requires |words| == 2 && RequiredCountOk(count)
  {
    && (forall i :: 0 <= i < count / 32 ==> words[i] == TWO32 - 1)
    && (count > 0 ==> words[count / 32] == (TWO32 - 1) / Pow2(32 - count % 32))
  }

  lemma Pow2Of32()
    ensures Pow2(32) == TWO32
  {
    Pow2Sevens(4);
    Pow128Values();
    assert Pow2(29) == 2 * Pow2(28) && Pow2(30) == 2 * Pow2(29) && Pow2(31) == 2 * Pow2(30) && Pow2(32) == 2 * Pow2(31);
    assert Pow128(5) == 128 * Pow128(4);
  }

  lemma {:induction false} Pow2Adds(m: nat, k: nat)
    ensures Pow2(m + k) == Pow2(m) * Pow2(k)
    decreases m
  {
    if m > 0 {
      Pow2Adds(m - 1, k);
      Associate(Pow2(m - 1), Pow2(k));
    }
  }

  lemma Associate(p: nat, q: nat)
    ensures 2 * (p * q) == (2 * p) * q
  {
  }

  /** Shifting n ones right by k leaves n - k ones. */
  lemma ShiftedOnes(n: nat, k: nat)
    requires k <= n
    ensures (Pow2(n) - 1) / Pow2(k) == Pow2(n - k) - 1
  {
    Pow2Adds(n - k, k);
    var d, q := Pow2(k), Pow2(n - k) - 1;
    assert Pow2(n) - 1 == q * d + (d - 1);
    Quotient(Pow2(n) - 1, d, q, d - 1);
  }

  /** The two words pass the final test exactly when every required field was seen. */
  lemma AllMarkedIff(fields: seq<Field>, bits: seq<bool>, seen: set<nat>)
    requires Marks(fields, bits, seen) && RequiredCountOk(RequiredBefore(fields, |fields|))
    ensures AllMarked(Words(bits), RequiredBefore(fields, |fields|))
            <==> forall i :: 0 <= i < |fields| && fields[i].htype == Required ==> i in seen
  {
    WordsFull(bits, RequiredBefore(fields, |fields|));
    MarkedMeansSeen(fields, bits, seen);
  }

  lemma WordsFull(bits: seq<bool>, count: nat)
    requires |bits| == 64 && RequiredCountOk(count) && forall b :: count <= b < 64 ==> !bits[b]
    ensures AllMarked(Words(bits), count) <==> forall b :: 0 <= b < count ==> bits[b]
  {
    if 0 < count < 32 {
      assert count / 32 == 0 && count % 32 == count;
      FirstWordFull(bits, count);
    } else if count > 32 {
      assert count / 32 == 1 && 32 - count % 32 == 64 - count;
      BothWordsFull(bits, count);
      assert AllMarked(Words(bits), count) <==>
             Words(bits)[0] == TWO32 - 1 && Words(bits)[1] == (TWO32 - 1) / Pow2(64 - count);
    }
  }

  lemma FirstWordFull(bits: seq<bool>, count: nat)
    requires |bits| == 64 && 0 < count < 32 && forall b :: count <= b < 64 ==> !bits[b]
    ensures Word(bits[..32]) == (TWO32 - 1) / Pow2(32 - count) <==> forall b :: 0 <= b < count ==> bits[b]
  {
    Pow2Of32();
    ShiftedOnes(32, 32 - count);
    LowBits(bits[..32], count);
  }

  lemma BothWordsFull(bits: seq<bool>, count: nat)
    requires |bits| == 64 && 32 < count < 64 && forall b :: count <= b < 64 ==> !bits[b]
    ensures Word(bits[..32]) == TWO32 - 1 && Word(bits[32..]) == (TWO32 - 1) / Pow2(64 - count)
            <==> forall b :: 0 <= b < count ==> bits[b]
  {
    var lo, hi := bits[..32], bits[32..];
    Pow2Of32();
    LowBits(lo, 32);
    ShiftedOnes(32, 64 - count);
    LowBits(hi, count - 32);
    assert forall b :: 32 <= b < 64 ==> bits[b] == hi[b - 32];
    assert (forall b :: 0 <= b < count ==> bits[b]) <==>
           (forall b :: 0 <= b < 32 ==> lo[b]) && (forall b :: 0 <= b < count - 32 ==> hi[b]);
  }

  lemma MarkedMeansSeen(fields: seq<Field>, bits: seq<bool>, seen: set<nat>)
    requires Marks(fields, bits, seen) && RequiredCountOk(RequiredBefore(fields, |fields|))
    ensures (forall b :: 0 <= b < RequiredBefore(fields, |fields|) ==> bits[b])
            <==> forall i :: 0 <= i < |fields| && fields[i].htype == Required ==> i in seen
  {
    var count := RequiredBefore(fields, |fields|);
    if forall b :: 0 <= b < count ==> bits[b] {
      forall i | 0 <= i < |fields| && fields[i].htype == Required ensures i in seen {
        RequiredMonotone(fields, i + 1, |fields|);
        assert bits[RequiredBefore(fields, i)];
      }
    }
    if forall i :: 0 <= i < |fields| && fields[i].htype == Required ==> i in seen {
      forall b | 0 <= b < count ensures bits[b] {
        var i := RequiredOwner(fields, |fields|, b);
        assert bits[RequiredBefore(fields, i)];
      }
    }
  }
}
