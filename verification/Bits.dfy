/** Bytes, 64-bit words and 16-byte blocks, as the crypto drivers move them between buffers and
    registers (src/crypto_hw.c, ld64, st64, bswap64, ctr_inc). */
module Bits {
  import opened Basics

  type Bytes = seq<bv8>

  type Block = b: Bytes | |b| == 16 witness seq(16, i => 0)

  function Low8(w: bv64): bv8 {
    (w & 0xFF) as bv8
  }

  function Shr(v: bv64): bv64 {
    v >> 8
  }

  /** Byte i of a word, the least significant first. */
  function ByteAt(w: bv64, i: nat): bv8 {
    if i == 0 then Low8(w) else ByteAt(Shr(w), i - 1)
  }

  lemma EightBytes(w: bv64)
    ensures ByteAt(w, 0) == Low8(w) && ByteAt(w, 1) == Low8(w >> 8)
    ensures ByteAt(w, 2) == Low8(w >> 16) && ByteAt(w, 3) == Low8(w >> 24)
    ensures ByteAt(w, 4) == Low8(w >> 32) && ByteAt(w, 5) == Low8(w >> 40)
    ensures ByteAt(w, 6) == Low8(w >> 48) && ByteAt(w, 7) == Low8(w >> 56)
  {
    hide Low8, Shr;
    hide ByteAt;
    Shifted(w);
    ThreeBytes(w);
    ThreeBytes(Shr(Shr(w)));
    ThreeBytes(Shr(Shr(Shr(Shr(w)))));
    ThreeBytes(Shr(Shr(Shr(Shr(Shr(Shr(w)))))));
  }

  lemma ThreeBytes(w: bv64)
    ensures ByteAt(w, 0) == Low8(w) && ByteAt(w, 1) == Low8(Shr(w))
    ensures forall i :: 2 <= i ==> ByteAt(w, i) == ByteAt(Shr(Shr(w)), i - 2)
  {
    hide Low8, Shr;
  }

  lemma Shifted(w: bv64)
    ensures Shr(w) == w >> 8 && Shr(Shr(w)) == w >> 16 && Shr(Shr(Shr(w))) == w >> 24
    ensures Shr(Shr(Shr(Shr(w)))) == w >> 32 && Shr(Shr(Shr(Shr(Shr(w))))) == w >> 40
    ensures Shr(Shr(Shr(Shr(Shr(Shr(w)))))) == w >> 48 && Shr(Shr(Shr(Shr(Shr(Shr(Shr(w))))))) == w >> 56
  {
  }

  /** ld64, a little-endian load: the aligned and the byte-wise form read the same bytes. */
  function Ld64(b: Bytes): bv64
    requires |b| == 8
  {
    (b[0] as bv64) | ((b[1] as bv64) << 8) | ((b[2] as bv64) << 16) | ((b[3] as bv64) << 24)
    | ((b[4] as bv64) << 32) | ((b[5] as bv64) << 40) | ((b[6] as bv64) << 48) | ((b[7] as bv64) << 56)
  }

  /** st64. */
  function St64(w: bv64): (b: Bytes)
    ensures |b| == 8
  {
    seq(8, i requires 0 <= i < 8 => ByteAt(w, i))
  }

  lemma LdSt(w: bv64)
    ensures Ld64(St64(w)) == w
  {
    hide ByteAt;
    EightBytes(w);
  }

  lemma StLd(b: Bytes)
    requires |b| == 8
    ensures St64(Ld64(b)) == b
  {
    hide ByteAt;
    EightBytes(Ld64(b));
  }

  function Xor(a: Bytes, b: Bytes): (r: Bytes)
    requires |a| == |b|
    ensures |r| == |a|
  {
    seq(|a|, i requires 0 <= i < |a| => a[i] ^ b[i])
  }

  lemma XorTwice(a: Bytes, b: Bytes)
    requires |a| == |b|
    ensures Xor(Xor(a, b), b) == a
  {
    forall i | 0 <= i < |a| ensures Xor(Xor(a, b), b)[i] == a[i] {
      assert (a[i] ^ b[i]) ^ b[i] == a[i];
    }
  }

  function Xor64(v: bv64, w: bv64): bv64 {
    v ^ w
  }

  lemma XorShift(v: bv64, w: bv64)
    ensures Low8(Xor64(v, w)) == Low8(v) ^ Low8(w)
    ensures Shr(Xor64(v, w)) == Xor64(Shr(v), Shr(w))
  {
  }

  lemma {:induction false} ByteXor(v: bv64, w: bv64, i: nat)
    requires i < 8
    ensures ByteAt(Xor64(v, w), i) == ByteAt(v, i) ^ ByteAt(w, i)
    decreases i
  {
    hide Low8, Shr, Xor64;
    XorShift(v, w);
    if i > 0 {
      ByteXor(Shr(v), Shr(w), i - 1);
    }
  }

  lemma StXor(v: bv64, w: bv64)
    ensures St64(Xor64(v, w)) == Xor(St64(v), St64(w))
  {
    hide ByteAt, Xor64;
    forall i | 0 <= i < 8 ensures St64(Xor64(v, w))[i] == Xor(St64(v), St64(w))[i] {
      ByteXor(v, w, i);
    }
  }

  function Bswap64(v: bv64): bv64 {
    ((v & 0xFF00_0000_0000_0000) >> 56) | ((v & 0x00FF_0000_0000_0000) >> 40)
    | ((v & 0x0000_FF00_0000_0000) >> 24) | ((v & 0x0000_00FF_0000_0000) >> 8)
    | ((v & 0x0000_0000_FF00_0000) << 8) | ((v & 0x0000_0000_00FF_0000) << 24)
    | ((v & 0x0000_0000_0000_FF00) << 40) | ((v & 0x0000_0000_0000_00FF) << 56)
  }

  /** [w]_64 of the standards: the word as 8 bytes, most significant first. */
  function BigEndian(w: bv64): (b: Bytes)
    ensures |b| == 8
  {
    seq(8, i requires 0 <= i < 8 => ByteAt(w, 7 - i))
  }

  lemma BswapBigEndian(w: bv64)
    ensures St64(Bswap64(w)) == BigEndian(w)
  {
    hide ByteAt;
    EightBytes(w);
    EightBytes(Bswap64(w));
  }

  lemma BswapTwice(w: bv64)
    ensures Bswap64(Bswap64(w)) == w
  {
  }

  // ---------- counters

  /** All bytes behind j are 0xFF. */
  predicate OnesAfter(b: Bytes, j: int) {
    forall i :: 0 <= i < |b| && j < i ==> b[i] == 0xFF
  }

  /** The big-endian number in the last k bytes plus one, without a carry out of them. */
  function Inc(b: Bytes, k: nat): (r: Bytes)
    requires k <= |b|
    ensures |r| == |b|
  {
    seq(|b|, j requires 0 <= j < |b| => if j >= |b| - k && OnesAfter(b, j) then b[j] + 1 else b[j])
  }

  function Nat(x: bv8): nat {
    x as nat
  }

  /** A big-endian number. */
  function Value(b: Bytes): nat {
    if b == [] then 0 else 256 * Value(b[..|b| - 1]) + Nat(b[|b| - 1])
  }

  lemma NextByte(x: bv8)
    ensures Nat(x + 1) == if x == 0xFF then 0 else Nat(x) + 1
    ensures Nat(x) < 256 && (Nat(x) == 255 <==> x == 0xFF)
  {
  }

  lemma IncLast(b: Bytes, k: nat)
    requires 0 < k <= |b|
    ensures var n, r := |b|, Inc(b, k);
      && r[n - 1] == b[n - 1] + 1
      && r[..n - 1] == if b[n - 1] == 0xFF then Inc(b[..n - 1], k - 1) else b[..n - 1]
  {
    var n, c := |b|, b[..|b| - 1];
    forall j | 0 <= j < n - 1 ensures OnesAfter(b, j) <==> b[n - 1] == 0xFF && OnesAfter(c, j) {
      if OnesAfter(b, j) {
        assert forall i :: 0 <= i < |c| ==> c[i] == b[i];
      }
    }
  }

  lemma ValueLast(b: Bytes, k: nat)
    requires 0 < k <= |b|
    ensures var n := |b|;
      && Value(b[n - k..]) == 256 * Value(b[..n - 1][n - k..]) + Nat(b[n - 1])
      && b[..n - 1][..n - k] == b[..n - k]
  {
    assert b[|b| - k..][..k - 1] == b[..|b| - 1][|b| - k..];
  }

  /** Inc is what the standards call it: the number plus one, modulo 256^k. */
  lemma PowStep(k: nat)
    ensures if k == 0 then Pow256(k) == 1 && Value([]) == 0 else Pow256(k) == 256 * Pow256(k - 1)
  {
  }

  /** A number with a last digit: it is the greatest exactly when its parts are. */
  lemma Carry(v: nat, last: nat, p: nat)
    requires v < p && last < 256
    ensures 256 * v + last < 256 * p
    ensures 256 * v + last == 256 * p - 1 <==> v == p - 1 && last == 255
  {
  }

  lemma {:induction false} IncValue(b: Bytes, k: nat)
    requires k <= |b|
    ensures Inc(b, k)[..|b| - k] == b[..|b| - k]
    ensures Value(b[|b| - k..]) < Pow256(k)
    ensures Value(Inc(b, k)[|b| - k..]) == if Value(b[|b| - k..]) == Pow256(k) - 1 then 0 else Value(b[|b| - k..]) + 1
  {
    hide Inc, Nat, Value, Pow256;
    PowStep(k);
    var n := |b|;
    if k > 0 {
      IncLast(b, k);
      NextByte(b[n - 1]);
      IncValue(b[..n - 1], k - 1);
      ValueLast(b, k);
      ValueLast(Inc(b, k), k);
      var c := b[..n - 1];
      assert c[|c| - (k - 1)..] == c[n - k..] && Inc(c, k - 1)[|c| - (k - 1)..] == Inc(c, k - 1)[n - k..];
      Carry(Value(c[n - k..]), Nat(b[n - 1]), Pow256(k - 1));
    } else {
      IncNone(b);
      assert b[n..] == [] == Inc(b, 0)[n..];
    }
  }

  lemma IncNone(b: Bytes)
    ensures Inc(b, 0) == b
  {
  }

  /** The low i bytes are all 0xFF. */
  predicate LowOnes(v: bv64, i: nat)
    requires i <= 8
  {
    forall j :: 0 <= j < i ==> ByteAt(v, j) == 0xFF
  }

  function Succ(v: bv64): bv64 {
    v + 1
  }

  lemma SumShift(v: bv64)
    ensures Low8(Succ(v)) == Low8(v) + 1
    ensures v != 0xFFFF_FFFF_FFFF_FFFF ==> Shr(Succ(v)) == if Low8(v) == 0xFF then Succ(Shr(v)) else Shr(v)
    ensures Shr(v) != 0xFFFF_FFFF_FFFF_FFFF
  {
  }

  lemma OnesBytes(i: nat)
    requires i < 8
    ensures ByteAt(0xFFFF_FFFF_FFFF_FFFF, i) == 0xFF && ByteAt(Succ(0xFFFF_FFFF_FFFF_FFFF), i) == 0
  {
    hide ByteAt;
    EightBytes(0xFFFF_FFFF_FFFF_FFFF);
    EightBytes(0);
  }

  /** Byte i of v + 1: a carry comes out of lower bytes that are all 0xFF. */
  lemma {:induction false} SumByte(v: bv64, i: nat)
    requires i < 8
    ensures ByteAt(Succ(v), i) == if LowOnes(v, i) then ByteAt(v, i) + 1 else ByteAt(v, i)
    decreases i
  {
    hide Low8, Shr, Succ;
    SumShift(v);
    if v == 0xFFFF_FFFF_FFFF_FFFF {
      forall j | 0 <= j < 8 ensures ByteAt(v, j) == 0xFF && ByteAt(Succ(v), j) == 0 { OnesBytes(j); }
    } else if i > 0 {
      SumByte(Shr(v), i - 1);
      LowOnesShift(v, i);
    }
  }

  lemma LowOnesShift(v: bv64, i: nat)
    requires 0 < i < 8
    ensures LowOnes(v, i) <==> Low8(v) == 0xFF && LowOnes(Shr(v), i - 1)
  {
    hide Low8, Shr;
    assert ByteAt(v, 0) == Low8(v);
    assert forall j :: 0 < j < i ==> ByteAt(v, j) == ByteAt(Shr(v), j - 1);
    if LowOnes(v, i) {
      assert ByteAt(v, 0) == 0xFF;
      forall j | 0 <= j < i - 1 ensures ByteAt(Shr(v), j) == 0xFF { assert ByteAt(v, j + 1) == 0xFF; }
    }
  }

  /** Adding one to the byte-swapped word counts in big-endian bytes. */
  lemma BigEndianInc(v: bv64)
    ensures BigEndian(Succ(v)) == Inc(BigEndian(v), 8)
    ensures Succ(v) == 0 <==> OnesAfter(BigEndian(v), -1)
  {
    hide ByteAt, Succ;
    var b := BigEndian(v);
    forall j | 0 <= j < 8 ensures BigEndian(Succ(v))[j] == Inc(b, 8)[j] {
      SumByte(v, 7 - j);
      OnesOf(v, j);
    }
    OnesOf(v, -1);
    AllBytes(v);
  }

  lemma OnesOf(v: bv64, j: int)
    requires -1 <= j < 8
    ensures LowOnes(v, 7 - j) <==> OnesAfter(BigEndian(v), j)
  {
    hide ByteAt;
    var b := BigEndian(v);
    if OnesAfter(b, j) {
      forall i | 0 <= i < 7 - j ensures ByteAt(v, i) == 0xFF { assert b[7 - i] == 0xFF; }
    }
  }

  lemma AllBytes(v: bv64)
    ensures LowOnes(v, 8) <==> Succ(v) == 0
  {
    hide ByteAt;
    EightBytes(v);
    if LowOnes(v, 8) {
      assert ByteAt(v, 0) == ByteAt(v, 1) == ByteAt(v, 2) == ByteAt(v, 3) == 0xFF;
      assert ByteAt(v, 4) == ByteAt(v, 5) == ByteAt(v, 6) == ByteAt(v, 7) == 0xFF;
    }
  }
}
