/** The constants and layouts of the standards the crypto drivers follow, said as numbers: SP 800-38D,
    section 7.1, and FIPS 180-4, sections 5.1.1 and 5.3.3. */
module StandardLaws {
  import opened Basics
  import opened Bits
  import opened GcmSpec
  import opened ShaSpec

  /** The pre-counter block: the IV, and the 32-bit counter 1. */
  lemma J0Counts(iv: Iv)
    ensures J0(iv)[..12] == iv && Value(J0(iv)[12..]) == 1
  {
    var c: Bytes := [0, 0, 0, 1];
    assert J0(iv)[12..] == c;
    assert c[..3] == [0, 0, 0] && c[..3][..2] == [0, 0] && c[..3][..2][..1] == [0] && c[..3][..2][..1][..0] == [];
    assert Value(c[..3][..2][..1]) == 0;
    assert Value(c[..3][..2]) == 0;
    assert Value(c[..3]) == 0;
  }

  lemma BitCount(n: nat)
    ensures Bits64(n) == (n * 8 % 0x1_0000_0000_0000_0000) as bv64
  {
  }

  /** The length block: the bits of the additional data, then those of the text, each in 64 bits. */
  lemma LengthBlock(a: nat, c: nat)
    ensures Lengths(a, c)[..8] == BigEndian((a * 8 % 0x1_0000_0000_0000_0000) as bv64)
    ensures Lengths(a, c)[8..] == BigEndian((c * 8 % 0x1_0000_0000_0000_0000) as bv64)
  {
    hide BigEndian, Bits64;
    BitCount(a);
    BitCount(c);
  }

  /** The padding: a one bit, the fewest zeros that fill the last block up, and the length in bits. */
  lemma PaddedExactly(n: nat)
    ensures var p := Padding(n);
      && 9 <= |p| < 73 && (n + |p|) % 64 == 0 && p[0] == 0x80
      && p[|p| - 8..] == BigEndian((n * 8 % 0x1_0000_0000_0000_0000) as bv64)
      && forall i :: 1 <= i < |p| - 8 ==> p[i] == 0
  {
    hide BigEndian, Bits64;
    BitCount(n);
    FillsUp(n);
    var p, z := Padding(n), Zeros((55 - n) % 64);
    assert p == [0x80] + z + BigEndian(Bits64(n));
  }

  lemma FillsUp(n: nat)
    ensures 0 <= (55 - n) % 64 < 64 && (n + (9 + (55 - n) % 64)) % 64 == 0
  {
    ModSub(n);
    var q, r := n / 64, n % 64;
    var z := (55 - n) % 64;
    assert n + (9 + z) == 64 * q + (r + 9 + z);
    if r < 56 {
      ModIs(n + (9 + z), 64, q + 1, 0);
    } else {
      ModIs(n + (9 + z), 64, q + 2, 0);
    }
  }

  /** Word i of the initial hash value. */
  function IvWord(i: nat): nat
    requires i < 8
  {
    0x100_0000 * Nat(IV[4 * i]) + 0x1_0000 * Nat(IV[4 * i + 1]) + 0x100 * Nat(IV[4 * i + 2]) + Nat(IV[4 * i + 3])
  }

  /** w is the first 32 bits of the fractional part of the square root of p, whose integer part is s. */
  predicate RootBits(p: nat, s: nat, w: nat) {
    && s * s <= p < (s + 1) * (s + 1) && w < 0x1_0000_0000
    && var x := s * 0x1_0000_0000 + w; x * x <= p * 0x1_0000_0000_0000_0000 < (x + 1) * (x + 1)
  }

  lemma Joined(i: nat, a: bv8, b: bv8, c: bv8, d: bv8)
    requires i < 8 && IV[4 * i] == a && IV[4 * i + 1] == b && IV[4 * i + 2] == c && IV[4 * i + 3] == d
    ensures IvWord(i) == 0x100_0000 * Nat(a) + 0x1_0000 * Nat(b) + 0x100 * Nat(c) + Nat(d)
  {
    hide Nat;
  }

  lemma WordA()
    ensures IvWord(0) == 0x6a09_e667
  {
    hide IvWord;
    Joined(0, 0x6a, 0x09, 0xe6, 0x67);
  }

  lemma WordB()
    ensures IvWord(1) == 0xbb67_ae85
  {
    hide IvWord;
    Joined(1, 0xbb, 0x67, 0xae, 0x85);
  }

  lemma WordC()
    ensures IvWord(2) == 0x3c6e_f372
  {
    hide IvWord;
    Joined(2, 0x3c, 0x6e, 0xf3, 0x72);
  }

  lemma WordD()
    ensures IvWord(3) == 0xa54f_f53a
  {
    hide IvWord;
    Joined(3, 0xa5, 0x4f, 0xf5, 0x3a);
  }

  lemma WordE()
    ensures IvWord(4) == 0x510e_527f
  {
    hide IvWord;
    Joined(4, 0x51, 0x0e, 0x52, 0x7f);
  }

  lemma WordF()
    ensures IvWord(5) == 0x9b05_688c
  {
    hide IvWord;
    Joined(5, 0x9b, 0x05, 0x68, 0x8c);
  }

  lemma WordG()
    ensures IvWord(6) == 0x1f83_d9ab
  {
    hide IvWord;
    Joined(6, 0x1f, 0x83, 0xd9, 0xab);
  }

  lemma WordH()
    ensures IvWord(7) == 0x5be0_cd19
  {
    hide IvWord;
    Joined(7, 0x5b, 0xe0, 0xcd, 0x19);
  }

  /** The initial hash value comes from the first eight primes. */
  lemma IvIsRoots()
    ensures RootBits(2, 1, IvWord(0)) && RootBits(3, 1, IvWord(1)) && RootBits(5, 2, IvWord(2))
    ensures RootBits(7, 2, IvWord(3)) && RootBits(11, 3, IvWord(4)) && RootBits(13, 3, IvWord(5))
    ensures RootBits(17, 4, IvWord(6)) && RootBits(19, 4, IvWord(7))
  {
    hide IvWord;
    WordA();
    WordB();
    WordC();
    WordD();
    WordE();
    WordF();
    WordG();
    WordH();
  }
}
