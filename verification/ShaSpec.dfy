/** SHA-256's message padding and chaining (sections 5.1.1, 5.3.3 and 6.2 of FIPS 180-4) and HMAC
    (RFC 2104) over an arbitrary compression function. */
module ShaSpec {
  import opened Bits
  import opened GcmSpec

  type State = b: Bytes | |b| == 32 witness seq(32, i => 0)
  type Chunk = b: Bytes | |b| == 64 witness seq(64, i => 0)
  type Compression = (State, Chunk) -> State

  /** The initial hash value, as big-endian bytes. */
  const IV: State := [
    0x6a, 0x09, 0xe6, 0x67, 0xbb, 0x67, 0xae, 0x85, 0x3c, 0x6e, 0xf3, 0x72, 0xa5, 0x4f, 0xf5, 0x3a,
    0x51, 0x0e, 0x52, 0x7f, 0x9b, 0x05, 0x68, 0x8c, 0x1f, 0x83, 0xd9, 0xab, 0x5b, 0xe0, 0xcd, 0x19]

  /** Compresses the 64-byte blocks of x onto h, in order; a last part is left alone. */
  function Absorb(c: Compression, h: State, x: Bytes): State
    decreases |x|
  {
    if |x| < 64 then h else Absorb(c, c(h, x[..64]), x[64..])
  }

  lemma {:induction false} AbsorbConcat(c: Compression, h: State, x: Bytes, y: Bytes)
    requires |x| % 64 == 0
    ensures Absorb(c, h, x + y) == Absorb(c, Absorb(c, h, x), y)
    decreases |x|
  {
    if x == [] {
      assert x + y == y;
    } else {
      assert (x + y)[..64] == x[..64] && (x + y)[64..] == x[64..] + y;
      AbsorbConcat(c, c(h, x[..64]), x[64..], y);
    }
  }

  /** One bit, zeros up to 448 modulo 512 bits, and the length. */
  function Padding(n: nat): Bytes {
    [0x80] + Zeros((55 - n) % 64) + BigEndian(Bits64(n))
  }

  lemma ModSub(n: nat)
    ensures (55 - n) % 64 == if n % 64 < 56 then 55 - n % 64 else 119 - n % 64
  {
  }

  function Sha(c: Compression, m: Bytes): State {
    Absorb(c, IV, m + Padding(|m|))
  }

  /** Every byte of b xored with p. */
  function XorAll(b: Bytes, p: bv8): (r: Bytes)
    ensures |r| == |b|
  {
    seq(|b|, i requires 0 <= i < |b| => b[i] ^ p)
  }

  /** The key, hashed if it is longer than a block, and filled up with zeros. */
  function BlockKey(c: Compression, key: Bytes): Chunk {
    if |key| > 64 then Sha(c, key) + Zeros(32) else key + Zeros(64 - |key|)
  }

  function Hmac(c: Compression, key: Bytes, m: Bytes): State {
    var k0 := BlockKey(c, key);
    Sha(c, XorAll(k0, 0x5C) + Sha(c, XorAll(k0, 0x36) + m))
  }
}
