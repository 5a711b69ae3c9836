/** Counter mode and GCM as NIST SP 800-38A and SP 800-38D define them, over an arbitrary block
    cipher and an arbitrary product of blocks. */
module GcmSpec {
  import opened Bits

  type Cipher = Block -> Block
  type Product = (Block, Block) -> Block

  function Zeros(n: nat): (r: Bytes)
    ensures |r| == n
  {
    seq(n, i => 0)
  }

  function Pad16(x: Bytes): Block
    requires |x| <= 16
  {
    x + Zeros(16 - |x|)
  }

  /** A counter block one further, counting in its last k bytes. */
  function Next(cb: Block, k: nat): Block
    requires k <= 16
  {
    Inc(cb, k)
  }

  /** Counter mode from counter block cb on; the last block may be a part. */
  function Ctr(e: Cipher, k: nat, cb: Block, x: Bytes): (y: Bytes)
    requires k <= 16
    ensures |y| == |x|
    decreases |x|
  {
    if |x| < 16 then Xor(x, e(cb)[..|x|])
    else Xor(x[..16], e(cb)) + Ctr(e, k, Next(cb, k), x[16..])
  }

  /** The counter block behind those used for n bytes. */
  function CtrAfter(k: nat, cb: Block, n: nat): Block
    requires k <= 16
    decreases n
  {
    if n == 0 then cb else if n < 16 then Next(cb, k) else CtrAfter(k, Next(cb, k), n - 16)
  }

  /** Counter mode undoes itself. */
  lemma {:induction false} CtrTwice(e: Cipher, k: nat, cb: Block, x: Bytes)
    requires k <= 16
    ensures Ctr(e, k, cb, Ctr(e, k, cb, x)) == x
    decreases |x|
  {
    hide Xor, Next;
    var y := Ctr(e, k, cb, x);
    if |x| < 16 {
      XorTwice(x, e(cb)[..|x|]);
    } else {
      XorTwice(x[..16], e(cb));
      assert y[..16] == Xor(x[..16], e(cb));
      assert y[16..] == Ctr(e, k, Next(cb, k), x[16..]);
      CtrTwice(e, k, Next(cb, k), x[16..]);
      assert x == x[..16] + x[16..];
    }
  }

  /** The bytes as blocks, the last one filled up with zeros. */
  function Blocks(x: Bytes): seq<Block> {
    if |x| == 0 then [] else if |x| < 16 then [Pad16(x)] else [x[..16]] + Blocks(x[16..])
  }

  function Ghash(mul: Product, h: Block, y: Block, bs: seq<Block>): Block
    decreases bs
  {
    if bs == [] then y else Ghash(mul, h, mul(Xor(y, bs[0]), h), bs[1..])
  }

  lemma {:induction false} GhashConcat(mul: Product, h: Block, y: Block, a: seq<Block>, b: seq<Block>)
    ensures Ghash(mul, h, y, a + b) == Ghash(mul, h, Ghash(mul, h, y, a), b)
    decreases |a|
  {
    if a == [] {
      assert a + b == b;
    } else {
      assert (a + b)[1..] == a[1..] + b;
      GhashConcat(mul, h, mul(Xor(y, a[0]), h), a[1..], b);
    }
  }

  /** A length in bytes as a 64-bit count of bits. */
  function Bits64(n: nat): bv64 {
    ((n * 8) % 0x1_0000_0000_0000_0000) as bv64
  }

  function Lengths(a: nat, c: nat): Block {
    BigEndian(Bits64(a)) + BigEndian(Bits64(c))
  }

  type Iv = b: Bytes | |b| == 12 witness seq(12, i => 0)

  /** The pre-counter block of a 96-bit IV. */
  function J0(iv: Iv): Block {
    iv + [0, 0, 0, 1]
  }

  /** GCTR from inc32(J0) on: the ciphertext of a plaintext, and the other way round. */
  function Text(e: Cipher, iv: Iv, x: Bytes): (y: Bytes)
    ensures |y| == |x|
  {
    Ctr(e, 4, Next(J0(iv), 4), x)
  }

  /** The tag over the additional data and the ciphertext. */
  function Tag(e: Cipher, mul: Product, iv: Iv, aad: Bytes, c: Bytes): Block {
    Xor(Ghash(mul, e(Zeros(16)), Zeros(16), Blocks(aad) + Blocks(c) + [Lengths(|aad|, |c|)]), e(J0(iv)))
  }

  /** The tag from the parts the drivers have at hand. */
  lemma TagInParts(e: Cipher, mul: Product, iv: Iv, aad: Bytes, c: Bytes)
    ensures
      var h: Block := e(Zeros(16));
      var ya := Ghash(mul, h, Zeros(16), Blocks(aad));
      var yc := Ghash(mul, h, ya, Blocks(c));
      Tag(e, mul, iv, aad, c) == Xor(mul(Xor(yc, Lengths(|aad|, |c|)), h), e(J0(iv)))
  {
    hide Xor, Lengths, Blocks;
    var h: Block := e(Zeros(16));
    GhashConcat(mul, h, Zeros(16), Blocks(aad) + Blocks(c), [Lengths(|aad|, |c|)]);
    GhashConcat(mul, h, Zeros(16), Blocks(aad), Blocks(c));
  }
}
