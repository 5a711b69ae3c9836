/** AES-GCM on the AES block: one pass with the two units overlapped, two passes with counter
    mode, and two passes with ECB (src/crypto_hw.c, aes_gcm_encrypt, aes_gcm_decrypt). */
module AesGcm {
  import opened Basics
  import opened Bits
  import opened GcmSpec
  import opened AesUnit
  import opened AesDriver

  /** gcm_ghash_block. */
  method HashWords(dev: Aes, lo: bv64, hi: bv64)
    requires dev.gleft == 0
    modifies dev`x0, dev`x1, dev`tag0, dev`tag1, dev`gleft, dev`ops
    ensures dev.gleft == 0 && dev.Hash() == dev.mul(Xor(old(dev.Hash()), Pair(lo, hi)), dev.H())
  {
    hide Pair, Xor;
    dev.WriteX(lo, hi);
    dev.GoHash();
    WaitHash(dev);
  }

  method HashBlock(dev: Aes, b: Block)
    requires dev.gleft == 0
    modifies dev`x0, dev`x1, dev`tag0, dev`tag1, dev`gleft, dev`ops
    ensures dev.gleft == 0 && dev.Hash() == dev.mul(Xor(old(dev.Hash()), b), dev.H())
  {
    hide Pair, Ld64, Xor, Aes.Hash, Aes.H;
    PairLd(b);
    HashWords(dev, Ld64(b[..8]), Ld64(b[8..]));
  }

  lemma BlocksHead(x: Bytes)
    requires x != []
    ensures var n := if |x| >= 16 then 16 else |x|;
      Blocks(x) == [Pad16(x[..n])] + Blocks(x[n..])
  {
    if |x| >= 16 {
      assert Pad16(x[..16]) == x[..16];
    } else {
      assert x[..|x|] == x && x[|x|..] == [];
    }
  }

  lemma GhashHead(mul: Product, h: Block, y: Block, b: Block, bs: seq<Block>)
    ensures Ghash(mul, h, y, [b] + bs) == Ghash(mul, h, mul(Xor(y, b), h), bs)
  {
    assert ([b] + bs)[1..] == bs;
  }

  /** GHASH over bytes, block by block (ghash_block in a loop). */
  method HashBytes(dev: Aes, d: Bytes)
    requires dev.gleft == 0
    modifies dev`x0, dev`x1, dev`tag0, dev`tag1, dev`gleft, dev`ops
    ensures dev.gleft == 0 && dev.Hash() == Ghash(dev.mul, dev.H(), old(dev.Hash()), Blocks(d))
  {
    hide Pair, Xor, Ghash, Blocks, Pad16;
    ghost var goal := Ghash(dev.mul, dev.H(), dev.Hash(), Blocks(d));
    var off := 0;
    assert d[0..] == d;
    while off < |d|
      invariant off <= |d| && dev.gleft == 0
      invariant Ghash(dev.mul, dev.H(), dev.Hash(), Blocks(d[off..])) == goal
    {
      var n := if |d| - off >= 16 then 16 else |d| - off;
      BlocksHead(d[off..]);
      assert d[off..][..n] == d[off..off + n] && d[off..][n..] == d[off + n..];
      GhashHead(dev.mul, dev.H(), dev.Hash(), Pad16(d[off..off + n]), Blocks(d[off + n..]));
      HashBlock(dev, Pad16(d[off..off + n]));
      off := off + n;
    }
    NoBlocks(dev.mul, dev.H(), dev.Hash(), d[off..]);
  }

  lemma NoBlocks(mul: Product, h: Block, y: Block, d: Bytes)
    requires d == []
    ensures Ghash(mul, h, y, Blocks(d)) == y
  {
  }

  /** Counter mode of zeros is the keystream. */
  lemma XorZeros(b: Block)
    ensures Xor(Zeros(16), b) == b
  {
    forall i | 0 <= i < 16 ensures Xor(Zeros(16), b)[i] == b[i] {
      assert 0 as bv8 ^ b[i] == b[i];
    }
  }

  /** H = E(0), by ECB. */
  method LoadH(dev: Aes)
    requires dev.left == 0 && dev.gleft == 0 && !dev.modeCtr
    modifies dev`in0, dev`in1, dev`out0, dev`out1, dev`ctr0, dev`ctr1, dev`left, dev`done, dev`ops, dev`h0, dev`h1
    ensures dev.left == 0 && dev.H() == dev.e(Zeros(16))
  {
    hide Pair;
    var lo, hi := EncryptBlock(dev, 0, 0);
    ZeroPair();
    dev.WriteH(lo, hi);
  }

  /** The first half of gcm_ctr_setup: H, and the hash of the additional data. */
  method SetupHash(dev: Aes, aad: Bytes)
    requires dev.left == 0 && dev.gleft == 0 && !dev.modeCtr
    modifies dev`in0, dev`in1, dev`out0, dev`out1, dev`ctr0, dev`ctr1, dev`left, dev`done, dev`ops
    modifies dev`h0, dev`h1, dev`x0, dev`x1, dev`tag0, dev`tag1, dev`gleft
    ensures dev.left == 0 && dev.gleft == 0
    ensures dev.H() == dev.e(Zeros(16)) && dev.Hash() == Ghash(dev.mul, dev.H(), Zeros(16), Blocks(aad))
  {
    hide Pair, Ghash, Blocks, Zeros, Aes.Hash, Aes.H;
    LoadH(dev);
    dev.ResetHash();
    HashBytes(dev, aad);
  }

  /** The second half: E(J0) as a counter block of zeros. */
  method SetupMask(dev: Aes, j0: Block) returns (m0: bv64, m1: bv64)
    requires dev.left == 0
    modifies dev`in0, dev`in1, dev`out0, dev`out1, dev`ctr0, dev`ctr1, dev`left, dev`done, dev`ops
    modifies dev`modeCtr, dev`modeInc32
    ensures dev.left == 0 && dev.modeCtr && dev.modeInc32
    ensures Pair(m0, m1) == dev.e(j0) && dev.Counter() == Next(j0, 4)
  {
    hide Pair, Ld64, Xor, Next, Zeros;
    PairLd(j0);
    dev.WriteCtr(Ld64(j0[..8]), Ld64(j0[8..]));
    dev.WriteMode(true, true);
    XorZeros(dev.e(j0));
    FeedBlock(dev, Zeros(16));
    WaitOut(dev);
    m0, m1 := dev.ReadOut();
  }

  /** gcm_ctr_setup: counter mode is on, with J0 + 1 next. */
  method Setup(dev: Aes, iv: Iv, aad: Bytes) returns (m0: bv64, m1: bv64)
    requires dev.gleft == 0
    modifies dev
    ensures dev.left == 0 && dev.gleft == 0 && dev.modeCtr && dev.modeInc32
    ensures Pair(m0, m1) == dev.e(J0(iv)) && dev.Counter() == Next(J0(iv), 4)
    ensures dev.H() == dev.e(Zeros(16)) && dev.Hash() == Ghash(dev.mul, dev.H(), Zeros(16), Blocks(aad))
  {
    hide Pair, Next, Ghash, Blocks, J0, Zeros, Aes.Hash, Aes.H, Aes.Counter;
    Wait(dev);
    dev.WriteMode(false, false);
    SetupHash(dev, aad);
    m0, m1 := SetupMask(dev, J0(iv));
  }

  // ---------- one pass

  /** What GHASH is fed with: the ciphertext, which is the input when decrypting. */
  function Hashed(dec: bool, e: Cipher, cb: Block, x: Bytes): Bytes {
    if dec then x else Ctr(e, 4, cb, x)
  }

  /** What GHASH has still to absorb: a ciphertext block it owes, then the rest. */
  function Owed(pending: bool, p: Block, rest: seq<Block>): seq<Block> {
    if pending then [p] + rest else rest
  }

  /** One block further: when decrypting the input block is absorbed at once, when encrypting the
      block owed from before, and the new one is owed. */
  lemma OwedStep(mul: Product, h: Block, y: Block, dec: bool, e: Cipher, cb: Block, x: Bytes, pending: bool, p: Block)
    requires |x| >= 16 && (dec ==> !pending)
    ensures
      var b: Block, o: Block := x[..16], Xor(x[..16], e(cb));
      var y' := if dec then mul(Xor(y, b), h) else if pending then mul(Xor(y, p), h) else y;
      Ghash(mul, h, y, Owed(pending, p, Blocks(Hashed(dec, e, cb, x))))
        == Ghash(mul, h, y', Owed(!dec, o, Blocks(Hashed(dec, e, Next(cb, 4), x[16..]))))
  {
    hide Xor, Next;
    var b: Block, o: Block := x[..16], Xor(x[..16], e(cb));
    var c := Hashed(dec, e, cb, x);
    assert c[..16] == (if dec then b else o) && c[16..] == Hashed(dec, e, Next(cb, 4), x[16..]);
    assert Blocks(c) == [c[..16]] + Blocks(c[16..]);
    if dec {
      GhashHead(mul, h, y, b, Blocks(c[16..]));
    } else if pending {
      GhashHead(mul, h, y, p, Blocks(c));
    }
  }

  /** Starts GHASH on a block once it is idle, and does not wait for it. */
  method StartHash(dev: Aes, lo: bv64, hi: bv64)
    modifies dev`x0, dev`x1, dev`tag0, dev`tag1, dev`gleft, dev`ops
    ensures dev.Hash() == dev.mul(Xor(old(dev.Hash()), Pair(lo, hi)), dev.H())
  {
    hide Pair, Xor;
    WaitHash(dev);
    dev.WriteX(lo, hi);
    dev.GoHash();
  }

  /** One round of gcm_ctr_ghash: the AES unit works on a block while GHASH absorbs one. */
  method GcmRound(dev: Aes, inp: array<bv8>, out: array<bv8>, off: nat, dec: bool, pending: bool, p0: bv64, p1: bv64)
    returns (q0: bv64, q1: bv64)
    requires dev.left == 0 && dev.modeCtr && dev.modeInc32 && off + 16 <= inp.Length == out.Length
    requires dec ==> !pending
    modifies dev`in0, dev`in1, dev`out0, dev`out1, dev`ctr0, dev`ctr1, dev`left, dev`done, dev`ops, out
    modifies dev`x0, dev`x1, dev`tag0, dev`tag1, dev`gleft
    ensures dev.left == 0 && dev.Counter() == Next(old(dev.Counter()), 4)
    ensures
      var b: Block, o: Block := old(inp[off..off + 16]), Xor(old(inp[off..off + 16]), dev.e(old(dev.Counter())));
      && out[..] == Put(old(out[..]), off, o)
      && (!dec ==> Pair(q0, q1) == o)
      && dev.Hash() ==
          if dec then dev.mul(Xor(old(dev.Hash()), b), dev.H())
          else if pending then dev.mul(Xor(old(dev.Hash()), Pair(p0, p1)), dev.H()) else old(dev.Hash())
  {
    hide Pair, Xor, Next, Put, Ld64, Aes.Counter, Aes.Hash, Aes.H;
    var b := inp[off..off + 16];
    PairLd(b);
    FeedBlock(dev, b);
    q0, q1 := p0, p1;
    if dec {
      q0, q1 := Ld64(b[..8]), Ld64(b[8..]);
    }
    if dec || pending {
      StartHash(dev, q0, q1);
    }
    WaitOut(dev);
    var o0, o1 := dev.ReadOut();
    StoreBlock(out, off, o0, o1);
    if !dec {
      q0, q1 := o0, o1;
    }
  }

  /** Counter mode is through with y, GHASH has absorbed all of the ciphertext but a block it may
      owe; goal is the hash of the whole. */
  ghost predicate OnePass(mul: Product, h: Block, hash: Block, goal: Block, dec: bool, e: Cipher, cb: Block, x: Bytes,
                          n: nat, pending: bool, p: Block) {
    && n <= |x| && (dec ==> !pending)
    && Ghash(mul, h, hash, Owed(pending, p, Blocks(Hashed(dec, e, cb, x[n..])))) == goal
  }

  lemma OnePassStart(mul: Product, h: Block, hash: Block, dec: bool, e: Cipher, cb: Block, x: Bytes, p: Block)
    ensures OnePass(mul, h, hash, Ghash(mul, h, hash, Blocks(Hashed(dec, e, cb, x))), dec, e, cb, x, 0, false, p)
  {
    assert x[0..] == x;
  }

  lemma OnePassStep(mul: Product, h: Block, y: Block, goal: Block, dec: bool, e: Cipher, cb: Block, x: Bytes, n: nat,
                    pending: bool, p: Block, q: Block)
    requires OnePass(mul, h, y, goal, dec, e, cb, x, n, pending, p) && n + 16 <= |x|
    requires !dec ==> q == Xor(x[n..n + 16], e(cb))
    ensures
      var b: Block := x[n..n + 16];
      var y' := if dec then mul(Xor(y, b), h) else if pending then mul(Xor(y, p), h) else y;
      OnePass(mul, h, y', goal, dec, e, Next(cb, 4), x, n + 16, !dec, q)
  {
    hide Xor, Next, Ghash, Hashed, Blocks;
    assert x[n..][..16] == x[n..n + 16] && x[n..][16..] == x[n + 16..];
    OwedStep(mul, h, y, dec, e, cb, x[n..], pending, p);
  }

  /** The full blocks of gcm_ctr_ghash. */
  method GcmBlocks(dev: Aes, inp: array<bv8>, out: array<bv8>, dec: bool)
    returns (off: nat, pending: bool, p0: bv64, p1: bv64)
    requires dev.left == 0 && dev.modeCtr && dev.modeInc32 && inp.Length == out.Length
    modifies dev`in0, dev`in1, dev`out0, dev`out1, dev`ctr0, dev`ctr1, dev`left, dev`done, dev`ops, out
    modifies dev`x0, dev`x1, dev`tag0, dev`tag1, dev`gleft
    ensures dev.left == 0 && off <= inp.Length < off + 16 && inp[off..] == old(inp[off..])
    ensures Through(dev.e, 4, old(dev.Counter()), old(inp[..]), out[..off], dev.Counter())
    ensures OnePass(dev.mul, dev.H(), dev.Hash(),
      Ghash(dev.mul, dev.H(), old(dev.Hash()), Blocks(Hashed(dec, dev.e, old(dev.Counter()), old(inp[..])))),
      dec, dev.e, dev.Counter(), old(inp[..]), off, pending, Pair(p0, p1))
  {
    hide Pair, Xor, Next, Put, Through, OnePass, Ghash, Blocks, Hashed, Aes.Counter, Aes.Hash, Aes.H;
    off, pending, p0, p1 := 0, false, 0, 0;
    ghost var x, cb0 := inp[..], dev.Counter();
    ghost var goal := Ghash(dev.mul, dev.H(), dev.Hash(), Blocks(Hashed(dec, dev.e, cb0, x)));
    ThroughStart(dev.e, 4, cb0, x);
    OnePassStart(dev.mul, dev.H(), dev.Hash(), dec, dev.e, cb0, x, Pair(p0, p1));
    while inp.Length - off >= 16
      invariant dev.left == 0 && off <= inp.Length && inp[off..] == x[off..]
      invariant Through(dev.e, 4, cb0, x, out[..off], dev.Counter())
      invariant OnePass(dev.mul, dev.H(), dev.Hash(), goal, dec, dev.e, dev.Counter(), x, off, pending, Pair(p0, p1))
    {
      off, pending, p0, p1 := GcmNext(dev, inp, out, off, dec, pending, p0, p1, x, cb0, goal);
    }
  }

  /** One round keeps what the loop has done so far. */
  method GcmNext(dev: Aes, inp: array<bv8>, out: array<bv8>, n: nat, dec: bool, pending: bool, p0: bv64, p1: bv64,
                 ghost x: Bytes, ghost cb0: Block, ghost goal: Block)
    returns (off: nat, pending': bool, q0: bv64, q1: bv64)
    requires dev.left == 0 && dev.modeCtr && dev.modeInc32 && n + 16 <= inp.Length == out.Length == |x|
    requires inp[n..] == x[n..] && Through(dev.e, 4, cb0, x, out[..n], dev.Counter())
    requires OnePass(dev.mul, dev.H(), dev.Hash(), goal, dec, dev.e, dev.Counter(), x, n, pending, Pair(p0, p1))
    modifies dev`in0, dev`in1, dev`out0, dev`out1, dev`ctr0, dev`ctr1, dev`left, dev`done, dev`ops, out
    modifies dev`x0, dev`x1, dev`tag0, dev`tag1, dev`gleft
    ensures dev.left == 0 && off == n + 16 && inp[off..] == x[off..]
    ensures Through(dev.e, 4, cb0, x, out[..off], dev.Counter())
    ensures OnePass(dev.mul, dev.H(), dev.Hash(), goal, dec, dev.e, dev.Counter(), x, off, pending', Pair(q0, q1))
  {
    hide Pair, Xor, Next, Put, Through, Ghash, Blocks, Hashed, Aes.Counter, Aes.Hash, Aes.H;
    ghost var o, cb, y := out[..], dev.Counter(), dev.Hash();
    ghost var b := Xor(x[n..n + 16], dev.e(cb));
    assert inp[n..n + 16] == inp[n..][..16] == x[n..n + 16];
    q0, q1 := GcmRound(dev, inp, out, n, dec, pending, p0, p1);
    ThroughStep(dev.e, 4, cb0, x, o[..n], cb);
    OnePassStep(dev.mul, dev.H(), y, goal, dec, dev.e, cb, x, n, pending, Pair(p0, p1), Pair(q0, q1));
    PatchNext(o, n, b);
    assert inp[n + 16..] == x[n + 16..];
    off, pending' := n + 16, !dec;
  }

  /** Behind the full blocks: the block still owed, then the last part, padded. */
  lemma OnePassEnd(mul: Product, h: Block, y: Block, goal: Block, dec: bool, e: Cipher, cb: Block, x: Bytes, n: nat,
                   pending: bool, p: Block)
    requires OnePass(mul, h, y, goal, dec, e, cb, x, n, pending, p) && |x| < n + 16
    ensures
      var y' := if pending then mul(Xor(y, p), h) else y;
      var t := x[n..];
      var c := if dec then t else Xor(t, e(cb)[..|t|]);
      goal == if t == [] then y' else mul(Xor(y', Pad16(c)), h)
  {
    hide Pad16;
    var y' := if pending then mul(Xor(y, p), h) else y;
    var t := x[n..];
    var bs := Blocks(Hashed(dec, e, cb, t));
    if pending {
      GhashHead(mul, h, y, p, bs);
    }
    if t != [] {
      var c := Hashed(dec, e, cb, t);
      assert bs == [Pad16(c)] + [];
      GhashHead(mul, h, y', Pad16(c), []);
    }
  }

  /** The last part of gcm_ctr_ghash: less than a block. */
  method GcmTail(dev: Aes, inp: array<bv8>, out: array<bv8>, off: nat, dec: bool)
    requires dev.left == 0 && dev.modeCtr && dev.modeInc32 && inp.Length == out.Length && off < inp.Length < off + 16
    modifies dev`in0, dev`in1, dev`out0, dev`out1, dev`ctr0, dev`ctr1, dev`left, dev`done, dev`ops, out
    modifies dev`x0, dev`x1, dev`tag0, dev`tag1, dev`gleft
    ensures dev.left == 0
    ensures
      var t := old(inp[off..]);
      var o := Xor(t, dev.e(old(dev.Counter()))[..|t|]);
      && out[..] == old(out[..off]) + o
      && dev.Hash() == dev.mul(Xor(old(dev.Hash()), Pad16(if dec then t else o)), dev.H())
  {
    hide Pair, Xor, Next, Pad16, Aes.Hash, Aes.H;
    var t := inp[off..];
    PadXor(t, dev.e(dev.Counter()));
    FeedBlock(dev, Pad16(t));
    WaitOut(dev);
    var lo, hi := dev.ReadOut();
    var o := Pair(lo, hi)[..|t|];
    CopyOut(out, off, o);
    WaitHash(dev);
    HashBlock(dev, Pad16(if dec then t else o));
  }

  /** gcm_ctr_ghash. */
  method CtrAndHash(dev: Aes, inp: array<bv8>, out: array<bv8>, dec: bool)
    requires dev.left == 0 && dev.modeCtr && dev.modeInc32 && inp.Length == out.Length
    modifies dev`in0, dev`in1, dev`out0, dev`out1, dev`ctr0, dev`ctr1, dev`left, dev`done, dev`ops, out
    modifies dev`x0, dev`x1, dev`tag0, dev`tag1, dev`gleft, dev`modeCtr, dev`modeInc32
    ensures dev.Quiet()
    ensures out[..] == Ctr(dev.e, 4, old(dev.Counter()), old(inp[..]))
    ensures dev.Hash() ==
      Ghash(dev.mul, dev.H(), old(dev.Hash()), Blocks(Hashed(dec, dev.e, old(dev.Counter()), old(inp[..]))))
  {
    hide Pair, Xor, Next, Through, OnePass, Ghash, Blocks, Hashed, Pad16, Ctr, Aes.Counter, Aes.Hash, Aes.H;
    ghost var x, cb0, y0 := inp[..], dev.Counter(), dev.Hash();
    var off, pending, p0, p1 := GcmBlocks(dev, inp, out, dec);
    ThroughEnd(dev.e, 4, cb0, x, out[..off], dev.Counter());
    OnePassEnd(dev.mul, dev.H(), dev.Hash(), Ghash(dev.mul, dev.H(), y0, Blocks(Hashed(dec, dev.e, cb0, x))), dec,
      dev.e, dev.Counter(), x, off, pending, Pair(p0, p1));
    if pending {
      StartHash(dev, p0, p1);
    }
    if off < inp.Length {
      GcmTail(dev, inp, out, off, dec);
    } else {
      assert out[..] == out[..off];
    }
    WaitHash(dev);
    dev.WriteMode(false, false);
  }

  lemma LengthsPair(a: nat, c: nat)
    ensures Pair(Bswap64(Bits64(a)), Bswap64(Bits64(c))) == Lengths(a, c)
  {
    hide Bswap64, BigEndian, St64, Bits64;
    BswapBigEndian(Bits64(a));
    BswapBigEndian(Bits64(c));
  }

  /** gcm_ctr_tag. */
  method FinishTag(dev: Aes, a: nat, c: nat, m0: bv64, m1: bv64) returns (tag: Block)
    requires dev.gleft == 0
    modifies dev`x0, dev`x1, dev`tag0, dev`tag1, dev`gleft, dev`ops
    ensures dev.gleft == 0
    ensures tag == Xor(dev.mul(Xor(old(dev.Hash()), Lengths(a, c)), dev.H()), Pair(m0, m1))
  {
    hide Pair, Xor, Bswap64, Lengths, Bits64, Xor64, Aes.Hash, Aes.H;
    LengthsPair(a, c);
    HashWords(dev, Bswap64(Bits64(a)), Bswap64(Bits64(c)));
    var t0, t1 := dev.ReadTag();
    PairXor(t0, t1, m0, m1);
    tag := Pair(Xor64(t0, m0), Xor64(t1, m1));
  }

  // ---------- two passes

  /** The start of the two-pass forms: H, the tag mask by ECB, and the hash of the additional data. */
  method TwoPassStart(dev: Aes, iv: Iv, aad: Bytes) returns (m0: bv64, m1: bv64)
    requires dev.Quiet()
    modifies dev`in0, dev`in1, dev`out0, dev`out1, dev`ctr0, dev`ctr1, dev`left, dev`done, dev`ops
    modifies dev`h0, dev`h1, dev`x0, dev`x1, dev`tag0, dev`tag1, dev`gleft
    ensures dev.Quiet() && Pair(m0, m1) == dev.e(J0(iv))
    ensures dev.H() == dev.e(Zeros(16)) && dev.Hash() == Ghash(dev.mul, dev.H(), Zeros(16), Blocks(aad))
  {
    hide Pair, Ld64, Ghash, Blocks, Zeros, J0, Aes.Hash, Aes.H;
    LoadH(dev);
    var j0 := J0(iv);
    PairLd(j0);
    m0, m1 := EncryptBlock(dev, Ld64(j0[..8]), Ld64(j0[8..]));
    dev.ResetHash();
    HashBytes(dev, aad);
  }

  /** A block or less at the front. */
  lemma CtrHead(e: Cipher, k: nat, cb: Block, t: Bytes)
    requires k <= 16 && t != []
    ensures var n := if |t| >= 16 then 16 else |t|;
      Ctr(e, k, cb, t) == Xor(t[..n], e(cb)[..n]) + Ctr(e, k, Next(cb, k), t[n..])
  {
    hide Xor, Next;
    if |t| >= 16 {
      assert e(cb)[..16] == e(cb);
    } else {
      assert t[..|t|] == t && t[|t|..] == [];
      assert Ctr(e, k, Next(cb, k), []) == [];
    }
  }

  /** y is done of Ctr(x), and cb is next; hash absorbs what is done when hashing. */
  ghost predicate ByEcb(e: Cipher, mul: Product, h: Block, cb0: Block, x: Bytes, y: Bytes, cb: Block, hashing: bool,
                        hash: Block, goal: Block) {
    && |y| <= |x|
    && y + Ctr(e, 4, cb, x[|y|..]) == Ctr(e, 4, cb0, x)
    && (hashing ==> Ghash(mul, h, hash, Blocks(Ctr(e, 4, cb, x[|y|..]))) == goal)
  }

  lemma ByEcbStart(e: Cipher, mul: Product, h: Block, cb0: Block, x: Bytes, hashing: bool, hash: Block)
    ensures ByEcb(e, mul, h, cb0, x, [], cb0, hashing, hash, Ghash(mul, h, hash, Blocks(Ctr(e, 4, cb0, x))))
  {
    assert x[0..] == x;
    assert [] + Ctr(e, 4, cb0, x) == Ctr(e, 4, cb0, x);
  }

  lemma ByEcbStep(e: Cipher, mul: Product, h: Block, cb0: Block, x: Bytes, y: Bytes, cb: Block, hashing: bool,
                  hash: Block, goal: Block)
    requires ByEcb(e, mul, h, cb0, x, y, cb, hashing, hash, goal) && |y| < |x|
    ensures
      var n := if |x| - |y| >= 16 then 16 else |x| - |y|;
      var o := Xor(x[|y|..|y| + n], e(cb)[..n]);
      ByEcb(e, mul, h, cb0, x, y + o, Next(cb, 4), hashing, mul(Xor(hash, Pad16(o)), h), goal)
  {
    hide Xor, Next, Ctr, Blocks, Ghash, Pad16;
    var n := if |x| - |y| >= 16 then 16 else |x| - |y|;
    var t := x[|y|..];
    assert t[..n] == x[|y|..|y| + n] && t[n..] == x[|y| + n..];
    var o := Xor(t[..n], e(cb)[..n]);
    CtrHead(e, 4, cb, t);
    var c := Ctr(e, 4, cb, t);
    var rest := Ctr(e, 4, Next(cb, 4), t[n..]);
    assert c[..n] == o && c[n..] == rest;
    BlocksHead(c);
    GhashHead(mul, h, hash, Pad16(o), Blocks(rest));
    assert (y + o) + rest == y + (o + rest);
  }

  lemma ByEcbEnd(e: Cipher, mul: Product, h: Block, cb0: Block, x: Bytes, y: Bytes, cb: Block, hashing: bool,
                 hash: Block, goal: Block)
    requires ByEcb(e, mul, h, cb0, x, y, cb, hashing, hash, goal) && |y| == |x|
    ensures y == Ctr(e, 4, cb0, x) && (hashing ==> hash == goal)
  {
    assert x[|y|..] == [];
    assert y + [] == y;
  }

  /** One round of the ECB form: counts, encrypts the counter, and xors up to a block. */
  method EcbRound(dev: Aes, ctr: array<bv8>, inp: array<bv8>, out: array<bv8>, off: nat) returns (n: nat, o: Bytes)
    requires dev.left == 0 && !dev.modeCtr && ctr.Length == 16
    requires ctr != out && ctr != inp && off < inp.Length == out.Length
    modifies dev`in0, dev`in1, dev`out0, dev`out1, dev`ctr0, dev`ctr1, dev`left, dev`done, dev`ops, out, ctr
    ensures dev.left == 0 && ctr[..] == Next(old(ctr[..]), 4)
    ensures n == if inp.Length - off >= 16 then 16 else inp.Length - off
    ensures o == Xor(old(inp[off..off + n]), dev.e(ctr[..])[..n]) && out[..] == Put(old(out[..]), off, o)
  {
    hide Pair, Xor, Next, Put, Ld64, Pad16, Xor64;
    CtrInc(ctr);
    PairLd(ctr[..]);
    assert ctr[..][..8] == ctr[..8] && ctr[..][8..] == ctr[8..];
    var ksLo, ksHi := EncryptBlock(dev, Ld64(ctr[..8]), Ld64(ctr[8..]));
    n := if inp.Length - off >= 16 then 16 else inp.Length - off;
    var t := inp[off..off + n];
    var blk := Pad16(t);
    PairLd(blk);
    PairXor(Ld64(blk[..8]), Ld64(blk[8..]), ksLo, ksHi);
    PadXor(t, Pair(ksLo, ksHi));
    o := Pair(Xor64(Ld64(blk[..8]), ksLo), Xor64(Ld64(blk[8..]), ksHi))[..n];
    CopyOut(out, off, o);
  }

  /** One round keeps what the loop has done so far. */
  method EcbNext(dev: Aes, ctr: array<bv8>, inp: array<bv8>, out: array<bv8>, off: nat, hashing: bool,
                 ghost x: Bytes, ghost cb0: Block, ghost goal: Block) returns (off': nat)
    requires dev.Quiet() && ctr.Length == 16 && ctr != out && ctr != inp && off < inp.Length == out.Length == |x|
    requires inp[off..] == x[off..]
    requires ByEcb(dev.e, dev.mul, dev.H(), cb0, x, out[..off], Next(ctr[..], 4), hashing, dev.Hash(), goal)
    modifies dev`in0, dev`in1, dev`out0, dev`out1, dev`ctr0, dev`ctr1, dev`left, dev`done, dev`ops, out, ctr
    modifies dev`x0, dev`x1, dev`tag0, dev`tag1, dev`gleft
    ensures dev.Quiet() && off < off' <= |x| && inp[off'..] == x[off'..]
    ensures ByEcb(dev.e, dev.mul, dev.H(), cb0, x, out[..off'], Next(ctr[..], 4), hashing, dev.Hash(), goal)
    ensures !hashing ==> dev.Hash() == old(dev.Hash())
  {
    hide Pair, Xor, Next, Put, ByEcb, Ghash, Blocks, Pad16, Ctr, Aes.Hash, Aes.H;
    ghost var was, cb, y := out[..], Next(ctr[..], 4), dev.Hash();
    ghost var w := if inp.Length - off >= 16 then 16 else inp.Length - off;
    SplitRest(inp[..], x, off, w);
    assert inp[off..off + w] == inp[..][off..off + w];
    var n, o := EcbRound(dev, ctr, inp, out, off);
    ByEcbStep(dev.e, dev.mul, dev.H(), cb0, x, was[..off], cb, hashing, y, goal);
    PatchNext(was, off, o);
    if hashing {
      HashBlock(dev, Pad16(o));
    } else {
      NoHash(dev.e, dev.mul, dev.H(), cb0, x, was[..off] + o, Next(cb, 4), dev.mul(Xor(y, Pad16(o)), dev.H()), y, goal);
    }
    assert inp[off + n..] == inp[..][off + n..];
    off' := off + n;
  }

  lemma NoHash(e: Cipher, mul: Product, h: Block, cb0: Block, x: Bytes, y: Bytes, cb: Block, hash: Block,
               hash': Block, goal: Block)
    requires ByEcb(e, mul, h, cb0, x, y, cb, false, hash, goal)
    ensures ByEcb(e, mul, h, cb0, x, y, cb, false, hash', goal)
  {
  }

  /** The ECB form: counter mode from the block behind ctr on; when encrypting the output is hashed. */
  method EcbLoop(dev: Aes, ctr: array<bv8>, inp: array<bv8>, out: array<bv8>, hashing: bool)
    requires dev.Quiet() && ctr.Length == 16 && ctr != out && ctr != inp && inp.Length == out.Length
    modifies dev`in0, dev`in1, dev`out0, dev`out1, dev`ctr0, dev`ctr1, dev`left, dev`done, dev`ops, out, ctr
    modifies dev`x0, dev`x1, dev`tag0, dev`tag1, dev`gleft
    ensures dev.Quiet() && out[..] == Ctr(dev.e, 4, Next(old(ctr[..]), 4), old(inp[..]))
    ensures dev.Hash() == if hashing then Ghash(dev.mul, dev.H(), old(dev.Hash()), Blocks(out[..])) else old(dev.Hash())
  {
    hide Pair, Xor, Next, Put, ByEcb, Ghash, Blocks, Pad16, Ctr, Aes.Hash, Aes.H;
    ghost var x := inp[..];
    ghost var cb0 := Next(ctr[..], 4);
    ghost var goal := Ghash(dev.mul, dev.H(), dev.Hash(), Blocks(Ctr(dev.e, 4, cb0, x)));
    var off := 0;
    ByEcbStart(dev.e, dev.mul, dev.H(), cb0, x, hashing, dev.Hash());
    while off < inp.Length
      invariant dev.Quiet() && off <= inp.Length && inp[off..] == x[off..]
      invariant !hashing ==> dev.Hash() == old(dev.Hash())
      invariant ByEcb(dev.e, dev.mul, dev.H(), cb0, x, out[..off], Next(ctr[..], 4), hashing, dev.Hash(), goal)
    {
      off := EcbNext(dev, ctr, inp, out, off, hashing, x, cb0, goal);
    }
    ByEcbEnd(dev.e, dev.mul, dev.H(), cb0, x, out[..off], Next(ctr[..], 4), hashing, dev.Hash(), goal);
    assert out[..off] == out[..];
  }

  /** Initial counter blocks: J0 for the software counter, J0 + 1 for the unit's. */
  method NewCounter(iv: Iv, last: bv8) returns (ctr: array<bv8>)
    ensures fresh(ctr) && ctr.Length == 16 && ctr[..] == iv + [0, 0, 0, last]
  {
    ctr := new bv8[16](i => 0);
    CopyOut(ctr, 0, iv + [0, 0, 0, last]);
  }

  lemma SecondCounter(iv: Iv)
    ensures Next(J0(iv), 4) == iv + [0, 0, 0, 2]
  {
    var j := J0(iv);
    assert j[15] == 1 && j[15] + 1 == 2;
    assert forall i :: 0 <= i < 15 ==> !OnesAfter(j, i);
  }

  /** The second pass: counter mode of the text, by the unit's counter mode or by ECB. When
      encrypting the ciphertext is hashed too. */
  method TwoPassText(dev: Aes, iv: Iv, inp: array<bv8>, out: array<bv8>, hashing: bool)
    requires dev.Quiet() && inp.Length == out.Length
    modifies dev`in0, dev`in1, dev`out0, dev`out1, dev`ctr0, dev`ctr1, dev`left, dev`done, dev`ops, out
    modifies dev`x0, dev`x1, dev`tag0, dev`tag1, dev`gleft, dev`modeCtr, dev`modeInc32
    ensures dev.Quiet() && out[..] == Text(dev.e, iv, old(inp[..]))
    ensures dev.Hash() == if hashing then Ghash(dev.mul, dev.H(), old(dev.Hash()), Blocks(out[..])) else old(dev.Hash())
  {
    hide Xor, Next, Ctr, CtrAfter, Ghash, Blocks, Aes.Hash, Aes.H;
    SecondCounter(iv);
    if dev.capCtr && dev.capInc32 {
      var ctr := NewCounter(iv, 2);
      var _ := AesCtrHw(dev, ctr, inp, out, true);
      if hashing {
        HashBytes(dev, out[..]);
      }
    } else {
      var ctr := NewCounter(iv, 1);
      EcbLoop(dev, ctr, inp, out, hashing);
    }
  }

  // ---------- the calls

  /** aes_gcm_encrypt: on every unit and in every form the ciphertext and tag of SP 800-38D; both
      units are left idle and MODE 0. */
  method Encrypt(dev: Aes, singlePass: bool, iv: Iv, aad: Bytes, pt: array<bv8>, ct: array<bv8>) returns (tag: Block)
    requires dev.Quiet() && pt.Length == ct.Length
    modifies dev, ct
    ensures dev.Quiet()
    ensures ct[..] == Text(dev.e, iv, old(pt[..])) && tag == Tag(dev.e, dev.mul, iv, aad, ct[..])
  {
    hide Pair, Xor, Next, Ctr, Ghash, Blocks, J0, Tag, Lengths, Zeros, Aes.Hash, Aes.H, Aes.Counter;
    ghost var c := Text(dev.e, iv, pt[..]);
    TagInParts(dev.e, dev.mul, iv, aad, c);
    var m0, m1;
    if singlePass && dev.capCtr && dev.capInc32 {
      m0, m1 := Setup(dev, iv, aad);
      CtrAndHash(dev, pt, ct, false);
    } else {
      m0, m1 := TwoPassStart(dev, iv, aad);
      TwoPassText(dev, iv, pt, ct, true);
    }
    tag := FinishTag(dev, |aad|, pt.Length, m0, m1);
  }

  /** The constant-time comparison of tags. */
  method Differ(a: Block, b: Block) returns (diff: bv8)
    ensures diff == 0 <==> a == b
  {
    diff := 0;
    for i := 0 to 16
      invariant diff == 0 <==> a[..i] == b[..i]
    {
      OrXor(diff, a[i], b[i]);
      diff := diff | (a[i] ^ b[i]);
      assert a[..i + 1] == a[..i] + [a[i]] && b[..i + 1] == b[..i] + [b[i]];
    }
    assert a[..16] == a && b[..16] == b;
  }

  lemma OrXor(d: bv8, x: bv8, y: bv8)
    ensures d | (x ^ y) == 0 <==> d == 0 && x == y
  {
  }

  method Wipe(out: array<bv8>)
    modifies out
    ensures out[..] == Zeros(out.Length)
  {
    forall i | 0 <= i < out.Length {
      out[i] := 0;
    }
  }

  /** aes_gcm_decrypt: 0 and the plaintext exactly when the tag is right, else -1 and zeros. */
  method Decrypt(dev: Aes, singlePass: bool, iv: Iv, aad: Bytes, ct: array<bv8>, pt: array<bv8>, tag: Block)
    returns (res: int)
    requires dev.Quiet() && pt.Length == ct.Length
    modifies dev, pt
    ensures dev.Quiet()
    ensures res == if tag == Tag(dev.e, dev.mul, iv, aad, old(ct[..])) then 0 else -1
    ensures pt[..] == if res == 0 then Text(dev.e, iv, old(ct[..])) else Zeros(pt.Length)
  {
    hide Pair, Xor, Next, Ctr, Ghash, Blocks, J0, Tag, Lengths, Zeros, Aes.Hash, Aes.H, Aes.Counter;
    ghost var c := ct[..];
    TagInParts(dev.e, dev.mul, iv, aad, c);
    if singlePass && dev.capCtr && dev.capInc32 {
      var m0, m1 := Setup(dev, iv, aad);
      CtrAndHash(dev, ct, pt, true);
      var computed := FinishTag(dev, |aad|, ct.Length, m0, m1);
      var diff := Differ(computed, tag);
      if diff != 0 {
        Wipe(pt);
        return -1;
      }
      return 0;
    }
    var m0, m1 := TwoPassStart(dev, iv, aad);
    HashBytes(dev, ct[..]);
    var computed := FinishTag(dev, |aad|, ct.Length, m0, m1);
    var diff := Differ(computed, tag);
    if diff != 0 {
      Wipe(pt);
      return -1;
    }
    TwoPassText(dev, iv, ct, pt, false);
    res := 0;
  }

  /** What one party encrypts, the other decrypts, whatever form and unit each of them uses; any
      other tag gives -1 and no plaintext. */
  method RoundTrip(a: Aes, b: Aes, formA: bool, formB: bool, iv: Iv, aad: Bytes, p: Bytes, forged: Block)
    returns (back: Bytes, res: int, forgedRes: int)
    requires a != b && a.Quiet() && b.Quiet() && a.e == b.e && a.mul == b.mul
    modifies a, b
    ensures res == 0 && back == p
    ensures forgedRes == if forged == Tag(a.e, a.mul, iv, aad, Text(a.e, iv, p)) then 0 else -1
  {
    hide Text, Tag, Zeros;
    var text := new bv8[|p|](i requires 0 <= i < |p| => p[i]);
    assert text[..] == p;
    var tag := Encrypt(a, formA, iv, aad, text, text);
    var other := new bv8[|p|](i => 0);
    forgedRes := Decrypt(b, formB, iv, aad, text, other, forged);
    TextTwice(a.e, iv, p);
    res := Decrypt(b, formB, iv, aad, text, text, tag);
    back := text[..];
  }

  lemma TextTwice(e: Cipher, iv: Iv, p: Bytes)
    ensures Text(e, iv, Text(e, iv, p)) == p
  {
    CtrTwice(e, 4, Next(J0(iv), 4), p);
  }
}
