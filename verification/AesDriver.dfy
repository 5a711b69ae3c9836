/** Counter mode on the AES block: by the unit's own counter mode, and block by block with ECB
    (src/crypto_hw.c, aes_hw_encrypt, aes_ctr_hw, aes_ctr, ctr_inc). Buffers may be separate or
    the same. */
module AesDriver {
  import opened Basics
  import opened Bits
  import opened GcmSpec
  import opened AesUnit

  lemma XorSwap(a: Bytes, b: Bytes)
    requires |a| == |b|
    ensures Xor(a, b) == Xor(b, a)
  {
    forall i | 0 <= i < |a| ensures Xor(a, b)[i] == Xor(b, a)[i] {
      assert a[i] ^ b[i] == b[i] ^ a[i];
    }
  }

  /** The first bytes of a padded block, xored, are the xored part. */
  lemma PadXor(t: Bytes, ks: Block)
    requires |t| <= 16
    ensures Xor(Pad16(t), ks)[..|t|] == Xor(t, ks[..|t|])
    ensures Xor(Xor(Pad16(t), ks), Pad16(t)) == ks
  {
    XorSwap(Pad16(t), ks);
    XorTwice(ks, Pad16(t));
  }

  // ---------- progress of counter mode

  /** y is counter mode of the bytes of x before it; cb is the counter block to use next. */
  ghost predicate Through(e: Cipher, k: nat, cb0: Block, x: Bytes, y: Bytes, cb: Block) {
    && k <= 16 && |y| <= |x| && |y| % 16 == 0
    && cb == CtrAfter(k, cb0, |y|)
    && y + Ctr(e, k, cb, x[|y|..]) == Ctr(e, k, cb0, x)
    && CtrAfter(k, cb, |x| - |y|) == CtrAfter(k, cb0, |x|)
  }

  lemma {:induction false} CtrAfterStep(k: nat, cb: Block, n: nat)
    requires k <= 16 && n % 16 == 0
    ensures CtrAfter(k, cb, n + 16) == Next(CtrAfter(k, cb, n), k)
    decreases n
  {
    hide Next;
    if n > 0 {
      CtrAfterStep(k, Next(cb, k), n - 16);
    }
  }

  lemma ThroughStart(e: Cipher, k: nat, cb: Block, x: Bytes)
    requires k <= 16
    ensures Through(e, k, cb, x, [], cb)
  {
    assert x[0..] == x;
    assert [] + Ctr(e, k, cb, x) == Ctr(e, k, cb, x);
  }

  lemma ThroughStep(e: Cipher, k: nat, cb0: Block, x: Bytes, y: Bytes, cb: Block)
    requires Through(e, k, cb0, x, y, cb) && |y| + 16 <= |x|
    ensures Through(e, k, cb0, x, y + Xor(x[|y|..|y| + 16], e(cb)), Next(cb, k))
  {
    hide Xor, Next;
    var n := |y|;
    CtrAfterStep(k, cb0, n);
    assert x[n..][..16] == x[n..n + 16] && x[n..][16..] == x[n + 16..];
    var b := Xor(x[n..n + 16], e(cb));
    assert (y + b) + Ctr(e, k, Next(cb, k), x[n + 16..]) == y + (b + Ctr(e, k, Next(cb, k), x[n + 16..]));
  }

  lemma ThroughEnd(e: Cipher, k: nat, cb0: Block, x: Bytes, y: Bytes, cb: Block)
    requires Through(e, k, cb0, x, y, cb) && |x| < |y| + 16
    ensures y + Xor(x[|y|..], e(cb)[..|x| - |y|]) == Ctr(e, k, cb0, x)
    ensures CtrAfter(k, cb0, |x|) == if |x| == |y| then cb else Next(cb, k)
    ensures |x| == |y| ==> y == Ctr(e, k, cb0, x)
  {
    hide Next;
    if |x| == |y| {
      assert x[|y|..] == [];
      assert y + [] == y;
    }
  }

  // ---------- moving blocks

  method CopyOut(out: array<bv8>, off: nat, b: Bytes)
    requires off + |b| <= out.Length
    modifies out
    ensures out[..] == Put(old(out[..]), off, b)
  {
    forall i | 0 <= i < |b| {
      out[off + i] := b[i];
    }
  }

  /** Two words stored as a block. */
  method StoreBlock(out: array<bv8>, off: nat, lo: bv64, hi: bv64)
    requires off + 16 <= out.Length
    modifies out
    ensures out[..] == Put(old(out[..]), off, Pair(lo, hi))
  {
    hide St64;
    CopyOut(out, off, St64(lo));
    CopyOut(out, off + 8, St64(hi));
  }

  /** aes_hw_encrypt. */
  method EncryptBlock(dev: Aes, lo: bv64, hi: bv64) returns (outLo: bv64, outHi: bv64)
    requires dev.left == 0 && !dev.modeCtr
    modifies dev`in0, dev`in1, dev`out0, dev`out1, dev`ctr0, dev`ctr1, dev`left, dev`done, dev`ops
    ensures dev.left == 0 && Pair(outLo, outHi) == dev.e(Pair(lo, hi))
    ensures dev.Counter() == old(dev.Counter())
  {
    hide Pair;
    dev.WriteIn0(lo);
    dev.WriteIn1(hi);
    dev.GoEncrypt();
    Wait(dev);
    outLo, outHi := dev.ReadOut();
  }

  /** Starts a block in counter mode. */
  method FeedBlock(dev: Aes, b: Block)
    requires dev.left == 0 && dev.modeCtr
    modifies dev`in0, dev`in1, dev`out0, dev`out1, dev`ctr0, dev`ctr1, dev`left, dev`done, dev`ops
    ensures dev.left > 0 && dev.Out() == Xor(b, dev.e(old(dev.Counter())))
    ensures dev.Counter() == Next(old(dev.Counter()), dev.Width())
  {
    hide Pair, Ld64, Xor, Next;
    PairLd(b);
    XorSwap(b, dev.e(dev.Counter()));
    dev.WriteIn0(Ld64(b[..8]));
    dev.WriteIn1(Ld64(b[8..]));
  }

  /** One round of the loop of aes_ctr_hw. */
  method CtrRound(dev: Aes, inp: array<bv8>, out: array<bv8>, off: nat)
    requires dev.left == 0 && dev.modeCtr && off + 16 <= inp.Length == out.Length
    modifies dev`in0, dev`in1, dev`out0, dev`out1, dev`ctr0, dev`ctr1, dev`left, dev`done, dev`ops, out
    ensures dev.left == 0 && dev.Counter() == Next(old(dev.Counter()), dev.Width())
    ensures out[..] == Put(old(out[..]), off, Xor(old(inp[off..off + 16]), dev.e(old(dev.Counter()))))
  {
    hide Pair, Xor, Next, Put;
    FeedBlock(dev, inp[off..off + 16]);
    WaitOut(dev);
    var lo, hi := dev.ReadOut();
    StoreBlock(out, off, lo, hi);
  }

  lemma SplitRest(y: Bytes, x: Bytes, off: nat, w: nat)
    requires off + w <= |x| == |y| && y[off..] == x[off..]
    ensures y[off..off + w] == x[off..off + w] && y[off + w..] == x[off + w..]
  {
    assert y[off..][..w] == y[off..off + w] && y[off..][w..] == y[off + w..];
    assert x[off..][..w] == x[off..off + w] && x[off..][w..] == x[off + w..];
  }

  lemma PatchNext(o: Bytes, off: nat, b: Bytes)
    requires off + |b| <= |o|
    ensures Put(o, off, b)[..off + |b|] == o[..off] + b
    ensures Put(o, off, b)[off + |b|..] == o[off + |b|..]
  {
  }

  /** The full blocks of aes_ctr_hw. */
  method CtrBlocks(dev: Aes, inp: array<bv8>, out: array<bv8>) returns (off: nat)
    requires dev.left == 0 && dev.modeCtr && inp.Length == out.Length
    modifies dev`in0, dev`in1, dev`out0, dev`out1, dev`ctr0, dev`ctr1, dev`left, dev`done, dev`ops, out
    ensures dev.left == 0 && off <= inp.Length < off + 16
    ensures Through(dev.e, dev.Width(), old(dev.Counter()), old(inp[..]), out[..off], dev.Counter())
    ensures inp[off..] == old(inp[off..])
  {
    hide Pair, Xor, Next, Put, Through;
    off := 0;
    ghost var x := inp[..];
    ThroughStart(dev.e, dev.Width(), dev.Counter(), x);
    while inp.Length - off >= 16
      invariant dev.left == 0 && off <= inp.Length
      invariant Through(dev.e, dev.Width(), old(dev.Counter()), x, out[..off], dev.Counter())
      invariant inp[off..] == x[off..]
    {
      ghost var o, cb := out[..], dev.Counter();
      ghost var b := Xor(x[off..off + 16], dev.e(cb));
      assert inp[off..off + 16] == inp[off..][..16] == x[off..off + 16];
      CtrRound(dev, inp, out, off);
      ThroughStep(dev.e, dev.Width(), old(dev.Counter()), x, o[..off], cb);
      PatchNext(o, off, b);
      assert inp[off + 16..] == x[off + 16..];
      off := off + 16;
    }
  }

  /** The part of a block behind the full ones. */
  method CtrTail(dev: Aes, inp: array<bv8>, out: array<bv8>, off: nat) returns (ks: Block)
    requires dev.left == 0 && dev.modeCtr && inp.Length == out.Length && off < inp.Length < off + 16
    modifies dev`in0, dev`in1, dev`out0, dev`out1, dev`ctr0, dev`ctr1, dev`left, dev`done, dev`ops, out
    ensures dev.left == 0 && dev.Counter() == Next(old(dev.Counter()), dev.Width())
    ensures ks == dev.e(old(dev.Counter()))
    ensures out[..] == old(out[..off]) + Xor(old(inp[off..]), ks[..inp.Length - off])
  {
    hide Pair, Xor, Next, Pad16;
    var t := inp[off..];
    var blk := Pad16(t);
    PadXor(t, dev.e(dev.Counter()));
    FeedBlock(dev, blk);
    WaitOut(dev);
    var lo, hi := dev.ReadOut();
    var o := Pair(lo, hi);
    CopyOut(out, off, o[..|t|]);
    ks := Xor(o, blk);
  }

  method LoadCounter(dev: Aes, ctr: array<bv8>)
    requires dev.left == 0 && ctr.Length == 16
    modifies dev`ctr0, dev`ctr1
    ensures dev.Counter() == ctr[..]
  {
    hide Pair, Ld64;
    PairLd(ctr[..]);
    assert ctr[..8] == ctr[..][..8] && ctr[8..] == ctr[..][8..];
    dev.WriteCtr(Ld64(ctr[..8]), Ld64(ctr[8..]));
  }

  method SaveCounter(dev: Aes, ctr: array<bv8>)
    requires dev.left == 0 && ctr.Length == 16
    modifies ctr
    ensures ctr[..] == dev.Counter()
  {
    hide Pair;
    StoreBlock(ctr, 0, dev.ctr0, dev.ctr1);
  }

  /** Everything between loading and saving the counter. */
  method CtrWhole(dev: Aes, inp: array<bv8>, out: array<bv8>) returns (ks: Block)
    requires dev.left == 0 && dev.modeCtr && inp.Length == out.Length
    modifies dev`in0, dev`in1, dev`out0, dev`out1, dev`ctr0, dev`ctr1, dev`left, dev`done, dev`ops, out
    ensures dev.left == 0 && out[..] == Ctr(dev.e, dev.Width(), old(dev.Counter()), old(inp[..]))
    ensures dev.Counter() == CtrAfter(dev.Width(), old(dev.Counter()), inp.Length)
    ensures inp.Length % 16 != 0 ==>
      ks == dev.e(CtrAfter(dev.Width(), old(dev.Counter()), inp.Length - inp.Length % 16))
  {
    hide Xor, Next, Ctr, CtrAfter, Through, Aes.Counter;
    ghost var x, cb0 := inp[..], dev.Counter();
    var off := CtrBlocks(dev, inp, out);
    ThroughEnd(dev.e, dev.Width(), cb0, x, out[..off], dev.Counter());
    ThroughCounter(dev.e, dev.Width(), cb0, x, out[..off], dev.Counter());
    ks := Zeros(16);
    if off < inp.Length {
      ks := CtrTail(dev, inp, out, off);
    } else {
      assert out[..] == out[..off];
    }
  }

  /** aes_ctr_hw: any length, 128-bit or inc32 counting; ctr ends behind the last block used, and
      of a last part the whole keystream block is given. */
  method AesCtrHw(dev: Aes, ctr: array<bv8>, inp: array<bv8>, out: array<bv8>, inc32: bool) returns (ks: Block)
    requires ctr.Length == 16 && inp.Length == out.Length && ctr != out
    modifies dev`in0, dev`in1, dev`out0, dev`out1, dev`ctr0, dev`ctr1, dev`left, dev`done, dev`ops
    modifies dev`modeCtr, dev`modeInc32, out, ctr
    ensures dev.left == 0 && !dev.modeCtr && !dev.modeInc32
    ensures var k := if inc32 then 4 else 16;
      && out[..] == Ctr(dev.e, k, old(ctr[..]), old(inp[..]))
      && ctr[..] == CtrAfter(k, old(ctr[..]), inp.Length)
      && (inp.Length % 16 != 0 ==> ks == dev.e(CtrAfter(k, old(ctr[..]), inp.Length - inp.Length % 16)))
  {
    hide Ctr, CtrAfter, Aes.Counter;
    Wait(dev);
    LoadCounter(dev, ctr);
    dev.WriteMode(true, inc32);
    ks := CtrWhole(dev, inp, out);
    SaveCounter(dev, ctr);
    dev.WriteMode(false, false);
  }

  lemma ThroughCounter(e: Cipher, k: nat, cb0: Block, x: Bytes, y: Bytes, cb: Block)
    requires Through(e, k, cb0, x, y, cb) && |x| < |y| + 16
    ensures |y| == |x| - |x| % 16 && cb == CtrAfter(k, cb0, |x| - |x| % 16)
  {
  }

  // ---------- counting in software

  /** ctr_inc. */
  method CtrInc(ctr: array<bv8>)
    requires ctr.Length == 16
    modifies ctr
    ensures ctr[..] == Next(old(ctr[..]), 4)
  {
    ghost var c := ctr[..];
    var i := 15;
    while i >= 12
      invariant 11 <= i <= 15 && OnesAfter(c, i)
      invariant forall j :: 0 <= j < 16 ==> ctr[j] == if j > i then 0 else c[j]
    {
      ctr[i] := ctr[i] + 1;
      if ctr[i] != 0 {
        assert forall j :: 0 <= j < i ==> !OnesAfter(c, j);
        break;
      }
      i := i - 1;
    }
  }

  lemma IncSplit(a: Bytes, b: Bytes)
    requires |a| == |b| == 8
    ensures Inc(a + b, 16) == (if OnesAfter(b, -1) then Inc(a, 8) else a) + Inc(b, 8)
  {
    var c := a + b;
    forall j | 0 <= j < 8
      ensures (OnesAfter(c, j) <==> OnesAfter(b, -1) && OnesAfter(a, j)) && (OnesAfter(c, 8 + j) <==> OnesAfter(b, j))
    {
      AfterLeft(a, b, j);
      AfterRight(a, b, j);
    }
  }

  lemma AfterLeft(a: Bytes, b: Bytes, j: nat)
    requires j < |a|
    ensures OnesAfter(a + b, j) <==> OnesAfter(b, -1) && OnesAfter(a, j)
  {
    if OnesAfter(a + b, j) {
      forall i | 0 <= i < |a| && j < i ensures a[i] == 0xFF { assert (a + b)[i] == 0xFF; }
      forall i | 0 <= i < |b| ensures b[i] == 0xFF { assert (a + b)[|a| + i] == 0xFF; }
    }
  }

  lemma AfterRight(a: Bytes, b: Bytes, j: nat)
    ensures OnesAfter(a + b, |a| + j) <==> OnesAfter(b, j)
  {
    if OnesAfter(a + b, |a| + j) {
      forall i | 0 <= i < |b| && j < i ensures b[i] == 0xFF { assert (a + b)[|a| + i] == 0xFF; }
    }
  }

  /** The byte-swapped increment of aes_ctr counts the 128-bit big-endian counter. */
  lemma SwapInc(lo: bv64, hi: bv64)
    ensures
      var be := Succ(Bswap64(hi));
      var lo' := if be == 0 then Bswap64(Succ(Bswap64(lo))) else lo;
      Pair(lo', Bswap64(be)) == Next(Pair(lo, hi), 16)
  {
    hide Bswap64, Succ, St64, Inc, BigEndian;
    SwapHalf(lo);
    SwapHalf(hi);
    IncSplit(St64(lo), St64(hi));
  }

  lemma SwapHalf(w: bv64)
    ensures St64(Bswap64(Succ(Bswap64(w)))) == Inc(St64(w), 8)
    ensures Succ(Bswap64(w)) == 0 <==> OnesAfter(St64(w), -1)
  {
    hide Bswap64, Succ, St64, Inc, BigEndian, OnesAfter;
    BswapBigEndian(Succ(Bswap64(w)));
    BigEndianInc(Bswap64(w));
    BswapBigEndian(Bswap64(w));
    BswapTwice(w);
  }

  /** One block of aes_ctr without counter mode. */
  method SoftRound(dev: Aes, lo: bv64, hi: bv64, inp: array<bv8>, out: array<bv8>, off: nat)
    returns (lo': bv64, hi': bv64)
    requires dev.left == 0 && !dev.modeCtr && off + 16 <= inp.Length == out.Length
    modifies dev`in0, dev`in1, dev`out0, dev`out1, dev`ctr0, dev`ctr1, dev`left, dev`done, dev`ops, out
    ensures dev.left == 0 && Pair(lo', hi') == Next(Pair(lo, hi), 16)
    ensures out[..] == Put(old(out[..]), off, Xor(old(inp[off..off + 16]), dev.e(Pair(lo, hi))))
  {
    hide Pair, Xor, Next, Put, Ld64, Bswap64, Succ, Xor64;
    var ksLo, ksHi := EncryptBlock(dev, lo, hi);
    var b := inp[off..off + 16];
    PairLd(b);
    PairXor(Ld64(b[..8]), Ld64(b[8..]), ksLo, ksHi);
    StoreBlock(out, off, Xor64(Ld64(b[..8]), ksLo), Xor64(Ld64(b[8..]), ksHi));
    SwapInc(lo, hi);
    var be := Succ(Bswap64(hi));
    hi' := Bswap64(be);
    lo' := lo;
    if be == 0 {
      lo' := Bswap64(Succ(Bswap64(lo)));
    }
  }

  /** The full blocks of aes_ctr without counter mode. */
  method SoftBlocks(dev: Aes, lo0: bv64, hi0: bv64, inp: array<bv8>, out: array<bv8>)
    returns (off: nat, lo: bv64, hi: bv64)
    requires dev.left == 0 && !dev.modeCtr && inp.Length == out.Length
    modifies dev`in0, dev`in1, dev`out0, dev`out1, dev`ctr0, dev`ctr1, dev`left, dev`done, dev`ops, out
    ensures dev.left == 0 && off <= inp.Length < off + 16 && inp[off..] == old(inp[off..])
    ensures Through(dev.e, 16, Pair(lo0, hi0), old(inp[..]), out[..off], Pair(lo, hi))
  {
    hide Pair, Xor, Next, Put, Through;
    off, lo, hi := 0, lo0, hi0;
    ghost var x, cb0 := inp[..], Pair(lo0, hi0);
    ThroughStart(dev.e, 16, cb0, x);
    while inp.Length - off >= 16
      invariant dev.left == 0 && off <= inp.Length && inp[off..] == x[off..]
      invariant Through(dev.e, 16, cb0, x, out[..off], Pair(lo, hi))
    {
      ghost var o, cb := out[..], Pair(lo, hi);
      ghost var b := Xor(x[off..off + 16], dev.e(cb));
      SplitRest(inp[..], x, off, 16);
      assert inp[off..off + 16] == inp[..][off..off + 16];
      lo, hi := SoftRound(dev, lo, hi, inp, out, off);
      ThroughStep(dev.e, 16, cb0, x, o[..off], cb);
      PatchNext(o, off, b);
      assert inp[off + 16..] == inp[..][off + 16..];
      off := off + 16;
    }
  }

  /** The last part of aes_ctr: byte by byte with one more keystream block. */
  method XorTail(inp: array<bv8>, out: array<bv8>, off: nat, ks: Block)
    requires off <= inp.Length == out.Length < off + 16
    modifies out
    ensures out[..] == old(out[..off]) + Xor(old(inp[off..]), ks[..inp.Length - off])
  {
    ghost var x := inp[..];
    for i := 0 to inp.Length - off
      invariant out[..off] == old(out[..off])
      invariant forall j :: off + i <= j < inp.Length ==> inp[j] == x[j]
      invariant forall j :: 0 <= j < i ==> out[off + j] == x[off + j] ^ ks[j]
    {
      out[off + i] := inp[off + i] ^ ks[i];
    }
  }

  /** aes_ctr: 128-bit counter mode of the whole buffer, whether the unit has a counter mode or not. */
  method AesCtr(dev: Aes, lo: bv64, hi: bv64, inp: array<bv8>, out: array<bv8>)
    requires dev.left == 0 && !dev.modeCtr && !dev.modeInc32 && inp.Length == out.Length
    modifies dev`in0, dev`in1, dev`out0, dev`out1, dev`ctr0, dev`ctr1, dev`left, dev`done, dev`ops
    modifies dev`modeCtr, dev`modeInc32, out
    ensures dev.left == 0 && !dev.modeCtr && !dev.modeInc32
    ensures out[..] == Ctr(dev.e, 16, Pair(lo, hi), old(inp[..]))
  {
    hide Pair, Xor, Ctr, CtrAfter, Through;
    if dev.capCtr {
      var ctr := new bv8[16](i => 0);
      StoreBlock(ctr, 0, lo, hi);
      assert ctr[..] == Pair(lo, hi);
      var _ := AesCtrHw(dev, ctr, inp, out, false);
      return;
    }
    ghost var x, cb0 := inp[..], Pair(lo, hi);
    var off, l, h := SoftBlocks(dev, lo, hi, inp, out);
    ThroughEnd(dev.e, 16, cb0, x, out[..off], Pair(l, h));
    if off < inp.Length {
      var ksLo, ksHi := EncryptBlock(dev, l, h);
      XorTail(inp, out, off, Pair(ksLo, ksHi));
    } else {
      assert out[..] == out[..off];
    }
  }
}
