/** The AES block and its GHASH unit as the registers show them (mmio.h): ECB, counter mode,
    GHASH, and how long each of them is busy. */
module AesUnit {
  import opened Bits
  import opened GcmSpec

  /** Two registers as the 16 bytes they stand for. */
  function Pair(lo: bv64, hi: bv64): Block {
    St64(lo) + St64(hi)
  }

  lemma PairLd(b: Block)
    ensures Pair(Ld64(b[..8]), Ld64(b[8..])) == b
  {
    hide Ld64, St64;
    StLd(b[..8]);
    StLd(b[8..]);
  }

  lemma PairXor(a: bv64, b: bv64, c: bv64, d: bv64)
    ensures Pair(Xor64(a, c), Xor64(b, d)) == Xor(Pair(a, b), Pair(c, d))
  {
    hide St64, Xor64;
    StXor(a, c);
    StXor(b, d);
  }

  class Aes {
    const e: Cipher           // the block cipher under the loaded key
    const mul: Product        // the product of GF(2^128)
    const capCtr: bool        // AES_CAP_CTR
    const capInc32: bool      // AES_CAP_INC32
    const latency: nat -> nat // polls until operation n is done
    var ops: nat
    var in0: bv64
    var in1: bv64
    var out0: bv64
    var out1: bv64
    var ctr0: bv64
    var ctr1: bv64
    var modeCtr: bool         // AES_MODE_CTR
    var modeInc32: bool       // AES_MODE_INC32
    var left: nat             // polls until BUSY falls
    var done: bool            // DONE
    var h0: bv64
    var h1: bv64
    var x0: bv64
    var x1: bv64
    var tag0: bv64
    var tag1: bv64
    var gleft: nat            // polls until GHASH's BUSY falls

    constructor (e: Cipher, mul: Product, capCtr: bool, capInc32: bool, latency: nat -> nat)
      ensures this.e == e && this.mul == mul && this.capCtr == capCtr && this.capInc32 == capInc32
      ensures Quiet()
    {
      this.e, this.mul, this.capCtr, this.capInc32, this.latency := e, mul, capCtr, capInc32, latency;
      ops, left, gleft, done, modeCtr, modeInc32 := 0, 0, 0, false, false, false;
      in0, in1, out0, out1, ctr0, ctr1 := 0, 0, 0, 0, 0, 0;
      h0, h1, x0, x1, tag0, tag1 := 0, 0, 0, 0, 0, 0;
    }

    /** Between two calls of the driver: both units idle, MODE 0. */
    predicate Quiet()
      reads this
    {
      left == 0 && gleft == 0 && !modeCtr && !modeInc32
    }

    ghost function Out(): Block
      reads this`out0, this`out1
    {
      Pair(out0, out1)
    }

    ghost function Counter(): Block
      reads this`ctr0, this`ctr1
    {
      Pair(ctr0, ctr1)
    }

    ghost function H(): Block
      reads this`h0, this`h1
    {
      Pair(h0, h1)
    }

    /** The tag, once GHASH is idle. */
    ghost function Hash(): Block
      reads this`tag0, this`tag1
    {
      Pair(tag0, tag1)
    }

    /** The width of the counter. */
    function Width(): nat
      reads this`modeInc32
    {
      if modeInc32 then 4 else 16
    }

    method WriteIn0(w: bv64)
      requires left == 0
      modifies this`in0
      ensures in0 == w
    {
      in0 := w;
    }

    /** In counter mode this starts a block: OUT gets E(CTR) xor IN, and CTR counts on. */
    method WriteIn1(w: bv64)
      requires left == 0
      modifies this`in1, this`out0, this`out1, this`ctr0, this`ctr1, this`left, this`done, this`ops
      ensures in1 == w
      ensures !modeCtr ==> unchanged(`out0, `out1, `ctr0, `ctr1, `left, `done)
      ensures modeCtr ==>
        && left > 0 && !done
        && Out() == Xor(e(old(Counter())), Pair(in0, w)) && Counter() == Next(old(Counter()), Width())
    {
      hide Xor, Next, Pair;
      in1 := w;
      if modeCtr {
        var cb := Pair(ctr0, ctr1);
        SetOut(Xor(e(cb), Pair(in0, w)));
        SetCounter(Next(cb, Width()));
        Begin();
      }
    }

    method SetOut(b: Block)
      modifies this`out0, this`out1
      ensures Out() == b
    {
      hide Ld64, Pair;
      PairLd(b);
      out0, out1 := Ld64(b[..8]), Ld64(b[8..]);
    }

    method SetCounter(b: Block)
      modifies this`ctr0, this`ctr1
      ensures Counter() == b
    {
      hide Ld64, Pair;
      PairLd(b);
      ctr0, ctr1 := Ld64(b[..8]), Ld64(b[8..]);
    }

    method Begin()
      requires left == 0
      modifies this`left, this`done, this`ops
      ensures left > 0 && !done
    {
      left, done, ops := latency(ops) + 1, false, ops + 1;
    }

    /** CTRL = GO | ENC: one block in ECB. */
    method GoEncrypt()
      requires left == 0
      modifies this`out0, this`out1, this`left, this`done, this`ops
      ensures left > 0 && !done && Out() == e(Pair(in0, in1))
    {
      hide Pair;
      SetOut(e(Pair(in0, in1)));
      Begin();
    }

    /** Reading STATUS. */
    method Status() returns (busy: bool, dn: bool)
      modifies this`left, this`done
      ensures busy == (left > 0) && dn == done
      ensures old(left) > 0 ==> left == old(left) - 1 && done == (old(done) || left == 0)
      ensures old(left) == 0 ==> left == 0 && done == old(done)
    {
      if left > 0 {
        left := left - 1;
        if left == 0 {
          done := true;
        }
      }
      busy, dn := left > 0, done;
    }

    /** OUT is only read of a finished block. */
    method ReadOut() returns (lo: bv64, hi: bv64)
      requires left == 0 && done
      ensures Pair(lo, hi) == Out() && lo == out0 && hi == out1
    {
      lo, hi := out0, out1;
    }

    method WriteCtr(lo: bv64, hi: bv64)
      requires left == 0
      modifies this`ctr0, this`ctr1
      ensures ctr0 == lo && ctr1 == hi
    {
      ctr0, ctr1 := lo, hi;
    }

    method WriteMode(ctr: bool, inc32: bool)
      requires left == 0
      modifies this`modeCtr, this`modeInc32
      ensures modeCtr == ctr && modeInc32 == inc32
    {
      modeCtr, modeInc32 := ctr, inc32;
    }

    method WriteH(lo: bv64, hi: bv64)
      requires gleft == 0
      modifies this`h0, this`h1
      ensures h0 == lo && h1 == hi
    {
      h0, h1 := lo, hi;
    }

    /** GCM_CTRL = RESET. */
    method ResetHash()
      requires gleft == 0
      modifies this`tag0, this`tag1
      ensures Hash() == Zeros(16)
    {
      tag0, tag1 := 0, 0;
      ZeroPair();
    }

    method WriteX(lo: bv64, hi: bv64)
      requires gleft == 0
      modifies this`x0, this`x1
      ensures x0 == lo && x1 == hi
    {
      x0, x1 := lo, hi;
    }

    /** GCM_CTRL = GO: the tag xor X, times H. GHASH is only started when it is idle. */
    method GoHash()
      requires gleft == 0
      modifies this`tag0, this`tag1, this`gleft, this`ops
      ensures Hash() == mul(Xor(old(Hash()), Pair(x0, x1)), H())
    {
      hide Xor, Ld64, Pair;
      var r := mul(Xor(Pair(tag0, tag1), Pair(x0, x1)), Pair(h0, h1));
      PairLd(r);
      tag0, tag1 := Ld64(r[..8]), Ld64(r[8..]);
      gleft, ops := latency(ops) + 1, ops + 1;
    }

    /** Reading GHASH's STATUS. */
    method HashStatus() returns (busy: bool)
      modifies this`gleft
      ensures busy == (gleft > 0) && gleft == if old(gleft) > 0 then old(gleft) - 1 else 0
    {
      if gleft > 0 {
        gleft := gleft - 1;
      }
      busy := gleft > 0;
    }

    method ReadTag() returns (lo: bv64, hi: bv64)
      requires gleft == 0
      ensures Pair(lo, hi) == Hash()
    {
      lo, hi := tag0, tag1;
    }
  }

  lemma ZeroPair()
    ensures Pair(0, 0) == Zeros(16)
  {
    hide ByteAt;
    EightBytes(0);
  }

  /** aes_wait. */
  method Wait(dev: Aes)
    modifies dev`left, dev`done
    ensures dev.left == 0 && (old(dev.left) > 0 || old(dev.done) ==> dev.done)
  {
    var busy, dn := dev.Status();
    while busy
      invariant busy == (dev.left > 0) && (old(dev.left) > 0 || old(dev.done) ==> dev.left > 0 || dev.done)
      decreases dev.left
    {
      busy, dn := dev.Status();
    }
  }

  /** aes_wait_out: comes back only because a block was started. */
  method WaitOut(dev: Aes)
    requires dev.left > 0 || dev.done
    modifies dev`left, dev`done
    ensures dev.left == 0 && dev.done
  {
    var busy, dn := dev.Status();
    while busy || !dn
      invariant busy == (dev.left > 0) && dn == dev.done && (dev.left > 0 || dev.done)
      decreases dev.left
    {
      busy, dn := dev.Status();
    }
  }

  /** gcm_wait_done. */
  method WaitHash(dev: Aes)
    modifies dev`gleft
    ensures dev.gleft == 0
  {
    var busy := dev.HashStatus();
    while busy
      invariant busy == (dev.gleft > 0)
      decreases dev.gleft
    {
      busy := dev.HashStatus();
    }
  }
}
