/** The SHA-256 block and its HMAC wrapper as the registers show them (mmio.h). */
module ShaUnit {
  import opened Basics
  import opened Bits
  import opened GcmSpec
  import opened ShaSpec

  /** Words as the bytes they stand for. */
  function BytesOf(ws: seq<bv64>): (b: Bytes)
    ensures |b| == 8 * |ws|
  {
    if ws == [] then [] else St64(ws[0]) + BytesOf(ws[1..])
  }

  /** Bytes as words. */
  function Words(b: Bytes): (ws: seq<bv64>)
    requires |b| % 8 == 0
    ensures |ws| == |b| / 8
  {
    if b == [] then [] else [Ld64(b[..8])] + Words(b[8..])
  }

  lemma {:induction false} WordsBytes(b: Bytes)
    requires |b| % 8 == 0
    ensures BytesOf(Words(b)) == b
    decreases |b|
  {
    hide St64, Ld64;
    if b != [] {
      StLd(b[..8]);
      WordsBytes(b[8..]);
      assert Words(b)[1..] == Words(b[8..]);
      assert b == b[..8] + b[8..];
    }
  }

  lemma {:induction false} BytesWords(ws: seq<bv64>)
    ensures Words(BytesOf(ws)) == ws
    decreases |ws|
  {
    hide St64, Ld64;
    if ws != [] {
      LdSt(ws[0]);
      BytesWords(ws[1..]);
      var b := BytesOf(ws);
      assert b[..8] == St64(ws[0]) && b[8..] == BytesOf(ws[1..]);
    }
  }

  lemma WordsStep(b: Bytes)
    requires |b| % 8 == 0 && b != []
    ensures Words(b) == [Ld64(b[..8])] + Words(b[8..])
  {
    hide Ld64;
  }

  lemma {:induction false} WordAt(b: Bytes, i: nat)
    requires |b| % 8 == 0 && 8 * i < |b|
    ensures Words(b)[i] == Ld64(b[8 * i..8 * i + 8])
    decreases i
  {
    hide Ld64, Words;
    WordsStep(b);
    if i > 0 {
      WordAt(b[8..], i - 1);
      assert b[8..] == b[8..|b|] && 8 + 8 * (i - 1) == 8 * i;
      SubSlice(b, 8, |b|, 8 * (i - 1), 8);
    }
  }

  type Words4 = w: seq<bv64> | |w| == 4 witness [0, 0, 0, 0]
  type Words8 = w: seq<bv64> | |w| == 8 witness [0, 0, 0, 0, 0, 0, 0, 0]

  class ShaCore {
    const c: Compression      // what START does to H with the block
    const latency: nat -> nat // polls until operation n is done
    var ops: nat
    var h: State              // H, read as DIGEST0..3
    var hin: Words4           // HIN0..3
    var block: Words8         // BLOCK0..7
    var left: nat             // polls until BUSY falls
    var done: bool            // DONE
    var key: Words4           // HMAC_KEY0..3
    var inner: State          // the midstates KEY_LOAD computes
    var outer: State
    var hleft: nat            // polls until the HMAC wrapper's BUSY falls

    constructor (c: Compression, latency: nat -> nat)
      ensures this.c == c && Quiet()
    {
      this.c, this.latency := c, latency;
      ops, left, hleft, done := 0, 0, 0, false;
      h, inner, outer := Zeros(32), Zeros(32), Zeros(32);
      hin, key, block := [0, 0, 0, 0], [0, 0, 0, 0], [0, 0, 0, 0, 0, 0, 0, 0];
    }

    /** Between two calls of the driver. */
    predicate Quiet()
      reads this
    {
      left == 0 && hleft == 0
    }

    method WriteBlock(i: nat, w: bv64)
      requires left == 0 && i < 8
      modifies this`block
      ensures block == old(block)[i := w]
    {
      block := block[i := w];
    }

    method WriteHin(i: nat, w: bv64)
      requires left == 0 && i < 4
      modifies this`hin
      ensures hin == old(hin)[i := w]
    {
      hin := hin[i := w];
    }

    /** CTRL = INIT: a reset of H, which never sets DONE. */
    method Init()
      requires left == 0
      modifies this`h, this`done
      ensures h == IV && !done
    {
      h, done := IV, false;
    }

    /** CTRL = START. */
    method Start()
      requires left == 0
      modifies this`h, this`left, this`done, this`ops
      ensures h == c(old(h), BytesOf(block)) && left > 0 && !done
    {
      h := c(h, BytesOf(block));
      left, done, ops := latency(ops) + 1, false, ops + 1;
    }

    /** CTRL = RESTORE | START. */
    method RestoreStart()
      requires left == 0
      modifies this`h, this`left, this`done, this`ops
      ensures h == c(BytesOf(hin), BytesOf(block)) && left > 0 && !done
    {
      h := BytesOf(hin);
      Start();
    }

    /** Reading STATUS. */
    method Status() returns (busy: bool, dn: bool)
      modifies this`left, this`done
      ensures busy == (left > 0) && dn == done
      ensures old(left) > 0 ==> left == old(left) - 1 && done == (old(done) || left == 0)
      ensures old(left) == 0 ==> left == 0 && done == old(done)
    {
      if left > 0 {
        left := left - 1;
        if left == 0 {
          done := true;
        }
      }
      busy, dn := left > 0, done;
    }

    /** Reading DIGEST0..3: only of a finished block. */
    method ReadDigest(i: nat) returns (w: bv64)
      requires left == 0 && i < 4
      ensures w == Words(h)[i]
    {
      w := Words(h)[i];
    }

    method WriteKey(i: nat, w: bv64)
      requires hleft == 0 && i < 4
      modifies this`key
      ensures key == old(key)[i := w]
    {
      key := key[i := w];
    }

    /** HMAC_CTRL = KEY_LOAD: the states behind the two pad blocks. */
    method KeyLoad()
      requires left == 0 && hleft == 0
      modifies this`inner, this`outer, this`hleft, this`ops
      ensures var k0 := BytesOf(key) + Zeros(32);
        inner == c(IV, XorAll(k0, 0x36)) && outer == c(IV, XorAll(k0, 0x5C))
    {
      var k0 := BytesOf(key) + Zeros(32);
      inner, outer := c(IV, XorAll(k0, 0x36)), c(IV, XorAll(k0, 0x5C));
      hleft, ops := latency(ops) + 1, ops + 1;
    }

    /** HMAC_CTRL = START. */
    method LoadInner()
      requires left == 0 && hleft == 0
      modifies this`h, this`hleft, this`ops
      ensures h == inner
    {
      h, hleft, ops := inner, latency(ops) + 1, ops + 1;
    }

    /** HMAC_CTRL = FINAL. */
    method LoadOuter()
      requires left == 0 && hleft == 0
      modifies this`h, this`hleft, this`ops
      ensures h == outer
    {
      h, hleft, ops := outer, latency(ops) + 1, ops + 1;
    }

    method HmacStatus() returns (busy: bool)
      modifies this`hleft
      ensures busy == (hleft > 0) && hleft == if old(hleft) > 0 then old(hleft) - 1 else 0
    {
      if hleft > 0 {
        hleft := hleft - 1;
      }
      busy := hleft > 0;
    }
  }

  /** sha_wait: comes back only because a block was started. */
  method WaitDone(dev: ShaCore)
    requires dev.left > 0 || dev.done
    modifies dev`left, dev`done
    ensures dev.done && (old(dev.left) > 0 && !old(dev.done) ==> dev.left == 0)
    ensures old(dev.left) == 0 ==> dev.left == 0
  {
    var busy, dn := dev.Status();
    while !dn
      invariant dn == dev.done && (dev.left > 0 || dev.done)
      invariant old(dev.left) > 0 && !old(dev.done) ==> (dev.done ==> dev.left == 0)
      invariant old(dev.left) == 0 ==> dev.left == 0
      decreases dev.left
    {
      busy, dn := dev.Status();
    }
  }

  /** sha_wait_idle. */
  method WaitIdle(dev: ShaCore)
    modifies dev`left, dev`done
    ensures dev.left == 0 && (old(dev.left) > 0 || old(dev.done) ==> dev.done)
  {
    var busy, dn := dev.Status();
    while busy
      invariant busy == (dev.left > 0) && (old(dev.left) > 0 || old(dev.done) ==> dev.left > 0 || dev.done)
      decreases dev.left
    {
      busy, dn := dev.Status();
    }
  }

  /** hmac_wait. */
  method WaitHmac(dev: ShaCore)
    modifies dev`hleft
    ensures dev.hleft == 0
  {
    var busy := dev.HmacStatus();
    while busy
      invariant busy == (dev.hleft > 0)
      decreases dev.hleft
    {
      busy := dev.HmacStatus();
    }
  }
}
