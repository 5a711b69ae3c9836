/** SHA-256 on the SHA block: one-shot, streaming with the state kept in the unit, and with the
    state saved and restored around every call (src/crypto_hw.c, sha256_hw and its relatives). */
module ShaDriver {
  import opened Basics
  import opened Bits
  import opened GcmSpec
  import opened ShaSpec
  import opened ShaUnit

  /** sha_write_block. */
  method WriteChunk(dev: ShaCore, data: Chunk)
    requires dev.left == 0
    modifies dev`block
    ensures BytesOf(dev.block) == data
  {
    hide Ld64, BytesOf, Words;
    for i := 0 to 8
      invariant dev.block[..i] == Words(data)[..i]
    {
      WordAt(data, i);
      dev.WriteBlock(i, Ld64(data[8 * i..8 * i + 8]));
    }
    assert dev.block[..8] == dev.block && Words(data)[..8] == Words(data);
    WordsBytes(data);
  }

  /** A block written, started and waited for. */
  method CompressChunk(dev: ShaCore, data: Chunk)
    requires dev.left == 0
    modifies dev`block, dev`h, dev`left, dev`done, dev`ops
    ensures dev.left == 0 && dev.h == dev.c(old(dev.h), data)
  {
    hide BytesOf;
    WriteChunk(dev, data);
    dev.Start();
    WaitDone(dev);
  }

  /** All full blocks of a message (the loop of sha256_hw). */
  method AbsorbBlocks(dev: ShaCore, m: Bytes) returns (off: nat)
    requires dev.left == 0
    modifies dev`block, dev`h, dev`left, dev`done, dev`ops
    ensures dev.left == 0 && dev.h == Absorb(dev.c, old(dev.h), m) && off == |m| - |m| % 64
  {
    off := 0;
    assert m[0..] == m;
    while off + 64 <= |m|
      invariant off <= |m| && off % 64 == 0 && dev.left == 0
      invariant Absorb(dev.c, dev.h, m[off..]) == Absorb(dev.c, old(dev.h), m)
    {
      assert m[off..][..64] == m[off..off + 64] && m[off..][64..] == m[off + 64..];
      CompressChunk(dev, m[off..off + 64]);
      off := off + 64;
    }
  }

  /** sha_read_digest. */
  method ReadDigest(dev: ShaCore) returns (out: State)
    requires dev.left == 0
    ensures out == dev.h
  {
    hide BytesOf, Words;
    var ws: seq<bv64> := [];
    for i := 0 to 4
      invariant |ws| == i && ws == Words(dev.h)[..i]
    {
      var w := dev.ReadDigest(i);
      ws := ws + [w];
    }
    assert Words(dev.h)[..4] == Words(dev.h);
    WordsBytes(dev.h);
    out := BytesOf(ws);
  }

  // ---------- padding

  /** The last one or two blocks: what is left of a message of n bytes, and its padding. */
  method PadBlocks(partial: Bytes, bits: bv64, ghost n: nat) returns (pad: Bytes)
    requires |partial| == n % 64 && bits == Bits64(n)
    ensures pad == partial + Padding(n)
    ensures |pad| == if |partial| < 56 then 64 else 128
  {
    hide Bits64, BigEndian;
    var len := |partial|;
    var buf := new bv8[128](i => 0);
    forall i | 0 <= i < len { buf[i] := partial[i]; }
    buf[len] := 0x80;
    var blocks := if len < 56 then 1 else 2;
    var lpos := blocks * 64 - 8;
    var be := BigEndian(bits);
    forall i | 0 <= i < 8 { buf[lpos + i] := be[i]; }
    ModSub(n);
    pad := buf[..blocks * 64];
  }

  lemma LastChunks(c: Compression, h: State, x: Bytes)
    requires |x| == 64 || |x| == 128
    ensures Absorb(c, h, x) == if |x| == 64 then c(h, x) else c(c(h, x[..64]), x[64..])
    ensures |x| == 64 ==> x[|x| - 64..] == x
  {
    if |x| == 64 {
      assert x[..64] == x;
    } else {
      assert x[64..][..64] == x[64..];
      assert Absorb(c, h, x) == Absorb(c, c(h, x[..64]), x[64..]);
    }
  }

  /** sha_finalize. */
  method Finalize(dev: ShaCore, partial: Bytes, bits: bv64, ghost n: nat) returns (out: State)
    requires dev.left == 0 && |partial| == n % 64 && bits == Bits64(n)
    modifies dev`block, dev`h, dev`left, dev`done, dev`ops
    ensures dev.left == 0 && out == dev.h == Absorb(dev.c, old(dev.h), partial + Padding(n))
  {
    hide Bits64, Padding;
    var pad := PadBlocks(partial, bits, n);
    if |partial| >= 56 {
      CompressChunk(dev, pad[..64]);
    }
    LastChunks(dev.c, old(dev.h), pad);
    CompressChunk(dev, pad[|pad| - 64..]);
    out := ReadDigest(dev);
  }

  /** The bytes behind the full blocks. */
  function Rest(x: Bytes): (r: Bytes)
    ensures |r| == |x| % 64
  {
    x[|x| - |x| % 64..]
  }

  lemma {:induction false} AbsorbFull(c: Compression, h: State, x: Bytes)
    ensures Absorb(c, h, x) == Absorb(c, h, x[..|x| - |x| % 64])
    decreases |x|
  {
    var k := |x| - |x| % 64;
    if |x| >= 64 {
      assert x[..k][..64] == x[..64] && x[..k][64..] == x[64..][..k - 64];
      AbsorbFull(c, c(h, x[..64]), x[64..]);
    }
  }

  /** What is left of x goes in front of what follows. */
  lemma AbsorbRest(c: Compression, h: State, x: Bytes, y: Bytes)
    ensures Absorb(c, h, x + y) == Absorb(c, Absorb(c, h, x), Rest(x) + y)
    ensures Rest(x + y) == Rest(Rest(x) + y)
  {
    var k := |x| - |x| % 64;
    AbsorbFull(c, h, x);
    AbsorbConcat(c, h, x[..k], x[k..] + y);
    assert x[..k] + (x[k..] + y) == x + y;
    RestTail(x[..k], Rest(x) + y);
  }

  lemma RestTail(x: Bytes, y: Bytes)
    requires |x| % 64 == 0
    ensures Rest(x + y) == Rest(y)
  {
    ModPlus(|x|, |y|);
  }

  lemma ModPlus(a: nat, b: nat)
    requires a % 64 == 0
    ensures (a + b) % 64 == b % 64
  {
    ModIs(a + b, 64, a / 64 + b / 64, b % 64);
  }

  /** sha256_hw: whatever the unit did before. */
  method OneShot(dev: ShaCore, m: Bytes) returns (out: State)
    requires dev.Quiet()
    modifies dev`block, dev`h, dev`left, dev`done, dev`ops
    ensures dev.Quiet() && out == Sha(dev.c, m)
  {
    hide Bits64, Padding, Absorb;
    dev.Init();
    var off := AbsorbBlocks(dev, m);
    AbsorbRest(dev.c, IV, m, Padding(|m|));
    out := Finalize(dev, m[off..], Bits64(|m|), |m|);
  }

  // ---------- streaming

  /** h and part are what a message so far leaves behind. */
  ghost predicate Holds(c: Compression, msg: Bytes, h: State, part: Bytes) {
    h == Absorb(c, IV, msg) && part == Rest(msg)
  }

  lemma HoldsMore(c: Compression, msg: Bytes, h: State, part: Bytes, data: Bytes)
    requires Holds(c, msg, h, part)
    ensures Holds(c, msg + data, Absorb(c, h, part + data), Rest(part + data))
  {
    AbsorbRest(c, IV, msg, data);
  }

  lemma HoldsEnd(c: Compression, msg: Bytes, h: State, part: Bytes)
    requires Holds(c, msg, h, part)
    ensures Absorb(c, h, part + Padding(|msg|)) == Sha(c, msg)
  {
    AbsorbRest(c, IV, msg, Padding(|msg|));
  }

  const TWO64: nat := 0x1_0000_0000_0000_0000

  /** A byte count that wraps gives the bit count of the whole. */
  lemma CountWraps(n: nat)
    ensures Bits64(n % TWO64) == Bits64(n)
  {
    var q := n / TWO64;
    assert n * 8 == (n % TWO64) * 8 + TWO64 * (q * 8);
    ModMultiple((n % TWO64) * 8, q * 8);
  }

  lemma ModMultiple(a: nat, q: nat)
    ensures (a + TWO64 * q) % TWO64 == a % TWO64
  {
  }

  /** Compressing the first block of x, and going on with the rest. */
  lemma AbsorbOne(c: Compression, h: State, x: Bytes)
    requires |x| >= 64
    ensures Absorb(c, h, x) == Absorb(c, c(h, x[..64]), x[64..]) && Rest(x) == Rest(x[64..])
  {
    assert x == x[..64] + x[64..];
    RestTail(x[..64], x[64..]);
  }

  method CopyIn(buf: array<bv8>, off: nat, data: Bytes)
    requires off + |data| <= buf.Length
    modifies buf
    ensures buf[..off + |data|] == old(buf[..off]) + data
  {
    forall i | 0 <= i < |data| { buf[off + i] := data[i]; }
  }

  /** sha256_ctx_t: the hash state itself stays in the unit. */
  class ShaContext {
    var totalBytes: nat       // 64 bits
    const buf: array<bv8>     // the last part of a block
    var bufLen: nat
    var initialized: bool
    ghost var msg: Bytes      // everything hashed so far

    ghost predicate Valid(dev: ShaCore)
      reads this, buf, dev
    {
      && buf.Length == 64 && bufLen < 64 && dev.Quiet()
      && totalBytes == |msg| % TWO64
      && Holds(dev.c, msg, dev.h, buf[..bufLen])
    }

    constructor ()
      ensures fresh(buf) && buf.Length == 64
    {
      totalBytes, bufLen, initialized, msg := 0, 0, false, [];
      buf := new bv8[64](i => 0);
    }

    /** sha256_hw_init. */
    method Init(dev: ShaCore)
      requires dev.Quiet() && buf.Length == 64
      modifies this, dev`h, dev`done
      ensures Valid(dev) && msg == [] && initialized
    {
      totalBytes, bufLen, initialized, msg := 0, 0, true, [];
      dev.Init();
      assert buf[..0] == [];
    }

    /** The first part of an update: the buffered part is filled up, and compressed when full. */
    method FillUp(dev: ShaCore, data: Bytes) returns (took: nat)
      requires buf.Length == 64 && bufLen < 64 && dev.left == 0
      modifies this`bufLen, buf, dev`block, dev`h, dev`left, dev`done, dev`ops
      ensures dev.left == 0 && took <= |data| && bufLen < 64 && (bufLen > 0 ==> took == |data|)
      ensures Absorb(dev.c, dev.h, buf[..bufLen] + data[took..]) == Absorb(dev.c, old(dev.h), old(buf[..bufLen]) + data)
      ensures Rest(buf[..bufLen] + data[took..]) == Rest(old(buf[..bufLen]) + data)
    {
      hide Absorb, Rest;
      took := 0;
      ghost var part := buf[..bufLen];
      assert data[0..] == data;
      if bufLen > 0 {
        var need := 64 - bufLen;
        took := if |data| < need then |data| else need;
        CopyIn(buf, bufLen, data[..took]);
        bufLen := bufLen + took;
        assert buf[..bufLen] + data[took..] == part + data;
        if bufLen == 64 {
          AbsorbOne(dev.c, dev.h, part + data);
          assert (part + data)[..64] == buf[..] && (part + data)[64..] == data[took..];
          CompressChunk(dev, buf[..]);
          bufLen := 0;
          assert buf[..0] + data[took..] == data[took..];
        }
      }
    }

    method StoreRest(data: Bytes, off: nat)
      requires buf.Length == 64 && bufLen < 64 && off == |data| - |data| % 64
      modifies this`bufLen, buf
      ensures bufLen < 64 && buf[..bufLen] == if |data| % 64 > 0 then Rest(data) else old(buf[..bufLen])
    {
      if off < |data| {
        CopyIn(buf, 0, data[off..]);
        bufLen := |data| - off;
        assert buf[..0] == [];
      }
    }

    /** sha256_hw_update: any chunking of a message leaves the same behind. */
    method Update(dev: ShaCore, data: Bytes)
      requires Valid(dev)
      modifies this`totalBytes, this`bufLen, this`msg, buf, dev`block, dev`h, dev`left, dev`done, dev`ops
      ensures Valid(dev) && msg == old(msg) + data
    {
      hide Absorb, Rest, Holds;
      HoldsMore(dev.c, msg, dev.h, buf[..bufLen], data);
      totalBytes := (totalBytes + |data|) % TWO64;
      var took := FillUp(dev, data);
      FilledUp(dev.c, dev.h, buf[..bufLen], data[took..]);
      var off := AbsorbBlocks(dev, data[took..]);
      StoreRest(data[took..], off);
      msg := msg + data;
    }

    /** sha256_hw_final. */
    method Final(dev: ShaCore) returns (out: State)
      requires Valid(dev)
      modifies this`initialized, dev`block, dev`h, dev`left, dev`done, dev`ops
      ensures dev.Quiet() && out == Sha(dev.c, msg) && !initialized
    {
      hide Absorb, Padding, Bits64, Rest;
      HoldsEnd(dev.c, msg, dev.h, buf[..bufLen]);
      CountWraps(|msg|);
      out := Finalize(dev, buf[..bufLen], Bits64(totalBytes), |msg|);
      initialized := false;
    }
  }

  /** Either nothing is buffered, or the buffer took all the data. */
  lemma FilledUp(c: Compression, h: State, part: Bytes, data: Bytes)
    requires |part| < 64 && (part != [] ==> data == [])
    ensures Absorb(c, h, part + data) == Absorb(c, h, data)
    ensures Rest(part + data) == if |data| % 64 > 0 then Rest(data) else part
  {
    if part == [] {
      assert part + data == data;
    } else {
      assert part + data == part;
    }
  }

  function Flatten(chunks: seq<Bytes>): Bytes {
    if chunks == [] then [] else Flatten(chunks[..|chunks| - 1]) + chunks[|chunks| - 1]
  }

  /** Streaming gives the digest of the whole, however the message is cut up. */
  method Stream(dev: ShaCore, chunks: seq<Bytes>) returns (out: State)
    requires dev.Quiet()
    modifies dev`block, dev`h, dev`left, dev`done, dev`ops
    ensures dev.Quiet() && out == Sha(dev.c, Flatten(chunks))
  {
    hide ShaContext.Valid;
    var ctx := new ShaContext();
    ctx.Init(dev);
    for i := 0 to |chunks|
      invariant ctx.Valid(dev) && ctx.msg == Flatten(chunks[..i]) && fresh(ctx) && fresh(ctx.buf)
    {
      ctx.Update(dev, chunks[i]);
      assert chunks[..i + 1][..i] == chunks[..i];
    }
    assert chunks[..|chunks|] == chunks;
    out := ctx.Final(dev);
  }
}
