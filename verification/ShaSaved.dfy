/** SHA-256 contexts that hold their own state, so that any number of them can be in flight on one
    unit (src/crypto_hw.c, sha_r_blocks and sha256_hw_r*). */
module ShaSaved {
  import opened Bits
  import opened GcmSpec
  import opened ShaSpec
  import opened ShaUnit
  import opened ShaDriver

  /** Puts a saved state into HIN0..3. */
  method WriteState(dev: ShaCore, h: Words4)
    requires dev.left == 0
    modifies dev`hin
    ensures dev.hin == h
  {
    for i := 0 to 4
      invariant dev.hin[..i] == h[..i]
    {
      ghost var was := dev.hin[..i];
      dev.WriteHin(i, h[i]);
      assert dev.hin[..i + 1] == was + [h[i]] == h[..i + 1];
    }
  }

  /** Reads DIGEST0..3 as a saved state. */
  method ReadState(dev: ShaCore) returns (h: Words4)
    requires dev.left == 0
    ensures BytesOf(h) == dev.h
  {
    hide BytesOf, Words;
    var ws: seq<bv64> := [];
    for i := 0 to 4
      invariant |ws| == i && ws == Words(dev.h)[..i]
    {
      var w := dev.ReadDigest(i);
      ws := ws + [w];
    }
    assert Words(dev.h)[..4] == Words(dev.h);
    WordsBytes(dev.h);
    h := ws;
  }

  /** One block of sha_r_blocks: the first goes with the RESTORE. */
  method SavedChunk(dev: ShaCore, data: Chunk, first: bool)
    requires dev.left == 0
    modifies dev`block, dev`h, dev`left, dev`done, dev`ops
    ensures dev.left == 0 && dev.h == dev.c(if first then BytesOf(dev.hin) else old(dev.h), data)
  {
    hide BytesOf;
    WriteChunk(dev, data);
    if first {
      dev.RestoreStart();
    } else {
      dev.Start();
    }
    WaitIdle(dev);
    WaitDone(dev);
  }

  /** sha_r_blocks. */
  method SavedBlocks(dev: ShaCore, h: Words4, data: Bytes) returns (h': Words4)
    requires dev.left == 0 && |data| % 64 == 0
    modifies dev`hin, dev`block, dev`h, dev`left, dev`done, dev`ops
    ensures dev.left == 0 && BytesOf(h') == Absorb(dev.c, BytesOf(h), data)
  {
    hide BytesOf;
    if |data| == 0 {
      return h;
    }
    WaitIdle(dev);
    WriteState(dev, h);
    var off := 0;
    assert data[0..] == data;
    while off < |data|
      invariant off <= |data| && off % 64 == 0 && dev.left == 0 && dev.hin == h
      invariant Absorb(dev.c, if off == 0 then BytesOf(h) else dev.h, data[off..]) == Absorb(dev.c, BytesOf(h), data)
    {
      assert data[off..][..64] == data[off..off + 64] && data[off..][64..] == data[off + 64..];
      SavedChunk(dev, data[off..off + 64], off == 0);
      off := off + 64;
    }
    h' := ReadState(dev);
  }

  /** sha256_hw_rctx_t. */
  class SavedContext {
    var h: Words4
    var totalBytes: nat       // 64 bits
    const buf: array<bv8>
    var bufLen: nat
    ghost var msg: Bytes      // everything hashed so far

    /** Nothing of the unit is in it. */
    ghost predicate Valid(c: Compression)
      reads this, buf
    {
      && buf.Length == 64 && bufLen < 64 && totalBytes == |msg| % TWO64
      && Holds(c, msg, BytesOf(h), buf[..bufLen])
    }

    constructor ()
      ensures fresh(buf) && buf.Length == 64
    {
      h, totalBytes, bufLen, msg := [0, 0, 0, 0], 0, 0, [];
      buf := new bv8[64](i => 0);
    }

    /** sha256_hw_rinit. */
    method Init(ghost c: Compression)
      requires buf.Length == 64
      modifies this
      ensures Valid(c) && msg == []
    {
      hide BytesOf, Words;
      WordsBytes(IV);
      h := Words(IV);
      totalBytes, bufLen, msg := 0, 0, [];
      assert buf[..0] == [];
    }

    /** sha256_hw_rinit_from: a state that has already hashed whole blocks. */
    method InitFrom(ghost c: Compression, from: Words4, prefixBytes: nat, ghost prefix: Bytes)
      requires buf.Length == 64 && |prefix| % 64 == 0 && prefixBytes == |prefix| % TWO64
      requires BytesOf(from) == Absorb(c, IV, prefix)
      modifies this
      ensures Valid(c) && msg == prefix
    {
      hide BytesOf, Absorb;
      h, totalBytes, bufLen, msg := from, prefixBytes, 0, prefix;
      assert buf[..0] == [] == Rest(prefix);
    }

    /** Fills the buffered part up, and compresses it when it is full. */
    method FillUp(dev: ShaCore, data: Bytes) returns (took: nat)
      requires buf.Length == 64 && bufLen < 64 && dev.left == 0
      modifies this`bufLen, this`h, buf, dev`hin, dev`block, dev`h, dev`left, dev`done, dev`ops
      ensures dev.left == 0 && took <= |data| && bufLen < 64 && (bufLen > 0 ==> took == |data|)
      ensures Absorb(dev.c, BytesOf(h), buf[..bufLen] + data[took..]) ==
        Absorb(dev.c, old(BytesOf(h)), old(buf[..bufLen]) + data)
      ensures Rest(buf[..bufLen] + data[took..]) == Rest(old(buf[..bufLen]) + data)
    {
      hide Absorb, Rest, BytesOf;
      took := 0;
      ghost var part := buf[..bufLen];
      assert data[0..] == data;
      if bufLen > 0 {
        took := 64 - bufLen;
        if took > |data| {
          took := |data|;
        }
        CopyIn(buf, bufLen, data[..took]);
        bufLen := bufLen + took;
        assert buf[..bufLen] + data[took..] == part + data;
        if bufLen < 64 {
          return;
        }
        AbsorbOne(dev.c, BytesOf(h), part + data);
        assert (part + data)[..64] == buf[..] && (part + data)[64..] == data[took..];
        LastChunks(dev.c, BytesOf(h), buf[..]);
        h := SavedBlocks(dev, h, buf[..]);
        bufLen := 0;
        assert buf[..0] + data[took..] == data[took..];
      }
    }

    method StoreRest(data: Bytes, off: nat)
      requires buf.Length == 64 && bufLen < 64 && off == |data| - |data| % 64
      modifies this`bufLen, buf
      ensures bufLen < 64 && buf[..bufLen] == if |data| % 64 > 0 then Rest(data) else old(buf[..bufLen])
    {
      if off < |data| {
        CopyIn(buf, 0, data[off..]);
        bufLen := |data| - off;
        assert buf[..0] == [];
      }
    }

    /** Compresses the whole blocks, and keeps the rest. */
    method WholeBlocks(dev: ShaCore, rest: Bytes)
      requires buf.Length == 64 && bufLen < 64 && dev.left == 0
      modifies this`bufLen, this`h, buf, dev`hin, dev`block, dev`h, dev`left, dev`done, dev`ops
      ensures dev.left == 0 && bufLen < 64 && BytesOf(h) == Absorb(dev.c, old(BytesOf(h)), rest)
      ensures buf[..bufLen] == if |rest| % 64 > 0 then Rest(rest) else old(buf[..bufLen])
    {
      hide Absorb, Rest, BytesOf;
      var off := |rest| - |rest| % 64;
      AbsorbFull(dev.c, BytesOf(h), rest);
      h := SavedBlocks(dev, h, rest[..off]);
      StoreRest(rest, off);
    }

    /** sha256_hw_rupdate. */
    method Update(dev: ShaCore, data: Bytes)
      requires Valid(dev.c) && dev.left == 0
      modifies this, buf, dev`hin, dev`block, dev`h, dev`left, dev`done, dev`ops
      ensures Valid(dev.c) && dev.left == 0 && msg == old(msg) + data
    {
      hide Absorb, Rest, Holds, BytesOf, AddCount;
      HoldsMore(dev.c, msg, BytesOf(h), buf[..bufLen], data);
      CountMore(|msg|, |data|);
      totalBytes := AddCount(totalBytes, |data|);
      var took := FillUp(dev, data);
      FilledUp(dev.c, BytesOf(h), buf[..bufLen], data[took..]);
      WholeBlocks(dev, data[took..]);
      msg := msg + data;
    }

    /** sha256_hw_rfinal. */
    method Final(dev: ShaCore) returns (out: State)
      requires Valid(dev.c) && dev.left == 0
      modifies this`h, this`bufLen, dev`hin, dev`block, dev`h, dev`left, dev`done, dev`ops
      ensures dev.left == 0 && out == Sha(dev.c, msg)
    {
      hide Absorb, Padding, Bits64, Rest, BytesOf;
      HoldsEnd(dev.c, msg, BytesOf(h), buf[..bufLen]);
      CountWraps(|msg|);
      var pad := PadBlocks(buf[..bufLen], Bits64(totalBytes), |msg|);
      h := SavedBlocks(dev, h, pad);
      out := BytesOf(h);
      bufLen := 0;
    }
  }

  /** The count of bytes is 64 bits wide. */
  function AddCount(total: nat, n: nat): nat {
    (total + n) % TWO64
  }

  lemma CountMore(len: nat, n: nat)
    ensures AddCount(len % TWO64, n) == (len + n) % TWO64
  {
  }

  // ---------- contexts in flight together

  datatype Op = Begin(ctx: nat) | Feed(ctx: nat, data: Bytes) | End(ctx: nat) | Whole(data: Bytes)

  datatype Answer = Nothing | Digest(d: State)

  /** The message a context has been fed, if it is in use. */
  datatype Message = Unused | Hashing(m: Bytes)

  /** Only a context in use is fed or ended. */
  predicate Enabled(ms: seq<Message>, op: Op) {
    match op
    case Begin(i) => i < |ms|
    case Feed(i, _) => i < |ms| && ms[i].Hashing?
    case End(i) => i < |ms| && ms[i].Hashing?
    case Whole(_) => true
  }

  function After(ms: seq<Message>, op: Op): (r: seq<Message>)
    requires Enabled(ms, op)
    ensures |r| == |ms|
  {
    match op
    case Begin(i) => ms[i := Hashing([])]
    case Feed(i, data) => ms[i := Hashing(ms[i].m + data)]
    case End(i) => ms[i := Unused]
    case Whole(_) => ms
  }

  /** Each context answers as if it were alone: with the digest of what it was fed. */
  function Expected(c: Compression, ms: seq<Message>, op: Op): Answer
    requires Enabled(ms, op)
  {
    match op
    case Begin(_) => Nothing
    case Feed(_, _) => Nothing
    case End(i) => Digest(Sha(c, ms[i].m))
    case Whole(data) => Digest(Sha(c, data))
  }

  predicate AllEnabled(ms: seq<Message>, ops: seq<Op>)
    decreases |ops|
  {
    ops == [] || (Enabled(ms, ops[0]) && AllEnabled(After(ms, ops[0]), ops[1..]))
  }

  function Answers(c: Compression, ms: seq<Message>, ops: seq<Op>): seq<Answer>
    requires AllEnabled(ms, ops)
    decreases |ops|
  {
    if ops == [] then [] else [Expected(c, ms, ops[0])] + Answers(c, After(ms, ops[0]), ops[1..])
  }

  function Buffers(ctxs: seq<SavedContext>): (r: set<object>)
    ensures forall k :: k in ctxs ==> k.buf in r
  {
    set k | k in ctxs :: k.buf
  }

  ghost predicate Apart(ctxs: seq<SavedContext>) {
    && (forall i :: 0 <= i < |ctxs| ==> ctxs[i].buf.Length == 64)
    && (forall i, j :: 0 <= i < j < |ctxs| ==> ctxs[i] != ctxs[j] && ctxs[i].buf != ctxs[j].buf)
  }

  /** Every context in use holds its message. */
  ghost predicate Follow(c: Compression, ctxs: seq<SavedContext>, ms: seq<Message>)
    reads ctxs, Buffers(ctxs)
  {
    && |ms| == |ctxs|
    && forall i :: 0 <= i < |ctxs| && ms[i].Hashing? ==> ctxs[i].Valid(c) && ctxs[i].msg == ms[i].m
  }

  /** One operation, on one context or on none. */
  method Do(dev: ShaCore, ctxs: seq<SavedContext>, ghost ms: seq<Message>, op: Op) returns (a: Answer)
    requires Enabled(ms, op) && Apart(ctxs) && Follow(dev.c, ctxs, ms) && dev.Quiet()
    modifies dev, ctxs, Buffers(ctxs)
    ensures Follow(dev.c, ctxs, After(ms, op)) && dev.Quiet() && a == Expected(dev.c, ms, op)
  {
    hide SavedContext.Valid, Sha;
    a := Nothing;
    match op {
      case Begin(i) =>
        ctxs[i].Init(dev.c);
      case Feed(i, data) =>
        ctxs[i].Update(dev, data);
      case End(i) =>
        var d := ctxs[i].Final(dev);
        a := Digest(d);
      case Whole(data) =>
        var d := OneShot(dev, data);
        a := Digest(d);
    }
  }

  /** Any interleaving of any number of contexts, and of one-shot hashes between them. */
  method Interleave(dev: ShaCore, ctxs: seq<SavedContext>, ops: seq<Op>) returns (answers: seq<Answer>)
    requires Apart(ctxs) && dev.Quiet() && AllEnabled(seq(|ctxs|, i => Unused), ops)
    modifies dev, ctxs, Buffers(ctxs)
    ensures dev.Quiet() && answers == Answers(dev.c, seq(|ctxs|, i => Unused), ops)
  {
    hide Follow, Expected, Apart, Enabled, After;
    ghost var ms := seq(|ctxs|, i => Unused);
    Fresh(dev.c, ctxs, ms);
    answers := [];
    ghost var all := Answers(dev.c, ms, ops);
    var n := 0;
    assert ops[0..] == ops && [] + all == all;
    while n < |ops|
      invariant n <= |ops| && dev.Quiet() && Follow(dev.c, ctxs, ms)
      invariant AllEnabled(ms, ops[n..]) && answers + Answers(dev.c, ms, ops[n..]) == all
    {
      var a := Do(dev, ctxs, ms, ops[n]);
      answers := answers + [a];
      assert ops[n..][1..] == ops[n + 1..];
      ms := After(ms, ops[n]);
      n := n + 1;
    }
    assert ops[n..] == [];
  }

  lemma Fresh(c: Compression, ctxs: seq<SavedContext>, ms: seq<Message>)
    requires |ms| == |ctxs| && forall i :: 0 <= i < |ms| ==> ms[i] == Unused
    ensures Follow(c, ctxs, ms)
  {
  }
}
