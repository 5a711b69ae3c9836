/** HMAC-SHA-256 in three forms: from midstates kept in software, by the unit's HMAC wrapper, and
    by streaming SHA-256 (src/crypto_hw.c, hmac_sha256_*). */
module HmacDriver {
  import opened Bits
  import opened GcmSpec
  import opened ShaSpec
  import opened ShaUnit
  import opened ShaDriver
  import opened ShaSaved

  lemma FrontBlock(c: Compression, h: State, p: Chunk, x: Bytes)
    ensures Absorb(c, h, p) == c(h, p) && Absorb(c, h, p + x) == Absorb(c, c(h, p), x)
  {
    OneBlock(c, h, p);
    hide Absorb;
    AbsorbConcat(c, h, p, x);
  }

  lemma OneBlock(c: Compression, h: State, p: Chunk)
    ensures Absorb(c, h, p) == c(h, p)
  {
    assert p[..64] == p && p[64..] == [];
    assert Absorb(c, c(h, p), []) == c(h, p);
  }

  lemma PadBehind(p: Chunk, m: Bytes)
    ensures p + (m + Padding(64 + |m|)) == p + m + Padding(|p + m|)
  {
    hide Padding;
  }

  /** A block in front of the message is one compression in front. */
  lemma Midstate(c: Compression, p: Chunk, m: Bytes)
    ensures Absorb(c, IV, p) == c(IV, p) && Rest(p) == []
    ensures Sha(c, p + m) == Absorb(c, c(IV, p), m + Padding(64 + |m|))
  {
    hide Padding, Absorb;
    FrontBlock(c, IV, p, m + Padding(64 + |m|));
    PadBehind(p, m);
  }

  /** XOR of a key block with a pad byte, byte by byte. */
  method XorPad(k: Chunk, p: bv8) returns (b: Chunk)
    ensures b == XorAll(k, p)
  {
    var a := new bv8[64](i => 0);
    for i := 0 to 64
      invariant forall j :: 0 <= j < i ==> a[j] == k[j] ^ p
    {
      a[i] := k[i] ^ p;
    }
    b := a[..];
  }

  // ---------- from software midstates

  /** hmac_sha256_hw_key_t. */
  datatype HmacKey = HmacKey(ih: Words4, oh: Words4)

  /** The states behind the two pad blocks of the key. */
  ghost predicate KeyFor(c: Compression, key: Bytes, k: HmacKey) {
    && BytesOf(k.ih) == c(IV, XorAll(BlockKey(c, key), 0x36))
    && BytesOf(k.oh) == c(IV, XorAll(BlockKey(c, key), 0x5C))
  }

  method MidstateOf(dev: ShaCore, b: Chunk) returns (h: Words4)
    requires dev.left == 0
    modifies dev`hin, dev`block, dev`h, dev`left, dev`done, dev`ops
    ensures dev.left == 0 && BytesOf(h) == dev.c(IV, b)
  {
    hide BytesOf, Words;
    WordsBytes(IV);
    LastChunks(dev.c, IV, b);
    h := SavedBlocks(dev, Words(IV), b);
  }

  method SavedDigest(dev: ShaCore, m: Bytes) returns (d: State)
    requires dev.left == 0
    modifies dev`hin, dev`block, dev`h, dev`left, dev`done, dev`ops
    ensures dev.left == 0 && d == Sha(dev.c, m)
  {
    hide SavedContext.Valid, Sha;
    var ctx := new SavedContext();
    ctx.Init(dev.c);
    ctx.Update(dev, m);
    assert [] + m == m;
    d := ctx.Final(dev);
  }

  /** hmac_sha256_hw_rkey. */
  method SavedKey(dev: ShaCore, key: Bytes) returns (k: HmacKey)
    requires dev.left == 0
    modifies dev`hin, dev`block, dev`h, dev`left, dev`done, dev`ops
    ensures dev.left == 0 && KeyFor(dev.c, key, k)
  {
    hide BytesOf, Sha, XorAll;
    var k0: Chunk;
    if |key| > 64 {
      var d := SavedDigest(dev, key);
      k0 := d + Zeros(32);
    } else {
      k0 := key + Zeros(64 - |key|);
    }
    var blk := XorPad(k0, 0x36);
    var ih := MidstateOf(dev, blk);
    blk := XorPad(k0, 0x5C);
    var oh := MidstateOf(dev, blk);
    k := HmacKey(ih, oh);
  }

  /** Hashes m behind a block whose state is at hand. */
  method SavedTail(dev: ShaCore, mid: Words4, m: Bytes, ghost p: Chunk) returns (d: State)
    requires dev.left == 0 && BytesOf(mid) == dev.c(IV, p)
    modifies dev`hin, dev`block, dev`h, dev`left, dev`done, dev`ops
    ensures dev.left == 0 && d == Sha(dev.c, p + m)
  {
    hide SavedContext.Valid, Sha, BytesOf;
    var ctx := new SavedContext();
    Midstate(dev.c, p, m);
    ctx.InitFrom(dev.c, mid, 64, p);
    ctx.Update(dev, m);
    d := ctx.Final(dev);
  }

  /** hmac_sha256_hw_rmac. */
  method SavedMac(dev: ShaCore, k: HmacKey, m: Bytes, ghost key: Bytes) returns (out: State)
    requires dev.left == 0 && KeyFor(dev.c, key, k)
    modifies dev`hin, dev`block, dev`h, dev`left, dev`done, dev`ops
    ensures dev.left == 0 && out == Hmac(dev.c, key, m)
  {
    hide BytesOf, Sha, XorAll, BlockKey;
    var inner := SavedTail(dev, k.ih, m, XorAll(BlockKey(dev.c, key), 0x36));
    out := SavedTail(dev, k.oh, inner, XorAll(BlockKey(dev.c, key), 0x5C));
  }

  // ---------- by streaming

  /** hmac_sha256_sw. */
  method StreamMac(dev: ShaCore, key: Bytes, m: Bytes) returns (out: State)
    requires dev.Quiet()
    modifies dev`block, dev`h, dev`left, dev`done, dev`ops
    ensures dev.Quiet() && out == Hmac(dev.c, key, m)
  {
    hide Sha, XorAll;
    var k: Chunk;
    if |key| > 64 {
      var d := OneShot(dev, key);
      k := d + Zeros(32);
    } else {
      k := key + Zeros(64 - |key|);
    }
    var ipad := XorPad(k, 0x36);
    var opad := XorPad(k, 0x5C);
    var inner := StreamTwo(dev, ipad, m);
    out := StreamTwo(dev, opad, inner);
  }

  /** Init, two updates, final. */
  method StreamTwo(dev: ShaCore, a: Bytes, b: Bytes) returns (out: State)
    requires dev.Quiet()
    modifies dev`block, dev`h, dev`left, dev`done, dev`ops
    ensures dev.Quiet() && out == Sha(dev.c, a + b)
  {
    hide ShaContext.Valid, Sha;
    var ctx := new ShaContext();
    ctx.Init(dev);
    ctx.Update(dev, a);
    ctx.Update(dev, b);
    assert [] + a + b == a + b;
    out := ctx.Final(dev);
  }

  // ---------- by the HMAC wrapper

  /** The wrapper's key registers take 32 bytes: a longer key is cut off. */
  function HwKey(key: Bytes): (r: Bytes)
    ensures |r| <= 32 && (|key| <= 32 ==> r == key)
  {
    if |key| > 32 then key[..32] else key
  }

  method LoadKey(dev: ShaCore, key: Bytes)
    requires dev.Quiet()
    modifies dev`key, dev`inner, dev`outer, dev`hleft, dev`ops
    ensures dev.Quiet()
    ensures dev.inner == dev.c(IV, XorAll(BlockKey(dev.c, HwKey(key)), 0x36))
    ensures dev.outer == dev.c(IV, XorAll(BlockKey(dev.c, HwKey(key)), 0x5C))
  {
    hide BytesOf, Words, Ld64, XorAll, Sha;
    var keyBuf := HwKey(key) + Zeros(32 - |HwKey(key)|);
    for i := 0 to 4
      invariant dev.key[..i] == Words(keyBuf)[..i] && dev.hleft == 0
    {
      WordAt(keyBuf, i);
      dev.WriteKey(i, Ld64(keyBuf[8 * i..8 * i + 8]));
    }
    assert dev.key[..4] == dev.key && Words(keyBuf)[..4] == Words(keyBuf);
    WordsBytes(keyBuf);
    dev.KeyLoad();
    WaitHmac(dev);
    assert keyBuf + Zeros(32) == BlockKey(dev.c, HwKey(key));
  }

  /** The full blocks and the last ones, driven by SHA_CTRL_START, behind a 64-byte pad block. */
  method HwInner(dev: ShaCore, m: Bytes) returns (inner: State)
    requires dev.Quiet()
    modifies dev`block, dev`h, dev`left, dev`done, dev`ops
    ensures dev.Quiet() && inner == dev.h == Absorb(dev.c, old(dev.h), m + Padding(64 + |m|))
  {
    hide Absorb, Padding, Bits64;
    ghost var h0 := dev.h;
    var off := AbsorbBlocks(dev, m);
    AbsorbRest(dev.c, h0, m, Padding(64 + |m|));
    inner := Finalize(dev, m[off..], Bits64(64 + |m|), 64 + |m|);
  }

  /** hmac_sha256_hw: HMAC with the first 32 bytes of the key, so of the whole key up to 32 bytes. */
  method WrapperMac(dev: ShaCore, key: Bytes, m: Bytes) returns (out: State)
    requires dev.Quiet()
    modifies dev
    ensures dev.Quiet() && out == Hmac(dev.c, HwKey(key), m)
    ensures |key| <= 32 ==> out == Hmac(dev.c, key, m)
  {
    hide Absorb, Padding, Sha, XorAll, BlockKey;
    LoadKey(dev, key);
    ghost var k0 := BlockKey(dev.c, HwKey(key));
    dev.LoadInner();
    WaitHmac(dev);
    Midstate(dev.c, XorAll(k0, 0x36), m);
    var inner := HwInner(dev, m);
    dev.LoadOuter();
    WaitHmac(dev);
    Midstate(dev.c, XorAll(k0, 0x5C), inner);
    out := HwInner(dev, inner);
  }
}
