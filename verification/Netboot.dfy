/** The network boot loader: the receive state machine, and the copy that puts the image in place
    (baremetal/programs/netboot.c). */
module Netboot {
  import opened Basics
  import opened FatGeometry

  type Bytes = seq<Byte>

  const NETBOOT_MAGIC: U32 := 0x5445_4E4B
  const STAGING_BASE: nat := 0x0400_0000
  const TRAMP_BASE: nat := 0x07FF_0000
  const STACK_TOP: nat := 0x0800_0000
  const MAX_IMG_BYTES: nat := 0x0100_0000

  /** rd_le32. */
  function Le32(b: Bytes): U32
    requires |b| == 4
  {
    var b0: int, b1: int, b2: int, b3: int := b[0], b[1], b[2], b[3];
    b0 + 0x100 * b1 + 0x1_0000 * b2 + 0x100_0000 * b3
  }

  /** The sum of the little-endian words; bytes behind the last whole word do not count. */
  function Checksum(img: Bytes): U32
    decreases |img|
  {
    if |img| < 4 then 0 else (Le32(img[..4]) + Checksum(img[4..])) % 0x1_0000_0000
  }

  datatype Phase = RX_HEADER | RX_IMAGE | RX_DONE

  datatype Reply = Reply(status: U32, checksum: U32)

  // ---------- what a stream of bytes means

  /** The announced length. */
  function ImgLen(s: Bytes): U32
    requires |s| >= 12
  {
    Le32(s[4..8])
  }

  function EntryPc(s: Bytes): U32
    requires |s| >= 12
  {
    Le32(s[8..12])
  }

  predicate GoodMagic(s: Bytes)
    requires |s| >= 12
  {
    Le32(s[..4]) == NETBOOT_MAGIC
  }

  predicate GoodHeader(s: Bytes)
    requires |s| >= 12
  {
    GoodMagic(s) && 0 < ImgLen(s) < MAX_IMG_BYTES
  }

  predicate Complete(s: Bytes) {
    |s| >= 12 && GoodHeader(s) && |s| >= 12 + ImgLen(s)
  }

  function PhaseOf(s: Bytes): Phase {
    if |s| < 12 then RX_HEADER else if !GoodHeader(s) || Complete(s) then RX_DONE else RX_IMAGE
  }

  /** The part of the image that has arrived. */
  function Staged(s: Bytes): Bytes {
    if |s| < 12 || !GoodHeader(s) then []
    else if Complete(s) then s[12..12 + ImgLen(s)] else s[12..]
  }

  function Replies(s: Bytes): seq<Reply> {
    if |s| < 12 then []
    else if !GoodMagic(s) then [Reply(1, 0)]
    else if !GoodHeader(s) then [Reply(2, 0)]
    else if Complete(s) then [Reply(0, Checksum(Staged(s)))]
    else []
  }

  /** Once a header or an image has been judged, further bytes change nothing. */
  lemma DoneStays(s: Bytes, more: Bytes)
    requires PhaseOf(s) == RX_DONE
    ensures PhaseOf(s + more) == RX_DONE && Staged(s + more) == Staged(s) && Replies(s + more) == Replies(s)
    ensures Complete(s + more) == Complete(s)
  {
    HeaderStays(s, more);
    if Complete(s) { assert (s + more)[12..12 + ImgLen(s)] == s[12..12 + ImgLen(s)]; }
  }

  lemma HeaderStays(s: Bytes, more: Bytes)
    requires |s| >= 12
    ensures GoodMagic(s + more) == GoodMagic(s) && ImgLen(s + more) == ImgLen(s) && EntryPc(s + more) == EntryPc(s)
  {
    assert (s + more)[..4] == s[..4] && (s + more)[4..8] == s[4..8] && (s + more)[8..12] == s[8..12];
  }

  /** Bytes of the image, not more than are missing. */
  lemma ImageMore(s: Bytes, x: Bytes)
    requires PhaseOf(s) == RX_IMAGE && |Staged(s)| + |x| <= ImgLen(s)
    ensures Staged(s + x) == Staged(s) + x && ImgLen(s + x) == ImgLen(s) && GoodHeader(s + x)
    ensures PhaseOf(s + x) == if |Staged(s)| + |x| == ImgLen(s) then RX_DONE else RX_IMAGE
    ensures Complete(s + x) <==> |Staged(s)| + |x| == ImgLen(s)
    ensures Replies(s + x) == if |Staged(s)| + |x| == ImgLen(s) then [Reply(0, Checksum(Staged(s) + x))] else []
  {
    hide Checksum, Replies, ImgLen, GoodMagic, EntryPc;
    HeaderStays(s, x);
    assert (s + x)[12..] == s[12..] + x;
    if Complete(s + x) { assert (s + x)[12..12 + ImgLen(s)] == (s + x)[12..]; }
    ImageReplies(s + x);
  }

  lemma ImageReplies(s: Bytes)
    requires |s| >= 12 && GoodHeader(s)
    ensures Replies(s) == if Complete(s) then [Reply(0, Checksum(Staged(s)))] else []
  {
    hide Checksum, Le32, Complete, Staged;
  }

  lemma StagedShort(s: Bytes)
    ensures |Staged(s)| < MAX_IMG_BYTES
  {
  }

  lemma StagedGrows(s: Bytes, x: Bytes)
    ensures |Staged(s)| <= |Staged(s + x)|
  {
    hide Le32;
    if |s| >= 12 { HeaderStays(s, x); }
  }

  lemma OneReply(s: Bytes)
    ensures |Replies(s)| <= 1
  {
  }

  /** A header leads to an image that is accepted if and only if it is good. A length of 16 MiB, the
      limit itself, is not. */
  lemma AcceptedExactly(s: Bytes)
    requires |s| >= 12
    ensures (exists x :: Complete(s + x)) <==> GoodMagic(s) && 0 < ImgLen(s) < 0x0100_0000
    ensures GoodMagic(s) && ImgLen(s) >= 0x0100_0000 ==> Replies(s) == [Reply(2, 0)]
  {
    hide Le32, Checksum;
    if GoodHeader(s) {
      var x := seq(ImgLen(s), i => 0 as Byte);
      HeaderStays(s, x);
      assert Complete(s + x);
    } else {
      forall x ensures !Complete(s + x) { HeaderStays(s, x); }
    }
  }

  // ---------- what a run of connections means

  /** A connection is accepted, or a segment arrives. */
  datatype Event = Connect | Segment(data: Bytes)

  datatype Image = Image(bytes: Bytes, entry: U32)

  /** stream: the bytes since the last connection was accepted; base: what was known of staging
      then; acked: the last image that was answered with status 0, if any; entry: g_entry_pc. */
  datatype Past = Past(stream: Bytes, base: Bytes, acked: Image, entry: U32)

  predicate HasEntry(s: Bytes) {
    |s| >= 12 && GoodMagic(s)
  }

  /** The past with the stream grown to s. */
  function Fed(p: Past, s: Bytes): Past {
    p.(stream := s,
       acked := if Complete(s) then Image(Staged(s), EntryPc(s)) else p.acked,
       entry := if HasEntry(s) then EntryPc(s) else p.entry)
  }

  /** New bytes over old ones. */
  function Over(top: Bytes, base: Bytes): Bytes {
    top + if |top| <= |base| then base[|top|..] else []
  }

  /** What is known of staging. */
  function Known(p: Past): Bytes {
    Over(Staged(p.stream), p.base)
  }

  function After(p: Past, ev: Event): Past {
    match ev
    case Connect => p.(stream := [], base := Known(p))
    case Segment(data) => Fed(p, p.stream + data)
  }

  function History(p: Past, evs: seq<Event>): Past {
    if evs == [] then p else After(History(p, evs[..|evs| - 1]), evs[|evs| - 1])
  }

  ghost predicate Sound(p: Past) {
    && Fed(p, p.stream) == p
    && |p.base| < MAX_IMG_BYTES && |p.acked.bytes| <= |Known(p)| < MAX_IMG_BYTES
  }

  lemma ConnectKeeps(p: Past)
    requires Sound(p)
    ensures Sound(After(p, Connect)) && Known(After(p, Connect)) == Known(p)
  {
  }

  lemma CompleteStays(s: Bytes, more: Bytes)
    requires Complete(s)
    ensures Complete(s + more) && Staged(s + more) == Staged(s) && EntryPc(s + more) == EntryPc(s)
  {
    DoneStays(s, more);
    HeaderStays(s, more);
  }

  lemma FedTwice(p: Past, s: Bytes, more: Bytes)
    ensures Fed(Fed(p, s), s + more) == Fed(p, s + more)
  {
    hide Le32;
    if Complete(s) { CompleteStays(s, more); }
    if |s| >= 12 { HeaderStays(s, more); }
  }

  /** g_img_len. */
  function LenOf(s: Bytes): U32 {
    if HasEntry(s) then ImgLen(s) else 0
  }

  /** Nothing outside lo..hi differs. */
  ghost predicate OnlyWithin(m: Bytes, m': Bytes, lo: nat, hi: nat) {
    |m'| == |m| && forall a :: 0 <= a < |m| && (a < lo || hi <= a) ==> m'[a] == m[a]
  }

  lemma WithinRefl(m: Bytes, lo: nat, hi: nat)
    ensures OnlyWithin(m, m, lo, hi)
  {
  }

  lemma WithinTrans(m: Bytes, m': Bytes, m'': Bytes, lo: nat, hi: nat, hi': nat)
    requires OnlyWithin(m, m', lo, hi) && OnlyWithin(m', m'', lo, hi') && hi <= hi'
    ensures OnlyWithin(m, m'', lo, hi')
  {
  }

  class Receiver {
    const mem: array<Byte>    // the memory, from address 0 to the top of the stack
    const hdr: array<Byte>
    var phase: Phase
    var hdrHave: nat
    var imgLen: U32
    var entryPc: U32
    var offset: nat           // bytes written to staging so far
    var imageReady: bool
    var sent: seq<Reply>      // replies of this connection
    ghost var received: Bytes // bytes since the last connection was accepted
    ghost var base: Bytes     // what staging held when it was accepted
    ghost var acked: Image    // the last image that was acknowledged

    ghost predicate Shape()
      reads this, hdr
    {
      && mem.Length == STACK_TOP && hdr.Length == 12 && mem != hdr
      && hdrHave == (if |received| < 12 then |received| else 12)
      && hdr[..hdrHave] == received[..hdrHave]
      && imgLen == LenOf(received)
    }

    ghost function P(): Past
      reads this
    {
      Past(received, base, acked, entryPc)
    }

    /** The state is a function of all bytes of the connection, not of how they were cut up. */
    ghost predicate Valid()
      reads this, hdr, mem
    {
      && Shape()
      && phase == PhaseOf(received) && sent == Replies(received)
      && (phase != RX_HEADER && GoodHeader(received) ==> offset == |Staged(received)|)
      && Sound(P()) && mem[STAGING_BASE..STAGING_BASE + |Known(P())|] == Known(P())
      && (imageReady <==> acked.bytes != [])
    }

    constructor (mem: array<Byte>)
      requires mem.Length == STACK_TOP
      ensures Valid() && fresh(hdr) && this.mem == mem && P() == Past([], [], Image([], 0), 0)
    {
      this.mem := mem;
      hdr := new Byte[12](i => 0);
      phase, hdrHave, imgLen, entryPc, offset, imageReady := RX_HEADER, 0, 0, 0, 0, false;
      sent, received, base, acked := [], [], [], Image([], 0);
    }

    /** netboot_accept. */
    method Accept()
      requires Valid()
      modifies this
      ensures Valid() && P() == After(old(P()), Connect) && sent == []
    {
      hide Sound, Known;
      ConnectKeeps(P());
      phase, hdrHave, offset, imgLen := RX_HEADER, 0, 0, 0;
      sent, received, base := [], [], Known(P());
    }

    /** Copies as much of the header as there is. */
    method FillHeader(src: Bytes) returns (took: nat)
      requires hdr.Length == 12 && hdrHave < 12 && src != []
      modifies this`hdrHave, hdr
      ensures 0 < took <= |src| && hdrHave == old(hdrHave) + took <= 12 && (hdrHave < 12 ==> took == |src|)
      ensures hdr[..hdrHave] == old(hdr[..hdrHave]) + src[..took]
    {
      var need := 12 - hdrHave;
      took := if |src| < need then |src| else need;
      CopyIn(hdr, hdrHave, src[..took]);
      hdrHave := hdrHave + took;
      assert hdr[..hdrHave] == old(hdr[..hdrHave]) + src[..took];
    }

    /** The header branch of consume; stop: a bad header has been answered. */
    method TakeHeader(src: Bytes) returns (took: nat, stop: bool)
      requires Valid() && phase == RX_HEADER && src != []
      modifies this, hdr
      ensures Valid() && 0 < took <= |src| && received == old(received) + src[..took] && P() == Fed(old(P()), received)
      ensures stop ==> phase == RX_DONE
    {
      hide Le32, Checksum, GoodHeader;
      stop := false;
      assert hdr[..hdrHave] == received;
      took := FillHeader(src);
      HeaderFed(P(), received + src[..took]);
      received := received + src[..took];
      if hdrHave == 12 {
        assert hdr[..4] == received[..4] && hdr[4..8] == received[4..8] && hdr[8..12] == received[8..12];
        stop := Judge();
      }
    }

    /** A whole header. */
    method Judge() returns (stop: bool)
      requires mem.Length == STACK_TOP && hdr.Length == 12 && mem != hdr && hdrHave == |received| == 12
      requires hdr[..4] == received[..4] && hdr[4..8] == received[4..8] && hdr[8..12] == received[8..12]
      requires hdr[..12] == received && phase == RX_HEADER && sent == [] && imgLen == 0
      requires Sound(Fed(P(), received)) && (imageReady <==> acked.bytes != []) && Known(Fed(P(), received)) == base
      requires Fed(P(), received).acked == acked && mem[STAGING_BASE..STAGING_BASE + |base|] == base
      modifies this`phase, this`sent, this`imgLen, this`entryPc, this`offset
      ensures Valid() && P() == Fed(old(P()), received) && (stop ==> phase == RX_DONE)
    {
      hide Le32, Checksum, Known, Sound;
      if Le32(hdr[..4]) != NETBOOT_MAGIC {
        sent := sent + [Reply(1, 0)];
        phase := RX_DONE;
        return true;
      }
      imgLen := Le32(hdr[4..8]);
      entryPc := Le32(hdr[8..12]);
      offset := 0;
      if imgLen == 0 || imgLen >= MAX_IMG_BYTES {
        sent := sent + [Reply(2, 0)];
        phase := RX_DONE;
        return true;
      }
      phase := RX_IMAGE;
      return false;
    }

    /** image_checksum. */
    method ImageChecksum(len: nat) returns (sum: U32)
      requires mem.Length == STACK_TOP && len < MAX_IMG_BYTES
      ensures sum == Checksum(mem[STAGING_BASE..STAGING_BASE + len])
    {
      hide Le32, Checksum;
      ghost var img := mem[STAGING_BASE..STAGING_BASE + len];
      sum := 0;
      var i := 0;
      assert img[0..] == img;
      while i + 4 <= len
        invariant 0 <= i <= len && (sum + Checksum(img[i..])) % 0x1_0000_0000 == Checksum(img)
      {
        var b := mem[STAGING_BASE + i..STAGING_BASE + i + 4];
        SubSlice(mem[..], STAGING_BASE, STAGING_BASE + len, i, 4);
        SumWord(img, i);
        SumStep(sum, Le32(b), Checksum(img[i + 4..]));
        sum := (sum + Le32(b)) % 0x1_0000_0000;
        i := i + 4;
      }
      SumEnd(img[i..]);
    }

    /** Copies into staging. */
    method Stage(data: Bytes)
      requires mem.Length == STACK_TOP && offset + |data| < MAX_IMG_BYTES
      modifies this`offset, mem
      ensures offset == old(offset) + |data|
      ensures mem[STAGING_BASE..STAGING_BASE + offset] == old(mem[STAGING_BASE..STAGING_BASE + offset]) + data
      ensures OnlyWithin(old(mem[..]), mem[..], STAGING_BASE, STAGING_BASE + offset)
    {
      CopyIn(mem, STAGING_BASE + offset, data);
      offset := offset + |data|;
      ghost var m := old(mem[..]);
      assert mem[STAGING_BASE..STAGING_BASE + offset] == old(mem[STAGING_BASE..STAGING_BASE + offset]) + data by {
        forall a | STAGING_BASE <= a < STAGING_BASE + old(offset) ensures mem[a] == m[a] { assert mem[..][a] == m[a]; }
      }
    }

    /** What is known while the image arrives. */
    lemma InImage()
      requires Valid() && phase == RX_IMAGE
      ensures imgLen == ImgLen(received) < MAX_IMG_BYTES && offset == |Staged(received)| < imgLen
      ensures sent == [] && entryPc == EntryPc(received)
      ensures |Known(P())| < MAX_IMG_BYTES && mem[STAGING_BASE..STAGING_BASE + offset] == Staged(received)
    {
      hide Le32, Checksum;
      StagedPart(P());
      assert mem[STAGING_BASE..STAGING_BASE + offset] == Known(P())[..offset];
    }

    /** The image branch of consume. */
    method TakeImage(src: Bytes) returns (took: nat)
      requires Valid() && phase == RX_IMAGE && src != []
      modifies this, mem
      ensures Valid() && 0 < took <= |src| && received == old(received) + src[..took] && P() == Fed(old(P()), received)
      ensures OnlyWithin(old(mem[..]), mem[..], STAGING_BASE, STAGING_BASE + |Staged(received)|)
    {
      hide Le32, Checksum, OnlyWithin, Known, Sound, Fed, Staged, GoodHeader, Complete, LenOf, Replies;
      InImage();
      var need := imgLen - offset;
      took := if |src| < need then |src| else need;
      ghost var m := mem[..];
      ImageMore(received, src[..took]);
      HeaderStays(received, src[..took]);
      Stage(src[..took]);
      assert mem[..][STAGING_BASE..STAGING_BASE + offset] == Staged(received) + src[..took];
      KnownMore(m, mem[..], P(), src[..took]);
      EndImage(src[..took]);
    }

    /** The new bytes are staged; the last ones complete the image. */
    method EndImage(ghost data: Bytes)
      requires Shape() && phase == RX_IMAGE == PhaseOf(received) && sent == [] && offset <= imgLen
      requires (imageReady <==> acked.bytes != []) && entryPc == EntryPc(received)
      requires |Staged(received)| + |data| == offset && Staged(received + data) == Staged(received) + data
      requires mem[STAGING_BASE..STAGING_BASE + offset] == Staged(received) + data
      requires
        var p := Fed(P(), received + data);
        Sound(p) && mem[STAGING_BASE..STAGING_BASE + |Known(p)|] == Known(p)
      modifies this`phase, this`sent, this`imageReady, this`received, this`acked
      ensures Valid() && received == old(received) + data && P() == Fed(old(P()), received)
    {
      hide Le32, Checksum, OnlyWithin, Known, Sound, Staged, Replies, Complete;
      ImageMore(received, data);
      HeaderStays(received, data);
      if offset == imgLen {
        var cks := ImageChecksum(imgLen);
        sent := sent + [Reply(0, cks)];
        phase := RX_DONE;
        imageReady := true;
        acked := Image(Staged(received + data), entryPc);
      }
      received := received + data;
    }

    /** One round of the loop of consume; stop: the call returns, the rest of the bytes is ignored. */
    method Take(src: Bytes) returns (took: nat, stop: bool)
      requires Valid() && src != []
      modifies this, hdr, mem
      ensures Valid() && took <= |src| && received == old(received) + src[..took] && P() == Fed(old(P()), received)
      ensures if stop then PhaseOf(received) == RX_DONE else took > 0
      ensures |Staged(old(received))| <= |Staged(received)|
      ensures OnlyWithin(old(mem[..]), mem[..], STAGING_BASE, STAGING_BASE + |Staged(received)|)
    {
      hide Le32, Checksum, Replies, Fed, Known;
      if phase == RX_HEADER {
        took, stop := TakeHeader(src);
      } else if phase == RX_IMAGE {
        ghost var s := received;
        took := TakeImage(src);
        stop := false;
        StagedGrows(s, src[..took]);
      } else {
        assert received + src[..0] == received;
        return 0, true;
      }
    }

    /** Bytes behind the end are ignored. */
    ghost method Ignore(rest: Bytes)
      requires Valid() && PhaseOf(received) == RX_DONE
      modifies this`received
      ensures Valid() && received == old(received) + rest && Staged(received) == Staged(old(received))
      ensures P() == Fed(old(P()), received)
    {
      hide Le32, Checksum;
      DoneStays(received, rest);
      HeaderStays(received, rest);
      received := received + rest;
    }

    /** consume: for every split of the stream the same phase, header, staged image and replies, at
        most one reply, and no byte written but those of the image. */
    method Consume(src: Bytes)
      requires Valid()
      modifies this, hdr, mem
      ensures Valid() && P() == After(old(P()), Segment(src)) && |sent| <= 1
      ensures OnlyWithin(old(mem[..]), mem[..], STAGING_BASE, STAGING_BASE + |Staged(received)|)
    {
      hide Valid, OnlyWithin, Staged, PhaseOf, Fed;
      var n := 0;
      ghost var p := P();
      ghost var all := p.stream + src;
      assert p.stream + src[..0] == p.stream;
      Same();
      WithinRefl(mem[..], STAGING_BASE, STAGING_BASE + |Staged(received)|);
      while n < |src|
        invariant 0 <= n <= |src| && Valid() && received == p.stream + src[..n] && P() == Fed(p, received)
        invariant OnlyWithin(old(mem[..]), mem[..], STAGING_BASE, STAGING_BASE + |Staged(received)|)
      {
        ghost var m, hi, s := mem[..], STAGING_BASE + |Staged(received)|, received;
        var took, stop := Take(src[n..]);
        WithinTrans(old(mem[..]), m, mem[..], STAGING_BASE, hi, STAGING_BASE + |Staged(received)|);
        assert src[..n] + src[n..][..took] == src[..n + took];
        assert p.stream + src[..n] + src[n..][..took] == p.stream + src[..n + took];
        FedTwice(p, s, src[n..][..took]);
        n := n + took;
        if stop {
          s := received;
          Ignore(src[n..]);
          FedTwice(p, s, src[n..]);
          assert p.stream + src[..n] + src[n..] == all;
          Answered();
          return;
        }
      }
      assert src[..n] == src;
      Answered();
    }

    lemma Size()
      requires Valid()
      ensures mem.Length == STACK_TOP
    {
    }

    lemma Staging()
      requires Valid()
      ensures |Staged(received)| < MAX_IMG_BYTES
      ensures mem[STAGING_BASE..STAGING_BASE + |Staged(received)|] == Staged(received)
    {
      hide Le32, Known, Replies, Staged, PhaseOf, Fed;
      StagedShort(received);
      StagedPart(P());
      var k, n := Known(P()), |Staged(received)|;
      SubSlice(mem[..], STAGING_BASE, STAGING_BASE + |k|, 0, n);
      assert k[..n] == Staged(received);
    }

    lemma Same()
      requires Valid()
      ensures Fed(P(), received) == P()
    {
    }

    lemma Answered()
      requires Valid()
      ensures |sent| <= 1
    {
      OneReply(received);
    }
  }

  /** Bytes of a header stage nothing. */
  lemma HeaderFed(p: Past, s: Bytes)
    requires Sound(p) && |p.stream| < 12 && |s| <= 12
    ensures Sound(Fed(p, s)) && Known(Fed(p, s)) == p.base == Known(p) && Fed(p, s).acked == p.acked
  {
    hide Le32, Checksum;
    assert Staged(s) == Staged(p.stream) == [];
  }

  lemma StagedPart(p: Past)
    ensures Staged(p.stream) <= Known(p)
  {
  }

  lemma OverGrows(top: Bytes, x: Bytes, base: Bytes)
    ensures |Over(top, base)| <= |Over(top + x, base)|
    ensures forall a :: |top| + |x| <= a < |base| ==> Over(top + x, base)[a] == Over(top, base)[a]
    ensures |Over(top + x, base)| <= if |top| + |x| <= |base| then |base| else |top| + |x|
  {
  }

  /** New bytes of the image in staging. */
  lemma KnownMore(m: Bytes, m': Bytes, p: Past, x: Bytes)
    requires Sound(p) && PhaseOf(p.stream) == RX_IMAGE && |Staged(p.stream)| + |x| <= ImgLen(p.stream)
    requires |m| == STACK_TOP && m[STAGING_BASE..STAGING_BASE + |Known(p)|] == Known(p)
    requires
      var hi := STAGING_BASE + |Staged(p.stream)| + |x|;
      OnlyWithin(m, m', STAGING_BASE, hi) && m'[STAGING_BASE..hi] == Staged(p.stream) + x
    ensures
      var q := Fed(p, p.stream + x);
      Sound(q) && m'[STAGING_BASE..STAGING_BASE + |Known(q)|] == Known(q)
  {
    hide Le32, Checksum, PhaseOf, Staged, Complete, Fed;
    var q := Fed(p, p.stream + x);
    ImageMore(p.stream, x);
    FedParts(p, x);
    var top := Staged(p.stream);
    OverGrows(top, x, p.base);
    StagedShort(p.stream + x);
    var n := |Known(q)|;
    forall a | 0 <= a < n ensures m'[STAGING_BASE + a] == Known(q)[a] {
      if a < |top| + |x| {
        assert m'[STAGING_BASE..STAGING_BASE + (|top| + |x|)][a] == (top + x)[a];
      } else {
        assert m[STAGING_BASE..STAGING_BASE + |Known(p)|][a] == Known(p)[a];
      }
    }
  }

  lemma FedParts(p: Past, x: Bytes)
    requires PhaseOf(p.stream) == RX_IMAGE && Fed(p, p.stream) == p && |p.acked.bytes| <= |Known(p)|
    requires Staged(p.stream + x) == Staged(p.stream) + x
    ensures var q := Fed(p, p.stream + x);
      && q.stream == p.stream + x && q.base == p.base && Fed(q, q.stream) == q
      && |q.acked.bytes| <= |Known(q)|
  {
    hide Le32;
    OverGrows(Staged(p.stream), x, p.base);
  }

  lemma SumEnd(rest: Bytes)
    requires |rest| < 4
    ensures Checksum(rest) == 0
  {
  }

  lemma SumWord(img: Bytes, i: nat)
    requires i + 4 <= |img|
    ensures Checksum(img[i..]) == (Le32(img[i..i + 4]) + Checksum(img[i + 4..])) % 0x1_0000_0000
  {
    hide Le32;
    assert img[i..][..4] == img[i..i + 4] && img[i..][4..] == img[i + 4..];
  }

  lemma SumStep(a: U32, w: U32, rest: U32)
    ensures ((a + w) % 0x1_0000_0000 + rest) % 0x1_0000_0000 == (a + (w + rest) % 0x1_0000_0000) % 0x1_0000_0000
  {
  }

  /** memcpy into memory. */
  method CopyIn(mem: array<Byte>, at: nat, data: Bytes)
    requires at + |data| <= mem.Length
    modifies mem
    ensures mem[at..at + |data|] == data && OnlyWithin(old(mem[..]), mem[..], at, at + |data|)
  {
    forall i | 0 <= i < |data| { mem[at + i] := data[i]; }
  }

  // ---------- the launch

  /** (len + 7u) & ~7u. */
  function Rounded(len: U32): U32 {
    (len + 7) % 0x1_0000_0000 / 8 * 8
  }

  lemma RoundedFits(len: U32)
    ensures Rounded(len) % 8 == 0 && (len < 0xFFFF_FFF9 ==> len <= Rounded(len) < len + 8)
  {
  }

  /** The first n bytes of memory are those of staging; the rest is as it was. */
  ghost predicate Moved(m: Bytes, m': Bytes, n: nat) {
    && |m| == |m'| == STACK_TOP && n <= STAGING_BASE
    && forall a :: 0 <= a < STACK_TOP ==> m'[a] == m[if a < n then STAGING_BASE + a else a]
  }

  /** ldidx64, stidx64. */
  method MoveWord(mem: array<Byte>, src: nat, dst: nat)
    requires src + 8 <= mem.Length && dst + 8 <= src
    modifies mem
    ensures mem[dst..dst + 8] == old(mem[src..src + 8]) && OnlyWithin(old(mem[..]), mem[..], dst, dst + 8)
  {
    forall i | 0 <= i < 8 { mem[dst + i] := mem[src + i]; }
  }

  lemma MovedWord(m: Bytes, m': Bytes, m'': Bytes, n: nat)
    requires Moved(m, m', n) && n + 8 <= STAGING_BASE && OnlyWithin(m', m'', n, n + 8)
    requires m''[n..n + 8] == m'[STAGING_BASE + n..STAGING_BASE + n + 8]
    ensures Moved(m, m'', n + 8)
  {
    forall a | 0 <= a < STACK_TOP ensures m''[a] == m[if a < n + 8 then STAGING_BASE + a else a] {
      if n <= a < n + 8 {
        assert m''[n..n + 8][a - n] == m'[STAGING_BASE + n..STAGING_BASE + n + 8][a - n];
      }
    }
  }

  /** The loop of nb_tramp: moves the image from staging to address 0, eight bytes at a time. */
  method TrampolineCopy(mem: array<Byte>, len: nat)
    requires mem.Length == STACK_TOP && len % 8 == 0 && len <= STAGING_BASE
    modifies mem
    ensures mem[..len] == old(mem[STAGING_BASE..STAGING_BASE + len])
    ensures OnlyWithin(old(mem[..]), mem[..], 0, len)
  {
    ghost var m := mem[..];
    var left, src, dst := len, STAGING_BASE, 0;
    while left != 0
      invariant 0 <= left <= len && left % 8 == 0 && dst == len - left && src == STAGING_BASE + dst
      invariant Moved(m, mem[..], dst)
    {
      hide Moved, OnlyWithin;
      ghost var m1 := mem[..];
      MoveWord(mem, src, dst);
      assert mem[dst..dst + 8] == mem[..][dst..dst + 8];
      MovedWord(m, m1, mem[..], dst);
      src, dst, left := src + 8, dst + 8, left - 8;
    }
    assert mem[..len] == m[STAGING_BASE..STAGING_BASE + len] by {
      forall a | 0 <= a < len ensures mem[a] == m[STAGING_BASE + a] { assert mem[..][a] == m[STAGING_BASE + a]; }
    }
  }

  /** As much of staging as is in memory below the trampoline. */
  function Reach(imgLen: U32): nat {
    var n := TRAMP_BASE - STAGING_BASE;
    if Rounded(imgLen) < n then Rounded(imgLen) else n
  }

  /** launch_image up to the jump to the entry: code is the trampoline, at most 64 KiB of words.
      Staging has been moved to address 0 as far as the length says; staging itself and the
      trampoline, which runs all the while, are intact. */
  method Launch(mem: array<Byte>, code: Bytes, imgLen: U32)
    requires mem.Length == STACK_TOP && Rounded(imgLen) <= STAGING_BASE && |code| <= STACK_TOP - TRAMP_BASE
    modifies mem
    ensures mem[..Reach(imgLen)] == old(mem[STAGING_BASE..STAGING_BASE + Reach(imgLen)])
    ensures mem[TRAMP_BASE..TRAMP_BASE + |code|] == code
    ensures forall a :: Rounded(imgLen) <= a < TRAMP_BASE || TRAMP_BASE + |code| <= a < STACK_TOP ==>
      mem[a] == old(mem[a])
  {
    hide Rounded;
    RoundedFits(imgLen);
    ghost var m0 := mem[..];
    CopyIn(mem, TRAMP_BASE, code);
    ghost var m1 := mem[..];
    assert mem[TRAMP_BASE..TRAMP_BASE + |code|] == m1[TRAMP_BASE..TRAMP_BASE + |code|];
    assert mem[STAGING_BASE..STAGING_BASE + Rounded(imgLen)] == m1[STAGING_BASE..STAGING_BASE + Rounded(imgLen)];
    TrampolineCopy(mem, Rounded(imgLen));
    ghost var m2 := mem[..];
    assert mem[..Rounded(imgLen)] == m2[..Rounded(imgLen)];
    Landed(m0, m1, m2, code, imgLen);
    assert forall a :: 0 <= a < STACK_TOP ==> mem[a] == m2[a] && old(mem[a]) == m0[a];
    assert mem[..Reach(imgLen)] == m2[..Reach(imgLen)];
    assert mem[TRAMP_BASE..TRAMP_BASE + |code|] == m2[TRAMP_BASE..TRAMP_BASE + |code|];
  }

  lemma Landed(m0: Bytes, m1: Bytes, m2: Bytes, code: Bytes, len: U32)
    requires |m0| == STACK_TOP && Rounded(len) <= STAGING_BASE && |code| <= STACK_TOP - TRAMP_BASE
    requires OnlyWithin(m0, m1, TRAMP_BASE, TRAMP_BASE + |code|) && m1[TRAMP_BASE..TRAMP_BASE + |code|] == code
    requires OnlyWithin(m1, m2, 0, Rounded(len)) && m2[..Rounded(len)] == m1[STAGING_BASE..STAGING_BASE + Rounded(len)]
    ensures m2[..Reach(len)] == m0[STAGING_BASE..STAGING_BASE + Reach(len)]
    ensures m2[TRAMP_BASE..TRAMP_BASE + |code|] == code
    ensures forall a :: Rounded(len) <= a < TRAMP_BASE || TRAMP_BASE + |code| <= a < STACK_TOP ==> m2[a] == m0[a]
  {
    hide Rounded;
    var r := Rounded(len);
    forall a | 0 <= a < Reach(len) ensures m2[a] == m0[STAGING_BASE + a] {
      assert m2[..r][a] == m1[STAGING_BASE..STAGING_BASE + r][a];
    }
    forall a | 0 <= a < |code| ensures m2[TRAMP_BASE + a] == code[a] {
      assert m1[TRAMP_BASE..TRAMP_BASE + |code|][a] == code[a];
    }
  }

  // ---------- both together

  /** Two receivers that got the same stream, however it was cut up for each, agree. */
  lemma SameStream(a: Receiver, b: Receiver)
    requires a.Valid() && b.Valid() && a.received == b.received
    ensures a.phase == b.phase && a.sent == b.sent && a.hdrHave == b.hdrHave && a.hdr[..a.hdrHave] == b.hdr[..b.hdrHave]
    ensures
      var n := |Staged(a.received)|;
      a.mem[STAGING_BASE..STAGING_BASE + n] == b.mem[STAGING_BASE..STAGING_BASE + n]
    ensures a.phase == RX_IMAGE || Complete(a.received) ==>
      a.imgLen == b.imgLen && a.entryPc == b.entryPc && a.offset == b.offset
  {
    hide Le32, Known, Replies, Staged;
    a.Staging();
    b.Staging();
  }

  /** Overrun: the length is that of a refused header, and so large that the copy leaves the memory;
      what happens then is not part of this model. */
  datatype Outcome = Waiting | Launched(pc: U32) | Overrun

  /** When a launch puts the acknowledged image in place: what is known of staging still begins with
      it as far as it is copied, and the part that is not copied was there before. */
  ghost predicate InPlace(p: Past, low: Bytes) {
    var (img, n) := (p.acked.bytes, Rounded(LenOf(p.stream)));
    && |img| <= |low|
    && forall a :: 0 <= a < |img| ==> img[a] == if a < n && a < |Known(p)| then Known(p)[a] else low[a]
  }

  /** What is launched is the acknowledged image, when the memory below staging is low. */
  ghost predicate Right(p: Past, low: Bytes) {
    && p.acked.bytes != [] && Rounded(LenOf(p.stream)) <= STAGING_BASE
    && p.entry == p.acked.entry && InPlace(p, low)
  }

  /** The test of the main loop, and the launch. The acknowledged image is then at address 0 if and
      only if InPlace. */
  method Start(r: Receiver, code: Bytes) returns (out: Outcome)
    requires r.Valid() && |code| <= STACK_TOP - TRAMP_BASE
    modifies r.mem
    ensures r.mem.Length == STACK_TOP && |r.acked.bytes| < MAX_IMG_BYTES
    ensures out.Waiting? <==> r.acked.bytes == []
    ensures out.Overrun? <==> r.acked.bytes != [] && Rounded(LenOf(r.received)) > STAGING_BASE
    ensures out.Launched? ==> out.pc == r.entryPc
    ensures out.Launched? ==>
      (r.mem[..|r.acked.bytes|] == r.acked.bytes <==> InPlace(r.P(), old(r.mem[..STAGING_BASE])))
  {
    hide Rounded, Staged, Le32, Replies, PhaseOf;
    if !r.imageReady {
      return Waiting;
    }
    if Rounded(r.imgLen) > STAGING_BASE {
      return Overrun;
    }
    ghost var m := r.mem[..];
    assert m[STAGING_BASE..STAGING_BASE + |Known(r.P())|] == Known(r.P());
    Launch(r.mem, code, r.imgLen);
    assert r.mem[..Reach(r.imgLen)] == r.mem[..][..Reach(r.imgLen)];
    PlacedExactly(r.P(), m, r.mem[..]);
    assert r.mem[..|r.acked.bytes|] == r.mem[..][..|r.acked.bytes|];
    assert m[..STAGING_BASE] == old(r.mem[..STAGING_BASE]);
    out := Launched(r.entryPc);
  }

  lemma PlacedExactly(p: Past, m: Bytes, m': Bytes)
    requires Sound(p) && |m| == |m'| == STACK_TOP && m[STAGING_BASE..STAGING_BASE + |Known(p)|] == Known(p)
    requires
      var n := Reach(LenOf(p.stream));
      m'[..n] == m[STAGING_BASE..STAGING_BASE + n]
    requires forall a :: Rounded(LenOf(p.stream)) <= a < TRAMP_BASE ==> m'[a] == m[a]
    ensures m'[..|p.acked.bytes|] == p.acked.bytes <==> InPlace(p, m[..STAGING_BASE])
  {
    hide Rounded, Staged, Fed, LenOf, Over;
    var (img, n, k) := (p.acked.bytes, Rounded(LenOf(p.stream)), Known(p));
    var low := m[..STAGING_BASE];
    forall a | 0 <= a < |img| ensures m'[a] == if a < n && a < |k| then k[a] else low[a] {
      if a < n {
        assert m'[..Reach(LenOf(p.stream))][a] == m[STAGING_BASE..STAGING_BASE + Reach(LenOf(p.stream))][a];
        assert m[STAGING_BASE..STAGING_BASE + |k|][a] == k[a];
      }
    }
    assert m'[..|img|] == img <==> forall a :: 0 <= a < |img| ==> m'[a] == img[a];
  }

  /** Any run of connections and segments, and the launch: the acknowledged image is at address 0 and
      jumped to at its own entry if and only if Right. */
  method Serve(r: Receiver, evs: seq<Event>, code: Bytes) returns (out: Outcome)
    requires r.Valid() && |code| <= STACK_TOP - TRAMP_BASE
    modifies r, r.hdr, r.mem
    ensures var p := History(old(r.P()), evs);
      && r.P() == p && r.mem.Length == STACK_TOP && |p.acked.bytes| < MAX_IMG_BYTES
      && (out.Waiting? <==> p.acked.bytes == [])
      && (out.Overrun? <==> p.acked.bytes != [] && Rounded(LenOf(p.stream)) > STAGING_BASE)
      && (out.Launched? ==> out.pc == p.entry)
      && (out.Launched? ==>
            (r.mem[..|p.acked.bytes|] == p.acked.bytes <==> InPlace(p, old(r.mem[..STAGING_BASE]))))
      && (Right(p, old(r.mem[..STAGING_BASE])) <==>
            out == Launched(p.acked.entry) && r.mem[..|p.acked.bytes|] == p.acked.bytes)
  {
    hide Receiver.Valid, After, InPlace, Rounded, LenOf, OnlyWithin;
    ghost var p := r.P();
    ghost var m := r.mem[..];
    WithinRefl(m, STAGING_BASE, STACK_TOP);
    r.Size();
    for i := 0 to |evs|
      invariant r.Valid() && r.P() == History(p, evs[..i])
      invariant OnlyWithin(m, r.mem[..], STAGING_BASE, STACK_TOP)
    {
      Handle(r, evs[i], m);
      assert evs[..i + 1][..i] == evs[..i];
    }
    assert evs[..|evs|] == evs;
    LowKept(m, r.mem[..]);
    assert r.mem[..STAGING_BASE] == r.mem[..][..STAGING_BASE];
    assert m[..STAGING_BASE] == old(r.mem[..STAGING_BASE]);
    out := Start(r, code);
  }

  lemma LowKept(m: Bytes, m': Bytes)
    requires OnlyWithin(m, m', STAGING_BASE, STACK_TOP) && |m| >= STAGING_BASE
    ensures m'[..STAGING_BASE] == m[..STAGING_BASE]
  {
  }

  method Handle(r: Receiver, ev: Event, ghost m: Bytes)
    requires r.Valid() && OnlyWithin(m, r.mem[..], STAGING_BASE, STACK_TOP)
    modifies r, r.hdr, r.mem
    ensures r.Valid() && r.P() == After(old(r.P()), ev) && OnlyWithin(m, r.mem[..], STAGING_BASE, STACK_TOP)
  {
    hide Receiver.Valid, After;
    match ev {
      case Connect => r.Accept();
      case Segment(data) =>
        r.Consume(data);
        StagedShort(r.received);
    }
  }

  lemma StagedOver(s: Bytes, data: Bytes, base: Bytes)
    requires |base| < MAX_IMG_BYTES
    ensures |Over(Staged(s), base)| <= |Over(Staged(s + data), base)| < MAX_IMG_BYTES
    ensures |Staged(s + data)| <= |Over(Staged(s + data), base)|
  {
    hide Staged;
    StagedGrows(s, data);
    StagedShort(s + data);
  }

  lemma SoundAfter(p: Past, ev: Event)
    requires Sound(p)
    ensures Sound(After(p, ev))
  {
    hide Staged, Complete, Over;
    match ev
    case Connect => ConnectKeeps(p);
    case Segment(data) =>
      var s := p.stream + data;
      assert s + [] == s;
      FedTwice(p, s, []);
      StagedOver(p.stream, data, p.base);
  }

  /** Every run. */
  lemma {:induction false} SoundHistory(p: Past, evs: seq<Event>)
    requires Sound(p)
    ensures Sound(History(p, evs))
  {
    hide Sound, After;
    if evs != [] {
      SoundHistory(p, evs[..|evs| - 1]);
      SoundAfter(History(p, evs[..|evs| - 1]), evs[|evs| - 1]);
    }
  }

  /** The length at launch covers the acknowledged image and does not leave the memory, staging still
      begins with the image, and the entry is its own. */
  ghost predicate Intact(q: Past) {
    var img := q.acked.bytes;
    && |img| <= Rounded(LenOf(q.stream)) <= STAGING_BASE
    && img <= Known(q) && q.entry == q.acked.entry
  }

  /** In every run, once an image is acknowledged: it is what is launched, whatever the memory held,
      if and only if it is intact. */
  lemma LaunchedExactly(p: Past, evs: seq<Event>)
    requires Sound(p) && History(p, evs).acked.bytes != []
    ensures
      var q := History(p, evs);
      (forall low :: |low| == STAGING_BASE ==> Right(q, low)) <==> Intact(q)
  {
    hide Sound, History;
    SoundHistory(p, evs);
    RightExactly(History(p, evs));
  }

  lemma RightExactly(q: Past)
    requires Sound(q) && q.acked.bytes != []
    ensures (forall low :: |low| == STAGING_BASE ==> Right(q, low)) <==> Intact(q)
  {
    hide Known, Rounded, LenOf, Fed;
    var img, n := q.acked.bytes, Rounded(LenOf(q.stream));
    if Intact(q) {
      assert forall a :: 0 <= a < |img| ==> img[a] == Known(q)[a];
    } else if n <= STAGING_BASE && q.entry == q.acked.entry {
      var low := NotThere(q);
      assert !Right(q, low);
    } else {
      var low := seq(STAGING_BASE, i => 0 as Byte);
      assert !Right(q, low);
    }
  }

  /** Memory that shows the image is not in place. */
  lemma NotThere(q: Past) returns (low: Bytes)
    requires Sound(q) && q.acked.bytes != []
    requires !(|q.acked.bytes| <= Rounded(LenOf(q.stream)) && q.acked.bytes <= Known(q))
    ensures |low| == STAGING_BASE && !InPlace(q, low)
  {
    hide Known, Rounded, LenOf, Fed;
    var img, n := q.acked.bytes, Rounded(LenOf(q.stream));
    if n < |img| {
      low := seq(STAGING_BASE, i => if img[n] == 0 then 1 else 0);
      assert low[n] != img[n];
    } else {
      low := seq(STAGING_BASE, i => 0);
      var a :| 0 <= a < |img| && img[a] != Known(q)[a];
    }
  }

  /** Without a later connection the acknowledged image is intact. */
  lemma InTime(p: Past)
    requires Sound(p) && Complete(p.stream)
    ensures p.acked == Image(Staged(p.stream), EntryPc(p.stream)) && Intact(p)
  {
    hide Le32;
    RoundedFits(LenOf(p.stream));
    StagedPart(p);
  }

  /** What a later connection, with s received on it, leaves of the image in staging. */
  lemma LateKnown(p: Past, s: Bytes)
    requires Sound(p) && Complete(p.stream) && !Complete(s)
    ensures var q := After(After(p, Connect), Segment(s));
      && q.acked == p.acked && q.stream == s && |p.acked.bytes| <= |Known(q)|
      && q.entry == (if HasEntry(s) then EntryPc(s) else p.acked.entry)
      && forall a :: 0 <= a < |p.acked.bytes| ==>
          Known(q)[a] == if a < |Staged(s)| then Staged(s)[a] else p.acked.bytes[a]
  {
    hide Le32;
    assert [] + s == s;
    StagedPart(p);
  }

  /** The connection announces a length that covers the image and does not leave the memory, and the
      entry of the image, and sends nothing that differs. */
  ghost predicate Covers(s: Bytes, img: Image) {
    && HasEntry(s) && |img.bytes| <= Rounded(ImgLen(s)) <= STAGING_BASE && EntryPc(s) == img.entry
    && forall a :: 0 <= a < |img.bytes| && a < |Staged(s)| ==> Staged(s)[a] == img.bytes[a]
  }

  /** A later connection, with s received on it: the acknowledged image stays intact if and only if s
      covers it. */
  lemma TooLate(p: Past, s: Bytes)
    requires Sound(p) && Complete(p.stream) && !Complete(s)
    ensures Intact(After(After(p, Connect), Segment(s))) <==> Covers(s, p.acked)
  {
    hide Le32, Known, Sound, After, Staged, Complete, EntryPc, ImgLen;
    var q := After(After(p, Connect), Segment(s));
    LateKnown(p, s);
    AckedShort(p);
    var img := p.acked.bytes;
    assert img <= Known(q) <==> forall a :: 0 <= a < |img| ==> Known(q)[a] == img[a];
  }

  lemma AckedShort(p: Past)
    requires Sound(p) && Complete(p.stream)
    ensures 0 < |p.acked.bytes| < MAX_IMG_BYTES
  {
  }

  const ONE_BYTE: Bytes := [0x4B, 0x4E, 0x45, 0x54, 1, 0, 0, 0, 0x20, 0, 0, 0, 7]

  lemma OneByte()
    ensures Complete(ONE_BYTE) && Staged(ONE_BYTE) == [7] && EntryPc(ONE_BYTE) == 0x20
  {
    assert Le32(ONE_BYTE[..4]) == NETBOOT_MAGIC;
    assert ImgLen(ONE_BYTE) == 1;
  }

  lemma LateHistory(p: Past)
    requires p == Past([], [], Image([], 0), 0)
    ensures History(p, [Segment(ONE_BYTE), Connect]) == Past([], [7], Image([7], 0x20), 0x20)
  {
    hide Complete, Staged, EntryPc;
    OneByte();
    var a := Segment(ONE_BYTE);
    assert [] + ONE_BYTE == ONE_BYTE;
    assert [a, Connect][..1] == [a] && [a][..0] == [];
    assert History(p, [a]) == After(History(p, []), a);
  }

  /** A complete image of one byte, and then a new connection: the image has been acknowledged, and
      what is launched is not it. */
  method LateConnection(r: Receiver, code: Bytes) returns (out: Outcome)
    requires r.Valid() && r.P() == Past([], [], Image([], 0), 0) && r.mem[0] != 7 && |code| <= STACK_TOP - TRAMP_BASE
    modifies r, r.hdr, r.mem
    ensures out == Launched(0x20) && r.acked == Image([7], 0x20) && r.mem.Length == STACK_TOP && r.mem[0] != 7
  {
    hide Receiver.Valid, History, Known;
    LateHistory(r.P());
    r.Size();
    assert r.mem[..STAGING_BASE][0] != 7;
    out := Serve(r, [Segment(ONE_BYTE), Connect], code);
    assert r.mem[..1][0] != 7;
  }

  /** The header of another image of one byte, with another entry. */
  const OTHER_ENTRY: Bytes := [0x4B, 0x4E, 0x45, 0x54, 1, 0, 0, 0, 0x40, 0, 0, 0]

  /** A header that is refused: 128 MiB. */
  const TOO_LONG: Bytes := [0x4B, 0x4E, 0x45, 0x54, 0, 0, 0, 8, 0x20, 0, 0, 0]

  lemma LateHeaders()
    ensures HasEntry(OTHER_ENTRY) && ImgLen(OTHER_ENTRY) == 1 && EntryPc(OTHER_ENTRY) == 0x40
    ensures HasEntry(TOO_LONG) && ImgLen(TOO_LONG) == 0x0800_0000 && EntryPc(TOO_LONG) == 0x20
  {
    assert Le32(OTHER_ENTRY[..4]) == NETBOOT_MAGIC && Le32(TOO_LONG[..4]) == NETBOOT_MAGIC;
  }

  /** A header behind the new connection. */
  lemma LateHeader(p: Past, h: Bytes)
    requires p == Past([], [], Image([], 0), 0) && |h| == 12 && HasEntry(h)
    ensures History(p, [Segment(ONE_BYTE), Connect, Segment(h)]) == Past(h, [7], Image([7], 0x20), EntryPc(h))
  {
    hide Le32, EntryPc;
    LateHistory(p);
    var evs := [Segment(ONE_BYTE), Connect, Segment(h)];
    assert evs[..2] == [Segment(ONE_BYTE), Connect];
    assert [] + h == h;
  }

  /** The image is launched at the entry of the other one. */
  method LateEntry(r: Receiver, code: Bytes) returns (out: Outcome)
    requires r.Valid() && r.P() == Past([], [], Image([], 0), 0) && |code| <= STACK_TOP - TRAMP_BASE
    modifies r, r.hdr, r.mem
    ensures out == Launched(0x40) && r.acked == Image([7], 0x20)
  {
    hide Receiver.Valid, History, Known;
    LateHeaders();
    LateHeader(r.P(), OTHER_ENTRY);
    out := Serve(r, [Segment(ONE_BYTE), Connect, Segment(OTHER_ENTRY)], code);
  }

  /** The copy takes the refused length and leaves the memory. */
  method LateLength(r: Receiver, code: Bytes) returns (out: Outcome)
    requires r.Valid() && r.P() == Past([], [], Image([], 0), 0) && |code| <= STACK_TOP - TRAMP_BASE
    modifies r, r.hdr, r.mem
    ensures out == Overrun && r.acked == Image([7], 0x20)
  {
    hide Receiver.Valid, History, Known;
    LateHeaders();
    LateHeader(r.P(), TOO_LONG);
    out := Serve(r, [Segment(ONE_BYTE), Connect, Segment(TOO_LONG)], code);
  }
}
