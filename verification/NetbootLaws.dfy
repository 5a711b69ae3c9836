/** The messages of the boot loader, said of their bytes (baremetal/programs/netboot.c). */
module NetbootLaws {
  import opened Basics
  import opened FatGeometry
  import opened Netboot

  /** A word as the sender writes it. */
  function Le4(v: U32): (b: Bytes)
    ensures |b| == 4
  {
    [v % 0x100, v / 0x100 % 0x100, v / 0x1_0000 % 0x100, v / 0x100_0000]
  }

  lemma Le4Reads(v: U32)
    ensures Le32(Le4(v)) == v
  {
    var v1 := v / 0x100;
    var v2 := v1 / 0x100;
    assert v == v % 0x100 + 0x100 * v1 && v1 == v1 % 0x100 + 0x100 * v2 && v2 == v2 % 0x100 + 0x100 * (v2 / 0x100);
    assert v2 == v / 0x1_0000 && v2 / 0x100 == v / 0x100_0000;
  }

  /** Words differ when their bytes do. */
  lemma SameWord(a: Bytes, b: Bytes)
    requires |a| == |b| == 4 && Le32(a) == Le32(b)
    ensures a == b
  {
    var (a0: int, a1: int, a2: int, a3: int) := (a[0], a[1], a[2], a[3]);
    var (b0: int, b1: int, b2: int, b3: int) := (b[0], b[1], b[2], b[3]);
    Digit(a0, a1 + 0x100 * a2 + 0x1_0000 * a3, b0, b1 + 0x100 * b2 + 0x1_0000 * b3);
    Digit(a1, a2 + 0x100 * a3, b1, b2 + 0x100 * b3);
    Digit(a2, a3, b2, b3);
  }

  lemma Digit(a: int, x: int, b: int, y: int)
    requires 0 <= a < 0x100 && 0 <= b < 0x100 && a + 0x100 * x == b + 0x100 * y
    ensures a == b && x == y
  {
  }

  const KNET: Bytes := [0x4B, 0x4E, 0x45, 0x54]

  lemma MagicBytes(s: Bytes)
    requires |s| >= 12
    ensures GoodMagic(s) <==> s[..4] == KNET
  {
    assert Le32(KNET) == NETBOOT_MAGIC;
    if GoodMagic(s) {
      hide Le32;
      SameWord(s[..4], KNET);
    }
  }

  /** When a stream is answered, and how: 1 if and only if it does not begin with the magic bytes, 2 if
      and only if it does and the length is 0 or 16 MiB and more, and 0 with the checksum of the image
      if and only if it is complete. */
  lemma RepliesExactly(s: Bytes)
    ensures |Replies(s)| <= 1
    ensures |s| < 12 ==> Replies(s) == []
    ensures |s| >= 12 ==>
      var magic, len := s[..4] == KNET, ImgLen(s);
      && (Replies(s) == [Reply(1, 0)] <==> !magic)
      && (Replies(s) == [Reply(2, 0)] <==> magic && (len == 0 || len >= 0x0100_0000))
      && (Replies(s) == [] <==> magic && 0 < len < 0x0100_0000 && |s| < 12 + len)
      && (|Replies(s)| == 1 && Replies(s)[0].status == 0 <==> magic && 0 < len < 0x0100_0000 && |s| >= 12 + len)
      && (|Replies(s)| == 1 && Replies(s)[0].status == 0 ==> Replies(s)[0].checksum == Checksum(s[12..12 + len]))
  {
    hide Le32, Checksum;
    if |s| >= 12 { MagicBytes(s); }
  }

  /** A message as a sender makes it: magic, length, entry, image. */
  function Message(len: U32, entry: U32, body: Bytes): Bytes {
    KNET + Le4(len) + Le4(entry) + body
  }

  lemma MessageParts(len: U32, entry: U32, body: Bytes)
    ensures var s := Message(len, entry, body);
      |s| == 12 + |body| && s[..4] == KNET && s[4..8] == Le4(len) && s[8..12] == Le4(entry) && s[12..] == body
  {
    hide Le4;
  }

  /** The header reads back; an image of an allowed length is staged, answered with its checksum and
      launched at its entry. */
  lemma MessageAccepted(len: U32, entry: U32, body: Bytes)
    ensures var s := Message(len, entry, body); |s| >= 12 && HasEntry(s) && ImgLen(s) == len && EntryPc(s) == entry
    ensures 0 < len < 0x0100_0000 && len <= |body| ==>
      var s := Message(len, entry, body);
      Complete(s) && Staged(s) == body[..len] && Replies(s) == [Reply(0, Checksum(body[..len]))]
  {
    hide Le32, Checksum, Le4, Message;
    var s := Message(len, entry, body);
    MessageParts(len, entry, body);
    MagicBytes(s);
    Le4Reads(len);
    Le4Reads(entry);
    if len <= |body| {
      assert s[12..12 + len] == s[12..][..len];
    }
  }

  /** The checksum of a word is the word, that of whole words in front adds up modulo 2^32, and a rest
      of fewer than four bytes does not count. */
  lemma {:induction false} ChecksumAdds(a: Bytes, b: Bytes)
    requires |a| % 4 == 0
    ensures Checksum(a + b) == (Checksum(a) + Checksum(b)) % 0x1_0000_0000
    decreases |a|
  {
    hide Le32, Checksum;
    if a == [] {
      assert a + b == b;
      SumEnd(a);
    } else {
      assert (a + b)[..4] == a[..4] && (a + b)[4..] == a[4..] + b;
      ChecksumStep(a);
      ChecksumStep(a + b);
      ChecksumAdds(a[4..], b);
      SumStep(Le32(a[..4]), Checksum(a[4..]), Checksum(b));
    }
  }

  lemma ChecksumStep(img: Bytes)
    requires |img| >= 4
    ensures Checksum(img) == (Le32(img[..4]) + Checksum(img[4..])) % 0x1_0000_0000
  {
    hide Le32;
  }

  lemma ChecksumWord(v: U32)
    ensures Checksum(Le4(v)) == v
  {
    hide Le32, Le4;
    Le4Reads(v);
    assert Le4(v)[..4] == Le4(v);
    assert Checksum(Le4(v)[4..]) == 0;
  }

  /** The length of the copy: the next multiple of 8, or 0 when that is 2^32. */
  lemma RoundedExactly(len: U32)
    ensures Rounded(len) % 8 == 0 && (len <= Rounded(len) < len + 8 || (len > 0xFFFF_FFF8 && Rounded(len) == 0))
  {
  }
}
