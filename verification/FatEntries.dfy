/** The packed 12/16/32-bit entries of the FAT, on the bytes of the FAT and
    through the sector window (fatfs/ff.c, get_fat and put_fat). */
module FatEntries {
  import opened Basics
  import opened FatGeometry
  import opened FatWindow

  // ---------- entries as bytes of the FAT

  /** The bytes of the first FAT copy. */
  function Image(g: Geometry, d: Disk): (img: seq<Byte>)
    requires g.Valid() && g.Fits(d)
    ensures |img| == g.fsize * 512
  {
    seq(g.fsize * 512, k requires 0 <= k < g.fsize * 512 => d[g.fatbase + k / 512][k % 512])
  }

  /** Byte offset of the entry of cluster c. */
  function Offset(t: FsType, c: nat): nat {
    match t
    case FAT12 => c + c / 2
    case FAT16 => c * 2
    case FAT32 => c * 4
  }

  /** Bytes the entry touches. */
  function Width(t: FsType): nat {
    match t
    case FAT12 => 2
    case FAT16 => 2
    case FAT32 => 4
  }

  predicate Holds(t: FsType, img: seq<Byte>, n: nat) {
    0 < n ==> Offset(t, n - 1) + Width(t) <= |img|
  }

  /** The value an entry of this width keeps of v. */
  function Trunc(t: FsType, v: U32): (r: U32) {
    match t
    case FAT12 => v % 0x1000
    case FAT16 => v % 0x1_0000
    case FAT32 => v % 0x1000_0000
  }

  function Ld16(a: Byte, b: Byte): U32 {
    a + 0x100 * b
  }

  function Ld32(a: Byte, b: Byte, c: Byte, d: Byte): U32 {
    a + 0x100 * b + 0x1_0000 * c + 0x100_0000 * d
  }

  /** The 12-bit entry in two bytes. */
  function Get12(c: nat, a: Byte, b: Byte): U32 {
    if c % 2 == 1 then Ld16(a, b) / 16 else Ld16(a, b) % 0x1000
  }

  /** The entry of cluster c. */
  function Entry(t: FsType, img: seq<Byte>, c: nat): (r: U32)
    requires Offset(t, c) + Width(t) <= |img|
  {
    var o := Offset(t, c);
    match t
    case FAT12 => Get12(c, img[o], img[o + 1])
    case FAT16 => Ld16(img[o], img[o + 1])
    case FAT32 => Ld32(img[o], img[o + 1], img[o + 2], img[o + 3]) % 0x1000_0000
  }

  /** The four bits above a FAT32 entry. */
  function TopBits(img: seq<Byte>, c: nat): int
    requires c * 4 + 4 <= |img|
  {
    img[c * 4 + 3] / 16
  }

  /** First byte of a 12-bit entry, given the byte there before. */
  function First12(c: nat, v: U32, b: Byte): Byte {
    if c % 2 == 1 then b % 16 + v % 16 * 16 else v % 0x100
  }

  /** Second byte of a 12-bit entry, given the byte there before. */
  function Second12(c: nat, v: U32, b: Byte): Byte {
    if c % 2 == 1 then v / 16 % 0x100 else b / 16 * 16 + v / 0x100 % 16
  }

  function St16(v: U32): (r: seq<Byte>)
    ensures |r| == 2
  {
    [v % 0x100, v / 0x100 % 0x100]
  }

  /** A 28-bit value below the four bits kept from byte b. */
  function St28(v: U32, b: Byte): (r: seq<Byte>)
    ensures |r| == 4
  {
    [v % 0x100, v / 0x100 % 0x100, v / 0x1_0000 % 0x100, b / 16 * 16 + v / 0x100_0000 % 16]
  }

  /** The FAT bytes after the entry of cluster c is set to v. */
  function SetEntry(t: FsType, img: seq<Byte>, c: nat, v: U32): (r: seq<Byte>)
    requires Offset(t, c) + Width(t) <= |img|
    ensures |r| == |img|
  {
    var o := Offset(t, c);
    match t
    case FAT12 => Put(Put(img, o, [First12(c, v, img[o])]), o + 1, [Second12(c, v, img[o + 1])])
    case FAT16 => Put(img, o, St16(v))
    case FAT32 => Put(img, o, St28(v, img[o + 3]))
  }

  /** Setting one entry: that entry reads back truncated, every other entry is as
      before (12-bit neighbours share a byte), and the top bits stay. */
  lemma SetThenGet(t: FsType, img: seq<Byte>, c: nat, v: U32, e: nat)
    requires Offset(t, c) + Width(t) <= |img| && Offset(t, e) + Width(t) <= |img|
    ensures Entry(t, SetEntry(t, img, c, v), e) == if e == c then Trunc(t, v) else Entry(t, img, e)
    ensures t.FAT32? ==> TopBits(SetEntry(t, img, c, v), e) == TopBits(img, e)
  {
    match t
    case FAT12 => SetThenGet12(img, c, v, e);
    case FAT16 => SetThenGet16(img, c, v, e);
    case FAT32 => SetThenGet32(img, c, v, e);
  }

  /** A 12-bit value split over an odd entry's two bytes. */
  lemma Join12Odd(v: U32, b: Byte)
    ensures (b % 16 + v % 16 * 16 + 0x100 * (v / 16 % 0x100)) / 16 == v % 0x1000
    ensures (b % 16 + v % 16 * 16) % 16 == b % 16
  {
    var q, r := v / 0x1000, v % 0x1000;
    var h, l := r / 16, r % 16;
    assert v == 16 * (0x100 * q + h) + l;
    assert v / 16 == 0x100 * q + h && v % 16 == l;
    assert (0x100 * q + h) % 0x100 == h;
    assert b % 16 + l * 16 + 0x100 * h == 16 * r + b % 16;
  }

  /** A 12-bit value split over an even entry's two bytes. */
  lemma Join12Even(v: U32, b: Byte)
    ensures (v % 0x100 + 0x100 * (b / 16 * 16 + v / 0x100 % 16)) % 0x1000 == v % 0x1000
    ensures (b / 16 * 16 + v / 0x100 % 16) / 16 == b / 16
  {
    var q, r := v / 0x1000, v % 0x1000;
    var h, l := r / 0x100, r % 0x100;
    assert v == 0x100 * (16 * q + h) + l;
    assert v / 0x100 == 16 * q + h && v % 0x100 == l;
    assert (16 * q + h) % 16 == h;
    assert l + 0x100 * (b / 16 * 16 + h) == 0x1000 * (b / 16) + r;
  }

  lemma Join16(v: U32)
    ensures Ld16(v % 0x100, v / 0x100 % 0x100) == v % 0x1_0000
  {
    var q, r := v / 0x1_0000, v % 0x1_0000;
    var h, l := r / 0x100, r % 0x100;
    assert v == 0x100 * (0x100 * q + h) + l;
    assert v / 0x100 == 0x100 * q + h && v % 0x100 == l;
    assert (0x100 * q + h) % 0x100 == h;
  }

  lemma Join32(v: U32, b: Byte)
    ensures
      var top := b / 16 * 16 + v / 0x100_0000 % 16;
      Ld32(v % 0x100, v / 0x100 % 0x100, v / 0x1_0000 % 0x100, top) % 0x1000_0000 == v % 0x1000_0000
    ensures (b / 16 * 16 + v / 0x100_0000 % 16) / 16 == b / 16
  {
    var v1 := v / 0x100;
    var v2 := v1 / 0x100;
    var v3 := v2 / 0x100;
    var q, d3 := v3 / 16, v3 % 16;
    Divs(v);
    var low := v % 0x100 + 0x100 * (v1 % 0x100) + 0x1_0000 * (v2 % 0x100) + 0x100_0000 * d3;
    assert v == low + 0x1000_0000 * q;
    Mod28(low, q);
    Mod28(low, b / 16);
  }

  lemma Divs(v: nat)
    ensures v / 0x100 / 0x100 == v / 0x1_0000 && v / 0x100 / 0x100 / 0x100 == v / 0x100_0000
  {
  }

  lemma Mod28(low: nat, q: nat)
    requires low < 0x1000_0000
    ensures (low + 0x1000_0000 * q) % 0x1000_0000 == low
  {
  }

  lemma Low12(a: Byte, b: Byte, b': Byte)
    requires b % 16 == b' % 16
    ensures Ld16(a, b) % 0x1000 == Ld16(a, b') % 0x1000
  {
    hide Ld16;
    Nibbles(a, b);
    Nibbles(a, b');
    Mod12(a + 0x100 * (b % 16), b / 16);
    Mod12(a + 0x100 * (b % 16), b' / 16);
  }

  lemma Nibbles(a: Byte, b: Byte)
    ensures Ld16(a, b) == a + 0x100 * (b % 16) + 0x1000 * (b / 16) && a + 0x100 * (b % 16) < 0x1000
  {
  }

  lemma Mod12(low: nat, q: nat)
    requires low < 0x1000
    ensures (low + 0x1000 * q) % 0x1000 == low
  {
  }

  lemma High12(a: Byte, a': Byte, b: Byte)
    requires a / 16 == a' / 16
    ensures Ld16(a, b) / 16 == Ld16(a', b) / 16
  {
  }

  lemma SetThenGet12(img: seq<Byte>, c: nat, v: U32, e: nat)
    requires Offset(FAT12, c) + 2 <= |img| && Offset(FAT12, e) + 2 <= |img|
    ensures Entry(FAT12, SetEntry(FAT12, img, c, v), e) == if e == c then v % 0x1000 else Entry(FAT12, img, e)
  {
    hide Put, First12, Second12, Get12;
    var o, p := Offset(FAT12, c), Offset(FAT12, e);
    PutReads(img, o, [First12(c, v, img[o])]);
    PutReads(Put(img, o, [First12(c, v, img[o])]), o + 1, [Second12(c, v, img[o + 1])]);
    Own12(c, v, img[o], img[o + 1]);
    if e != c {
      Offsets12(c, e);
      if c % 2 == 1 && e == c - 1 {
        Below12(c, v, img[p], img[o]);
      } else if c % 2 == 0 && e == c + 1 {
        Above12(c, v, img[p], img[p + 1]);
      }
    }
  }

  lemma Offsets12(c: nat, e: nat)
    requires e != c
    ensures var o, p := c + c / 2, e + e / 2;
      if c % 2 == 1 && e == c - 1 then p + 1 == o
      else if c % 2 == 0 && e == c + 1 then p == o + 1
      else p + 1 < o || o + 1 < p
  {
  }

  lemma Own12(c: nat, v: U32, a: Byte, b: Byte)
    ensures Get12(c, First12(c, v, a), Second12(c, v, b)) == v % 0x1000
  {
    Join12Odd(v, a);
    Join12Even(v, b);
  }

  /** The entry in front shares the first byte of an odd one. */
  lemma Below12(c: nat, v: U32, a: Byte, b: Byte)
    requires c % 2 == 1
    ensures Get12(c - 1, a, First12(c, v, b)) == Get12(c - 1, a, b)
  {
    hide Ld16;
    Join12Odd(v, b);
    Low12(a, b, First12(c, v, b));
  }

  /** The entry behind shares the second byte of an even one. */
  lemma Above12(c: nat, v: U32, a: Byte, b: Byte)
    requires c % 2 == 0
    ensures Get12(c + 1, Second12(c, v, a), b) == Get12(c + 1, a, b)
  {
    hide Ld16;
    Join12Even(v, a);
    High12(a, Second12(c, v, a), b);
  }

  lemma SetThenGet16(img: seq<Byte>, c: nat, v: U32, e: nat)
    requires c * 2 + 2 <= |img| && e * 2 + 2 <= |img|
    ensures Entry(FAT16, SetEntry(FAT16, img, c, v), e) == if e == c then v % 0x1_0000 else Entry(FAT16, img, e)
  {
    Join16(v);
    if e != c {
      assert e * 2 + 1 < c * 2 || c * 2 + 1 < e * 2;
    }
  }

  lemma SetThenGet32(img: seq<Byte>, c: nat, v: U32, e: nat)
    requires c * 4 + 4 <= |img| && e * 4 + 4 <= |img|
    ensures Entry(FAT32, SetEntry(FAT32, img, c, v), e) == if e == c then v % 0x1000_0000 else Entry(FAT32, img, e)
    ensures TopBits(SetEntry(FAT32, img, c, v), e) == TopBits(img, e)
  {
    hide Ld32, Put, St28;
    var o, p := c * 4, e * 4;
    var s := St28(v, img[o + 3]);
    JoinSt28(v, img[o + 3]);
    PutReads(img, o, s);
    var r := Put(img, o, s);
    if e == c {
      assert r[o] == s[0] && r[o + 1] == s[1] && r[o + 2] == s[2] && r[o + 3] == s[3];
    } else {
      assert p + 3 < o || o + 3 < p;
      assert r[p] == img[p] && r[p + 1] == img[p + 1] && r[p + 2] == img[p + 2] && r[p + 3] == img[p + 3];
    }
  }

  lemma JoinSt28(v: U32, b: Byte)
    ensures var s := St28(v, b); Ld32(s[0], s[1], s[2], s[3]) % 0x1000_0000 == v % 0x1000_0000 && s[3] / 16 == b / 16
  {
    hide Ld32;
    Join32(v, b);
  }

  lemma PutReads(img: seq<Byte>, k: nat, bytes: seq<Byte>)
    requires k + |bytes| <= |img|
    ensures var r := Put(img, k, bytes);
      && (forall j :: k <= j < k + |bytes| ==> r[j] == bytes[j - k])
      && (forall j :: 0 <= j < |img| && (j < k || k + |bytes| <= j) ==> r[j] == img[j])
  {
  }

  /** All entries of the FAT. */
  function Entries(g: Geometry, d: Disk): (fat: seq<U32>)
    requires g.Valid() && g.Fits(d)
    ensures |fat| == g.nFatent
  {
    var img := Image(g, d);
    seq(g.nFatent, c requires 0 <= c < g.nFatent => InImage(g, c); Entry(g.fsType, img, c))
  }

  lemma InImage(g: Geometry, c: nat)
    requires g.Valid() && c < g.nFatent
    ensures Offset(g.fsType, c) + Width(g.fsType) <= g.fsize * 512
  {
    Needed12(c, g.nFatent);
  }

  lemma Needed12(c: nat, n: nat)
    requires c < n
    ensures c + c / 2 + 2 <= n * 3 / 2 + n % 2
  {
  }

  // ---------- entries through the window

  datatype FResult = FR_OK | FR_DISK_ERR | FR_INT_ERR | FR_DENIED

  /** Byte k of the FAT is byte k % 512 of sector k / 512 of the first copy. */
  lemma ImageAt(g: Geometry, d: Disk, k: nat)
    requires g.Valid() && g.Fits(d) && k < g.fsize * 512
    ensures g.InFat1(g.fatbase + k / 512) && g.fatbase + k / 512 < |d|
    ensures Image(g, d)[k] == d[g.fatbase + k / 512][k % 512]
  {
  }

  /** Rewriting one sector of the first copy rewrites its 512 bytes of the FAT. */
  lemma ImageOverlay(g: Geometry, d: Disk, i: nat, w: Sector, k: nat)
    requires g.Valid() && g.Fits(d) && i < g.fsize && k < g.fsize * 512
    ensures Image(g, Overlay(g, d, g.fatbase + i, w))[k] == if k / 512 == i then w[k % 512] else Image(g, d)[k]
  {
    hide Image, Overlay, Geometry.Valid;
    FatInDisk(g, d);
    ImageAt(g, d, k);
    ImageAt(g, Overlay(g, d, g.fatbase + i, w), k);
    OverlaySector(g, d, i, w, k / 512);
  }

  lemma FatInDisk(g: Geometry, d: Disk)
    requires g.Valid() && g.Fits(d)
    ensures g.fatbase + g.fsize <= |d|
  {
  }

  lemma OverlaySector(g: Geometry, d: Disk, i: nat, w: Sector, j: nat)
    requires g.Valid() && g.Fits(d) && i < g.fsize && j < g.fsize && g.fatbase + g.fsize <= |d|
    ensures Overlay(g, d, g.fatbase + i, w)[g.fatbase + j] == if j == i then w else d[g.fatbase + j]
  {
    hide Overlay, Geometry.Valid;
  }

  /** The FAT is the same when the sectors of its first copy are. */
  lemma SameImage(g: Geometry, d: Disk, d': Disk)
    requires g.Valid() && g.Fits(d) && g.Fits(d')
    requires forall s :: g.InFat1(s) ==> d[s] == d'[s]
    ensures Image(g, d) == Image(g, d')
    ensures Entries(g, d) == Entries(g, d')
  {
    forall k | 0 <= k < g.fsize * 512
      ensures Image(g, d)[k] == Image(g, d')[k]
    {
      assert g.InFat1(g.fatbase + k / 512);
    }
    assert Image(g, d) == Image(g, d');
  }

  lemma ImageSlice(g: Geometry, d: Disk, k: nat, n: nat)
    requires g.Valid() && g.Fits(d) && k + n <= g.fsize * 512 && k % 512 + n <= 512 && 0 < n
    ensures g.InFat1(g.fatbase + k / 512) && g.fatbase + k / 512 < |d|
    ensures Image(g, d)[k..k + n] == d[g.fatbase + k / 512][k % 512..k % 512 + n]
  {
    hide Image;
    ImageAt(g, d, k);
    var img, w, o := Image(g, d), d[g.fatbase + k / 512], k % 512;
    var a, b := img[k..k + n], w[o..o + n];
    forall i | 0 <= i < n
      ensures a[i] == b[i]
    {
      ImageAt(g, d, k + i);
      SameSector(k, i);
      assert img[k + i] == w[o + i];
    }
  }

  lemma SameSector(k: nat, i: nat)
    requires k % 512 + i < 512
    ensures (k + i) / 512 == k / 512 && (k + i) % 512 == k % 512 + i
  {
  }

  /** A 16-bit or 32-bit entry does not cross a sector. */
  lemma Aligned(c: nat)
    ensures c * 2 / 512 == c / 256 && c * 2 % 512 + 2 <= 512
    ensures c * 4 / 512 == c / 128 && c * 4 % 512 + 4 <= 512
  {
    assert c * 2 == 512 * (c / 256) + 2 * (c % 256);
    assert c * 4 == 512 * (c / 128) + 4 * (c % 128);
  }

  /** Brings the sector of FAT byte k into the window and loads n bytes. */
  method PeekFat(fs: FatFs, k: nat, n: nat) returns (bytes: seq<Byte>)
    requires fs.Valid() && k + n <= fs.g.fsize * 512 && k % 512 + n <= 512 && 0 < n
    modifies fs`disk, fs`wflag, fs`winsect, fs.win
    ensures fs.Valid() && fs.Logical() == old(fs.Logical())
    ensures fs.winsect == fs.g.fatbase + k / 512 && fs.g.InFat1(fs.winsect)
    ensures bytes == Image(fs.g, fs.Logical())[k..k + n]
  {
    ImageSlice(fs.g, fs.Logical(), k, n);
    fs.MoveWindow(fs.g.fatbase + k / 512);
    bytes := fs.win[k % 512..k % 512 + n];
  }

  method GetFat(fs: FatFs, clst: U32) returns (val: U32)
    requires fs.Valid()
    modifies fs`disk, fs`wflag, fs`winsect, fs.win
    ensures fs.Valid() && fs.Logical() == old(fs.Logical())
    ensures val == if clst < 2 || clst >= fs.g.nFatent then 1 else Entries(fs.g, fs.Logical())[clst]
    ensures fs.winsect == old(fs.winsect) || fs.g.InFat1(fs.winsect)
  {
    hide Image, Entry, SetEntry;
    if clst < 2 || clst >= fs.g.nFatent {
      val := 1;
      return;
    }
    InImage(fs.g, clst);
    match fs.g.fsType {
      case FAT12 => val := GetFat12(fs, clst);
      case FAT16 => val := GetFat16(fs, clst);
      case FAT32 => val := GetFat32(fs, clst);
    }
  }

  /** A 12-bit entry: two bytes, each with its own window move. */
  method GetFat12(fs: FatFs, clst: U32) returns (val: U32)
    requires fs.Valid() && clst + clst / 2 + 2 <= fs.g.fsize * 512
    modifies fs`disk, fs`wflag, fs`winsect, fs.win
    ensures fs.Valid() && fs.Logical() == old(fs.Logical()) && fs.g.InFat1(fs.winsect)
    ensures val == Entry(FAT12, Image(fs.g, fs.Logical()), clst)
  {
    hide Image;
    var bc := clst + clst / 2;
    var wc := PeekFat(fs, bc, 1);
    bc := bc + 1;
    var wc' := PeekFat(fs, bc, 1);
    val := Get12(clst, wc[0], wc'[0]);
  }

  method GetFat16(fs: FatFs, clst: U32) returns (val: U32)
    requires fs.Valid() && clst * 2 + 2 <= fs.g.fsize * 512
    modifies fs`disk, fs`wflag, fs`winsect, fs.win
    ensures fs.Valid() && fs.Logical() == old(fs.Logical()) && fs.g.InFat1(fs.winsect)
    ensures val == Entry(FAT16, Image(fs.g, fs.Logical()), clst)
  {
    hide Image;
    Aligned(clst);
    var b := PeekFat(fs, clst * 2, 2);
    val := Ld16(b[0], b[1]);
  }

  method GetFat32(fs: FatFs, clst: U32) returns (val: U32)
    requires fs.Valid() && clst * 4 + 4 <= fs.g.fsize * 512
    modifies fs`disk, fs`wflag, fs`winsect, fs.win
    ensures fs.Valid() && fs.Logical() == old(fs.Logical()) && fs.g.InFat1(fs.winsect)
    ensures val == Entry(FAT32, Image(fs.g, fs.Logical()), clst)
  {
    hide Image;
    Aligned(clst);
    var b := PeekFat(fs, clst * 4, 4);
    val := Ld32(b[0], b[1], b[2], b[3]) % 0x1000_0000;
  }

  /** Only the FAT area differs, and its copies still agree if they did. */
  ghost predicate OnlyFatDiffers(g: Geometry, d: Disk, d': Disk)
    requires g.Valid() && g.Fits(d) && g.Fits(d')
  {
    && |d| == |d'|
    && (forall s :: 0 <= s < |d| && !g.InFat(s) ==> d'[s] == d[s])
    && (Mirrored(g, d) ==> Mirrored(g, d'))
  }

  lemma OnlyFatTrans(g: Geometry, d: Disk, d': Disk, d'': Disk)
    requires g.Valid() && g.Fits(d) && g.Fits(d') && g.Fits(d'')
    requires OnlyFatDiffers(g, d, d') && OnlyFatDiffers(g, d', d'')
    ensures OnlyFatDiffers(g, d, d'')
  {
  }

  lemma OnlyFatRefl(g: Geometry, d: Disk)
    requires g.Valid() && g.Fits(d)
    ensures OnlyFatDiffers(g, d, d)
  {
  }

  /** Splicing bytes into one sector of the FAT splices them into its image. */
  lemma OverlayPut(g: Geometry, d: Disk, k: nat, bytes: seq<Byte>)
    requires g.Valid() && g.Fits(d) && k + |bytes| <= g.fsize * 512 && k % 512 + |bytes| <= 512
    requires g.fatbase + k / 512 < |d| && g.InFat1(g.fatbase + k / 512)
    ensures var s := g.fatbase + k / 512;
      var d' := Overlay(g, d, s, Put(d[s], k % 512, bytes));
      Image(g, d') == Put(Image(g, d), k, bytes) && OnlyFatDiffers(g, d, d')
  {
    hide Image, Put, OnlyFatDiffers, Overlay;
    var s := g.fatbase + k / 512;
    var d' := Overlay(g, d, s, Put(d[s], k % 512, bytes));
    OverlayInFat(g, d, s, Put(d[s], k % 512, bytes));
    var a, b := Image(g, d'), Put(Image(g, d), k, bytes);
    forall j | 0 <= j < g.fsize * 512
      ensures a[j] == b[j]
    {
      OverlayPutAt(g, d, k / 512, k % 512, bytes, j / 512, j % 512);
    }
  }

  lemma OverlayInFat(g: Geometry, d: Disk, s: nat, w: Sector)
    requires g.Valid() && g.Fits(d) && s < |d| && g.InFat1(s)
    ensures OnlyFatDiffers(g, d, Overlay(g, d, s, w))
  {
    hide Mirrored, Geometry.Valid;
    FatBounds(g);
    OverlayMirrors(g, d, s, w);
  }

  lemma FatBounds(g: Geometry)
    requires g.Valid()
    ensures g.fsize <= g.nFats * g.fsize && (g.nFats == 2 ==> g.nFats * g.fsize == 2 * g.fsize)
  {
  }

  lemma OverlayMirrors(g: Geometry, d: Disk, s: nat, w: Sector)
    requires g.Valid() && g.Fits(d) && s < |d| && g.InFat1(s)
    ensures Mirrored(g, d) ==> Mirrored(g, Overlay(g, d, s, w))
  {
    var d' := Overlay(g, d, s, w);
    if Mirrored(g, d) && g.nFats == 2 {
      forall t | g.InFat1(t) ensures Twins(g, d', t) { assert Twins(g, d, t); }
    }
  }

  lemma OverlayPutAt(g: Geometry, d: Disk, q: nat, o: nat, bytes: seq<Byte>, qj: nat, oj: nat)
    requires g.Valid() && g.Fits(d) && o < 512 && oj < 512 && q < g.fsize && qj < g.fsize && o + |bytes| <= 512
    requires g.fatbase + q < |d|
    ensures Image(g, Overlay(g, d, g.fatbase + q, Put(d[g.fatbase + q], o, bytes)))[512 * qj + oj]
         == Put(Image(g, d), 512 * q + o, bytes)[512 * qj + oj]
  {
    hide Image, Put, Overlay, Geometry.Valid;
    var k, j := 512 * q + o, 512 * qj + oj;
    SectorOf(qj, oj);
    SectorsApart(g.fsize, q, o, |bytes|, qj, oj);
    var w := Put(d[g.fatbase + q], o, bytes);
    ImageOverlay(g, d, q, w, j);
    ImageAt(g, d, j);
    PutReads(d[g.fatbase + q], o, bytes);
    PutReads(Image(g, d), k, bytes);
  }

  lemma SectorOf(q: nat, o: nat)
    requires o < 512
    ensures (512 * q + o) / 512 == q && (512 * q + o) % 512 == o
  {
  }

  lemma SectorsApart(n: nat, q: nat, o: nat, m: nat, qj: nat, oj: nat)
    requires q < n && qj < n && o + m <= 512 && oj < 512
    ensures 512 * q + o + m <= n * 512 && 512 * qj + oj < n * 512
    ensures qj != q ==> 512 * qj + oj < 512 * q + o || 512 * q + o + m <= 512 * qj + oj
  {
  }

  /** Stores bytes of the FAT in the window that shows them and marks the window dirty. */
  method PokeFat(fs: FatFs, k: nat, bytes: seq<Byte>)
    requires fs.Valid() && fs.winsect == fs.g.fatbase + k / 512 && fs.g.InFat1(fs.winsect)
    requires k % 512 + |bytes| <= 512 && k + |bytes| <= fs.g.fsize * 512
    modifies fs`wflag, fs.win
    ensures fs.Valid() && fs.wflag
    ensures Image(fs.g, fs.Logical()) == old(Put(Image(fs.g, fs.Logical()), k, bytes))
    ensures OnlyFatDiffers(fs.g, old(fs.Logical()), fs.Logical())
  {
    hide Image;
    ghost var d := fs.Logical();
    var o := k % 512;
    OverlayPut(fs.g, d, k, bytes);
    forall j | 0 <= j < |bytes| { fs.win[o + j] := bytes[j]; }
    fs.wflag := true;
    assert fs.win[..] == Put(d[fs.winsect], o, bytes);
    assert fs.Logical() == Overlay(fs.g, d, fs.winsect, fs.win[..]);
  }

  method PutFat(fs: FatFs, clst: U32, val: U32) returns (res: FResult)
    requires fs.Valid()
    modifies fs`disk, fs`wflag, fs`winsect, fs.win
    ensures fs.Valid()
    ensures res == if 2 <= clst < fs.g.nFatent then FR_OK else FR_INT_ERR
    ensures res == FR_INT_ERR ==> fs.Logical() == old(fs.Logical())
    ensures res == FR_OK ==> 
      Entries(fs.g, fs.Logical()) == old(Entries(fs.g, fs.Logical()))[clst := Trunc(fs.g.fsType, val)]
    ensures OnlyFatDiffers(fs.g, old(fs.Logical()), fs.Logical())
    ensures fs.winsect == old(fs.winsect) || fs.g.InFat1(fs.winsect)
  {
    hide Image, Entry, SetEntry;
    res := FR_INT_ERR;
    if clst >= 2 && clst < fs.g.nFatent {
      InImage(fs.g, clst);
      match fs.g.fsType {
        case FAT12 => PutFat12(fs, clst, val);
        case FAT16 => PutFat16(fs, clst, val);
        case FAT32 => PutFat32(fs, clst, val);
      }
      res := FR_OK;
      EntriesSet(fs.g, old(fs.Logical()), fs.Logical(), clst, val);
    }
  }

  lemma EntriesSet(g: Geometry, d: Disk, d': Disk, clst: nat, val: U32)
    requires g.Valid() && g.Fits(d) && g.Fits(d') && clst < g.nFatent
    requires Offset(g.fsType, clst) + Width(g.fsType) <= g.fsize * 512
    requires Image(g, d') == SetEntry(g.fsType, Image(g, d), clst, val)
    ensures Entries(g, d') == Entries(g, d)[clst := Trunc(g.fsType, val)]
  {
    forall e | 0 <= e < g.nFatent
      ensures Entries(g, d')[e] == if e == clst then Trunc(g.fsType, val) else Entries(g, d)[e]
    {
      InImage(g, e);
      SetThenGet(g.fsType, Image(g, d), clst, val, e);
    }
  }

  /** A 12-bit entry: two bytes, each with its own window move. */
  method PutFat12(fs: FatFs, clst: U32, val: U32)
    requires fs.Valid() && clst + clst / 2 + 2 <= fs.g.fsize * 512
    modifies fs`disk, fs`wflag, fs`winsect, fs.win
    ensures fs.Valid() && fs.g.InFat1(fs.winsect)
    ensures Image(fs.g, fs.Logical()) == old(SetEntry(FAT12, Image(fs.g, fs.Logical()), clst, val))
    ensures OnlyFatDiffers(fs.g, old(fs.Logical()), fs.Logical())
  {
    hide Image, OnlyFatDiffers, First12, Second12, Put, FatFs.Logical;
    var bc := clst + clst / 2;
    ghost var img := Image(fs.g, fs.Logical());
    BytesFit(bc);
    var p := PeekFat(fs, bc, 1);
    PutBefore(img, bc, First12(clst, val, p[0]));
    PokeFat(fs, bc, [First12(clst, val, p[0])]);
    ghost var d := fs.Logical();
    bc := bc + 1;
    p := PeekFat(fs, bc, 1);
    PokeFat(fs, bc, [Second12(clst, val, p[0])]);
    OnlyFatTrans(fs.g, old(fs.Logical()), d, fs.Logical());
  }

  lemma BytesFit(k: nat)
    ensures k % 512 + 1 <= 512 && (k + 1) % 512 + 1 <= 512
  {
  }

  lemma PutBefore(img: seq<Byte>, o: nat, b: Byte)
    requires o + 1 < |img|
    ensures Put(img, o, [b])[o + 1] == img[o + 1] && |Put(img, o, [b])| == |img|
  {
  }

  method PutFat16(fs: FatFs, clst: U32, val: U32)
    requires fs.Valid() && clst * 2 + 2 <= fs.g.fsize * 512
    modifies fs`disk, fs`wflag, fs`winsect, fs.win
    ensures fs.Valid() && fs.g.InFat1(fs.winsect)
    ensures Image(fs.g, fs.Logical()) == old(SetEntry(FAT16, Image(fs.g, fs.Logical()), clst, val))
    ensures OnlyFatDiffers(fs.g, old(fs.Logical()), fs.Logical())
  {
    hide Image;
    Aligned(clst);
    var b := PeekFat(fs, clst * 2, 2);
    PokeFat(fs, clst * 2, St16(val));
  }

  method PutFat32(fs: FatFs, clst: U32, val: U32)
    requires fs.Valid() && clst * 4 + 4 <= fs.g.fsize * 512
    modifies fs`disk, fs`wflag, fs`winsect, fs.win
    ensures fs.Valid() && fs.g.InFat1(fs.winsect)
    ensures Image(fs.g, fs.Logical()) == old(SetEntry(FAT32, Image(fs.g, fs.Logical()), clst, val))
    ensures OnlyFatDiffers(fs.g, old(fs.Logical()), fs.Logical())
  {
    hide Image;
    Aligned(clst);
    var b := PeekFat(fs, clst * 4, 4);
    PokeFat(fs, clst * 4, St28(val, b[3]));
  }
}
