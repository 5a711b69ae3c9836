/** Directory entries and the FSInfo sector, as f_sync writes them (fatfs/ff.c,
    sync_fs, st_clust and the entry update in f_sync). */
module FatSync {
  import opened Basics
  import opened FatGeometry
  import opened FatWindow
  import opened FatEntries
  import opened FatAlloc
  import opened FatData

  /** A 32-bit value, least significant byte first. */
  function St32(v: U32): (r: seq<Byte>)
    ensures |r| == 4
  {
    [v % 0x100, v / 0x100 % 0x100, v / 0x1_0000 % 0x100, v / 0x100_0000]
  }

  lemma LdSt32(v: U32)
    ensures var b := St32(v); Ld32(b[0], b[1], b[2], b[3]) == v
  {
    var u, l := v / 0x1_0000, v % 0x1_0000;
    Join16(v);
    assert u / 0x100 == v / 0x100_0000;
    assert u == u % 0x100 + 0x100 * (u / 0x100);
  }

  /** get_fattime without a clock: the fixed date 2026-05-06. */
  const FATTIME: U32 := (2026 - 1980) * 0x200_0000 + 5 * 0x20_0000 + 6 * 0x1_0000

  /** attr | AM_ARC */
  function SetArc(attr: Byte): Byte {
    if attr / 0x20 % 2 == 0 then attr + 0x20 else attr
  }

  /** A directory entry after f_sync: archive bit, first cluster, size and times. */
  function Updated(t: FsType, e: seq<Byte>, sclust: U32, size: U32): (r: seq<Byte>)
    requires |e| == 32
    ensures |r| == 32
  {
    var hi := if t == FAT32 then St16(sclust / 0x1_0000) else e[20..22];
    e[..11] + [SetArc(e[11])] + e[12..18] + St16(0) + hi + St32(FATTIME) + St16(sclust) + St32(size)
  }

  /** The first cluster and the size a directory entry gives (ld_clust, and DIR_FileSize in f_open). */
  function EntryCluster(t: FsType, e: seq<Byte>): U32
    requires |e| == 32
  {
    Ld16(e[26], e[27]) + (if t == FAT32 then 0x1_0000 * Ld16(e[20], e[21]) else 0)
  }

  function EntrySize(e: seq<Byte>): U32
    requires |e| == 32
  {
    Ld32(e[28], e[29], e[30], e[31])
  }

  /** What f_open reads back from an entry f_sync wrote; the name stays. */
  lemma UpdatedReads(t: FsType, e: seq<Byte>, sclust: U32, size: U32)
    requires |e| == 32 && (t != FAT32 ==> sclust < 0x1_0000)
    ensures var r := Updated(t, e, sclust, size);
      EntryCluster(t, r) == sclust && EntrySize(r) == size && r[..11] == e[..11] && r[12..18] == e[12..18]
  {
    hide Updated, St16, St32, Ld16, Ld32;
    LdSt16(sclust);
    LdSt16(sclust / 0x1_0000);
    LdSt32(size);
    Halves(sclust);
    UpdatedHead(t, e, sclust, size);
    UpdatedTail(t, e, sclust, size);
    var r := Updated(t, e, sclust, size);
    var lo, sz := r[26..28], r[28..32];
    assert r[26] == lo[0] && r[27] == lo[1];
    assert r[28] == sz[0] && r[29] == sz[1] && r[30] == sz[2] && r[31] == sz[3];
    if t == FAT32 {
      var hi := r[20..22];
      assert r[20] == hi[0] && r[21] == hi[1];
    }
  }

  lemma LdSt16(v: U32)
    ensures var b := St16(v); Ld16(b[0], b[1]) == v % 0x1_0000
  {
    hide Ld16;
    Join16(v);
  }

  lemma Halves(v: U32)
    ensures v == v % 0x1_0000 + 0x1_0000 * (v / 0x1_0000 % 0x1_0000) && (v < 0x1_0000 ==> v % 0x1_0000 == v)
  {
  }

  lemma UpdatedHead(t: FsType, e: seq<Byte>, sclust: U32, size: U32)
    requires |e| == 32
    ensures var r := Updated(t, e, sclust, size);
      r[..11] == e[..11] && r[12..18] == e[12..18] && (t == FAT32 ==> r[20..22] == St16(sclust / 0x1_0000))
  {
    hide St16, St32, SetArc;
    var hi := if t == FAT32 then St16(sclust / 0x1_0000) else e[20..22];
    var head := e[..11] + [SetArc(e[11])] + e[12..18];
    var r := Updated(t, e, sclust, size);
    assert r == head + (St16(0) + hi + St32(FATTIME) + St16(sclust) + St32(size));
    assert r[..18] == head;
    assert r[20..22] == hi;
  }

  lemma UpdatedMiddle(t: FsType, e: seq<Byte>, sclust: U32, size: U32)
    requires |e| == 32
    ensures var r := Updated(t, e, sclust, size);
      && r[11] == SetArc(e[11]) && r[18..20] == St16(0) && r[22..26] == St32(FATTIME)
      && (t != FAT32 ==> r[20..22] == e[20..22])
  {
    hide St16, St32, SetArc;
    var hi := if t == FAT32 then St16(sclust / 0x1_0000) else e[20..22];
    var head := e[..11] + [SetArc(e[11])] + e[12..18];
    var r := Updated(t, e, sclust, size);
    assert r == head + St16(0) + hi + St32(FATTIME) + (St16(sclust) + St32(size));
    assert r[..18] == head && r[18..20] == St16(0) && r[20..22] == hi && r[22..26] == St32(FATTIME);
    assert r[11] == r[..18][11] == head[11];
  }

  lemma UpdatedTail(t: FsType, e: seq<Byte>, sclust: U32, size: U32)
    requires |e| == 32
    ensures var r := Updated(t, e, sclust, size); r[26..28] == St16(sclust) && r[28..32] == St32(size)
  {
    hide St16, St32, SetArc;
  }

  /** The FSInfo sector: signatures, the free count and the last allocated cluster. */
  function FsInfo(free: U32, last: U32): Sector {
    var zeros := seq(512, i => 0);
    var head := Put(Put(zeros, 0, St32(0x4161_5252)), 484, St32(0x6141_7272));
    Put(Put(Put(head, 488, St32(free)), 492, St32(last)), 508, St32(0xAA55_0000))
  }

  /** Mounting reads the count and the hint from these places. */
  lemma FsInfoReads(free: U32, last: U32)
    ensures var w := FsInfo(free, last);
      && Ld32(w[488], w[489], w[490], w[491]) == free
      && Ld32(w[492], w[493], w[494], w[495]) == last
  {
    LdSt32(free);
    LdSt32(last);
  }

  /** The FAT does not see a change of other sectors. */
  lemma OtherSector(g: Geometry, d: Disk, t: nat, w: Sector)
    requires g.Valid() && g.Fits(d) && t < |d| && !g.InFat1(t)
    ensures Entries(g, d[t := w]) == Entries(g, d)
  {
    SameImage(g, d, d[t := w]);
  }

  /** sync_fs: everything is on the disk, and the FSInfo sector of a FAT32 volume is current. */
  method SyncFs(fs: FatFs)
    requires fs.Valid()
    modifies fs`disk, fs`wflag, fs`winsect, fs`fsiFlag, fs.win
    ensures fs.Valid() && !fs.wflag && fs.disk == fs.Logical()
    ensures old(fs.fsiFlag) == 1 && fs.g.fsType == FAT32 ==>
      && fs.winsect == fs.g.volbase + 1 < fs.g.fatbase && fs.winsect < |old(fs.Logical())|
      && fs.Logical() == old(fs.Logical())[fs.g.volbase + 1 := FsInfo(fs.freeClst, fs.lastClst)]
    ensures !(old(fs.fsiFlag) == 1 && fs.g.fsType == FAT32) ==>
      fs.winsect == old(fs.winsect) && fs.Logical() == old(fs.Logical())
    ensures FatOf(fs) == old(FatOf(fs)) && FreeOk(fs) == old(FreeOk(fs))
  {
    hide Entries, Image, FsInfo;
    fs.SyncWindow();
    if fs.fsiFlag == 1 {
      fs.fsiFlag := 0;
      if fs.g.fsType == FAT32 {
        WriteInfo(fs);
      }
    }
  }

  /** The FSInfo sector, made in the window. */
  method WriteInfo(fs: FatFs)
    requires fs.Valid() && !fs.wflag && fs.g.volbase + 1 < fs.g.fatbase
    modifies fs`disk, fs`winsect, fs.win
    ensures fs.Valid() && fs.winsect == fs.g.volbase + 1 < |old(fs.Logical())|
    ensures fs.disk == fs.Logical() == old(fs.Logical())[fs.g.volbase + 1 := FsInfo(fs.freeClst, fs.lastClst)]
    ensures FatOf(fs) == old(FatOf(fs)) && FreeOk(fs) == old(FreeOk(fs))
  {
    hide Entries, Image, FsInfo;
    var t := fs.g.volbase + 1;
    OtherSector(fs.g, fs.disk, t, FsInfo(fs.freeClst, fs.lastClst));
    FillWindow(fs.win, FsInfo(fs.freeClst, fs.lastClst));
    fs.disk := fs.disk[t := fs.win[..]];
    fs.winsect := t;
  }

  method FillWindow(win: array<Byte>, data: Sector)
    requires win.Length == 512
    modifies win
    ensures win[..] == data
  {
    forall i | 0 <= i < 512 { win[i] := data[i]; }
  }

  /** Writes the new state of a file into its directory entry, in the window. */
  method UpdateEntry(fs: FatFs, sect: U32, ofs: nat, sclust: U32, size: U32)
    requires fs.Valid() && sect < |fs.disk| && !fs.g.InFat(sect) && ofs + 32 <= 512
    modifies fs`disk, fs`wflag, fs`winsect, fs.win
    ensures fs.Valid() && fs.winsect == sect
    ensures var was := old(fs.Logical())[sect];
      fs.Logical() == old(fs.Logical())[sect := Put(was, ofs, Updated(fs.g.fsType, was[ofs..ofs + 32], sclust, size))]
    ensures FatOf(fs) == old(FatOf(fs)) && FreeOk(fs) == old(FreeOk(fs))
  {
    hide Entries, Image, Updated, Put;
    fs.MoveWindow(sect);
    ghost var d := fs.Logical();
    var w: Sector := Put(fs.win[..], ofs, Updated(fs.g.fsType, fs.win[ofs..ofs + 32], sclust, size));
    OtherSector(fs.g, d, sect, w);
    FillWindow(fs.win, w);
    fs.wflag := true;
    assert fs.win[..] == w;
  }
}
