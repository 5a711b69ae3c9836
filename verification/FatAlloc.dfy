/** The cluster allocator (fatfs/ff.c, remove_chain, create_chain, f_getfree). */
module FatAlloc {
  import opened FatGeometry
  import opened FatWindow
  import opened FatEntries
  import opened FatChains

  /** The FAT as the file system sees it. */
  ghost function FatOf(fs: FatFs): (fat: Fat)
    requires fs.Valid()
    reads fs, fs.win
    ensures |fat| == fs.g.nFatent
  {
    Entries(fs.g, fs.Logical())
  }

  /** The end mark as an entry keeps it. */
  function Eoc(g: Geometry): U32 {
    Trunc(g.fsType, 0xFFFF_FFFF)
  }

  lemma EocEnds(g: Geometry)
    requires g.Valid()
    ensures Eoc(g) >= g.nFatent
  {
  }

  lemma TruncLink(g: Geometry, c: U32)
    requires g.Valid() && c < g.nFatent
    ensures Trunc(g.fsType, c) == c
  {
  }

  /** The free count is unknown or exact. */
  ghost predicate FreeOk(fs: FatFs)
    requires fs.Valid()
    reads fs, fs.win
  {
    fs.freeClst > fs.g.nFatent - 2 || fs.freeClst == Free(FatOf(fs), fs.g.nFatent)
  }

  /** A change of the free count is flagged for the FSInfo sector. */
  predicate Flagged(free: U32, flag: Byte, free': U32, flag': Byte) {
    (flag' == flag || flag' == SetBit0(flag)) && (free' != free ==> flag' == SetBit0(flag))
  }

  method RemoveChain(fs: FatFs, clst: U32, pclst: U32) returns (res: FResult)
    requires fs.Valid()
    modifies fs`disk, fs`wflag, fs`winsect, fs`freeClst, fs`fsiFlag, fs.win
    ensures fs.Valid()
    ensures !(2 <= clst < fs.g.nFatent) || (pclst != 0 && !(2 <= pclst < fs.g.nFatent)) ==>
      res == FR_INT_ERR && FatOf(fs) == old(FatOf(fs))
    ensures 2 <= clst < fs.g.nFatent && (pclst == 0 || 2 <= pclst < fs.g.nFatent) ==>
      var fat1 := Ended(old(FatOf(fs)), pclst, Eoc(fs.g));
      && FatOf(fs) == Unlinked(fat1, clst)
      && res == (if Visited(fat1, clst).1 then FR_OK else FR_INT_ERR)
    ensures old(FreeOk(fs)) && (2 <= pclst < fs.g.nFatent ==> old(FatOf(fs))[pclst] != 0) ==> FreeOk(fs)
    ensures Flagged(old(fs.freeClst), old(fs.fsiFlag), fs.freeClst, fs.fsiFlag)
    ensures OnlyFatDiffers(fs.g, old(fs.Logical()), fs.Logical())
    ensures fs.winsect == old(fs.winsect) || fs.g.InFat1(fs.winsect)
  {
    hide Entries, Image, OnlyFatDiffers, Visited, Unlinked, Free, Trunc;
    OnlyFatRefl(fs.g, fs.Logical());
    res := FR_OK;
    if clst < 2 || clst >= fs.g.nFatent {
      return FR_INT_ERR;
    }
    ghost var fat0 := FatOf(fs);
    EocEnds(fs.g);
    if pclst != 0 {
      res := PutFat(fs, pclst, 0xFFFF_FFFF);
      if res != FR_OK {
        return;
      }
      FreeSet(fat0, |fat0|, pclst, Eoc(fs.g));
    }
    ghost var d := fs.Logical();
    res := UnlinkLoop(fs, clst);
    OnlyFatTrans(fs.g, old(fs.Logical()), d, fs.Logical());
  }

  /** The clusters freed so far, and those still to be freed from clst, are those to be freed from start. */
  ghost predicate Progress(fat1: Fat, start: nat, fat: Fat, done: seq<nat>, clst: nat) {
    && (forall i :: 0 <= i < |done| ==> done[i] < |fat1|)
    && fat == Zeroed(fat1, done)
    && Visited(fat1, start) == (done + Visited(fat, clst).0, Visited(fat, clst).1)
  }

  lemma ProgressStep(fat1: Fat, start: nat, fat: Fat, done: seq<nat>, clst: U32)
    requires Progress(fat1, start, fat, done, clst) && 2 <= clst < |fat| && fat[clst] > 1
    ensures Progress(fat1, start, fat[clst := 0], done + [clst], fat[clst])
  {
    assert fat[clst := 0] == Zeroed(fat1, done + [clst]);
    var rest := Visited(fat[clst := 0], fat[clst]).0;
    assert done + ([clst] + rest) == done + [clst] + rest;
  }

  lemma ProgressEnd(fat1: Fat, start: nat, fat: Fat, done: seq<nat>, clst: nat)
    requires Progress(fat1, start, fat, done, clst) && (2 <= clst < |fat| ==> fat[clst] <= 1)
    ensures fat == Unlinked(fat1, start)
    ensures Visited(fat1, start).1 == !(2 <= clst < |fat| && fat[clst] == 1)
  {
    assert done + [] == done;
  }

  method UnlinkLoop(fs: FatFs, start: U32) returns (res: FResult)
    requires fs.Valid() && 2 <= start < fs.g.nFatent
    modifies fs`disk, fs`wflag, fs`winsect, fs`freeClst, fs`fsiFlag, fs.win
    ensures fs.Valid()
    ensures FatOf(fs) == Unlinked(old(FatOf(fs)), start)
    ensures res == if Visited(old(FatOf(fs)), start).1 then FR_OK else FR_INT_ERR
    ensures old(FreeOk(fs)) ==> FreeOk(fs)
    ensures Flagged(old(fs.freeClst), old(fs.fsiFlag), fs.freeClst, fs.fsiFlag)
    ensures OnlyFatDiffers(fs.g, old(fs.Logical()), fs.Logical())
    ensures fs.winsect == old(fs.winsect) || fs.g.InFat1(fs.winsect)
  {
    hide Entries, Image, OnlyFatDiffers, Visited, Progress, Unlinked, Free, FatFs.Logical;
    ghost var fat1 := FatOf(fs);
    ghost var done: seq<nat> := [];
    assert Progress(fat1, start, fat1, [], start) by { ProgressStart(fat1, start); }
    OnlyFatRefl(fs.g, fs.Logical());
    var clst := start;
    res := FR_OK;
    while clst < fs.g.nFatent
      invariant fs.Valid() && 2 <= clst && res == FR_OK
      invariant Progress(fat1, start, FatOf(fs), done, clst)
      invariant old(FreeOk(fs)) ==> FreeOk(fs)
      invariant Flagged(old(fs.freeClst), old(fs.fsiFlag), fs.freeClst, fs.fsiFlag)
      invariant OnlyFatDiffers(fs.g, old(fs.Logical()), fs.Logical())
      invariant fs.winsect == old(fs.winsect) || fs.g.InFat1(fs.winsect)
      decreases fs.g.nFatent - Free(FatOf(fs), fs.g.nFatent)
    {
      var nxt := GetFat(fs, clst);
      if nxt == 0 {
        break;
      }
      if nxt == 1 {
        res := FR_INT_ERR;
        break;
      }
      ProgressStep(fat1, start, FatOf(fs), done, clst);
      ghost var d := fs.Logical();
      FreeOne(fs, clst);
      OnlyFatTrans(fs.g, old(fs.Logical()), d, fs.Logical());
      done := done + [clst];
      clst := nxt;
    }
    ProgressEnd(fat1, start, FatOf(fs), done, clst);
  }

  lemma ProgressStart(fat: Fat, start: nat)
    ensures Progress(fat, start, fat, [], start)
  {
    var vs := Visited(fat, start);
    assert [] + vs.0 == vs.0;
  }

  /** Marks one cluster in use as free and counts it. */
  method FreeOne(fs: FatFs, clst: U32)
    requires fs.Valid() && 2 <= clst < fs.g.nFatent && FatOf(fs)[clst] != 0
    modifies fs`disk, fs`wflag, fs`winsect, fs`freeClst, fs`fsiFlag, fs.win
    ensures fs.Valid()
    ensures FatOf(fs) == old(FatOf(fs))[clst := 0]
    ensures Free(FatOf(fs), fs.g.nFatent) == old(Free(FatOf(fs), fs.g.nFatent)) + 1
    ensures old(FreeOk(fs)) ==> FreeOk(fs)
    ensures Flagged(old(fs.freeClst), old(fs.fsiFlag), fs.freeClst, fs.fsiFlag)
    ensures OnlyFatDiffers(fs.g, old(fs.Logical()), fs.Logical())
    ensures fs.winsect == old(fs.winsect) || fs.g.InFat1(fs.winsect)
  {
    hide Entries, Image, OnlyFatDiffers;
    ghost var fat := FatOf(fs);
    FreeSet(fat, |fat|, clst, 0);
    FreeBelow(fat, |fat|, clst);
    var r := PutFat(fs, clst, 0);
    if fs.freeClst < fs.g.nFatent - 2 {
      fs.freeClst := fs.freeClst + 1;
      fs.fsiFlag := SetBit0(fs.fsiFlag);
    }
  }

  /** fsi_flag |= 1 */
  function SetBit0(b: Byte): Byte {
    if b % 2 == 0 then b + 1 else b
  }

  // ---------- allocation

  /** No cluster is free. */
  ghost predicate Full(fat: Fat) {
    forall c :: 2 <= c < |fat| ==> fat[c] != 0
  }

  /** Some entry has the value 1, which no FAT writes. */
  ghost predicate HasOne(fat: Fat) {
    exists c :: 2 <= c < |fat| && fat[c] == 1
  }

  /** ncl is the first free cluster behind scl, going round from the last cluster to cluster 2. */
  ghost predicate Nearest(fat: Fat, scl: nat, ncl: nat) {
    && 2 <= ncl < |fat| && fat[ncl] == 0
    && if scl < ncl then forall c :: scl < c < ncl ==> fat[c] != 0
       else (forall c :: scl < c < |fat| ==> fat[c] != 0) && (forall c :: 2 <= c < ncl ==> fat[c] != 0)
  }

  /** The wrap-around search for a free cluster, starting after scl: 0 for none, 1 when an
      entry of value 1 stops it. */
  method FindFree(fs: FatFs, scl: U32) returns (ncl: U32)
    requires fs.Valid() && 1 <= scl < fs.g.nFatent
    modifies fs`disk, fs`wflag, fs`winsect, fs.win
    ensures fs.Valid() && fs.Logical() == old(fs.Logical())
    ensures ncl == 0 ==> Full(FatOf(fs))
    ensures ncl == 1 ==> HasOne(FatOf(fs))
    ensures ncl >= 2 ==> ncl < fs.g.nFatent && Nearest(FatOf(fs), scl, ncl)
    ensures fs.winsect == old(fs.winsect) || fs.g.InFat1(fs.winsect)
  {
    hide Entries, Image, FatFs.Logical;
    ghost var fat := FatOf(fs);
    ghost var wrapped := false;
    ncl := scl;
    while true
      invariant fs.Valid() && fs.Logical() == old(fs.Logical())
      invariant fs.winsect == old(fs.winsect) || fs.g.InFat1(fs.winsect)
      invariant if wrapped then 2 <= ncl < scl else scl <= ncl < fs.g.nFatent
      invariant forall c :: scl < c < (if wrapped then fs.g.nFatent else ncl + 1) ==> fat[c] != 0
      invariant wrapped ==> forall c :: 2 <= c <= ncl ==> fat[c] != 0
      decreases !wrapped, fs.g.nFatent - ncl
    {
      ncl := ncl + 1;
      if ncl >= fs.g.nFatent {
        ncl := 2;
        wrapped := true;
        if ncl > scl {
          return 0;
        }
      }
      var cs := GetFat(fs, ncl);
      assert FatOf(fs) == fat;
      if cs == 0 {
        return;
      }
      if cs == 1 {
        return 1;
      }
      if ncl == scl {
        return 0;
      }
    }
  }

  /** The two entries of a new last cluster. */
  method PutLinks(fs: FatFs, clst: U32, ncl: U32)
    requires fs.Valid() && 2 <= ncl < fs.g.nFatent && (clst == 0 || 2 <= clst < fs.g.nFatent)
    modifies fs`disk, fs`wflag, fs`winsect, fs.win
    ensures fs.Valid() && FatOf(fs) == Linked(old(FatOf(fs)), clst, ncl, Eoc(fs.g))
    ensures OnlyFatDiffers(fs.g, old(fs.Logical()), fs.Logical())
    ensures fs.g.InFat1(fs.winsect) || fs.winsect == old(fs.winsect)
  {
    hide Entries, Image, OnlyFatDiffers, Trunc, FatFs.Logical;
    TruncLink(fs.g, ncl);
    var res := PutFat(fs, ncl, 0xFFFF_FFFF);
    if clst != 0 {
      ghost var d := fs.Logical();
      res := PutFat(fs, clst, ncl);
      OnlyFatTrans(fs.g, old(fs.Logical()), d, fs.Logical());
    }
  }

  /** Makes ncl the last cluster of the chain ending in clst (0: of a new chain) and counts it. */
  method LinkNew(fs: FatFs, clst: U32, ncl: U32)
    requires fs.Valid() && 2 <= ncl < fs.g.nFatent && FatOf(fs)[ncl] == 0
    requires clst == 0 || (2 <= clst < fs.g.nFatent && FatOf(fs)[clst] != 0)
    modifies fs`disk, fs`wflag, fs`winsect, fs`freeClst, fs`lastClst, fs`fsiFlag, fs.win
    ensures fs.Valid() && fs.lastClst == ncl
    ensures FatOf(fs) == Linked(old(FatOf(fs)), clst, ncl, Eoc(fs.g))
    ensures old(FreeOk(fs)) ==> FreeOk(fs)
    ensures Flagged(old(fs.freeClst), old(fs.fsiFlag), fs.freeClst, fs.fsiFlag)
    ensures OnlyFatDiffers(fs.g, old(fs.Logical()), fs.Logical())
    ensures fs.g.InFat1(fs.winsect) || fs.winsect == old(fs.winsect)
  {
    hide Entries, Image, OnlyFatDiffers, Trunc, Free, Linked;
    ghost var fat := FatOf(fs);
    EocEnds(fs.g);
    LinkedFree(fat, clst, ncl, Eoc(fs.g));
    PutLinks(fs, clst, ncl);
    fs.lastClst := ncl;
    if fs.freeClst > 0 && fs.freeClst <= fs.g.nFatent - 2 {
      fs.freeClst := fs.freeClst - 1;
      fs.fsiFlag := SetBit0(fs.fsiFlag);
    }
  }

  lemma LinkedFree(fat: Fat, clst: nat, r: U32, eoc: U32)
    requires 2 <= r < |fat| && fat[r] == 0 && eoc != 0 && (2 <= clst < |fat| ==> fat[clst] != 0)
    ensures Free(Linked(fat, clst, r, eoc), |fat|) == Free(fat, |fat|) - 1
  {
    FreeSet(fat, |fat|, r, eoc);
    if 2 <= clst < |fat| {
      FreeSet(fat[r := eoc], |fat|, clst, r);
    }
  }

  /** clst 0 asks for a new chain; a cluster at the end of its chain for one more cluster. */
  predicate Allocates(fat: Fat, clst: nat) {
    clst == 0 || (2 <= clst < |fat| && fat[clst] >= |fat|)
  }

  method CreateChain(fs: FatFs, clst: U32) returns (r: U32)
    requires fs.Valid()
    modifies fs`disk, fs`wflag, fs`winsect, fs`freeClst, fs`lastClst, fs`fsiFlag, fs.win
    ensures fs.Valid()
    ensures !Allocates(old(FatOf(fs)), clst) ==>
      && FatOf(fs) == old(FatOf(fs)) && fs.Logical() == old(fs.Logical())
      && r == (if 2 <= clst < fs.g.nFatent && old(FatOf(fs))[clst] >= 2 then old(FatOf(fs))[clst] else 1)
    ensures Allocates(old(FatOf(fs)), clst) && r < 2 ==> fs.Logical() == old(fs.Logical())
    ensures Allocates(old(FatOf(fs)), clst) && r == 0 && old(FreeOk(fs)) ==>
      Full(old(FatOf(fs)))
    ensures Allocates(old(FatOf(fs)), clst) && r == 1 ==>
      HasOne(old(FatOf(fs)))
    ensures Allocates(old(FatOf(fs)), clst) && r >= 2 ==>
      && r < fs.g.nFatent && old(FatOf(fs))[r] == 0 && fs.lastClst == r
      && FatOf(fs) == Linked(old(FatOf(fs)), clst, r, Eoc(fs.g))
    ensures old(FreeOk(fs)) ==> FreeOk(fs)
    ensures Flagged(old(fs.freeClst), old(fs.fsiFlag), fs.freeClst, fs.fsiFlag)
    ensures OnlyFatDiffers(fs.g, old(fs.Logical()), fs.Logical())
    ensures fs.winsect == old(fs.winsect) || fs.g.InFat1(fs.winsect)
  {
    hide Entries, Image, OnlyFatDiffers, Free, Linked, Full, HasOne;
    OnlyFatRefl(fs.g, fs.Logical());
    var scl: U32;
    if clst == 0 {
      scl := fs.lastClst;
      if scl == 0 || scl >= fs.g.nFatent {
        scl := 1;
      }
    } else {
      var cs := GetFat(fs, clst);
      if cs < 2 {
        return 1;
      }
      if cs < fs.g.nFatent {
        return cs;
      }
      scl := clst;
    }
    if fs.freeClst == 0 {
      if FreeOk(fs) { FreeNone(FatOf(fs)); }
      return 0;
    }
    var ncl := PickFree(fs, scl, clst);
    if ncl < 2 {
      return ncl;
    }
    LinkNew(fs, clst, ncl);
    r := ncl;
  }

  lemma FreeNone(fat: Fat)
    requires Free(fat, |fat|) == 0
    ensures Full(fat)
  {
    forall c | 2 <= c < |fat| ensures fat[c] != 0 {
      if fat[c] == 0 { FreeZero(fat, |fat|, c); }
    }
  }

  /** A free cluster: the one after clst when it is free, else one found from the hint. */
  method PickFree(fs: FatFs, start: U32, clst: U32) returns (ncl: U32)
    requires fs.Valid() && 1 <= start < fs.g.nFatent
    modifies fs`disk, fs`wflag, fs`winsect, fs.win
    ensures fs.Valid() && fs.Logical() == old(fs.Logical())
    ensures ncl == 0 ==> Full(FatOf(fs))
    ensures ncl == 1 ==> HasOne(FatOf(fs))
    ensures ncl >= 2 ==> ncl < fs.g.nFatent && FatOf(fs)[ncl] == 0
    ensures ncl >= 2 ==>
      var next := if start + 1 >= fs.g.nFatent then 2 else start + 1;
      var hint := if start == clst && 2 <= fs.lastClst < fs.g.nFatent then fs.lastClst else start;
      if start == clst && next < fs.g.nFatent && FatOf(fs)[next] == 0 then ncl == next
      else Nearest(FatOf(fs), hint, ncl)
    ensures fs.winsect == old(fs.winsect) || fs.g.InFat1(fs.winsect)
  {
    hide Entries, Image;
    var scl := start;
    ncl := 0;
    if scl == clst {
      ncl := scl + 1;
      if ncl >= fs.g.nFatent {
        ncl := 2;
      }
      var cs := GetFat(fs, ncl);
      if cs == 1 {
        assert FatOf(fs)[ncl] == 1;
        return 1;
      }
      if cs != 0 {
        cs := fs.lastClst;
        if cs >= 2 && cs < fs.g.nFatent {
          scl := cs;
        }
        ncl := 0;
      }
    }
    if ncl == 0 {
      ncl := FindFree(fs, scl);
    }
  }

  // ---------- counting

  /** Entries of value zero below hi, the two reserved ones included. */
  function Zeros(fat: Fat, hi: nat): (n: nat)
    requires hi <= |fat|
    ensures n <= hi
  {
    if hi == 0 then 0 else Zeros(fat, hi - 1) + (if fat[hi - 1] == 0 then 1 else 0)
  }

  lemma {:induction false} ZerosFree(fat: Fat, hi: nat)
    requires 2 <= hi <= |fat|
    ensures Zeros(fat, hi) == Free(fat, hi) + (if fat[0] == 0 then 1 else 0) + (if fat[1] == 0 then 1 else 0)
  {
    if hi > 2 {
      ZerosFree(fat, hi - 1);
    } else {
      assert Zeros(fat, 2) == Zeros(fat, 1) + (if fat[1] == 0 then 1 else 0);
      assert Zeros(fat, 1) == Zeros(fat, 0) + (if fat[0] == 0 then 1 else 0);
    }
  }

  /** f_getfree. The 16/32-bit scan starts at entry 0, so it is exact if and only if the two
      reserved entries are not zero. The 12-bit scan fails on an entry of value 1. */
  method GetFree(fs: FatFs) returns (res: FResult, nclst: U32)
    requires fs.Valid()
    modifies fs`disk, fs`wflag, fs`winsect, fs`freeClst, fs`fsiFlag, fs.win
    ensures fs.Valid() && fs.Logical() == old(fs.Logical())
    ensures res == if old(fs.freeClst) > fs.g.nFatent - 2 && fs.g.fsType.FAT12? && HasOne(FatOf(fs))
      then FR_INT_ERR else FR_OK
    ensures res != FR_OK ==> fs.freeClst == old(fs.freeClst) && fs.fsiFlag == old(fs.fsiFlag)
    ensures res == FR_OK ==> nclst == fs.freeClst
    ensures old(fs.freeClst) <= fs.g.nFatent - 2 ==> nclst == old(fs.freeClst)
    ensures res == FR_OK && old(fs.freeClst) > fs.g.nFatent - 2 ==>
      var fat := FatOf(fs);
      nclst == Free(fat, |fat|) <==> fs.g.fsType.FAT12? || (fat[0] != 0 && fat[1] != 0)
    ensures old(fs.freeClst) > fs.g.nFatent - 2 && !fs.g.fsType.FAT12? ==> nclst == Zeros(FatOf(fs), fs.g.nFatent)
    ensures res == FR_OK && old(FreeOk(fs)) && (fs.g.fsType.FAT12? || (FatOf(fs)[0] != 0 && FatOf(fs)[1] != 0)) ==>
      FreeOk(fs) && nclst == Free(FatOf(fs), fs.g.nFatent)
  {
    hide Entries, Image, Free, Zeros, HasOne;
    if fs.freeClst <= fs.g.nFatent - 2 {
      return FR_OK, fs.freeClst;
    }
    var nfree: U32;
    if fs.g.fsType == FAT12 {
      res, nfree := Scan12(fs);
      if res != FR_OK {
        return res, 0;
      }
    } else {
      nfree := ScanWords(fs);
      ZerosFree(FatOf(fs), fs.g.nFatent);
    }
    res, nclst := FR_OK, nfree;
    fs.freeClst := nfree;
    fs.fsiFlag := SetBit0(fs.fsiFlag);
  }

  /** A FAT16 volume of 0xFFE clusters whose FAT is all zero: 0x1000 of them are said to be free. */
  method ReservedMiscounted() returns (fs: FatFs, res: FResult, nclst: U32)
    ensures fs.Valid() && fs.g.fsType == FAT16 && fs.g.nFatent == 0x1000
    ensures res == FR_OK && nclst == Free(FatOf(fs), fs.g.nFatent) + 2 == 0x1000
  {
    hide Free, Zeros, Entries, Image;
    var g := Geometry(FAT16, 0, 1, 16, 1, 0x1000, 1, 17);
    var zero: Sector := seq(512, i => 0);
    fs := new FatFs(g, seq(0x1100, i => zero));
    AllZero(g, fs.disk);
    res, nclst := GetFree(fs);
    ZerosFree(FatOf(fs), 0x1000);
    ZerosAll(FatOf(fs), 0x1000);
  }

  lemma AllZero(g: Geometry, d: Disk)
    requires g.Valid() && g.Fits(d) && g.fsType == FAT16 && forall t :: 0 <= t < |d| ==> d[t] == seq(512, i => 0)
    ensures forall c :: 0 <= c < g.nFatent ==> Entries(g, d)[c] == 0
  {
    hide Image;
    forall c | 0 <= c < g.nFatent ensures Entries(g, d)[c] == 0 {
      InImage(g, c);
      ImageAt(g, d, 2 * c);
      ImageAt(g, d, 2 * c + 1);
    }
  }

  lemma {:induction false} ZerosAll(fat: Fat, hi: nat)
    requires hi <= |fat| && forall c :: 0 <= c < hi ==> fat[c] == 0
    ensures Zeros(fat, hi) == hi
  {
    if hi > 0 { ZerosAll(fat, hi - 1); }
  }

  method Scan12(fs: FatFs) returns (res: FResult, nfree: U32)
    requires fs.Valid()
    modifies fs`disk, fs`wflag, fs`winsect, fs.win
    ensures fs.Valid() && fs.Logical() == old(fs.Logical())
    ensures res == if HasOne(FatOf(fs)) then FR_INT_ERR else FR_OK
    ensures res == FR_OK ==> nfree == Free(FatOf(fs), fs.g.nFatent)
  {
    hide Entries, Image;
    ghost var fat := FatOf(fs);
    nfree := 0;
    var clst := 2;
    while clst < fs.g.nFatent
      invariant fs.Valid() && fs.Logical() == old(fs.Logical())
      invariant 2 <= clst <= fs.g.nFatent && nfree == Free(fat, clst)
      invariant forall c :: 2 <= c < clst ==> fat[c] != 1
    {
      var stat := GetFat(fs, clst);
      assert FatOf(fs) == fat;
      if stat == 1 {
        return FR_INT_ERR, 0;
      }
      if stat == 0 {
        nfree := nfree + 1;
      }
      clst := clst + 1;
    }
    res := FR_OK;
  }

  /** Counts the zero entries of a 16-bit or 32-bit FAT sector by sector. */
  method ScanWords(fs: FatFs) returns (nfree: U32)
    requires fs.Valid() && !fs.g.fsType.FAT12?
    modifies fs`disk, fs`wflag, fs`winsect, fs.win
    ensures fs.Valid() && fs.Logical() == old(fs.Logical())
    ensures nfree == Zeros(FatOf(fs), fs.g.nFatent)
  {
    hide Entries, Image, Entry, ScanAt;
    ghost var fat := FatOf(fs);
    nfree := 0;
    var clst: int := fs.g.nFatent;
    var sect: int, i: int := fs.g.fatbase, 0;
    ScanStart(fs.g);
    while clst > 0
      invariant fs.Valid() && fs.Logical() == old(fs.Logical())
      invariant 0 <= clst <= fs.g.nFatent && nfree == Zeros(fat, fs.g.nFatent - clst)
      invariant ScanAt(fs.g, fs.g.nFatent - clst, sect, i)
      invariant i != 0 ==> fs.winsect == sect - 1
    {
      ghost var e := fs.g.nFatent - clst;
      var val := ScanOne(fs, sect, i, e);
      assert FatOf(fs) == fat;
      if val == 0 {
        nfree := nfree + 1;
      }
      ScanStep(fs.g, e, sect, i);
      sect := if i == 0 then sect + 1 else sect;
      i := (i + Width(fs.g.fsType)) % 512;
      clst := clst - 1;
    }
  }

  /** The scan is at entry e: its byte offset i in a sector, and the next sector to load. */
  ghost predicate ScanAt(g: Geometry, e: nat, sect: int, i: int) {
    && 0 <= i < 512 && i % Width(g.fsType) == 0
    && e * Width(g.fsType) == 512 * (sect - g.fatbase - (if i == 0 then 0 else 1)) + i
  }

  lemma ScanStart(g: Geometry)
    ensures ScanAt(g, 0, g.fatbase, 0)
  {
  }

  lemma ScanStep(g: Geometry, e: nat, sect: int, i: int)
    requires ScanAt(g, e, sect, i)
    ensures ScanAt(g, e + 1, if i == 0 then sect + 1 else sect, (i + Width(g.fsType)) % 512)
  {
  }

  /** One entry of the scan; the window moves on when a new sector starts. */
  method ScanOne(fs: FatFs, sect: int, i: int, ghost e: nat) returns (val: U32)
    requires fs.Valid() && !fs.g.fsType.FAT12? && e < fs.g.nFatent && ScanAt(fs.g, e, sect, i)
    requires i != 0 ==> fs.winsect == sect - 1
    modifies fs`disk, fs`wflag, fs`winsect, fs.win
    ensures fs.Valid() && fs.Logical() == old(fs.Logical())
    ensures val == FatOf(fs)[e]
    ensures fs.winsect == if i == 0 then sect else sect - 1
  {
    hide Entries, Image;
    ScanEntry(fs.g, fs.Logical(), e, sect - fs.g.fatbase - (if i == 0 then 0 else 1), i);
    if i == 0 {
      fs.MoveWindow(sect);
    }
    val := if fs.g.fsType == FAT16 then Ld16(fs.win[i], fs.win[i + 1])
           else Ld32(fs.win[i], fs.win[i + 1], fs.win[i + 2], fs.win[i + 3]) % 0x1000_0000;
  }

  /** Entry e of a 16-bit or 32-bit FAT lies at byte i of its sector q. */
  lemma ScanPlace(w: nat, q: int, i: nat)
    requires (w == 2 || w == 4) && i < 512 && i % w == 0
    ensures i + w <= 512 && (512 * q + i) / 512 == q && (512 * q + i) % 512 == i
  {
  }

  lemma ScanEntry(g: Geometry, d: Disk, e: nat, q: int, i: nat)
    requires g.Valid() && g.Fits(d) && !g.fsType.FAT12? && e < g.nFatent && i < 512
    requires i % Width(g.fsType) == 0 && e * Width(g.fsType) == 512 * q + i
    ensures i + Width(g.fsType) <= 512 && 0 <= q < g.fsize && g.fatbase + q < |d|
    ensures var w := d[g.fatbase + q];
      Entries(g, d)[e] == if g.fsType.FAT16? then Ld16(w[i], w[i + 1])
                          else Ld32(w[i], w[i + 1], w[i + 2], w[i + 3]) % 0x1000_0000
  {
    hide Image, Geometry.Valid, Ld16, Ld32;
    InImage(g, e);
    ScanPlace(Width(g.fsType), q, i);
    FatByte(g, d, q, i);
    FatByte(g, d, q, i + 1);
    if g.fsType.FAT32? {
      FatByte(g, d, q, i + 2);
      FatByte(g, d, q, i + 3);
    }
  }

  /** Byte i of sector q of the FAT. */
  lemma FatByte(g: Geometry, d: Disk, q: int, i: nat)
    requires g.Valid() && g.Fits(d) && i < 512 && 0 <= 512 * q + i < g.fsize * 512
    ensures 0 <= q < g.fsize && g.fatbase + q < |d| && Image(g, d)[512 * q + i] == d[g.fatbase + q][i]
  {
    hide Image, Geometry.Valid;
    SectorOf(q, i);
    ImageAt(g, d, 512 * q + i);
  }
}
