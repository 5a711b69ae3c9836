/** Reading, writing, seeking and syncing one open file (fatfs/ff.c, f_read,
    f_write, f_lseek, f_sync, f_truncate). */
module FatFile {
  import opened Basics
  import opened FatGeometry
  import opened FatWindow
  import opened FatEntries
  import opened FatChains
  import opened FatAlloc
  import opened FatData
  import opened FatFileState
  import opened FatFileWrite
  import opened FatFileSeek
  import opened FatFileTruncate
  import opened FatSync

  lemma FatIsOutside(g: Geometry, fat: Fat, ch: seq<nat>, s: int)
    requires g.Valid() && |fat| == g.nFatent && s < g.database
    ensures Outside(g, fat, ch, s)
  {
    forall c | 2 <= c < |fat| ensures s < ClusterSector(g, c) {
      ClusterInDisk(g, c);
    }
  }

  lemma AwayFrom(g: Geometry, s: FileState, w: int, q: nat, o: nat)
    requires Base(g, s) && Outside(g, s.fat, s.chain, w) && q < |s.chain| && o < g.csize
    ensures 2 <= s.chain[q] < g.nFatent
    ensures g.database <= ClusterSector(g, s.chain[q]) && ClusterSector(g, s.chain[q]) + g.csize <= |s.disk|
    ensures w < ClusterSector(g, s.chain[q]) || ClusterSector(g, s.chain[q]) + g.csize <= w
  {
    SectorRange(g, s, q, o);
    assert s.chain[q] in s.chain;
  }

  /** clst2sect: 0 for a cluster number out of range. */
  function Clst2Sect(g: Geometry, clst: U32): (r: U32)
    requires g.Valid()
    ensures 2 <= clst < g.nFatent ==> r == ClusterSector(g, clst)
    ensures r == 0 <==> !(2 <= clst < g.nFatent)
  {
    var c := Sub32(clst, 2);
    if c >= g.nFatent - 2 then 0
    else
      ClusterInDisk(g, clst);
      g.database + g.csize * c
  }

  /** The wrapping subtraction tests for a sector among n from b on. */
  lemma WithinSectors(a: U32, b: U32, n: nat)
    requires b + n < 0x1_0000_0000
    ensures Sub32(a, b) < n <==> b <= a < b + n
  {
  }

  /** disk_read of data sectors, past the window. */
  method DiskRead(fs: FatFs, sect: nat, n: nat) returns (data: seq<Sector>)
    requires fs.Valid() && fs.g.database <= sect && sect + n <= |fs.disk|
    requires fs.winsect < sect || sect + n <= fs.winsect
    ensures data == fs.Logical()[sect..sect + n]
  {
    data := fs.disk[sect..sect + n];
  }

  /** disk_write of data sectors, past the window. */
  method DiskWrite(fs: FatFs, sect: nat, data: seq<Sector>)
    requires fs.Valid() && fs.g.database <= sect && sect + |data| <= |fs.disk|
    requires fs.winsect < sect || sect + |data| <= fs.winsect
    modifies fs`disk
    ensures fs.Valid() && fs.Logical() == Put(old(fs.Logical()), sect, data)
    ensures FatOf(fs) == old(FatOf(fs)) && FreeOk(fs) == old(FreeOk(fs))
  {
    hide Entries, Image;
    ghost var d := fs.Logical();
    fs.disk := Put(fs.disk, sect, data);
    assert fs.Logical() == Put(d, sect, data);
    SameImage(fs.g, d, fs.Logical());
  }

  method CopySector(dst: array<Byte>, data: Sector)
    requires dst.Length == 512
    modifies dst
    ensures dst[..] == data
  {
    forall i | 0 <= i < 512 { dst[i] := data[i]; }
  }

  /** memcpy of bytes to a place in a buffer. */
  method CopyBytes(dst: array<Byte>, off: nat, bytes: seq<Byte>)
    requires off + |bytes| <= dst.Length
    modifies dst
    ensures dst[..] == Put(old(dst[..]), off, bytes)
  {
    forall i | 0 <= i < |bytes| { dst[off + i] := bytes[i]; }
  }

  /** FIL: an open file. */
  class Fil {
    const fs: FatFs
    const canRead: bool
    const canWrite: bool
    const dirSect: U32       // sector of the directory entry
    const dirOfs: nat        // place of the entry in that sector
    var err: FResult         // abort flag
    var sclust: U32          // first cluster, 0 for none
    var objsize: U32         // file size
    var fptr: U32            // read/write pointer
    var clust: U32           // current cluster, meaningless at pointer 0
    var sect: U32            // sector in buf, 0 for none
    const buf: array<Byte>   // sector cache
    var dirty: bool          // FA_DIRTY
    var modified: bool       // FA_MODIFIED
    ghost var chain: seq<nat>
    ghost var q: nat
    ghost var bq: nat
    ghost var bo: nat

    ghost function State(): FileState
      requires fs.Valid() && buf.Length == 512
      reads this, buf, fs, fs.win
    {
      FileState(FatOf(fs), fs.Logical(), chain, objsize, fptr, q, clust, sect, buf[..], dirty, bq, bo)
    }

    /** The volume around the file: its free count is unknown or exact, and its window is in no
        sector this file may write. */
    ghost predicate Around()
      reads this, buf, fs, fs.win
    {
      && fs.Valid() && buf.Length == 512 && buf != fs.win
      && sclust == (if chain == [] then 0 else chain[0])
      && !HasOne(FatOf(fs)) && FreeOk(fs)
      && Outside(fs.g, FatOf(fs), chain, fs.winsect)
    }

    /** All of the invariant but the place of the cursor. */
    ghost predicate Sane()
      reads this, buf, fs, fs.win
    {
      Around() && Base(fs.g, State()) && fptr <= objsize
    }

    ghost predicate Ready()
      reads this, buf, fs, fs.win
    {
      Sane() && CursorOk(fs.g, State())
    }

    ghost predicate Valid()
      reads this, buf, fs, fs.win
    {
      Ready() && (dirty ==> modified)
    }

    /** The file as a byte array. */
    ghost function Bytes(): (r: seq<Byte>)
      requires Sane()
      reads this, buf, fs, fs.win
      ensures |r| == objsize
    {
      Contents(fs.g, State())
    }

    /** The last part of f_open: an existing file, its pointer at the start. */
    constructor Open(fs: FatFs, sclust: U32, objsize: U32, canRead: bool, canWrite: bool,
                     dirSect: U32, dirOfs: nat, ghost chain: seq<nat>)
      requires fs.Valid() && IsChain(FatOf(fs), chain) && !HasOne(FatOf(fs)) && FreeOk(fs)
      requires sclust == (if chain == [] then 0 else chain[0]) && objsize <= 512 * (fs.g.csize * |chain|)
      requires Outside(fs.g, FatOf(fs), chain, fs.winsect)
      ensures Valid() && fresh(buf)
      ensures this.fs == fs && this.sclust == sclust && this.objsize == objsize && this.chain == chain
      ensures this.canRead == canRead && this.canWrite == canWrite && this.dirSect == dirSect && this.dirOfs == dirOfs
      ensures fptr == 0 && err == FR_OK && !dirty && !modified
    {
      this.fs, this.sclust, this.objsize, this.chain := fs, sclust, objsize, chain;
      this.canRead, this.canWrite, this.dirSect, this.dirOfs := canRead, canWrite, dirSect, dirOfs;
      hide Entries, Image, Outside, HasOne, FreeOk, IsChain;
      err, fptr, clust, sect, dirty, modified := FR_OK, 0, 0, 0, false, false;
      buf := new Byte[512](i => 0);
      q, bq, bo := 0, 0, 0;
    }

    /** get_fat for this file: nothing but the window moves. */
    method Link(c: U32) returns (v: U32)
      requires Sane() && 2 <= c < fs.g.nFatent
      modifies fs`disk, fs`wflag, fs`winsect, fs.win
      ensures Sane() && State() == old(State()) && v == State().fat[c]
    {
      hide Entries, Image, Base, HasOne, Free, FatFs.Logical;
      v := GetFat(fs, c);
      if fs.g.InFat1(fs.winsect) { FatIsOutside(fs.g, FatOf(fs), chain, fs.winsect); }
    }

    /** Finds the cluster of the byte at a sector-aligned pointer below the file size; gives the
        sector's place in it. */
    method FollowRead() returns (csect: U32)
      requires Ready() && fptr % 512 == 0 && fptr < objsize
      modifies this`clust, this`q, fs`disk, fs`wflag, fs`winsect, fs.win
      ensures Sane() && AtSector(fs.g, State(), q, csect)
      ensures State() == old(State()).(clust := clust, q := q) && SameFile(old(State()), State())
    {
      hide Base, CursorOk, HasOne, FreeOk, FatFs.Logical, FatOf, Outside, AtSector, Csect, SameFile;
      Following(fs.g, State());
      csect := Csect(fs.g, fptr);
      if csect == 0 {
        if fptr == 0 {
          clust := sclust;
          q := 0;
        } else {
          var clst := Link(clust);
          clust := clst;
          q := q + 1;
        }
      }
    }
  
    /** Writes the dirty cache back. */
    method Flush()
      requires Sane() && dirty
      modifies this`dirty, fs`disk
      ensures Sane() && State() == Flushed(old(State())) && SameFile(old(State()), State())
    {
      hide HasOne, FreeOk, FatFs.Logical, FatOf, Outside, IsChain;
      ghost var s := State();
      FlushKeeps(fs.g, s);
      AwayFrom(fs.g, s, fs.winsect, bq, bo);
      PutOne(fs.Logical(), sect, buf[..]);
      DiskWrite(fs, sect, [buf[..]]);
      dirty := false;
    }
  
    /** Reads sector o of the current cluster into a clean cache. */
    method Load(sct: U32, ghost o: nat)
      requires Sane() && !dirty && q < |chain| && o < fs.g.csize && sct == ClusterSector(fs.g, chain[q]) + o
      modifies this`sect, this`bq, this`bo, buf
      ensures Sane() && CachesSector(fs.g, State(), q, o) && SameFile(old(State()), State())
    {
      hide HasOne, FreeOk, FatFs.Logical, FatOf, Base, Outside, CachesSector, SameFile;
      ghost var s := State();
      LoadKeeps(fs.g, s, q, o);
      AwayFrom(fs.g, s, fs.winsect, q, o);
      var data := DiskRead(fs, sct, 1);
      CopySector(buf, data[0]);
      sect, bq, bo := sct, q, o;
      assert State() == Loaded(fs.g, s, q, o);
    }

    /** Makes the cache hold sector sct, writing it back first if it is dirty. */
    method Fill(sct: U32, ghost o: nat)
      requires Sane() && q < |chain| && o < fs.g.csize && sct == ClusterSector(fs.g, chain[q]) + o
      modifies this`sect, this`dirty, this`bq, this`bo, buf, fs`disk
      ensures Sane() && CachesSector(fs.g, State(), q, o) && SameFile(old(State()), State())
      ensures dirty ==> old(dirty)
    {
      hide HasOne, FreeOk, FatFs.Logical, FatOf, IsChain, Base, Outside, CachesSector;
      if sect != sct {
        if dirty {
          Flush();
        }
        Load(sct, o);
      } else {
        Recognised(fs.g, State(), q, o);
        bq, bo := q, o;
      }
    }

    /** Copies up to btr bytes out of the cached sector and moves the pointer past them. */
    method CopyOut(buff: array<Byte>, off: nat, btr: nat, ghost o: nat) returns (rcnt: nat)
      requires Sane() && InSector(fs.g, State(), q, o) && (dirty ==> modified)
      requires buff != buf && buff != fs.win && 0 < btr && off + btr <= buff.Length && fptr + btr <= objsize
      modifies this`fptr, buff
      ensures Valid() && SameFile(old(State()), State())
      ensures 0 < rcnt <= btr && fptr == old(fptr) + rcnt
      ensures buff[..] == Put(old(buff[..]), off, Contents(fs.g, State())[old(fptr)..old(fptr) + rcnt])
    {
      hide HasOne, FreeOk, FatFs.Logical, FatOf, Outside, Base, InSector, CursorOk, SameFile, Put;
      ghost var s := State();
      var a := fptr % 512;
      rcnt := 512 - a;
      if rcnt > btr {
        rcnt := btr;
      }
      CopyOutKeeps(fs.g, s, o, rcnt);
      CopyBytes(buff, off, buf[a..a + rcnt]);
      fptr := fptr + rcnt;
      assert State() == s.(pos := s.pos + rcnt);
    }

    /** cc whole sectors read past the cache, the dirty cache replacing the one it holds. */
    method FetchDirect(sct: U32, cc: nat, ghost o: nat) returns (bytes: seq<Byte>)
      requires Sane() && AtSector(fs.g, State(), q, o)
      requires sct == ClusterSector(fs.g, chain[q]) + o && 0 < cc && o + cc <= fs.g.csize
      ensures sct + cc <= |State().disk| && |Join(State().disk[sct..sct + cc])| == 512 * cc
      ensures bytes == Overlaid(Join(State().disk[sct..sct + cc]), cc, sct, dirty, sect, buf[..])
    {
      hide HasOne, FreeOk, FatFs.Logical, FatOf, Outside, Base, Join, Sub32;
      ghost var s := State();
      AwayFrom(fs.g, s, fs.winsect, q, o);
      var data := DiskRead(fs, sct, cc);
      WithinSectors(sect, sct, cc);
      JoinLen<Byte>(data, 512);
      bytes := Join<Byte>(data);
      if dirty && Sub32(sect, sct) < cc {
        bytes := Put(bytes, 512 * (sect - sct), buf[..]);
      }
    }

    /** Reads cc whole sectors past the cache and moves the pointer past them. */
    method ReadDirect(buff: array<Byte>, off: nat, sct: U32, cc: nat, ghost o: nat)
      requires Sane() && AtSector(fs.g, State(), q, o) && (dirty ==> modified)
      requires sct == ClusterSector(fs.g, chain[q]) + o && 0 < cc && o + cc <= fs.g.csize
      requires buff != buf && buff != fs.win && off + 512 * cc <= buff.Length && fptr + 512 * cc <= objsize
      modifies this`fptr, buff
      ensures Valid() && SameFile(old(State()), State())
      ensures fptr == old(fptr) + 512 * cc
      ensures buff[..] == Put(old(buff[..]), off, Contents(fs.g, State())[old(fptr)..old(fptr) + 512 * cc])
    {
      hide HasOne, FreeOk, FatFs.Logical, FatOf, Outside, Base, CursorOk, Join, Overlaid, SameFile, Put, AtSector;
      ghost var s := State();
      DirectKeeps(fs.g, s, o, cc, sct);
      var bytes := FetchDirect(sct, cc, o);
      CopyBytes(buff, off, bytes);
      fptr := fptr + 512 * cc;
      assert State() == s.(pos := s.pos + 512 * cc);
    }

    /** A round of the loop of f_read at a sector boundary. */
    method ReadAligned(buff: array<Byte>, off: nat, btr: nat) returns (rcnt: nat)
      requires Valid() && buff != buf && buff != fs.win && fptr % 512 == 0
      requires 0 < btr && off + btr <= buff.Length && fptr + btr <= objsize
      modifies this`fptr, this`clust, this`sect, this`dirty, this`q, this`bq, this`bo
      modifies buf, buff, fs`disk, fs`wflag, fs`winsect, fs.win
      ensures Valid() && SameFile(old(State()), State())
      ensures 0 < rcnt <= btr && fptr == old(fptr) + rcnt
      ensures buff[..] == Put(old(buff[..]), off, Contents(fs.g, State())[old(fptr)..old(fptr) + rcnt])
    {
      hide HasOne, FreeOk, FatFs.Logical, FatOf, Outside, Base, Contents, Effective, AtSector, InSector, CursorOk, Put;
      var csect := FollowRead();
      AtSectorRange(fs.g, State(), csect);
      var sct := Clst2Sect(fs.g, clust) + csect;
      var cc := btr / 512;
      if cc > 0 {
        if csect + cc > fs.g.csize {
          cc := fs.g.csize - csect;
        }
        rcnt := 512 * cc;
        ReadDirect(buff, off, sct, cc, csect);
      } else {
        ghost var s := State();
        Fill(sct, csect);
        NowInSector(fs.g, s, State(), csect);
        rcnt := CopyOut(buff, off, btr, csect);
      }
    }

    /** One round of the loop of f_read: up to btr bytes, moving the pointer past them. */
    method ReadChunk(buff: array<Byte>, off: nat, btr: nat) returns (rcnt: nat)
      requires Valid() && buff != buf && buff != fs.win
      requires 0 < btr && off + btr <= buff.Length && fptr + btr <= objsize
      modifies this`fptr, this`clust, this`sect, this`dirty, this`q, this`bq, this`bo
      modifies buf, buff, fs`disk, fs`wflag, fs`winsect, fs.win
      ensures Valid() && SameFile(old(State()), State())
      ensures 0 < rcnt <= btr && fptr == old(fptr) + rcnt
      ensures buff[..] == Put(old(buff[..]), off, Contents(fs.g, State())[old(fptr)..old(fptr) + rcnt])
    {
      hide HasOne, FreeOk, FatFs.Logical, FatOf, Outside, Base, Contents, Effective, AtSector, InSector, CursorOk, Put;
      if fptr % 512 == 0 {
        rcnt := ReadAligned(buff, off, btr);
      } else {
        CursorInSector(fs.g, State());
        rcnt := CopyOut(buff, off, btr, fptr / 512 - fs.g.csize * q);
      }
    }
  
    /** f_read: exactly the bytes from the pointer on, as many as asked for and left. */
    method Read(buff: array<Byte>, want: U32) returns (res: FResult, br: U32)
      requires Valid() && buff != buf && buff != fs.win && want <= buff.Length
      modifies this`fptr, this`clust, this`sect, this`dirty, this`q, this`bq, this`bo
      modifies buf, buff, fs`disk, fs`wflag, fs`winsect, fs.win
      ensures Valid() && SameFile(old(State()), State()) && Bytes() == old(Bytes())
      ensures res == if err != FR_OK then err else if !canRead then FR_DENIED else FR_OK
      ensures res != FR_OK ==> br == 0
      ensures res == FR_OK ==> br == if want > objsize - old(fptr) then objsize - old(fptr) else want
      ensures fptr == old(fptr) + br
      ensures buff[..] == Put(old(buff[..]), 0, old(Bytes())[old(fptr)..old(fptr) + br])
    {
      hide HasOne, FreeOk, FatFs.Logical, FatOf, Outside, Base, Contents, CursorOk, Put, SameFile;
      br := 0;
      SameStart(fs.g, State(), buff[..]);
      if err != FR_OK {
        return err, 0;
      }
      if !canRead {
        return FR_DENIED, 0;
      }
      var btr: U32 := want;
      var remain := objsize - fptr;
      if btr > remain {
        btr := remain;
      }
      while btr > 0
        invariant Valid() && SameFile(old(State()), State()) && Bytes() == old(Bytes())
        invariant fptr == old(fptr) + br && fptr + btr <= objsize == old(objsize) && br + btr <= want
        invariant br + btr == if want > objsize - old(fptr) then objsize - old(fptr) else want
        invariant buff[..] == Put(old(buff[..]), 0, old(Bytes())[old(fptr)..old(fptr) + br])
      {
        ghost var s, f := State(), fptr;
        var rcnt := ReadChunk(buff, br, btr);
        SameTrans(fs.g, old(State()), s, State());
        PutNext(old(buff[..]), old(Bytes()), old(fptr), f, fptr);
        btr := btr - rcnt;
        br := br + rcnt;
      }
      res := FR_OK;
    }

    /** create_chain for this file. At a cluster with a successor it gives that one. At the last
        cluster (0: there is none) nothing changes and the volume is full, or one free cluster is
        linked behind the chain. */
    method Grow(c: U32) returns (r: U32)
      requires Sane()
      requires c == LastOr0(chain) || (chain != [] && 2 <= c < fs.g.nFatent && 2 <= State().fat[c] < fs.g.nFatent)
      modifies this`sclust, this`chain
      modifies fs`disk, fs`wflag, fs`winsect, fs`freeClst, fs`lastClst, fs`fsiFlag, fs.win
      ensures Sane()
      ensures c != old(LastOr0(chain)) ==> State() == old(State()) && r == State().fat[c]
      ensures c == old(LastOr0(chain)) && r == 0 ==> State() == old(State()) && Full(State().fat)
      ensures c == old(LastOr0(chain)) && r != 0 ==> 2 <= r < |old(State()).fat| && old(State()).fat[r] == 0
      ensures c == old(LastOr0(chain)) && r != 0 ==> OnlyFatDiffers(fs.g, old(State()).disk, State().disk)
      ensures c == old(LastOr0(chain)) && r != 0 ==> State() == Extended(old(State()), r, Eoc(fs.g), State().disk)
    {
      hide Base, HasOne, FreeOk, FatFs.Logical, FatOf, Outside, OnlyFatDiffers, Linked, Full;
      ghost var s := State();
      r := Allocate(c);
      if r != 0 {
        if sclust == 0 {
          sclust := r;
        }
        if c == LastOr0(chain) {
          EocEnds(fs.g);
          BaseFits(fs.g, s);
          ExtendBase(fs.g, s, r, Eoc(fs.g), fs.Logical());
          Append(r);
        }
      }
    }

    /** What create_chain does for this file; a new cluster is not yet part of it. */
    method Allocate(c: U32) returns (r: U32)
      requires Sane()
      requires c == LastOr0(chain) || (chain != [] && 2 <= c < fs.g.nFatent && 2 <= State().fat[c] < fs.g.nFatent)
      modifies fs`disk, fs`wflag, fs`winsect, fs`freeClst, fs`lastClst, fs`fsiFlag, fs.win
      ensures fs.Valid() && !HasOne(FatOf(fs)) && FreeOk(fs)
      ensures chain != [] ==> chain[0] != 0
      ensures c != LastOr0(chain) ==> State() == old(State()) && r == State().fat[c]
      ensures c == LastOr0(chain) && r == 0 ==> State() == old(State()) && Full(State().fat)
      ensures c != LastOr0(chain) || r == 0 ==> Around()
      ensures c == LastOr0(chain) && r != 0 ==>
        && 2 <= r < |old(State()).fat| && old(State()).fat[r] == 0
        && OnlyFatDiffers(fs.g, old(State()).disk, State().disk)
        && State() == old(State()).(fat := Linked(old(State()).fat, c, r, Eoc(fs.g)), disk := State().disk)
        && Outside(fs.g, FatOf(fs), chain + [r], fs.winsect)
    {
      hide Base, HasOne, FreeOk, FatFs.Logical, Entries, Image, Outside, OnlyFatDiffers, Linked, Full, Allocates,
        Geometry.Valid;
      ghost var s := State();
      BaseFits(fs.g, s);
      GrowAllocates(fs.g, s, c);
      EocEnds(fs.g);
      r := CreateChain(fs, c);
      FatBelow(fs.g, fs.winsect);
      GrowWindow(fs.g, s, fs.winsect, r, Eoc(fs.g));
    }

    /** The new last cluster of the chain. */
    ghost method Append(r: U32)
      requires fs.Valid() && buf.Length == 512 && buf != fs.win && !HasOne(FatOf(fs)) && FreeOk(fs)
      requires sclust == (if chain == [] then r else chain[0]) && Outside(fs.g, FatOf(fs), chain + [r], fs.winsect)
      modifies this`chain
      ensures Around() && State() == old(State()).(chain := old(chain) + [r])
    {
      hide HasOne, FreeOk, FatFs.Logical, FatOf, Outside;
      chain := chain + [r];
    }

    /** Finds, or allocates, the cluster for a write at a sector-aligned pointer; gives the sector's
        place in it. Fails only at the end of the chain of a full volume. */
    method FollowWrite() returns (ok: bool, csect: U32)
      requires Ready() && fptr % 512 == 0
      modifies this`clust, this`q, this`sclust, this`chain
      modifies fs`disk, fs`wflag, fs`winsect, fs`freeClst, fs`lastClst, fs`fsiFlag, fs.win
      ensures Sane()
      ensures !ok ==> State() == old(State()) && Full(State().fat) && AtEnd(fs.g, State())
      ensures ok ==> AtSector(fs.g, State(), q, csect) && Grows(fs.g, old(State()), State()) && Bytes() == old(Bytes())
    {
      hide Base, CursorOk, HasOne, FreeOk, FatFs.Logical, FatOf, Outside, AtSector, Csect, SameFile, Grows, Contents,
        Full, AtEnd;
      ghost var s := State();
      FollowingWrite(fs.g, s);
      csect := Csect(fs.g, fptr);
      GrowsRefl(fs.g, s);
      if csect == 0 {
        var clst := Successor();
        if clst == 0 {
          return false, 0;
        }
        Arrived(fs.g, s, State(), clst, Eoc(fs.g));
        Enter(clst, if fptr == 0 then 0 else q + 1);
      }
      ok := true;
    }

    /** The cluster behind the pointer, allocated if there is none. */
    method Successor() returns (clst: U32)
      requires Ready() && fptr % 512 == 0 && Csect(fs.g, fptr) == 0
      modifies this`sclust, this`chain
      modifies fs`disk, fs`wflag, fs`winsect, fs`freeClst, fs`lastClst, fs`fsiFlag, fs.win
      ensures Sane()
      ensures clst == 0 ==> State() == old(State()) && Full(State().fat) && AtEnd(fs.g, State())
      ensures clst != 0 ==> Reached(fs.g, old(State()), State(), clst, Eoc(fs.g))
    {
      hide Base, CursorOk, HasOne, FreeOk, FatFs.Logical, FatOf, Outside, AtSector, SameFile, Full, AtEnd,
        OnlyFatDiffers;
      FollowingWrite(fs.g, State());
      EocEnds(fs.g);
      if fptr == 0 {
        clst := sclust;
        if clst == 0 {
          clst := Grow(0);
        }
      } else {
        clst := Grow(clust);
      }
    }

    /** Makes c, cluster k of the chain, the current one. */
    method Enter(c: U32, ghost k: nat)
      requires Around()
      modifies this`clust, this`q
      ensures Around() && State() == old(State()).(clust := c, q := k)
    {
      hide HasOne, FreeOk, FatFs.Logical, FatOf, Outside;
      clust, q := c, k;
    }

    /** Puts the first bytes of data into the cached sector at the pointer; s is the state before
        the cache was given that sector. */
    method Store(sct: U32, data: seq<Byte>, ghost o: nat, ghost s: FileState) returns (wcnt: nat)
      requires Around() && State() == s.(buf := buf[..]) && data != [] && fptr + |data| < 0x1_0000_0000
      requires CanCache(fs.g, s, o, sct, buf[..], data[..Room(fptr, |data|)])
      modifies this`sect, this`dirty, this`fptr, this`objsize, this`bq, this`bo, buf
      ensures Ready() && wcnt == Room(old(fptr), |data|)
      ensures State() == Cached(s, o, sct, old(buf[..]), data[..wcnt])
    {
      hide HasOne, FreeOk, FatFs.Logical, FatFs.Valid, FatOf, Outside, Base, CursorOk, CanCache, Put, Cached;
      CachedInv(fs.g, s, o, sct, buf[..], data[..Room(fptr, |data|)]);
      wcnt := CopyCached(sct, data, o, s);
    }

    method CopyCached(sct: U32, data: seq<Byte>, ghost o: nat, ghost s: FileState) returns (wcnt: nat)
      requires Around() && State() == s.(buf := buf[..]) && data != [] && fptr + |data| < 0x1_0000_0000
      requires CanCache(fs.g, s, o, sct, buf[..], data[..Room(fptr, |data|)])
      modifies this`sect, this`dirty, this`fptr, this`objsize, this`bq, this`bo, buf
      ensures Around() && fptr <= objsize && wcnt == Room(old(fptr), |data|)
      ensures State() == Cached(s, o, sct, old(buf[..]), data[..wcnt])
    {
      hide HasOne, FreeOk, FatFs.Logical, FatFs.Valid, FatOf, Outside, Base, CursorOk, CanCache, Put, Geometry.Valid;
      wcnt := 512 - fptr % 512;
      if wcnt > |data| {
        wcnt := |data|;
      }
      CopyBytes(buf, fptr % 512, data[..wcnt]);
      sect, dirty, bq, bo := sct, true, q, o;
      MoveOn(wcnt);
    }

    /** The pointer, and the size when the pointer is beyond it. */
    method MoveOn(n: nat)
      requires Around() && fptr + n < 0x1_0000_0000
      modifies this`fptr, this`objsize
      ensures Around() && fptr <= objsize
      ensures State() == old(State()).(pos := old(fptr) + n, size := Max(old(objsize), old(fptr) + n))
    {
      hide HasOne, FreeOk, FatFs.Logical, FatOf, Outside;
      fptr := fptr + n;
      objsize := if fptr > objsize then fptr else objsize;
    }

    /** A write inside the cached sector. */
    method WriteInside(data: seq<Byte>, ghost o: nat) returns (wcnt: nat)
      requires Sane() && InSector(fs.g, State(), q, o) && data != [] && fptr + |data| < 0x1_0000_0000
      modifies this`sect, this`dirty, this`fptr, this`objsize, this`bq, this`bo, buf
      ensures Ready() && 0 < wcnt <= |data| && fptr == old(fptr) + wcnt
      ensures Grows(fs.g, old(State()), State()) && Bytes() == Patch(old(Bytes()), old(fptr), data[..wcnt])
    {
      hide HasOne, FreeOk, FatFs.Logical, FatOf, Outside, Base, CursorOk, CanCache, InSector, Grows, Contents, Patch;
      ghost var s := State();
      ghost var bytes := data[..Room(fptr, |data|)];
      CanCacheInside(fs.g, s, o, bytes);
      CachedContents(fs.g, s, o, sect, s.buf, bytes);
      CachedGrows(fs.g, s, o, sect, s.buf, bytes);
      wcnt := Store(sect, data, o, s);
    }

    /** A write of less than a sector at a sector boundary, through the cache. */
    method WriteSmall(sct: U32, data: seq<Byte>, ghost o: nat) returns (wcnt: nat)
      requires Sane() && AtSector(fs.g, State(), q, o) && sct == ClusterSector(fs.g, chain[q]) + o && !dirty
      requires data != [] && fptr + |data| < 0x1_0000_0000
      modifies this`sect, this`dirty, this`fptr, this`objsize, this`bq, this`bo, buf
      ensures Ready() && 0 < wcnt <= |data| && fptr == old(fptr) + wcnt
      ensures Grows(fs.g, old(State()), State()) && Bytes() == Patch(old(Bytes()), old(fptr), data[..wcnt])
    {
      hide HasOne, FreeOk, FatFs.Logical, FatOf, Outside, Base, CursorOk, CanCache, AtSector, Grows, Contents, Patch;
      ghost var s := State();
      AwayFromAt(fs.g, s, fs.winsect, o);
      if sect != sct && fptr < objsize {
        var data0 := DiskRead(fs, sct, 1);
        CopySector(buf, data0[0]);
      }
      ghost var base, bytes := buf[..], data[..Room(fptr, |data|)];
      CanCacheAt(fs.g, s, o, sct, base, bytes);
      CachedContents(fs.g, s, o, sct, base, bytes);
      CachedGrows(fs.g, s, o, sct, base, bytes);
      wcnt := Store(sct, data, o, s);
    }

    /** Writes whole sectors past the clean cache, which is refilled if it holds one of them. */
    method StoreDirect(sct: U32, ws: seq<Sector>, ghost o: nat)
      requires Sane() && CanDirect(fs.g, State(), o, sct, ws) && fptr + 512 * |ws| < 0x1_0000_0000
      modifies this`fptr, this`objsize, buf, fs`disk
      ensures Ready() && State() == Direct(old(State()), sct, ws)
    {
      hide HasOne, FreeOk, FatFs.Logical, FatOf, Outside, Base, CursorOk, Put, CanDirect, Geometry.Valid, Sub32;
      ghost var s := State();
      DirectInv(fs.g, s, o, sct, ws);
      DirectAway(fs.g, s, fs.winsect, o, sct, ws);
      WithinSectors(sect, sct, |ws|);
      DiskWrite(fs, sct, ws);
      if Sub32(sect, sct) < |ws| {
        CopySector(buf, ws[sect - sct]);
      }
      MoveOn(512 * |ws|);
    }

    method WriteDirect(sct: U32, data: seq<Byte>, cc: nat, ghost o: nat)
      requires Sane() && AtSector(fs.g, State(), q, o) && sct == ClusterSector(fs.g, chain[q]) + o && !dirty
      requires 0 < cc && o + cc <= fs.g.csize && |data| == 512 * cc && fptr + |data| < 0x1_0000_0000
      modifies this`fptr, this`objsize, buf, fs`disk
      ensures Ready() && fptr == old(fptr) + 512 * cc
      ensures Grows(fs.g, old(State()), State()) && Bytes() == Patch(old(Bytes()), old(fptr), data)
    {
      hide HasOne, FreeOk, FatFs.Logical, FatOf, Outside, Base, CursorOk, CanDirect, AtSector, Grows, Contents, Patch,
        Join, Sectors, Put;
      ghost var s := State();
      var ws := Sectors(data, cc);
      CanDirectAt(fs.g, s, o, sct, ws);
      DirectContents(fs.g, s, o, sct, ws);
      DirectGrows(fs.g, s, o, sct, ws);
      JoinSectors(data, cc);
      StoreDirect(sct, ws, o);
    }

    /** FollowWrite, and the cache written back. */
    method FollowClean() returns (ok: bool, csect: U32)
      requires Ready() && fptr % 512 == 0
      modifies this`clust, this`q, this`sclust, this`chain, this`dirty
      modifies fs`disk, fs`wflag, fs`winsect, fs`freeClst, fs`lastClst, fs`fsiFlag, fs.win
      ensures Sane()
      ensures !ok ==> State() == old(State()) && Full(State().fat) && AtEnd(fs.g, State())
      ensures ok ==> AtSector(fs.g, State(), q, csect) && !dirty
      ensures ok ==> Grows(fs.g, old(State()), State()) && Bytes() == old(Bytes())
    {
      hide HasOne, FreeOk, FatFs.Logical, FatFs.Valid, FatOf, Outside, Base, Grows, Contents, AtEnd, Full, CursorOk,
        Effective;
      ghost var s := State();
      ok, csect := FollowWrite();
      if ok && dirty {
        ghost var s1 := State();
        Flush();
        GrowsSame(fs.g, s1, State());
        GrowsTrans(fs.g, s, s1, State());
      }
    }

    /** A round of the loop of f_write at a sector boundary; 0 bytes when the volume is full. */
    method WriteAligned(data: seq<Byte>) returns (wcnt: nat)
      requires Ready() && fptr % 512 == 0 && data != [] && fptr + |data| < 0x1_0000_0000
      modifies this`fptr, this`objsize, this`sclust, this`clust, this`sect, this`dirty
      modifies this`chain, this`q, this`bq, this`bo
      modifies buf, fs`disk, fs`wflag, fs`winsect, fs`freeClst, fs`lastClst, fs`fsiFlag, fs.win
      ensures Ready() && wcnt <= |data| && fptr == old(fptr) + wcnt
      ensures Grows(fs.g, old(State()), State()) && Bytes() == Patch(old(Bytes()), old(fptr), data[..wcnt])
      ensures wcnt == 0 ==> Full(State().fat) && AtEnd(fs.g, State())
    {
      hide HasOne, FreeOk, FatFs.Logical, FatOf, Outside, Base, AtSector, Grows, Contents, Patch, AtEnd, Full, CursorOk;
      ghost var s := State();
      var ok, csect := FollowClean();
      if !ok {
        WroteNothing(fs.g, s, data);
        return 0;
      }
      ghost var s1 := State();
      AtSectorRange(fs.g, s1, csect);
      var sct := Clst2Sect(fs.g, clust) + csect;
      var cc := |data| / 512;
      if cc > 0 {
        if csect + cc > fs.g.csize {
          cc := fs.g.csize - csect;
        }
        wcnt := 512 * cc;
        WriteDirect(sct, data[..wcnt], cc, csect);
      } else {
        wcnt := WriteSmall(sct, data, csect);
      }
      GrowsTrans(fs.g, s, s1, State());
    }

    /** One round of the loop of f_write. */
    method WriteChunk(data: seq<Byte>) returns (wcnt: nat)
      requires Ready() && data != [] && fptr + |data| < 0x1_0000_0000
      modifies this`fptr, this`objsize, this`sclust, this`clust, this`sect, this`dirty
      modifies this`chain, this`q, this`bq, this`bo
      modifies buf, fs`disk, fs`wflag, fs`winsect, fs`freeClst, fs`lastClst, fs`fsiFlag, fs.win
      ensures Ready() && wcnt <= |data| && fptr == old(fptr) + wcnt
      ensures Grows(fs.g, old(State()), State()) && Bytes() == Patch(old(Bytes()), old(fptr), data[..wcnt])
      ensures wcnt == 0 ==> Full(State().fat) && AtEnd(fs.g, State())
    {
      hide HasOne, FreeOk, FatFs.Logical, FatFs.Valid, FatOf, Outside, Base, InSector, Grows, Contents, Patch, AtEnd,
        Full, CursorOk;
      if fptr % 512 == 0 {
        wcnt := WriteAligned(data);
      } else {
        CursorInSector(fs.g, State());
        wcnt := WriteInside(data, fptr / 512 - fs.g.csize * q);
      }
    }

    /** The loop of f_write. */
    method WriteLoop(data: seq<Byte>) returns (bw: nat)
      requires Ready() && fptr + |data| < 0x1_0000_0000
      modifies this`fptr, this`objsize, this`sclust, this`clust, this`sect, this`dirty
      modifies this`chain, this`q, this`bq, this`bo
      modifies buf, fs`disk, fs`wflag, fs`winsect, fs`freeClst, fs`lastClst, fs`fsiFlag, fs.win
      ensures Ready() && bw <= |data| && fptr == old(fptr) + bw
      ensures Grows(fs.g, old(State()), State()) && Bytes() == Patch(old(Bytes()), old(fptr), data[..bw])
      ensures bw < |data| ==> Full(State().fat) && AtEnd(fs.g, State())
    {
      hide HasOne, FreeOk, FatFs.Logical, FatFs.Valid, FatOf, Outside, Base, Grows, Contents, Patch, AtEnd, Full,
        CursorOk;
      bw := 0;
      WroteNothing(fs.g, State(), data);
      while bw < |data|
        invariant Ready() && bw <= |data| && fptr == old(fptr) + bw
        invariant Grows(fs.g, old(State()), State()) && Bytes() == Patch(old(Bytes()), old(fptr), data[..bw])
      {
        ghost var s := State();
        var wcnt := WriteChunk(data[bw..]);
        GrowsTrans(fs.g, old(State()), s, State());
        WroteMore(old(Bytes()), old(fptr), data, bw, wcnt);
        if wcnt == 0 {
          break;
        }
        bw := bw + wcnt;
      }
    }

    /** f_write: the bytes are written over or behind the file's own from the pointer on, all of
        them (up to the largest file size) or as many as fit before the volume is full. */
    method Write(data: seq<Byte>) returns (res: FResult, bw: U32)
      requires Valid() && |data| < 0x1_0000_0000
      modifies this`fptr, this`objsize, this`sclust, this`clust, this`sect, this`dirty, this`modified
      modifies this`chain, this`q, this`bq, this`bo
      modifies buf, fs`disk, fs`wflag, fs`winsect, fs`freeClst, fs`lastClst, fs`fsiFlag, fs.win
      ensures Valid() && bw <= |data| && fptr == old(fptr) + bw
      ensures res == if err != FR_OK then err else if !canWrite then FR_DENIED else FR_OK
      ensures res != FR_OK ==> bw == 0
      ensures Grows(fs.g, old(State()), State()) && Bytes() == Patch(old(Bytes()), old(fptr), data[..bw])
      ensures res == FR_OK && bw < |data| && old(fptr) + bw < 0xFFFF_FFFF ==> Full(State().fat) && AtEnd(fs.g, State())
      ensures res == FR_OK ==> modified
    {
      hide HasOne, FreeOk, FatFs.Logical, FatFs.Valid, FatOf, Outside, Base, Grows, Contents, Patch, AtEnd, Full,
        CursorOk;
      WroteNothing(fs.g, State(), data);
      if err != FR_OK {
        return err, 0;
      }
      if !canWrite {
        return FR_DENIED, 0;
      }
      var btw := |data|;
      WrapCheck(fptr, btw);
      if (fptr + btw) % 0x1_0000_0000 < fptr {
        btw := 0xFFFF_FFFF - fptr;
      }
      bw := WriteLoop(data[..btw]);
      assert data[..btw][..bw] == data[..bw];
      modified := true;
      res := FR_OK;
    }

    /** One cluster further on the way to a seek target: when writing, the chain is stretched if it
        ends here. 0 when the volume is full. */
    method SeekNext() returns (r: U32)
      requires Sane() && AtCluster(fs.g, State()) && (canWrite || q + 1 < |chain|)
      modifies this`clust, this`q, this`sclust, this`chain
      modifies fs`disk, fs`wflag, fs`winsect, fs`freeClst, fs`lastClst, fs`fsiFlag, fs.win
      ensures Sane()
      ensures r == 0 ==> State() == old(State()) && Full(State().fat) && q + 1 == |chain|
      ensures r != 0 ==> AtCluster(fs.g, State()) && q == old(q) + 1 && clust == r
      ensures r != 0 ==> Grows(fs.g, old(State()), State()) && Bytes() == old(Bytes())
      ensures old(q) + 1 < |old(chain)| ==> r != 0 && SameFile(old(State()), State())
    {
      hide HasOne, FreeOk, FatFs.Logical, FatOf, Outside, Base, Grows, Contents, Full, SameFile, OnlyFatDiffers,
        Geometry.Valid;
      ghost var s := State();
      SeekFollow(fs.g, s);
      EocEnds(fs.g);
      if canWrite {
        r := Grow(clust);
        if r == 0 {
          return;
        }
      } else {
        r := Link(clust);
      }
      if s.q + 1 < |s.chain| {
        GrowsSame(fs.g, s, s.(clust := r, q := s.q + 1));
      } else {
        SeekExtend(fs.g, s, State(), r, Eoc(fs.g));
      }
      Enter(r, q + 1);
    }

    /** Where a seek starts to follow the chain: the current cluster when the target is not before
        it, else the first one, which is allocated if there is none. Gives the cluster (0 when the
        volume is full) and the offset it starts at. */
    method SeekStart(ofs: U32) returns (clst: U32, p: U32)
      requires Ready() && ofs > 0
      modifies this`clust, this`q, this`sclust, this`chain
      modifies fs`disk, fs`wflag, fs`winsect, fs`freeClst, fs`lastClst, fs`fsiFlag, fs.win
      ensures Sane()
      ensures clst == 0 ==> SameFile(old(State()), State()) && Full(State().fat) && chain == []
      ensures clst != 0 ==> AtCluster(fs.g, State()) && p == StartOf(fs.g, q) && p < ofs
      ensures Grows(fs.g, old(State()), State()) && Bytes() == old(Bytes())
      ensures old(chain) != [] ==> clst != 0 && SameFile(old(State()), State())
    {
      hide HasOne, FreeOk, FatFs.Logical, FatOf, Outside, Base, CursorOk, Grows, Contents, Full, SameFile,
        OnlyFatDiffers;
      hide ClusterNo, ClusterStart, StartOf;
      ghost var s := State();
      EocEnds(fs.g);
      Starts(fs.g, 0);
      FirstNotZero(fs.g, s);
      if fptr > 0 { Shortcut(fs.g, s, ofs); }
      if fptr > 0 && ClusterNo(fs.g, ofs - 1) >= ClusterNo(fs.g, fptr - 1) {
        p := ClusterStart(fs.g, fptr - 1);
        clst := clust;
        SameSelf(fs.g, s);
      } else {
        clst := sclust;
        if clst == 0 {
          clst := Grow(0);
        }
        p := 0;
        SeekFirst(fs.g, s, State(), clst, Eoc(fs.g));
        clust := clst;
        q := 0;
      }
    }

    /** Follows the chain to the cluster holding the byte before the target, from the current
        cluster, which starts at p0. Gives the offset reached, below the target only when the
        volume is full, and that offset's distance from the start of the current cluster. */
    method SeekWalk(p0: U32, target: U32) returns (pos: U32, ofs: U32)
      requires Sane() && AtCluster(fs.g, State()) && p0 == StartOf(fs.g, q) && p0 < target
      requires canWrite || target <= objsize
      modifies this`clust, this`q, this`sclust, this`chain
      modifies fs`disk, fs`wflag, fs`winsect, fs`freeClst, fs`lastClst, fs`fsiFlag, fs.win
      ensures Sane() && AtCluster(fs.g, State())
      ensures StartOf(fs.g, q) < pos <= StartOf(fs.g, q) + Bcs(fs.g) && pos <= target
      ensures Grows(fs.g, old(State()), State()) && Bytes() == old(Bytes())
      ensures pos < target ==> Full(State().fat) && pos == StartOf(fs.g, |chain|)
      ensures target <= objsize ==> SameFile(old(State()), State()) && pos == target
      ensures pos % 512 != 0 ==> ofs == pos - StartOf(fs.g, q)
    {
      hide HasOne, FreeOk, FatFs.Logical, FatOf, Outside, Base, CursorOk, Grows, Contents, Full, SameFile, AtCluster,
        StartOf, Bcs;
      SameSelf(fs.g, State());
      var bcs := Bcs(fs.g);
      var p: int := p0;
      ofs := target - p;
      while ofs > bcs
        invariant Sane() && AtCluster(fs.g, State())
        invariant 0 < ofs && p == StartOf(fs.g, q) && p + ofs == target
        invariant Grows(fs.g, old(State()), State()) && Bytes() == old(Bytes())
        invariant target <= objsize ==> SameFile(old(State()), State())
      {
        ghost var s := State();
        MoreClusters(fs.g, s, target);
        Starts(fs.g, q);
        ofs := ofs - bcs;
        p := p + bcs;
        var r := SeekNext();
        if r == 0 {
          ofs := 0;
          pos := p;
          return;
        }
        GrowsTrans(fs.g, old(State()), s, State());
        if target <= objsize { SameTrans(fs.g, old(State()), s, State()); }
      }
      pos := p + ofs;
    }

    /** Sets the pointer inside the current cluster, growing the file to it, and loads its sector. */
    method SeekSet(pos: U32, ofs: U32)
      requires Sane() && AtCluster(fs.g, State()) && StartOf(fs.g, q) < pos <= StartOf(fs.g, q) + Bcs(fs.g)
      requires pos % 512 != 0 ==> ofs == pos - StartOf(fs.g, q)
      requires dirty ==> modified
      modifies this`fptr, this`objsize, this`sect, this`dirty, this`modified, this`bq, this`bo, buf, fs`disk
      ensures Valid() && fptr == pos && objsize == Max(old(objsize), pos) && State().fat == old(State()).fat
      ensures Grows(fs.g, old(State()), State()) && old(Bytes()) <= Bytes()
      ensures pos <= old(objsize) ==> SameFile(old(State()), State())
    {
      hide HasOne, FreeOk, FatFs.Logical, FatOf, Outside, Base, CursorOk, Grows, Contents, Effective, StartOf, Bcs,
        Geometry.Valid;
      ghost var s := State();
      SeekOffset(fs.g, s, pos);
      SetKeeps(fs.g, s, pos);
      fptr := pos;
      if fptr > objsize {
        objsize := fptr;
        modified := true;
      }
      assert State() == Set(s, pos);
      SetCursor(fs.g, State());
      if fptr % 512 != 0 {
        var nsect := Clst2Sect(fs.g, clust) + ofs / 512;
        ghost var s1 := State();
        Fill(nsect, ofs / 512);
        SetCursor(fs.g, State());
        GrowsSame(fs.g, s1, State());
        GrowsTrans(fs.g, s, s1, State());
        if pos <= s.size { SameTrans(fs.g, s, s1, State()); }
      }
    }

    /** Pointer zero. */
    method Rewind()
      requires Sane() && (dirty ==> modified)
      modifies this`fptr
      ensures Valid() && fptr == 0 && SameFile(old(State()), State())
      ensures Grows(fs.g, old(State()), State()) && Bytes() == old(Bytes())
    {
      hide HasOne, FreeOk, FatFs.Logical, FatOf, Outside, Base, CursorOk, Grows, Contents, SameFile;
      ghost var s := State();
      RewindKeeps(fs.g, s);
      fptr := 0;
      GrowsSame(fs.g, s, State());
    }

    /** A seek to an offset above zero that the file has or may grow to. */
    method SeekTo(ofs: U32)
      requires Valid() && ofs > 0 && (canWrite || ofs <= objsize)
      modifies this`fptr, this`objsize, this`sclust, this`clust, this`sect, this`dirty, this`modified
      modifies this`chain, this`q, this`bq, this`bo
      modifies buf, fs`disk, fs`wflag, fs`winsect, fs`freeClst, fs`lastClst, fs`fsiFlag, fs.win
      ensures Valid() && fptr <= ofs && objsize == Max(old(objsize), fptr)
      ensures fptr < ofs ==> Full(State().fat) && fptr == StartOf(fs.g, |chain|)
      ensures ofs <= old(objsize) ==> fptr == ofs && SameFile(old(State()), State())
      ensures Grows(fs.g, old(State()), State()) && old(Bytes()) <= Bytes()
    {
      hide HasOne, FreeOk, FatFs.Logical, FatOf, Outside, Base, CursorOk, Grows, Contents, SameFile, StartOf, Bcs,
        AtCluster, Full;
      ghost var s := State();
      NeedsChain(fs.g, s);
      var clst, p := SeekStart(ofs);
      ghost var s1 := State();
      if clst != 0 {
        var pos, rest := SeekWalk(p, ofs);
        ghost var s2 := State();
        GrowsTrans(fs.g, s, s1, s2);
        SeekSet(pos, rest);
        GrowsTrans(fs.g, s, s2, State());
        if ofs <= s.size {
          SameTrans(fs.g, s, s1, s2);
          SameTrans(fs.g, s, s2, State());
        }
      } else {
        Starts(fs.g, 0);
        Rewind();
        GrowsTrans(fs.g, s, s1, State());
      }
    }

    /** f_lseek: the pointer goes to the offset. Up to the file size nothing of the file changes and
        the current cluster is the one a walk from the first cluster reaches. Beyond it, a file open
        for writing grows (its new bytes are whatever the new clusters hold), short of the offset
        only when the volume is full; one open for reading stops at its size. */
    method Lseek(target: U32) returns (res: FResult)
      requires Valid()
      modifies this`fptr, this`objsize, this`sclust, this`clust, this`sect, this`dirty, this`modified
      modifies this`chain, this`q, this`bq, this`bo
      modifies buf, fs`disk, fs`wflag, fs`winsect, fs`freeClst, fs`lastClst, fs`fsiFlag, fs.win
      ensures Valid() && res == err
      ensures err != FR_OK ==> State() == old(State())
      ensures err == FR_OK ==>
        var t := if target > old(objsize) && !canWrite then old(objsize) else target;
        && fptr <= t && objsize == Max(old(objsize), fptr)
        && (fptr < t ==> Full(State().fat) && AtEnd(fs.g, State()))
        && (t <= old(objsize) ==> fptr == t && SameFile(old(State()), State()) && Bytes() == old(Bytes()))
      ensures Grows(fs.g, old(State()), State()) && old(Bytes()) <= Bytes()
    {
      hide HasOne, FreeOk, FatFs.Logical, FatFs.Valid, FatOf, Outside, Base, CursorOk, Grows, Contents, SameFile, Full;
      res := err;
      SameSelf(fs.g, State());
      if res != FR_OK {
        return;
      }
      var ofs: U32 := target;
      if ofs > objsize && !canWrite {
        ofs := objsize;
      }
      if ofs > 0 {
        SeekTo(ofs);
      } else {
        Rewind();
      }
    }

    /** Removes the clusters behind the pointer. */
    method CutTail() returns (res: FResult)
      requires Ready() && fptr < objsize
      modifies this`sclust, fs`disk, fs`wflag, fs`winsect, fs`freeClst, fs`fsiFlag, fs.win
      ensures fs.Valid() && FreeOk(fs) && res == FR_OK && Kept(old(State())) <= |chain|
      ensures FatOf(fs) == CutFat(old(FatOf(fs)), chain, Kept(old(State())), Eoc(fs.g))
      ensures OnlyFatDiffers(fs.g, old(fs.Logical()), fs.Logical())
      ensures fs.g.InFat1(fs.winsect) || Outside(fs.g, old(FatOf(fs)), chain, fs.winsect)
      ensures var ch := chain[..Kept(old(State()))]; sclust == if ch == [] then 0 else ch[0]
    {
      hide HasOne, FatFs.Logical, FatFs.Valid, Outside, Entries, CursorOk, OnlyFatDiffers, Visited, Unlinked, CutFat,
        IsChain, CacheOk, FreeOk;
      res := FR_OK;
      ghost var s := State();
      EocEnds(fs.g);
      TruncateRemoves(fs.g, s, Eoc(fs.g));
      OnlyFatRefl(fs.g, fs.Logical());
      if fptr == 0 {
        res := RemoveChain(fs, sclust, 0);
        sclust := 0;
      } else {
        var ncl := Link(clust);
        if ncl < fs.g.nFatent {
          res := RemoveChain(fs, ncl, clust);
        }
      }
    }

    /** The step of f_truncate when the pointer is not at the end of the file. */
    method CutHere() returns (res: FResult)
      requires Ready() && fptr < objsize
      modifies this`objsize, this`sclust, this`dirty, this`chain
      modifies fs`disk, fs`wflag, fs`winsect, fs`freeClst, fs`fsiFlag, fs.win
      ensures Ready() && !dirty && res == FR_OK && CutOff(fs.g, old(State()), State())
    {
      hide HasOne, FatFs.Logical, Outside, Base, CursorOk, OnlyFatDiffers, CutFat, FreeOk, CutOff, FatOf,
        Geometry.Valid;
      ghost var s := State();
      res := CutTail();
      ghost var d := fs.Logical();
      EocEnds(fs.g);
      CutNow(fs.g, s, Eoc(fs.g), d, fs.winsect);
      objsize := fptr;
      WriteBack();
      chain := chain[..Kept(s)];
      assert State() == Truncated(s, Eoc(fs.g), d);
    }

    /** Writes a dirty cache to the disk. */
    method WriteBack()
      requires fs.Valid() && buf.Length == 512 && buf != fs.win
      requires dirty ==> fs.g.database <= sect < |fs.disk| && sect != fs.winsect
      modifies this`dirty, fs`disk
      ensures fs.Valid() && FatOf(fs) == old(FatOf(fs)) && FreeOk(fs) == old(FreeOk(fs))
      ensures
        var d := old(fs.Logical());
        State() == old(State()).(dirty := false, disk := if old(dirty) && sect < |d| then d[sect := buf[..]] else d)
    {
      hide FatFs.Logical, FatOf, FreeOk, Geometry.Valid;
      if dirty {
        PutOne(fs.Logical(), sect, buf[..]);
        DiskWrite(fs, sect, [buf[..]]);
        dirty := false;
      }
    }

    /** f_truncate: the file ends at the pointer. Exactly the clusters behind it are freed; the
        entries of all other clusters, and every sector that is not in the FAT, stay the same. */
    method Truncate() returns (res: FResult)
      requires Valid()
      modifies this`objsize, this`sclust, this`dirty, this`modified, this`chain
      modifies fs`disk, fs`wflag, fs`winsect, fs`freeClst, fs`fsiFlag, fs.win
      ensures Valid() && fptr == old(fptr)
      ensures res == if err != FR_OK then err else if !canWrite then FR_DENIED else FR_OK
      ensures res != FR_OK || fptr == old(objsize) ==> State() == old(State())
      ensures res == FR_OK && fptr < old(objsize) ==> CutOff(fs.g, old(State()), State())
      ensures res == FR_OK && fptr < old(objsize) ==> JustHolds(fs.g, |chain|, fptr)
      ensures res == FR_OK ==> Bytes() == old(Bytes())[..fptr]
    {
      hide HasOne, FatFs.Logical, FatFs.Valid, Outside, Entries, Base, CursorOk, Contents, FreeOk, JustHolds;
      res := err;
      assert Bytes()[..objsize] == Bytes();
      if res != FR_OK {
        return;
      }
      if !canWrite {
        return FR_DENIED;
      }
      if fptr < objsize {
        KeptJustHolds(fs.g, State());
        res := CutHere();
        modified := true;
      }
    }

    /** The directory entry is in a sector of its own kind: not in the FAT, not the FSInfo sector,
        not in a cluster of this file or a free one. */
    ghost predicate EntryApart()
      requires fs.Valid()
      reads this, fs, fs.win
    {
      && dirSect < |fs.disk| && !fs.g.InFat(dirSect) && dirSect != fs.g.volbase + 1 && dirOfs + 32 <= 512
      && Outside(fs.g, FatOf(fs), chain, dirSect)
    }

    /** The directory entry of this file as it is on the disk. */
    ghost function EntryOnDisk(): (e: seq<Byte>)
      requires fs.Valid() && EntryApart()
      reads this, fs, fs.win
      ensures |e| == 32
    {
      fs.disk[dirSect][dirOfs..dirOfs + 32]
    }

    /** Puts the file's first cluster and size into its directory entry. */
    method PutEntry()
      requires Valid() && EntryApart() && !dirty
      modifies fs`disk, fs`wflag, fs`winsect, fs.win
      ensures Valid() && EntryApart() && Bytes() == old(Bytes()) && State().fat == old(State()).fat
      ensures EntryOnly(old(State()).disk, State().disk, dirSect, dirOfs, InfoSector(fs.g))
      ensures State().disk[dirSect][dirOfs..dirOfs + 32] ==
        Updated(fs.g.fsType, old(State()).disk[dirSect][dirOfs..dirOfs + 32], sclust, objsize)
      ensures EntryCluster(fs.g.fsType, State().disk[dirSect][dirOfs..dirOfs + 32]) == sclust
      ensures EntrySize(State().disk[dirSect][dirOfs..dirOfs + 32]) == objsize
    {
      hide HasOne, FreeOk, FatFs.Logical, FatOf, Outside, Base, CursorOk, Contents, Updated, EntryCluster, EntrySize,
        Put;
      ghost var s := State();
      ghost var was := s.disk[dirSect];
      ghost var e := Updated(fs.g.fsType, was[dirOfs..dirOfs + 32], sclust, objsize);
      ghost var w: Sector := Put(was, dirOfs, e);
      FirstFits(fs.g, s, sclust);
      UpdatedReads(fs.g.fsType, was[dirOfs..dirOfs + 32], sclust, objsize);
      PutBack(was, dirOfs, e);
      WriteElsewhere(fs.g, s, dirSect, w);
      UpdateEntry(fs, dirSect, dirOfs, sclust, objsize);
      PutEntryOnly(s.disk, dirSect, dirOfs, e, InfoSector(fs.g));
      assert State() == s.(disk := s.disk[dirSect := w]);
    }

    /** sync_fs with this file open. */
    method SyncVolume()
      requires Valid() && EntryApart() && !dirty
      modifies fs`disk, fs`wflag, fs`winsect, fs`fsiFlag, fs.win
      ensures Valid() && EntryApart() && Bytes() == old(Bytes()) && State().fat == old(State()).fat
      ensures !fs.wflag && fs.disk == State().disk && State().disk[dirSect] == old(State()).disk[dirSect]
      ensures EntryOnly(old(State()).disk, State().disk, dirSect, dirOfs, InfoSector(fs.g))
    {
      hide HasOne, FreeOk, FatFs.Logical, FatOf, Outside, Base, CursorOk, Contents, FsInfo, Geometry.Valid;
      ghost var s := State();
      var fsi := fs.fsiFlag == 1 && fs.g.fsType == FAT32;
      if fsi {
        InfoElsewhere(fs.g, s, FsInfo(fs.freeClst, fs.lastClst));
      }
      SyncFs(fs);
      assert fsi ==> State() == s.(disk := s.disk[fs.g.volbase + 1 := FsInfo(fs.freeClst, fs.lastClst)]);
      assert !fsi ==> State() == s;
    }

    /** f_sync: the disk itself, without window and cache, holds the file: its bytes, its chain in
        the FAT, and its first cluster and size in the directory entry. No other entry changes. */
    method Sync() returns (res: FResult)
      requires Valid() && EntryApart()
      modifies this`dirty, this`modified, fs`disk, fs`wflag, fs`winsect, fs`fsiFlag, fs.win
      ensures Valid() && res == FR_OK && EntryApart()
      ensures Bytes() == old(Bytes()) && State().fat == old(State()).fat
      ensures !modified && !dirty && fptr == old(fptr) && chain == old(chain)
      ensures EntryOnly(Effective(old(State())), Effective(State()), dirSect, dirOfs, InfoSector(fs.g))
      ensures Stored(fs.g, fs.disk, chain, Bytes())
      ensures old(modified) ==> !fs.wflag && OnDisk(fs.g, fs.disk, State().fat, chain, Bytes())
      ensures old(modified) ==>
        EntryOnDisk() == Updated(fs.g.fsType, old(State()).disk[dirSect][dirOfs..dirOfs + 32], sclust, objsize)
      ensures old(modified) ==>
        EntryCluster(fs.g.fsType, EntryOnDisk()) == sclust && EntrySize(EntryOnDisk()) == objsize
    {
      hide HasOne, FreeOk, Outside, Base, CursorOk, Contents, EntryCluster, EntrySize, Updated, Entries, OnDisk,
        Stored, FatFs.Logical, EntryOnly;
      res := FR_OK;
      EntryOnlyRefl(Effective(State()), dirSect, dirOfs, InfoSector(fs.g));
      if modified {
        if dirty {
          ghost var s := State();
          FlushContents(fs.g, s);
          FlushElsewhere(fs.g, s, dirSect);
          Flush();
        }
        ghost var d := State().disk;
        PutEntry();
        ghost var d' := State().disk;
        SyncVolume();
        EntryOnlyTrans(d, d', State().disk, dirSect, dirOfs, InfoSector(fs.g));
        modified := false;
        ContentsOnDisk(fs.g, State());
      }
      Saved();
    }

    /** A file whose cache is clean is on the disk, whatever the window holds. */
    lemma Saved()
      requires Sane() && !dirty
      ensures Stored(fs.g, fs.disk, chain, Bytes())
    {
      hide HasOne, FreeOk, Outside, Base, Contents, Entries, Stored;
      LogicalAway();
      WindowAway(fs.g, State(), fs.disk, fs.winsect);
    }

    lemma LogicalAway()
      requires Sane()
      ensures forall t :: fs.g.database <= t < |fs.disk| && t != fs.winsect ==> fs.disk[t] == fs.Logical()[t]
    {
      hide HasOne, FreeOk, Outside, Base, Contents, Entries, Overlay;
    }
  }

  /** s' is s cut off at the pointer: its first bytes, the clusters that hold them, the other
      clusters of the file free, everything else as it was. */
  ghost predicate CutOff(g: Geometry, s: FileState, s': FileState)
    requires Base(g, s) && Base(g, s')
  {
    && s'.pos == s.pos
    && Contents(g, s') == Contents(g, s)[..s.pos]
    && Kept(s) <= |s.chain| && s'.chain == s.chain[..Kept(s)]
    && CutTo(s.fat, s'.fat, s.chain, Kept(s))
    && OnlyFatDiffers(g, Effective(s), Effective(s'))
  }

  /** All that truncating comes to; w is the window's sector. */
  lemma CutNow(g: Geometry, s: FileState, eoc: U32, d: Disk, w: int)
    requires CanTruncate(g, s, eoc, d) && (Outside(g, s.fat, s.chain, w) || g.InFat1(w))
    ensures Kept(s) <= |s.chain| && Inv(g, Truncated(s, eoc, d))
    ensures CutOff(g, s, Truncated(s, eoc, d))
    ensures !HasOne(CutFat(s.fat, s.chain, Kept(s), eoc))
    ensures Outside(g, CutFat(s.fat, s.chain, Kept(s), eoc), s.chain[..Kept(s)], w)
    ensures s.dirty ==> g.database <= s.sect < |s.disk| == |d| && s.sect != w
  {
    hide Contents, CutFat, CutTo, HasOne, IsChain, CursorOk, Outside, OnlyFatDiffers, Effective, CacheOk;
    if g.InFat1(w) { FatIsOutside(g, s.fat, s.chain, w); }
    TruncatedInv(g, s, eoc, d);
    TruncatedContents(g, s, eoc, d);
    TruncatedConfined(g, s, eoc, d);
    CutFatKeeps(s.fat, s.chain, Kept(s), eoc);
    CutOwned(g, s.fat, s.chain, Kept(s), eoc, w);
    DirtyApart(g, s, eoc, d, w);
  }

  lemma DirtyApart(g: Geometry, s: FileState, eoc: U32, d: Disk, w: int)
    requires CanTruncate(g, s, eoc, d) && Outside(g, s.fat, s.chain, w)
    ensures s.dirty ==> g.database <= s.sect < |s.disk| == |d| && s.sect != w
  {
    hide CutFat, Contents;
  }

  /** The FSInfo sector, which only a FAT32 volume has. */
  function InfoSector(g: Geometry): int {
    if g.fsType == FAT32 && g.volbase + 1 < g.fatbase then g.volbase + 1 else -1
  }

  /** Nothing differs but the 32 bytes of a directory entry, and the FSInfo sector. */
  ghost predicate EntryOnly(d: Disk, d': Disk, sect: nat, ofs: nat, info: int) {
    && |d'| == |d|
    && (forall t :: 0 <= t < |d| && t != sect && t != info ==> d'[t] == d[t])
    && (sect < |d| ==> forall i :: 0 <= i < 512 && (i < ofs || ofs + 32 <= i) ==> d'[sect][i] == d[sect][i])
  }

  lemma EntryOnlyRefl(d: Disk, sect: nat, ofs: nat, info: int)
    ensures EntryOnly(d, d, sect, ofs, info)
  {
  }

  lemma EntryOnlyTrans(d: Disk, d': Disk, d'': Disk, sect: nat, ofs: nat, info: int)
    requires EntryOnly(d, d', sect, ofs, info) && EntryOnly(d', d'', sect, ofs, info)
    ensures EntryOnly(d, d'', sect, ofs, info)
  {
  }

  lemma PutEntryOnly(d: Disk, sect: nat, ofs: nat, e: seq<Byte>, info: int)
    requires sect < |d| && |e| == 32 && ofs + 32 <= 512
    ensures EntryOnly(d, d[sect := Put(d[sect], ofs, e)], sect, ofs, info)
  {
  }

  lemma InfoElsewhere(g: Geometry, s: FileState, w: Sector)
    requires Base(g, s) && !s.dirty && g.volbase + 1 < g.fatbase
    ensures g.volbase + 1 < |s.disk| && Outside(g, s.fat, s.chain, g.volbase + 1)
    ensures Base(g, s.(disk := s.disk[g.volbase + 1 := w]))
    ensures Contents(g, s.(disk := s.disk[g.volbase + 1 := w])) == Contents(g, s)
    ensures CursorOk(g, s) ==> CursorOk(g, s.(disk := s.disk[g.volbase + 1 := w]))
  {
    hide Outside;
    FatIsOutside(g, s.fat, s.chain, g.volbase + 1);
    ClusterInDisk(g, 2);
    WriteElsewhere(g, s, g.volbase + 1, w);
  }

  lemma FirstFits(g: Geometry, s: FileState, sclust: nat)
    requires Base(g, s) && sclust == (if s.chain == [] then 0 else s.chain[0])
    ensures g.fsType != FAT32 ==> sclust < 0x1_0000
  {
  }

  lemma PutBack(w: seq<Byte>, o: nat, e: seq<Byte>)
    requires o + |e| <= |w|
    ensures Put(w, o, e)[o..o + |e|] == e
  {
  }

  lemma FlushElsewhere(g: Geometry, s: FileState, t: nat)
    requires Base(g, s) && s.dirty && Outside(g, s.fat, s.chain, t) && t < |s.disk|
    ensures s.sect < |s.disk| && Flushed(s).disk[t] == s.disk[t]
  {
  }

  lemma FlushContents(g: Geometry, s: FileState)
    requires Inv(g, s) && s.dirty
    ensures s.sect < |s.disk|
    ensures Inv(g, Flushed(s)) && Contents(g, Flushed(s)) == Contents(g, s)
  {
    FlushKeeps(g, s);
  }

  /** The disk itself holds bytes in the clusters of ch. */
  ghost predicate Stored(g: Geometry, d: Disk, ch: seq<nat>, bytes: seq<Byte>) {
    g.Valid() && g.Fits(d) && InVolume(g, ch) && bytes <= View(g, d, ch)
  }

  /** The same, and this FAT. */
  ghost predicate OnDisk(g: Geometry, d: Disk, fat: Fat, ch: seq<nat>, bytes: seq<Byte>) {
    Stored(g, d, ch, bytes) && Entries(g, d) == fat
  }

  /** The window is in no sector of the file: what the file system means by them is on the disk. */
  lemma WindowAway(g: Geometry, s: FileState, d: Disk, w: int)
    requires Base(g, s) && !s.dirty && Outside(g, s.fat, s.chain, w) && |d| == |s.disk|
    requires forall t :: g.database <= t < |d| && t != w ==> d[t] == s.disk[t]
    ensures Stored(g, d, s.chain, Contents(g, s))
  {
    hide View, Outside, CacheOk;
    ChainFacts(g, s);
    forall k | 0 <= k < |s.chain| ensures Cluster(g, s.disk, s.chain[k]) == Cluster(g, d, s.chain[k]) {
      ClusterAway(g, s, d, w, k);
    }
    ViewSame(g, s.disk, d, s.chain);
  }

  lemma ClusterAway(g: Geometry, s: FileState, d: Disk, w: int, k: nat)
    requires Base(g, s) && Outside(g, s.fat, s.chain, w) && |d| == |s.disk| && k < |s.chain|
    requires forall t :: g.database <= t < |d| && t != w ==> d[t] == s.disk[t]
    ensures 2 <= s.chain[k] < g.nFatent && Cluster(g, s.disk, s.chain[k]) == Cluster(g, d, s.chain[k])
  {
    hide Cluster, CacheOk;
    ChainFacts(g, s);
    ClusterInDisk(g, s.chain[k]);
    ClusterSame(g, s.disk, d, s.chain[k]);
  }

  lemma ContentsOnDisk(g: Geometry, s: FileState)
    requires Base(g, s) && !s.dirty && s.fat == Entries(g, s.disk)
    ensures OnDisk(g, s.disk, s.fat, s.chain, Contents(g, s))
  {
    hide Entries, View;
    ChainFacts(g, s);
  }

  lemma NeedsChain(g: Geometry, s: FileState)
    requires Base(g, s)
    ensures s.size > 0 ==> s.chain != []
  {
  }

  lemma SameSelf(g: Geometry, s: FileState)
    requires Base(g, s)
    ensures SameFile(s, s) && Grows(g, s, s)
  {
    GrowsRefl(g, s);
  }

  /** The first cluster becomes the current one: s1 is the state after it was found or allocated. */
  lemma SeekFirst(g: Geometry, s: FileState, s1: FileState, r: nat, eoc: U32)
    requires Base(g, s) && Base(g, s1)
    requires
      || (s1 == s && s.chain != [] && r == s.chain[0])
      || (s1 == s && r == 0)
      || (&& s.chain == [] && 2 <= r < |s.fat| && s.fat[r] == 0 && eoc >= |s.fat|
          && OnlyFatDiffers(g, s.disk, s1.disk) && s1 == Extended(s, r, eoc, s1.disk))
    ensures var s2 := s1.(clust := r, q := 0);
      && Base(g, s2) && Grows(g, s, s2) && Contents(g, s2) == Contents(g, s)
      && (r != 0 ==> AtCluster(g, s2)) && (s1 == s ==> SameFile(s, s2))
  {
    hide Base, Grows, Contents, OnlyFatDiffers;
    var s2 := s1.(clust := r, q := 0);
    if s1 == s {
      CursorFree(g, s, r, 0);
      GrowsSame(g, s, s2);
      FirstNotZero(g, s);
    } else {
      SeekExtend(g, s, s1, r, eoc);
    }
  }

  lemma FirstNotZero(g: Geometry, s: FileState)
    requires Base(g, s)
    ensures s.chain != [] ==> s.chain[0] != 0
  {
  }

  /** The test for a pointer that would wrap. */
  lemma WrapCheck(fptr: U32, n: U32)
    ensures (fptr + n) % 0x1_0000_0000 < fptr <==> fptr + n >= 0x1_0000_0000
  {
  }

  lemma WroteMore(c: seq<Byte>, p: nat, data: seq<Byte>, bw: nat, wcnt: nat)
    requires p <= |c| && bw + wcnt <= |data|
    ensures Patch(Patch(c, p, data[..bw]), p + bw, data[bw..][..wcnt]) == Patch(c, p, data[..bw + wcnt])
  {
    PatchPatch(c, p, data[..bw], data[bw..][..wcnt]);
    assert data[..bw] + data[bw..][..wcnt] == data[..bw + wcnt];
  }

  lemma DirectAway(g: Geometry, s: FileState, w: int, o: nat, t: nat, ws: seq<Sector>)
    requires CanDirect(g, s, o, t, ws) && Outside(g, s.fat, s.chain, w)
    ensures g.database <= t && t + |ws| <= |s.disk| < 0x1_0000_0000 && (w < t || t + |ws| <= w)
    ensures |ws| > 0
  {
    AwayFrom(g, s, w, s.q, o);
  }

  lemma WroteNothing(g: Geometry, s: FileState, data: seq<Byte>)
    requires Base(g, s)
    ensures Grows(g, s, s) && Patch(Contents(g, s), s.pos, data[..0]) == Contents(g, s)
  {
    GrowsRefl(g, s);
  }

  lemma NowInSector(g: Geometry, s: FileState, s': FileState, o: nat)
    requires AtSector(g, s, s.q, o) && s'.pos == s.pos && s'.q == s.q && s'.clust == s.clust && s'.chain == s.chain
    requires CachesSector(g, s', s'.q, o)
    ensures InSector(g, s', s'.q, o)
  {
    StartOfSector(g, s', o);
  }

  lemma AwayFromAt(g: Geometry, s: FileState, w: int, o: nat)
    requires Base(g, s) && Outside(g, s.fat, s.chain, w) && AtSector(g, s, s.q, o)
    ensures o < g.csize && s.q < |s.chain| && 2 <= s.chain[s.q] < g.nFatent
    ensures g.database <= ClusterSector(g, s.chain[s.q])
    ensures ClusterSector(g, s.chain[s.q]) + g.csize <= |s.disk| < 0x1_0000_0000
    ensures w < ClusterSector(g, s.chain[s.q]) || ClusterSector(g, s.chain[s.q]) + g.csize <= w
    ensures s.pos % 512 == 0 && s.sect < 0x1_0000_0000
  {
    AwayFrom(g, s, w, s.q, o);
  }

  /** Bytes of n that still fit in the sector at p. */
  function Room(p: nat, n: nat): (r: nat)
    ensures r <= n && p % 512 + r <= 512 && (n > 0 ==> r > 0)
  {
    if 512 - p % 512 > n then n else 512 - p % 512
  }

  lemma FatBelow(g: Geometry, w: int)
    requires g.Valid()
    ensures g.InFat1(w) ==> w < g.database
  {
  }

  lemma GrowAllocates(g: Geometry, s: FileState, c: nat)
    requires Base(g, s)
    ensures c == LastOr0(s.chain) ==> Allocates(s.fat, c)
    ensures s.chain != [] ==> s.chain[0] != 0
    ensures 2 <= c < |s.fat| && s.fat[c] < |s.fat| ==> !Allocates(s.fat, c) && c != LastOr0(s.chain)
  {
  }

  /** Linking a free cluster r: no entry of value 1 appears, and a sector outside the file's and
      the free clusters stays outside. */
  lemma GrowWindow(g: Geometry, s: FileState, w: int, r: nat, eoc: U32)
    requires Base(g, s) && !HasOne(s.fat) && eoc >= |s.fat|
    ensures w < g.database ==> Outside(g, s.fat, s.chain, w)
    ensures 2 <= r < |s.fat| && s.fat[r] == 0 ==> !HasOne(Linked(s.fat, LastOr0(s.chain), r, eoc))
    ensures 2 <= r < |s.fat| && s.fat[r] == 0 && (w < g.database || Outside(g, s.fat, s.chain, w)) ==>
      Outside(g, Linked(s.fat, LastOr0(s.chain), r, eoc), s.chain + [r], w)
  {
    hide IsChain;
    if w < g.database { FatIsOutside(g, s.fat, s.chain, w); }
  }

  lemma SameStart(g: Geometry, s: FileState, b: seq<Byte>)
    requires Base(g, s)
    ensures SameFile(s, s)
    ensures Put(b, 0, Contents(g, s)[s.pos..s.pos]) == b
  {
  }

  lemma SameTrans(g: Geometry, s: FileState, s': FileState, s'': FileState)
    requires Base(g, s) && Base(g, s') && Base(g, s'') && SameFile(s, s') && SameFile(s', s'')
    ensures SameFile(s, s'') && Contents(g, s'') == Contents(g, s)
  {
  }

  /** Bytes from..mid of v at the start of b, then mid..end behind them. */
  lemma PutNext(b: seq<Byte>, v: seq<Byte>, from: nat, mid: nat, end: nat)
    requires from <= mid <= end <= |v| && end - from <= |b|
    ensures Put(Put(b, 0, v[from..mid]), mid - from, v[mid..end]) == Put(b, 0, v[from..end])
  {
  }
}
