/** Whole runs of calls on an open file: to its user the file is an array of bytes with a
    cursor, and to everything else on the volume the calls are invisible. */
module FatRuns {
  import opened Basics
  import opened FatGeometry
  import opened FatWindow
  import opened FatEntries
  import opened FatChains
  import opened FatAlloc
  import opened FatData
  import opened FatFileState
  import opened FatFileWrite
  import opened FatFileTruncate
  import opened FatFile

  // ---------- what a run does to the rest of the volume

  /** The file's chain is replaced by one over its own and free clusters, all other entries staying
      and no cluster being lost; and every sector that is not the file's, free, in the FAT, the
      file's directory sector or FSInfo keeps its bytes. */
  ghost predicate Leaves(g: Geometry, dir: nat, s: FileState, s': FileState)
    requires Base(g, s) && Base(g, s')
  {
    && |s'.disk| == |s.disk|
    && Replaced(s.fat, s'.fat, s.chain, s'.chain)
    && (forall t :: 0 <= t < |s.disk| && Untouched(g, dir, s, t) ==> Effective(s')[t] == Effective(s)[t])
    && (Mirrored(g, Effective(s)) ==> Mirrored(g, Effective(s')))
  }

  ghost predicate Untouched(g: Geometry, dir: nat, s: FileState, t: int) {
    !g.InFat(t) && t != dir && t != InfoSector(g) && Outside(g, s.fat, s.chain, t)
  }

  /** A sector outside the file's and the free clusters stays outside. */
  lemma ReplacedOutside(g: Geometry, fat: Fat, fat': Fat, was: seq<nat>, ch: seq<nat>, t: int)
    requires Replaced(fat, fat', was, ch)
    ensures Outside(g, fat', ch, t) <==> Outside(g, fat, was, t)
  {
    hide Replaced;
    SameSize(fat, fat', was, ch);
    forall c | 2 <= c < |fat| ensures (c in ch || fat'[c] == 0) <==> (c in was || fat[c] == 0) {
      ReplacedOwned(fat, fat', was, ch, c);
    }
  }

  lemma BaseChain(g: Geometry, s: FileState)
    requires Base(g, s)
    ensures IsChain(s.fat, s.chain) && |s.fat| == g.nFatent
  {
  }

  lemma SameLeaves(g: Geometry, dir: nat, s: FileState, s': FileState)
    requires Base(g, s) && Base(g, s') && SameFile(s, s')
    ensures Leaves(g, dir, s, s')
  {
    ReplacedRefl(s.fat, s.chain);
  }

  lemma LeavesTrans(g: Geometry, dir: nat, s: FileState, s': FileState, s'': FileState)
    requires Base(g, s) && Base(g, s') && Base(g, s'') && Leaves(g, dir, s, s') && Leaves(g, dir, s', s'')
    ensures Leaves(g, dir, s, s'')
  {
    hide Base, Outside, Effective, Mirrored, Replaced, IsChain;
    BaseChain(g, s);
    ReplacedTrans(s.fat, s'.fat, s''.fat, s.chain, s'.chain, s''.chain);
    forall t | 0 <= t < |s.disk| && Untouched(g, dir, s, t) ensures Effective(s'')[t] == Effective(s)[t] {
      ReplacedOutside(g, s.fat, s'.fat, s.chain, s'.chain, t);
      assert Untouched(g, dir, s', t);
    }
  }

  lemma OutsideChain(g: Geometry, fat: Fat, ch: seq<nat>, t: int)
    requires Outside(g, fat, ch, t) && IsChain(fat, ch)
    ensures !InClusters(g, ch, t)
  {
    assert forall k :: 0 <= k < |ch| ==> ch[k] in ch;
  }

  lemma GrowsReplaced(g: Geometry, s: FileState, s': FileState)
    requires Base(g, s) && Base(g, s') && Grows(g, s, s')
    ensures Replaced(s.fat, s'.fat, s.chain, s'.chain)
  {
    hide CacheOk, Effective, Confined;
    assert forall c :: c in s.chain ==> c in s'.chain;
  }

  lemma GrowsLeaves(g: Geometry, dir: nat, s: FileState, s': FileState)
    requires Base(g, s) && Base(g, s') && Grows(g, s, s')
    ensures Leaves(g, dir, s, s')
  {
    hide Outside, Mirrored, IsChain, CacheOk, Replaced;
    GrowsReplaced(g, s, s');
    forall t | Outside(g, s.fat, s.chain, t) ensures !InClusters(g, s'.chain, t) {
      ReplacedOutside(g, s.fat, s'.fat, s.chain, s'.chain, t);
      OutsideChain(g, s'.fat, s'.chain, t);
    }
  }

  lemma CutReplaced(fat: Fat, fat': Fat, ch: seq<nat>, k: nat)
    requires k <= |ch| && CutTo(fat, fat', ch, k)
    ensures Replaced(fat, fat', ch, ch[..k])
  {
    hide IsChain;
    assert ch == ch[..k] + ch[k..];
  }

  lemma CutLeaves(g: Geometry, dir: nat, s: FileState, s': FileState)
    requires Base(g, s) && Base(g, s') && CutOff(g, s, s')
    ensures Leaves(g, dir, s, s')
  {
    hide Mirrored, CacheOk, IsChain, Contents, Outside, Replaced, CutTo;
    CutReplaced(s.fat, s'.fat, s.chain, Kept(s));
  }

  lemma SyncLeaves(g: Geometry, dir: nat, ofs: nat, s: FileState, s': FileState)
    requires Base(g, s) && Base(g, s') && s'.fat == s.fat && s'.chain == s.chain && !g.InFat(dir)
    requires EntryOnly(Effective(s), Effective(s'), dir, ofs, InfoSector(g))
    ensures Leaves(g, dir, s, s')
  {
    hide CacheOk, IsChain, Outside, Effective, Mirrored;
    ReplacedRefl(s.fat, s.chain);
    MirrorSame(g, Effective(s), Effective(s'));
  }

  /** Any other file keeps its chain and its bytes, if neither this file's directory entry nor
      FSInfo is in its clusters. */
  lemma OthersKept(g: Geometry, dir: nat, s: FileState, s': FileState, other: seq<nat>)
    requires Base(g, s) && Base(g, s') && Leaves(g, dir, s, s')
    requires IsChain(s.fat, other) && Apart(s.chain, other)
    requires !InClusters(g, other, dir) && !InClusters(g, other, InfoSector(g))
    ensures IsChain(s'.fat, other) && Apart(s'.chain, other)
    ensures InVolume(g, other) && View(g, Effective(s'), other) == View(g, Effective(s), other)
  {
    hide Effective, View, CacheOk, Mirrored, Outside, IsChain, Replaced, Apart;
    ChainFacts(g, s.(chain := other));
    OtherChain(s.fat, s'.fat, s.chain, s'.chain, other);
    forall k | 0 <= k < |other| ensures Cluster(g, Effective(s), other[k]) == Cluster(g, Effective(s'), other[k]) {
      UsedInChain(s.fat, other, other[k]);
      NotShared(s.chain, other, k);
      OtherCluster(g, dir, s, s', other, k);
    }
    ViewSame(g, Effective(s), Effective(s'), other);
  }

  lemma NotShared(ch: seq<nat>, other: seq<nat>, k: nat)
    requires Apart(ch, other) && k < |other|
    ensures other[k] !in ch
  {
  }

  lemma OtherCluster(g: Geometry, dir: nat, s: FileState, s': FileState, other: seq<nat>, k: nat)
    requires Base(g, s) && Base(g, s') && Leaves(g, dir, s, s') && k < |other|
    requires 2 <= other[k] < |s.fat| && s.fat[other[k]] != 0 && other[k] !in s.chain
    requires !InClusters(g, other, dir) && !InClusters(g, other, InfoSector(g))
    ensures Cluster(g, Effective(s), other[k]) == Cluster(g, Effective(s'), other[k])
  {
    hide Effective, Cluster, CacheOk, Mirrored, Outside, IsChain, Replaced;
    ClusterInDisk(g, other[k]);
    var from := ClusterSector(g, other[k]);
    forall t | from <= t < from + g.csize ensures Effective(s')[t] == Effective(s)[t] {
      InOtherCluster(g, s, other[k], t);
      OwnSector(g, other, k, t);
      assert Untouched(g, dir, s, t);
    }
    ClusterSame(g, Effective(s), Effective(s'), other[k]);
  }

  lemma InOtherCluster(g: Geometry, s: FileState, c: nat, t: int)
    requires Base(g, s) && 2 <= c < |s.fat| && s.fat[c] != 0 && c !in s.chain
    requires ClusterSector(g, c) <= t < ClusterSector(g, c) + g.csize
    ensures Outside(g, s.fat, s.chain, t) && !g.InFat(t)
  {
    hide CacheOk, IsChain;
    ClusterInDisk(g, c);
    forall x | 2 <= x < |s.fat| && (x in s.chain || s.fat[x] == 0)
      ensures t < ClusterSector(g, x) || ClusterSector(g, x) + g.csize <= t
    {
      if x < c { ClustersApart(g, x, c); } else { ClustersApart(g, c, x); }
    }
  }

  /** All chains of the volume stay whole and apart, and no cluster is lost; the file's own chain,
      that of number i, is the new one. */
  lemma VolumeKept(g: Geometry, dir: nat, s: FileState, s': FileState, chains: Chains, lost: set<nat>, i: nat)
    requires Base(g, s) && Base(g, s') && Leaves(g, dir, s, s')
    requires WellFormed(s.fat, chains, lost) && ChainAt(chains, i) == s.chain
    ensures WellFormed(s'.fat, WithChain(chains, i, s'.chain), lost)
  {
    hide WellFormed, Replaced, Base;
    KeepsReplaced(s.fat, s'.fat, chains, lost, i, s'.chain);
  }

  // ---------- what a run is to the user of the file

  /** The file as its user sees it. */
  datatype ByteFile = ByteFile(bytes: seq<Byte>, pos: nat)

  /** What is fixed while a file is open: the largest size it can grow to, its access mode and its
      abort flag. */
  datatype Mode = Mode(cap: nat, canRead: bool, canWrite: bool, err: FResult)

  datatype Call = Read(want: U32) | Write(data: seq<Byte>) | Seek(ofs: U32) | Truncate | Sync

  datatype Reply = Got(bytes: seq<Byte>) | Put(count: nat) | Done | Failed(res: FResult)

  function Min(a: nat, b: nat): nat {
    if a < b then a else b
  }

  /** FR_OK, or why the call is refused. */
  function Access(m: Mode, call: Call): FResult {
    if call.Sync? then FR_OK
    else if m.err != FR_OK then m.err
    else if (call.Read? && !m.canRead) || ((call.Write? || call.Truncate?) && !m.canWrite) then FR_DENIED
    else FR_OK
  }

  /** The calls on an array of bytes with a cursor that can grow to cap bytes. Everything is fixed
      but the bytes a seek beyond the end adds. */
  ghost predicate Step(m: Mode, f: ByteFile, call: Call, reply: Reply, f': ByteFile) {
    && f.pos <= |f.bytes| <= m.cap && |f.bytes| < 0x1_0000_0000
    && if Access(m, call) != FR_OK then reply == Failed(Access(m, call)) && f' == f
       else match call
         case Read(want) =>
           && f' == f.(pos := Min(f.pos + want, |f.bytes|))
           && reply == Got(f.bytes[f.pos..f'.pos])
         case Write(data) =>
           && reply == Put(Min(Min(|data|, 0xFFFF_FFFF - f.pos), m.cap - f.pos))
           && f' == ByteFile(Patch(f.bytes, f.pos, data[..reply.count]), f.pos + reply.count)
         case Seek(ofs) =>
           && reply == Done && f.bytes <= f'.bytes
           && f'.pos == Min(if m.canWrite then ofs else Min(ofs, |f.bytes|), m.cap)
           && |f'.bytes| == Max(|f.bytes|, f'.pos)
           && (ofs <= |f.bytes| ==> f' == f.(pos := ofs))
         case Truncate => reply == Done && f' == f.(bytes := f.bytes[..f.pos])
         case Sync => reply == Done && f' == f
  }

  /** A run: trace[i] is the file before call i. */
  ghost predicate Behaves(m: Mode, trace: seq<ByteFile>, calls: seq<Call>, replies: seq<Reply>) {
    && |trace| == |calls| + 1 && |replies| == |calls|
    && forall i :: 0 <= i < |calls| ==> Step(m, trace[i], calls[i], replies[i], trace[i + 1])
  }

  /** The bytes in the file's clusters and in the free ones. */
  ghost function Capacity(g: Geometry, s: FileState): nat {
    512 * (g.csize * (|s.chain| + Free(s.fat, |s.fat|)))
  }

  lemma CapacityKept(g: Geometry, dir: nat, s: FileState, s': FileState)
    requires Base(g, s) && Base(g, s') && Leaves(g, dir, s, s')
    ensures Capacity(g, s') == Capacity(g, s)
  {
    hide Replaced;
    OwnedKept(s.fat, s'.fat, s.chain, s'.chain);
  }

  lemma CapacityHolds(g: Geometry, s: FileState)
    requires Base(g, s)
    ensures s.size <= Capacity(g, s)
    ensures Full(s.fat) && AtEnd(g, s) ==> s.pos == Capacity(g, s)
  {
    hide IsChain, CacheOk;
    if Full(s.fat) { NoneFree(s.fat, |s.fat|); }
    MulMono(g.csize, |s.chain|, |s.chain| + Free(s.fat, |s.fat|));
  }

  ghost function Seen(f: Fil): ByteFile
    requires f.Valid()
    reads f, f.buf, f.fs, f.fs.win
  {
    ByteFile(f.Bytes(), f.fptr)
  }

  ghost function ModeOf(f: Fil): Mode
    requires f.Valid()
    reads f, f.buf, f.fs, f.fs.win
  {
    Mode(Capacity(f.fs.g, f.State()), f.canRead, f.canWrite, f.err)
  }

  /** An open file with its directory entry in its place. */
  ghost predicate Usable(f: Fil)
    reads f, f.buf, f.fs, f.fs.win
  {
    f.Valid() && f.EntryApart()
  }

  /** The disk itself holds the bytes of the file in its clusters. */
  ghost predicate Saved(f: Fil)
    requires f.Valid()
    reads f, f.buf, f.fs, f.fs.win
  {
    Stored(f.fs.g, f.fs.disk, f.chain, f.Bytes())
  }

  predicate EndsInSync(calls: seq<Call>) {
    calls != [] && calls[|calls| - 1].Sync?
  }

  predicate Sized(call: Call) {
    call.Write? ==> |call.data| < 0x1_0000_0000
  }

  /** f_read with a buffer of its own. */
  method ReadCall(f: Fil, want: U32) returns (reply: Reply)
    requires Usable(f)
    modifies f`fptr, f`clust, f`sect, f`dirty, f`q, f`bq, f`bo
    modifies f.buf, f.fs`disk, f.fs`wflag, f.fs`winsect, f.fs.win
    ensures f.Valid() && Leaves(f.fs.g, f.dirSect, old(f.State()), f.State())
    ensures Step(old(ModeOf(f)), old(Seen(f)), Read(want), reply, Seen(f))
  {
    hide Base, Leaves, CursorOk, Contents, SameFile, FatOf, HasOne, FreeOk, Outside, Capacity;
    CapacityHolds(f.fs.g, f.State());
    var buff := new Byte[want](i => 0);
    var res, br := f.Read(buff, want);
    SameLeaves(f.fs.g, f.dirSect, old(f.State()), f.State());
    reply := if res == FR_OK then Got(buff[..br]) else Failed(res);
    assert buff[..br] == f.Bytes()[old(f.fptr)..old(f.fptr) + br];
  }

  /** The number of bytes written is exact. */
  lemma WriteExact(g: Geometry, dir: nat, s: FileState, s': FileState, n: nat, bw: nat)
    requires Base(g, s) && Base(g, s') && Leaves(g, dir, s, s') && s'.pos == s.pos + bw && bw <= n
    requires bw < n ==> Full(s'.fat) && AtEnd(g, s')
    ensures s.pos <= s.size <= Capacity(g, s) && bw == Min(n, Capacity(g, s) - s.pos)
  {
    hide Capacity, Full, AtEnd, Leaves;
    CapacityHolds(g, s);
    CapacityHolds(g, s');
    CapacityKept(g, dir, s, s');
  }

  method WriteCall(f: Fil, data: seq<Byte>) returns (reply: Reply)
    requires Usable(f) && |data| < 0x1_0000_0000
    modifies f, f.buf, f.fs, f.fs.win
    ensures f.Valid() && f.err == old(f.err) && Leaves(f.fs.g, f.dirSect, old(f.State()), f.State())
    ensures Step(old(ModeOf(f)), old(Seen(f)), Write(data), reply, Seen(f))
  {
    hide Base, Leaves, CursorOk, Contents, Full, AtEnd, Grows, FatOf, HasOne, FreeOk, Outside, Patch, Capacity;
    CapacityHolds(f.fs.g, f.State());
    WroteNothing(f.fs.g, f.State(), data);
    var res, bw := f.Write(data);
    GrowsLeaves(f.fs.g, f.dirSect, old(f.State()), f.State());
    if res == FR_OK {
      WriteExact(f.fs.g, f.dirSect, old(f.State()), f.State(), Min(|data|, 0xFFFF_FFFF - old(f.fptr)), bw);
    }
    reply := if res == FR_OK then Put(bw) else Failed(res);
  }

  /** Where a seek ends. */
  lemma SeekExact(g: Geometry, dir: nat, s: FileState, s': FileState, t: nat)
    requires Base(g, s) && Base(g, s') && Leaves(g, dir, s, s') && s'.pos <= t
    requires s'.pos < t ==> Full(s'.fat) && AtEnd(g, s')
    ensures s.pos <= s.size <= Capacity(g, s) && s'.pos == Min(t, Capacity(g, s))
  {
    hide Capacity, Full, AtEnd, Leaves;
    CapacityHolds(g, s);
    CapacityHolds(g, s');
    CapacityKept(g, dir, s, s');
  }

  method SeekCall(f: Fil, ofs: U32) returns (reply: Reply)
    requires Usable(f)
    modifies f, f.buf, f.fs, f.fs.win
    ensures f.Valid() && f.err == old(f.err) && Leaves(f.fs.g, f.dirSect, old(f.State()), f.State())
    ensures Step(old(ModeOf(f)), old(Seen(f)), Seek(ofs), reply, Seen(f))
  {
    hide Base, Leaves, CursorOk, Contents, Full, AtEnd, Grows, FatOf, HasOne, FreeOk, Outside, SameFile, Capacity;
    CapacityHolds(f.fs.g, f.State());
    var res := f.Lseek(ofs);
    GrowsLeaves(f.fs.g, f.dirSect, old(f.State()), f.State());
    if res == FR_OK {
      ghost var t := if ofs > old(f.objsize) && !f.canWrite then old(f.objsize) else ofs;
      SeekExact(f.fs.g, f.dirSect, old(f.State()), f.State(), t);
    }
    reply := if res == FR_OK then Done else Failed(res);
  }

  method TruncateCall(f: Fil) returns (reply: Reply)
    requires Usable(f)
    modifies f, f.buf, f.fs, f.fs.win
    ensures f.Valid() && f.err == old(f.err) && Leaves(f.fs.g, f.dirSect, old(f.State()), f.State())
    ensures Step(old(ModeOf(f)), old(Seen(f)), Truncate, reply, Seen(f))
  {
    hide Base, Leaves, CursorOk, Contents, CutOff, FatOf, HasOne, FreeOk, Outside, Capacity;
    CapacityHolds(f.fs.g, f.State());
    var res := f.Truncate();
    if res == FR_OK && f.fptr < old(f.objsize) {
      CutLeaves(f.fs.g, f.dirSect, old(f.State()), f.State());
    } else {
      SameSelf(f.fs.g, f.State());
      SameLeaves(f.fs.g, f.dirSect, old(f.State()), f.State());
    }
    reply := if res == FR_OK then Done else Failed(res);
  }

  method SyncCall(f: Fil) returns (reply: Reply)
    requires Usable(f)
    modifies f, f.buf, f.fs, f.fs.win
    ensures f.Valid() && f.err == old(f.err) && Leaves(f.fs.g, f.dirSect, old(f.State()), f.State())
    ensures Step(old(ModeOf(f)), old(Seen(f)), Sync, reply, Seen(f)) && Saved(f)
  {
    hide Base, Leaves, CursorOk, Contents, EntryOnly, HasOne, FreeOk, Outside, OnDisk, Stored, Capacity;
    CapacityHolds(f.fs.g, f.State());
    var res := f.Sync();
    SyncLeaves(f.fs.g, f.dirSect, f.dirOfs, old(f.State()), f.State());
    reply := Done;
  }

  /** The directory entry stays apart, and the mode stays the same. */
  lemma StaysUsable(g: Geometry, dir: nat, s: FileState, s': FileState)
    requires Base(g, s) && Base(g, s') && Leaves(g, dir, s, s') && Outside(g, s.fat, s.chain, dir)
    ensures Outside(g, s'.fat, s'.chain, dir) && |s'.disk| == |s.disk| && Capacity(g, s') == Capacity(g, s)
  {
    hide Capacity, Outside, Replaced, Mirrored;
    CapacityKept(g, dir, s, s');
    ReplacedOutside(g, s.fat, s'.fat, s.chain, s'.chain, dir);
  }

  /** One call. */
  method Do(f: Fil, call: Call) returns (reply: Reply)
    requires Usable(f) && Sized(call)
    modifies f, f.buf, f.fs, f.fs.win
    ensures Usable(f) && Leaves(f.fs.g, f.dirSect, old(f.State()), f.State())
    ensures Step(old(ModeOf(f)), old(Seen(f)), call, reply, Seen(f)) && ModeOf(f) == old(ModeOf(f))
    ensures call.Sync? ==> Saved(f)
  {
    hide Base, CursorOk, Contents, HasOne, FreeOk, Outside, Step, Leaves, Capacity, FatFs.Logical;
    match call {
      case Read(want) => reply := ReadCall(f, want);
      case Write(data) => reply := WriteCall(f, data);
      case Seek(ofs) => reply := SeekCall(f, ofs);
      case Truncate => reply := TruncateCall(f);
      case Sync => reply := SyncCall(f);
    }
    StaysUsable(f.fs.g, f.dirSect, old(f.State()), f.State());
  }

  /** Since state s, the rest of the volume has been left alone. */
  ghost predicate Since(f: Fil, s: FileState)
    requires Usable(f)
    reads f, f.buf, f.fs, f.fs.win
  {
    Base(f.fs.g, s) && Leaves(f.fs.g, f.dirSect, s, f.State())
  }

  method Next(f: Fil, call: Call, ghost s: FileState) returns (reply: Reply)
    requires Usable(f) && Since(f, s) && Sized(call)
    modifies f, f.buf, f.fs, f.fs.win
    ensures Usable(f) && Since(f, s)
    ensures Step(old(ModeOf(f)), old(Seen(f)), call, reply, Seen(f)) && ModeOf(f) == old(ModeOf(f))
    ensures call.Sync? ==> Saved(f)
  {
    hide Base, CursorOk, Contents, HasOne, FreeOk, Outside, Step, Leaves, FatOf, Capacity;
    ghost var s' := f.State();
    reply := Do(f, call);
    LeavesTrans(f.fs.g, f.dirSect, s, s', f.State());
  }

  lemma BehavesOn(m: Mode, trace: seq<ByteFile>, calls: seq<Call>, replies: seq<Reply>, n: nat, reply: Reply,
                  f: ByteFile)
    requires n < |calls| && Behaves(m, trace, calls[..n], replies) && Step(m, trace[n], calls[n], reply, f)
    ensures Behaves(m, trace + [f], calls[..n + 1], replies + [reply])
  {
    hide Step;
  }

  /** Every run of calls on an open file behaves as on an array of bytes with a cursor, with exact
      counts even when the volume fills, and leaves the rest of the volume alone; after a sync the
      bytes are on the disk. */
  method Run(f: Fil, calls: seq<Call>) returns (replies: seq<Reply>, ghost trace: seq<ByteFile>)
    requires Usable(f) && forall call :: call in calls ==> Sized(call)
    modifies f, f.buf, f.fs, f.fs.win
    ensures Usable(f) && Since(f, old(f.State())) && ModeOf(f) == old(ModeOf(f))
    ensures Behaves(old(ModeOf(f)), trace, calls, replies) && trace[0] == old(Seen(f)) && trace[|calls|] == Seen(f)
    ensures EndsInSync(calls) ==> Saved(f)
  {
    hide Fil.Valid, Fil.EntryApart, Step, Since, Seen, ModeOf, Saved;
    ghost var s := Start(f);
    ghost var m := ModeOf(f);
    replies, trace := [], [Seen(f)];
    for n := 0 to |calls|
      invariant Usable(f) && Since(f, s) && ModeOf(f) == m
      invariant EndsInSync(calls[..n]) ==> Saved(f)
      invariant Behaves(m, trace, calls[..n], replies) && trace[0] == old(Seen(f)) && trace[n] == Seen(f)
    {
      var reply := Next(f, calls[n], s);
      BehavesOn(m, trace, calls, replies, n, reply, Seen(f));
      replies, trace := replies + [reply], trace + [Seen(f)];
    }
    assert calls[..|calls|] == calls;
  }

  /** The same with all files of the volume in view: file i is the one that is open. */
  method RunOnVolume(f: Fil, calls: seq<Call>, ghost chains: Chains, ghost lost: set<nat>, ghost i: nat)
    returns (replies: seq<Reply>, ghost trace: seq<ByteFile>)
    requires Usable(f) && forall call :: call in calls ==> Sized(call)
    requires WellFormed(f.State().fat, chains, lost) && ChainAt(chains, i) == f.chain
    modifies f, f.buf, f.fs, f.fs.win
    ensures Usable(f) && WellFormed(f.State().fat, WithChain(chains, i, f.chain), lost)
    ensures Behaves(old(ModeOf(f)), trace, calls, replies) && trace[0] == old(Seen(f)) && trace[|calls|] == Seen(f)
    ensures EndsInSync(calls) ==> Saved(f)
  {
    hide WellFormed, Behaves, Seen, ModeOf, Saved, Leaves, Base, CursorOk, FatOf, Outside, HasOne, FreeOk;
    ghost var s := f.State();
    replies, trace := Run(f, calls);
    VolumeKept(f.fs.g, f.dirSect, s, f.State(), chains, lost, i);
  }

  lemma Start(f: Fil) returns (s: FileState)
    requires Usable(f)
    ensures s == f.State() && Since(f, s)
  {
    hide Base, CursorOk, HasOne, FreeOk, Outside, Leaves, FatOf;
    s := f.State();
    SameSelf(f.fs.g, s);
    SameLeaves(f.fs.g, f.dirSect, s, s);
  }
}
