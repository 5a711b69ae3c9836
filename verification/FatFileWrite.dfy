/** What writing does to an open file, as steps on its state. */
module FatFileWrite {
  import opened Basics
  import opened FatGeometry
  import opened FatChains
  import opened FatEntries
  import opened FatData
  import opened FatFileState

  /** The byte array c with bytes written over it, or appended to it, from p on. */
  function Patch(c: seq<Byte>, p: nat, bytes: seq<Byte>): (r: seq<Byte>)
    requires p <= |c|
    ensures |r| == if p + |bytes| > |c| then p + |bytes| else |c|
  {
    c[..p] + bytes + (if p + |bytes| < |c| then c[p + |bytes|..] else [])
  }

  lemma PatchPatch(c: seq<Byte>, p: nat, a: seq<Byte>, b: seq<Byte>)
    requires p <= |c|
    ensures Patch(Patch(c, p, a), p + |a|, b) == Patch(c, p, a + b)
  {
    var x, y := Patch(Patch(c, p, a), p + |a|, b), Patch(c, p, a + b);
    forall i | 0 <= i < |x| ensures x[i] == y[i] {
    }
  }

  /** Writing inside the clusters of a file, seen up to its size. */
  lemma PatchOfPut(w: seq<Byte>, size: nat, p: nat, bytes: seq<Byte>)
    requires p <= size <= |w| && p + |bytes| <= |w|
    ensures Put(w, p, bytes)[..Max(size, p + |bytes|)] == Patch(w[..size], p, bytes)
  {
    var x, y := Put(w, p, bytes)[..Max(size, p + |bytes|)], Patch(w[..size], p, bytes);
    forall i | 0 <= i < |x| ensures x[i] == y[i] {
    }
  }

  function Max(a: nat, b: nat): nat {
    if a > b then a else b
  }

  // ---------- what may change

  ghost predicate InClusters(g: Geometry, ch: seq<nat>, t: int) {
    exists k :: 0 <= k < |ch| && ClusterSector(g, ch[k]) <= t < ClusterSector(g, ch[k]) + g.csize
  }

  /** Only the FAT and the clusters of ch differ; the FAT copies still agree if they did. */
  ghost predicate Confined(g: Geometry, ch: seq<nat>, d: Disk, d': Disk)
    requires g.Valid() && g.Fits(d) && g.Fits(d')
  {
    && |d'| == |d|
    && (forall t :: 0 <= t < |d| && !g.InFat(t) && !InClusters(g, ch, t) ==> d'[t] == d[t])
    && (Mirrored(g, d) ==> Mirrored(g, d'))
  }

  /** The chain is the same or longer, by clusters that were free; the entries of clusters in use
      elsewhere are the same, all other free clusters stay free, and nothing but the FAT and the
      file's clusters differs. */
  ghost predicate Grows(g: Geometry, s: FileState, s': FileState)
    requires Base(g, s) && Base(g, s')
  {
    && s.chain <= s'.chain
    && (forall c :: 2 <= c < |s.fat| && s.fat[c] != 0 && c !in s.chain ==> s'.fat[c] == s.fat[c])
    && (forall c :: c in s'.chain && c !in s.chain ==> c < |s.fat| && s.fat[c] == 0)
    && (forall c :: 2 <= c < |s.fat| && s.fat[c] == 0 && c !in s'.chain ==> s'.fat[c] == 0)
    && Confined(g, s'.chain, Effective(s), Effective(s'))
  }

  lemma InMoreClusters(g: Geometry, ch: seq<nat>, ch': seq<nat>, t: int)
    requires ch <= ch' && InClusters(g, ch, t)
    ensures InClusters(g, ch', t)
  {
    var k :| 0 <= k < |ch| && ClusterSector(g, ch[k]) <= t < ClusterSector(g, ch[k]) + g.csize;
    assert ch'[k] == ch[k];
  }

  lemma ConfinedTrans(g: Geometry, ch: seq<nat>, ch': seq<nat>, d: Disk, d': Disk, d'': Disk)
    requires g.Valid() && g.Fits(d) && g.Fits(d') && g.Fits(d'') && ch <= ch'
    requires Confined(g, ch, d, d') && Confined(g, ch', d', d'')
    ensures Confined(g, ch', d, d'')
  {
    forall t | 0 <= t < |d| && !g.InFat(t) && !InClusters(g, ch', t) ensures d''[t] == d[t] {
      if InClusters(g, ch, t) { InMoreClusters(g, ch, ch', t); }
    }
  }

  lemma GrowsTrans(g: Geometry, s: FileState, s': FileState, s'': FileState)
    requires Base(g, s) && Base(g, s') && Base(g, s'') && Grows(g, s, s') && Grows(g, s', s'')
    ensures Grows(g, s, s'')
  {
    hide Base, Confined, Effective;
    ConfinedBase(g, s, s', s'');
    forall c | c in s.chain ensures c in s'.chain && c in s''.chain {
      var k :| 0 <= k < |s.chain| && s.chain[k] == c;
      assert s'.chain[k] == c && s''.chain[k] == c;
    }
    forall c | 2 <= c < |s.fat| && s.fat[c] != 0 && c !in s.chain ensures s''.fat[c] == s.fat[c] {
      assert c !in s'.chain;
    }
    forall c | c in s''.chain && c !in s.chain ensures c < |s.fat| && s.fat[c] == 0 {
      if c !in s'.chain {
        assert s'.fat[c] == 0;
      }
    }
  }

  lemma ConfinedBase(g: Geometry, s: FileState, s': FileState, s'': FileState)
    requires Base(g, s) && Base(g, s') && Base(g, s'')
    requires s.chain <= s'.chain <= s''.chain
    requires Confined(g, s'.chain, Effective(s), Effective(s')) && Confined(g, s''.chain, Effective(s'), Effective(s''))
    ensures Confined(g, s''.chain, Effective(s), Effective(s''))
    ensures |s.fat| == |s'.fat| == |s''.fat|
    ensures forall c :: c in s.chain || c in s'.chain || c in s''.chain ==> 2 <= c < |s.fat|
  {
    ConfinedTrans(g, s'.chain, s''.chain, Effective(s), Effective(s'), Effective(s''));
  }

  // ---------- one more cluster

  /** The state after cluster r was linked behind the chain; d is the disk then. */
  function Extended(s: FileState, r: U32, eoc: U32, d: Disk): FileState
    requires 2 <= r < |s.fat|
  {
    s.(fat := Linked(s.fat, LastOr0(s.chain), r, eoc), chain := s.chain + [r], disk := d)
  }

  function LastOr0(ch: seq<nat>): nat {
    if ch == [] then 0 else ch[|ch| - 1]
  }

  lemma ExtendedChain(fat: Fat, ch: seq<nat>, r: U32, eoc: U32)
    requires IsChain(fat, ch) && 2 <= r < |fat| && fat[r] == 0 && eoc >= |fat|
    ensures IsChain(Linked(fat, LastOr0(ch), r, eoc), ch + [r]) && r !in ch
  {
    FreeNotInChain(fat, ch, r);
    if ch != [] {
      StretchedChain(fat, ch, r, eoc);
    }
  }

  /** Disks that differ in the FAT only hold the same clusters. */
  lemma ViewNoFat(g: Geometry, d: Disk, d': Disk, ch: seq<nat>)
    requires g.Valid() && g.Fits(d) && g.Fits(d') && |d| == |d'| && InVolume(g, ch)
    requires forall t :: g.database <= t < |d| ==> d'[t] == d[t]
    ensures View(g, d', ch) == View(g, d, ch)
  {
    hide View;
    forall k | 0 <= k < |ch| ensures Cluster(g, d, ch[k]) == Cluster(g, d', ch[k]) {
      ClusterInDisk(g, ch[k]);
      ClusterSame(g, d, d', ch[k]);
    }
    ViewSame(g, d, d', ch);
  }

  /** The clusters of the file and the free ones stay the same, taken together. */
  lemma ExtendOwned(g: Geometry, s: FileState, r: U32, eoc: U32, t: int)
    requires IsChain(s.fat, s.chain) && 2 <= r < |s.fat| && s.fat[r] == 0 && eoc >= |s.fat|
    ensures Outside(g, Linked(s.fat, LastOr0(s.chain), r, eoc), s.chain + [r], t) <==> Outside(g, s.fat, s.chain, t)
  {
    var fat', ch' := Linked(s.fat, LastOr0(s.chain), r, eoc), s.chain + [r];
    forall c | 2 <= c < |s.fat|
      ensures (c in ch' || fat'[c] == 0) <==> (c in s.chain || s.fat[c] == 0)
    {
      if s.chain != [] {
        assert s.chain[|s.chain| - 1] in s.chain;
      }
    }
  }

  lemma ExtendBase(g: Geometry, s: FileState, r: U32, eoc: U32, d: Disk)
    requires Base(g, s) && 2 <= r < |s.fat| && s.fat[r] == 0 && eoc >= |s.fat|
    requires g.Fits(d) && OnlyFatDiffers(g, s.disk, d)
    ensures Base(g, Extended(s, r, eoc, d))
    ensures CursorOk(g, s) ==> CursorOk(g, Extended(s, r, eoc, d))
  {
    hide IsChain, Linked, Mirrored, Outside;
    ExtendedChain(s.fat, s.chain, r, eoc);
    ExtendOwned(g, s, r, eoc, s.sect);
    MulMono(g.csize, |s.chain|, |s.chain + [r]|);
    assert s.sect != 0 ==> !g.InFat(s.sect);
  }

  lemma ExtendContents(g: Geometry, s: FileState, r: U32, eoc: U32, d: Disk)
    requires Base(g, s) && 2 <= r < |s.fat| && s.fat[r] == 0 && eoc >= |s.fat|
    requires g.Fits(d) && OnlyFatDiffers(g, s.disk, d)
    ensures Base(g, Extended(s, r, eoc, d))
    ensures Contents(g, Extended(s, r, eoc, d)) == Contents(g, s)
  {
    hide View, IsChain, Linked;
    ExtendBase(g, s, r, eoc, d);
    var s' := Extended(s, r, eoc, d);
    ChainFacts(g, s);
    ChainFacts(g, s');
    ViewNoFat(g, Effective(s), Effective(s'), s.chain);
    ViewAppend(g, Effective(s'), s.chain, r);
    assert Whole(g, s) <= Whole(g, s');
  }

  lemma ExtendGrows(g: Geometry, s: FileState, r: U32, eoc: U32, d: Disk)
    requires Base(g, s) && 2 <= r < |s.fat| && s.fat[r] == 0 && eoc >= |s.fat|
    requires g.Fits(d) && OnlyFatDiffers(g, s.disk, d)
    ensures Base(g, Extended(s, r, eoc, d))
    ensures Grows(g, s, Extended(s, r, eoc, d))
  {
    ExtendBase(g, s, r, eoc, d);
    var s' := Extended(s, r, eoc, d);
    if s.chain != [] {
      assert s.chain[|s.chain| - 1] in s.chain;
    }
    ExtendConfined(g, s, s');
  }

  lemma ExtendConfined(g: Geometry, s: FileState, s': FileState)
    requires Base(g, s) && Base(g, s') && OnlyFatDiffers(g, s.disk, s'.disk)
    requires s'.sect == s.sect && s'.buf == s.buf && s'.dirty == s.dirty
    ensures Confined(g, s'.chain, Effective(s), Effective(s'))
  {
    hide IsChain, Mirrored;
    var d, d' := Effective(s), Effective(s');
    ExtendMirrored(g, s, s');
  }

  /** The cache holds no sector of the FAT. */
  lemma FatOnDisk(g: Geometry, s: FileState)
    requires Base(g, s)
    ensures forall t :: 0 <= t < |s.disk| && g.InFat(t) ==> Effective(s)[t] == s.disk[t]
  {
    hide IsChain, Outside;
  }

  lemma ExtendMirrored(g: Geometry, s: FileState, s': FileState)
    requires Base(g, s) && Base(g, s') && OnlyFatDiffers(g, s.disk, s'.disk)
    ensures Mirrored(g, Effective(s)) ==> Mirrored(g, Effective(s'))
  {
    hide IsChain, Mirrored, Outside, Effective;
    FatOnDisk(g, s);
    FatOnDisk(g, s');
    MirrorSame(g, Effective(s), s.disk);
    MirrorSame(g, s'.disk, Effective(s'));
  }

  // ---------- bytes into the cache

  /** Bytes put into the cache at the pointer; base is what the cache held of the sector before.
      Past the end of the file nothing is read into the cache, so base is then arbitrary. */
  ghost predicate CanCache(g: Geometry, s: FileState, o: nat, t: nat, base: Sector, bytes: seq<Byte>) {
    && Base(g, s) && s.q < |s.chain| && s.clust == s.chain[s.q] && o < g.csize
    && 512 * (g.csize * s.q + o) <= s.pos < 512 * (g.csize * s.q + o) + 512
    && bytes != [] && s.pos % 512 + |bytes| <= 512
    && t == ClusterSector(g, s.chain[s.q]) + o && t < |s.disk|
    && (s.dirty ==> s.sect == t)
    && (base == Effective(s)[t] || (s.pos == s.size && s.pos % 512 == 0))
  }

  function Cached(s: FileState, o: nat, t: nat, base: Sector, bytes: seq<Byte>): FileState
    requires s.pos % 512 + |bytes| <= 512
  {
    s.(sect := t, buf := Put(base, s.pos % 512, bytes), dirty := true, bq := s.q, bo := o,
       pos := s.pos + |bytes|, size := Max(s.size, s.pos + |bytes|))
  }

  lemma CachedInv(g: Geometry, s: FileState, o: nat, t: nat, base: Sector, bytes: seq<Byte>)
    requires CanCache(g, s, o, t, base, bytes)
    ensures Inv(g, Cached(s, o, t, base, bytes))
    ensures s.pos == 512 * (g.csize * s.q + o) + s.pos % 512
    ensures s.pos + |bytes| <= 512 * (g.csize * |s.chain|)
  {
    hide IsChain, Outside;
    CachedPos(g, s, o, t, base, bytes);
    ClusterIn(g, s, s.q);
    CachedOwned(g, s, o, t, base, bytes);
  }

  lemma CachedOwned(g: Geometry, s: FileState, o: nat, t: nat, base: Sector, bytes: seq<Byte>)
    requires CanCache(g, s, o, t, base, bytes)
    ensures !Outside(g, s.fat, s.chain, t)
  {
    NotOutside(g, s, s.q, o);
  }

  lemma CachedPos(g: Geometry, s: FileState, o: nat, t: nat, base: Sector, bytes: seq<Byte>)
    requires CanCache(g, s, o, t, base, bytes)
    ensures s.pos / 512 == g.csize * s.q + o && s.pos == 512 * (g.csize * s.q + o) + s.pos % 512
    ensures 512 * (g.csize * s.q) < s.pos + |bytes| <= 512 * (g.csize * s.q + g.csize)
    ensures (s.pos + |bytes|) % 512 != 0 ==> (s.pos + |bytes|) / 512 == g.csize * s.q + o
    ensures s.pos + |bytes| <= 512 * (g.csize * |s.chain|)
  {
    hide Base, Effective;
    InSectorArith(g.csize * s.q, g.csize, o, s.pos, |bytes|);
    MulMono(g.csize, s.q + 1, |s.chain|);
  }

  lemma ClusterIn(g: Geometry, s: FileState, q: nat)
    requires Base(g, s) && q < |s.chain|
    ensures 2 <= s.chain[q] < g.nFatent && g.database <= ClusterSector(g, s.chain[q])
    ensures ClusterSector(g, s.chain[q]) + g.csize <= |s.disk|
  {
    ClusterInDisk(g, s.chain[q]);
  }

  lemma CachedEffective(g: Geometry, s: FileState, o: nat, t: nat, base: Sector, bytes: seq<Byte>)
    requires CanCache(g, s, o, t, base, bytes)
    ensures Effective(Cached(s, o, t, base, bytes)) == Effective(s)[t := Put(base, s.pos % 512, bytes)]
  {
    hide IsChain, Put;
  }

  lemma CachedContents(g: Geometry, s: FileState, o: nat, t: nat, base: Sector, bytes: seq<Byte>)
    requires CanCache(g, s, o, t, base, bytes)
    ensures Base(g, Cached(s, o, t, base, bytes))
    ensures Contents(g, Cached(s, o, t, base, bytes)) == Patch(Contents(g, s), s.pos, bytes)
  {
    hide View, IsChain, Patch, CacheOk;
    CachedInv(g, s, o, t, base, bytes);
    CachedEffective(g, s, o, t, base, bytes);
    ChainFacts(g, s);
    if base == Effective(s)[t] {
      ViewPatch(g, Effective(s), s.chain, s.q, o, s.pos % 512, bytes);
      PatchOfPut(Whole(g, s), s.size, s.pos, bytes);
    } else {
      EdgeView(g, s, o, t, base, bytes);
      EdgePatch(Whole(g, s), s.size, Put(base, 0, bytes), bytes);
    }
  }

  lemma EdgeView(g: Geometry, s: FileState, o: nat, t: nat, base: Sector, bytes: seq<Byte>)
    requires CanCache(g, s, o, t, base, bytes) && s.pos % 512 == 0
    ensures InVolume(g, s.chain)
    ensures s.pos + 512 <= |Whole(g, s)|
    ensures View(g, Effective(s)[t := Put(base, 0, bytes)], s.chain) == Put(Whole(g, s), s.pos, Put(base, 0, bytes))
  {
    hide View, IsChain, CacheOk;
    ChainFacts(g, s);
    CachedPos(g, s, o, t, base, bytes);
    var d, full := Effective(s), Put(base, 0, bytes);
    ViewPatch(g, d, s.chain, s.q, o, 0, full);
    assert Put(d[t], 0, full) == full;
  }

  /** Appending a sector of which only the first bytes count. */
  lemma EdgePatch(w: seq<Byte>, size: nat, full: seq<Byte>, bytes: seq<Byte>)
    requires size + |full| <= |w| && bytes <= full
    ensures Put(w, size, full)[..size + |bytes|] == Patch(w[..size], size, bytes)
  {
    var x, y := Put(w, size, full)[..size + |bytes|], Patch(w[..size], size, bytes);
    forall i | 0 <= i < |x| ensures x[i] == y[i] {
    }
  }

  lemma MirrorKept(g: Geometry, d: Disk, d': Disk)
    requires g.Valid() && g.Fits(d) && g.Fits(d') && forall t :: 0 <= t < g.database ==> d'[t] == d[t]
    ensures Mirrored(g, d) ==> Mirrored(g, d')
  {
    if Mirrored(g, d) && g.nFats == 2 {
      forall i | g.InFat1(i) ensures Twins(g, d', i) { assert Twins(g, d, i); }
    }
  }

  lemma OwnSector(g: Geometry, ch: seq<nat>, q: nat, i: int)
    requires q < |ch| && ClusterSector(g, ch[q]) <= i < ClusterSector(g, ch[q]) + g.csize
    ensures InClusters(g, ch, i)
  {
  }

  /** A write to data sectors of the file. */
  lemma DataConfined(g: Geometry, ch: seq<nat>, q: nat, o: nat, d: Disk, ws: seq<Sector>, t: nat)
    requires g.Valid() && g.Fits(d) && InVolume(g, ch) && q < |ch| && o + |ws| <= g.csize
    requires t == ClusterSector(g, ch[q]) + o
    ensures t + |ws| <= |d| && Confined(g, ch, d, Put(d, t, ws))
  {
    hide Mirrored;
    ClusterInDisk(g, ch[q]);
    var d' := Put(d, t, ws);
    forall i | 0 <= i < |d| && !g.InFat(i) && !InClusters(g, ch, i) ensures d'[i] == d[i] {
      if t <= i < t + |ws| {
        OwnSector(g, ch, q, i);
      }
    }
    MirrorKept(g, d, d');
  }

  lemma CachedGrows(g: Geometry, s: FileState, o: nat, t: nat, base: Sector, bytes: seq<Byte>)
    requires CanCache(g, s, o, t, base, bytes)
    ensures Base(g, Cached(s, o, t, base, bytes))
    ensures Grows(g, s, Cached(s, o, t, base, bytes))
  {
    hide IsChain, Put, Confined, CacheOk;
    CachedInv(g, s, o, t, base, bytes);
    CachedEffective(g, s, o, t, base, bytes);
    ChainFacts(g, s);
    var w: Sector := Put(base, s.pos % 512, bytes);
    DataConfined(g, s.chain, s.q, o, Effective(s), [w], t);
    PutOne(Effective(s), t, w);
  }

  // ---------- whole sectors past the cache

  /** bytes as n sectors. */
  function Sectors(bytes: seq<Byte>, n: nat): (ws: seq<Sector>)
    requires |bytes| == 512 * n
    ensures |ws| == n
  {
    if n == 0 then [] else Sectors(bytes[..512 * (n - 1)], n - 1) + [bytes[512 * (n - 1)..]]
  }

  lemma {:induction false} JoinSectors(bytes: seq<Byte>, n: nat)
    requires |bytes| == 512 * n
    ensures Join<Byte>(Sectors(bytes, n)) == bytes
    decreases n
  {
    if n > 0 {
      JoinSectors(bytes[..512 * (n - 1)], n - 1);
      var ws := Sectors(bytes, n);
      assert ws[..n - 1] == Sectors(bytes[..512 * (n - 1)], n - 1);
    }
  }

  ghost predicate CanDirect(g: Geometry, s: FileState, o: nat, t: nat, ws: seq<Sector>) {
    && Base(g, s) && AtSector(g, s, s.q, o) && !s.dirty
    && 0 < |ws| && o + |ws| <= g.csize
    && t == ClusterSector(g, s.chain[s.q]) + o && t + |ws| <= |s.disk|
  }

  /** The sectors written, and the cache refilled if it held one of them. */
  function Direct(s: FileState, t: nat, ws: seq<Sector>): FileState
    requires t + |ws| <= |s.disk|
  {
    s.(disk := Put(s.disk, t, ws),
       buf := if t <= s.sect < t + |ws| then ws[s.sect - t] else s.buf,
       pos := s.pos + 512 * |ws|, size := Max(s.size, s.pos + 512 * |ws|))
  }

  lemma DirectInv(g: Geometry, s: FileState, o: nat, t: nat, ws: seq<Sector>)
    requires CanDirect(g, s, o, t, ws)
    ensures Inv(g, Direct(s, t, ws)) && s.pos + 512 * |ws| <= 512 * (g.csize * |s.chain|)
  {
    hide IsChain;
    DirectPos(g, s, o, t, ws);
  }

  lemma DirectPos(g: Geometry, s: FileState, o: nat, t: nat, ws: seq<Sector>)
    requires CanDirect(g, s, o, t, ws)
    ensures s.pos % 512 == 0 && s.pos + 512 * |ws| <= 512 * (g.csize * |s.chain|)
    ensures 512 * (g.csize * s.q) < s.pos + 512 * |ws| <= 512 * (g.csize * s.q + g.csize)
  {
    hide Base;
    MulMono(g.csize, s.q + 1, |s.chain|);
  }

  lemma DirectContents(g: Geometry, s: FileState, o: nat, t: nat, ws: seq<Sector>)
    requires CanDirect(g, s, o, t, ws)
    ensures Base(g, Direct(s, t, ws))
    ensures Contents(g, Direct(s, t, ws)) == Patch(Contents(g, s), s.pos, Join<Byte>(ws))
  {
    hide View, IsChain, Patch, CacheOk, Join;
    DirectInv(g, s, o, t, ws);
    ChainFacts(g, s);
    JoinLen<Byte>(ws, 512);
    ViewPut(g, s.disk, s.chain, s.q, o, ws);
    PatchOfPut(Whole(g, s), s.size, s.pos, Join<Byte>(ws));
  }

  lemma DirectGrows(g: Geometry, s: FileState, o: nat, t: nat, ws: seq<Sector>)
    requires CanDirect(g, s, o, t, ws)
    ensures Base(g, Direct(s, t, ws))
    ensures Grows(g, s, Direct(s, t, ws))
  {
    hide IsChain, Put, Confined, CacheOk;
    DirectInv(g, s, o, t, ws);
    ChainFacts(g, s);
    DataConfined(g, s.chain, s.q, o, s.disk, ws, t);
  }

  // ---------- finding the cluster to write to

  /** The pointer is behind the last byte of the file's clusters. */
  ghost predicate AtEnd(g: Geometry, s: FileState) {
    s.pos == 512 * (g.csize * |s.chain|)
  }

  /** Before a sector-aligned write: the cluster at the pointer is the first, the next or the
      current one, or it has yet to be allocated. */
  lemma FollowingWrite(g: Geometry, s: FileState)
    requires Inv(g, s) && s.pos % 512 == 0
    ensures Csect(g, s.pos) == 0 && s.pos == 0 && s.chain != [] ==>
      var s' := s.(clust := s.chain[0], q := 0);
      AtSector(g, s', 0, 0) && Base(g, s') && SameFile(s, s')
    ensures Csect(g, s.pos) == 0 && s.pos > 0 ==> 2 <= s.clust < |s.fat| && s.q < |s.chain|
    ensures Csect(g, s.pos) == 0 && s.pos > 0 && s.q + 1 < |s.chain| ==>
      var s' := s.(clust := s.fat[s.clust], q := s.q + 1);
      && 2 <= s.fat[s.clust] < |s.fat| && s.clust != LastOr0(s.chain)
      && AtSector(g, s', s.q + 1, 0) && Base(g, s') && SameFile(s, s')
    ensures Csect(g, s.pos) == 0 && s.pos > 0 && s.q + 1 == |s.chain| ==>
      s.fat[s.clust] >= |s.fat| && s.clust == LastOr0(s.chain) && AtEnd(g, s)
    ensures Csect(g, s.pos) != 0 ==> AtSector(g, s, s.q, Csect(g, s.pos)) && SameFile(s, s)
    ensures s.chain != [] ==> s.chain[0] != 0
    ensures s.pos == 0 && s.chain == [] ==> AtEnd(g, s)
  {
    AtBoundary(g, s);
    if s.pos > 0 && NextQ(g, s) == s.q + 1 && s.q + 1 < |s.chain| {
      assert s.fat[s.chain[s.q]] == s.chain[s.q + 1];
    }
  }

  lemma AtNewCluster(g: Geometry, s: FileState, r: nat)
    requires Base(g, s) && s.chain != [] && s.chain[|s.chain| - 1] == r
    requires AtEnd(g, s.(chain := s.chain[..|s.chain| - 1]))
    ensures AtSector(g, s.(clust := r, q := |s.chain| - 1), |s.chain| - 1, 0)
    ensures Base(g, s.(clust := r, q := |s.chain| - 1)) && SameFile(s, s.(clust := r, q := |s.chain| - 1))
  {
  }

  lemma GrowsRefl(g: Geometry, s: FileState)
    requires Base(g, s)
    ensures Grows(g, s, s)
  {
  }

  lemma GrowsSame(g: Geometry, s: FileState, s': FileState)
    requires Base(g, s) && Base(g, s') && SameFile(s, s')
    ensures Grows(g, s, s') && Contents(g, s') == Contents(g, s)
  {
  }

  lemma BaseFits(g: Geometry, s: FileState)
    requires Base(g, s)
    ensures g.Valid() && g.Fits(s.disk) && |s.fat| == g.nFatent
  {
  }

  /** Cluster r is the one behind the pointer: it was there, or has been linked behind the chain. */
  ghost predicate Reached(g: Geometry, s: FileState, s1: FileState, r: nat, eoc: U32)
    requires Base(g, s) && Base(g, s1)
  {
    || (s1 == s && s.pos == 0 && s.chain != [] && r == s.chain[0])
    || (s1 == s && s.pos > 0 && s.q + 1 < |s.chain| && s.clust < |s.fat| && r == s.fat[s.clust])
    || (&& 2 <= r < |s.fat| && s.fat[r] == 0 && eoc >= |s.fat| && OnlyFatDiffers(g, s.disk, s1.disk)
        && s1 == Extended(s, r, eoc, s1.disk)
        && (s.pos == 0 ==> s.chain == []) && (s.pos > 0 ==> s.q + 1 == |s.chain|))
  }

  /** The cluster found for a write becomes the current one: s1 is the state after the search. */
  lemma Arrived(g: Geometry, s: FileState, s1: FileState, r: nat, eoc: U32)
    requires Inv(g, s) && Base(g, s1) && s.pos % 512 == 0 && Csect(g, s.pos) == 0 && Reached(g, s, s1, r, eoc)
    ensures var s2 := s1.(clust := r, q := if s.pos == 0 then 0 else s.q + 1);
      && AtSector(g, s2, s2.q, 0) && Base(g, s2)
      && Grows(g, s, s2) && Contents(g, s2) == Contents(g, s)
  {
    hide Base, CursorOk, SameFile, Grows, Contents, OnlyFatDiffers, AtSector, Csect, Linked, Geometry.Valid;
    FollowingWrite(g, s);
    BaseFits(g, s1);
    var s2 := s1.(clust := r, q := if s.pos == 0 then 0 else s.q + 1);
    if s1 == s {
      GrowsSame(g, s, s2);
    } else {
      ExtendContents(g, s, r, eoc, s1.disk);
      ExtendGrows(g, s, r, eoc, s1.disk);
      AtNewCluster(g, s1, r);
      GrowsSame(g, s1, s2);
      GrowsTrans(g, s, s1, s2);
    }
  }

  // ---------- when bytes may go to the cache or past it

  lemma CanCacheInside(g: Geometry, s: FileState, o: nat, bytes: seq<Byte>)
    requires Base(g, s) && InSector(g, s, s.q, o) && bytes != [] && s.pos % 512 + |bytes| <= 512
    ensures CanCache(g, s, o, s.sect, s.buf, bytes)
  {
    ClusterIn(g, s, s.q);
  }

  lemma CanCacheAt(g: Geometry, s: FileState, o: nat, t: nat, base: Sector, bytes: seq<Byte>)
    requires Base(g, s) && AtSector(g, s, s.q, o) && !s.dirty && bytes != [] && |bytes| <= 512
    requires t == ClusterSector(g, s.chain[s.q]) + o && t < |s.disk|
    requires base == if s.sect != t && s.pos < s.size then s.disk[t] else s.buf
    ensures CanCache(g, s, o, t, base, bytes)
  {
    ClusterIn(g, s, s.q);
  }

  lemma CanDirectAt(g: Geometry, s: FileState, o: nat, t: nat, ws: seq<Sector>)
    requires Base(g, s) && AtSector(g, s, s.q, o) && !s.dirty && 0 < |ws| && o + |ws| <= g.csize
    requires t == ClusterSector(g, s.chain[s.q]) + o
    ensures CanDirect(g, s, o, t, ws)
  {
    ClusterIn(g, s, s.q);
  }
}
