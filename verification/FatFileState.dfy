/** An open file as a value: the volume below it, its chain, its cursor and its
    one-sector cache (the fields of FIL), what keeps it consistent, and what the
    steps of reading, writing and seeking do to it. */
module FatFileState {
  import opened Basics
  import opened FatGeometry
  import opened FatChains
  import opened FatData

  datatype FileState = FileState(
    fat: Fat,            // entries of the FAT
    disk: Disk,          // the volume, without the file's own cache
    chain: seq<nat>,     // clusters of the file
    size: nat,           // file size
    pos: nat,            // read/write pointer
    q: nat,              // place of the current cluster in the chain
    clust: nat,          // current cluster
    sect: nat,           // sector in the cache, 0 for none
    buf: Sector,         // the cache
    dirty: bool,         // the cache has to be written back
    bq: nat, bo: nat)    // the cached sector is sector bo of cluster bq of the chain

  /** The volume as the file means it: its dirty cache laid over the disk. */
  ghost function Effective(s: FileState): (d: Disk)
    ensures |d| == |s.disk|
  {
    if s.dirty && s.sect < |s.disk| then s.disk[s.sect := s.buf] else s.disk
  }

  /** The chain is whole and holds the file; the cache agrees with the disk or is dirty. */
  ghost predicate Base(g: Geometry, s: FileState) {
    && g.Valid() && g.Fits(s.disk) && |s.fat| == g.nFatent
    && IsChain(s.fat, s.chain)
    && s.pos <= s.size <= 512 * (g.csize * |s.chain|)
    && CacheOk(g, s)
  }

  /** Sector s is in no cluster of the file and in no free cluster. */
  ghost predicate Outside(g: Geometry, fat: Fat, ch: seq<nat>, s: int) {
    forall c :: 2 <= c < |fat| && (c in ch || fat[c] == 0) ==>
      s < ClusterSector(g, c) || ClusterSector(g, c) + g.csize <= s
  }

  ghost predicate CacheOk(g: Geometry, s: FileState) {
    && (s.sect == 0 ==> !s.dirty)
    && (s.sect != 0 ==> g.database <= s.sect < |s.disk| && !Outside(g, s.fat, s.chain, s.sect))
    && (s.sect != 0 && !s.dirty ==> s.buf == s.disk[s.sect])
    && (s.dirty ==> CachesSector(g, s, s.bq, s.bo))
  }

  /** The cache holds sector o of cluster q of the file. */
  ghost predicate CachesSector(g: Geometry, s: FileState, q: nat, o: nat) {
    q < |s.chain| && o < g.csize && s.bq == q && s.bo == o && s.sect == ClusterSector(g, s.chain[q]) + o
  }

  /** The current cluster is the one holding the byte before the pointer; inside a sector,
      the cache holds that sector. */
  ghost predicate CursorOk(g: Geometry, s: FileState) {
    && (s.pos > 0 ==>
          && s.q < |s.chain| && s.clust == s.chain[s.q]
          && 512 * (g.csize * s.q) < s.pos <= 512 * (g.csize * s.q + g.csize))
    && (s.pos % 512 != 0 ==>
          && 0 <= s.pos / 512 - g.csize * s.q
          && CachesSector(g, s, s.q, s.pos / 512 - g.csize * s.q))
  }

  ghost predicate Inv(g: Geometry, s: FileState) {
    Base(g, s) && CursorOk(g, s)
  }

  lemma NotOutside(g: Geometry, s: FileState, q: nat, o: nat)
    requires |s.fat| == g.nFatent && IsChain(s.fat, s.chain) && q < |s.chain| && o < g.csize
    ensures !Outside(g, s.fat, s.chain, ClusterSector(g, s.chain[q]) + o)
  {
    assert s.chain[q] in s.chain;
  }

  lemma ChainFacts(g: Geometry, s: FileState)
    requires |s.fat| == g.nFatent && IsChain(s.fat, s.chain)
    ensures InVolume(g, s.chain) && NoDup(s.chain)
  {
    forall i, j | 0 <= i < j < |s.chain| ensures s.chain[i] != s.chain[j] {
      if s.chain[i] == s.chain[j] { Acyclic(s.fat, s.chain, i, j); }
    }
  }

  /** All bytes the file's clusters hold. */
  ghost function Whole(g: Geometry, s: FileState): (v: seq<Byte>)
    requires Base(g, s)
    ensures |v| == 512 * (g.csize * |s.chain|)
  {
    ChainFacts(g, s);
    View(g, Effective(s), s.chain)
  }

  /** The file: the bytes up to its size. */
  ghost function Contents(g: Geometry, s: FileState): (v: seq<Byte>)
    requires Base(g, s)
    ensures |v| == s.size
  {
    Whole(g, s)[..s.size]
  }

  /** The pointer is at the start of sector o of cluster q, which is the current cluster. */
  ghost predicate AtSector(g: Geometry, s: FileState, q: nat, o: nat) {
    q < |s.chain| && o < g.csize && s.q == q && s.clust == s.chain[q] && s.pos == 512 * (g.csize * q + o)
  }

  /** The pointer is inside sector o of cluster q (or at its start), and the cache holds that sector. */
  ghost predicate InSector(g: Geometry, s: FileState, q: nat, o: nat) {
    && q < |s.chain| && s.q == q && s.clust == s.chain[q]
    && CachesSector(g, s, q, o)
    && 512 * (g.csize * q + o) <= s.pos < 512 * (g.csize * q + o) + 512
  }

  // ---------- steps that change no byte of the file

  /** Writing back the dirty cache. */
  function Flushed(s: FileState): FileState
    requires s.sect < |s.disk|
  {
    s.(disk := s.disk[s.sect := s.buf], dirty := false)
  }

  lemma FlushKeeps(g: Geometry, s: FileState)
    requires Base(g, s) && s.dirty
    ensures Base(g, Flushed(s)) && Effective(Flushed(s)) == Effective(s)
    ensures Whole(g, Flushed(s)) == Whole(g, s)
    ensures CursorOk(g, s) ==> CursorOk(g, Flushed(s))
  {
    ChainFacts(g, s);
    ClusterInDisk(g, s.chain[s.bq]);
  }

  /** Loading sector o of cluster q into a clean cache. */
  function Loaded(g: Geometry, s: FileState, q: nat, o: nat): FileState
    requires q < |s.chain| && 0 <= ClusterSector(g, s.chain[q]) + o < |s.disk|
  {
    var t := ClusterSector(g, s.chain[q]) + o;
    s.(sect := t, buf := s.disk[t], bq := q, bo := o)
  }

  lemma LoadKeeps(g: Geometry, s: FileState, q: nat, o: nat)
    requires Base(g, s) && !s.dirty && q < |s.chain| && o < g.csize
    ensures 0 <= ClusterSector(g, s.chain[q]) + o < |s.disk|
    ensures Base(g, Loaded(g, s, q, o)) && CachesSector(g, Loaded(g, s, q, o), q, o)
    ensures SameFile(s, Loaded(g, s, q, o))
  {
    hide Outside;
    NotOutside(g, s, q, o);
    ChainFacts(g, s);
    ClusterInDisk(g, s.chain[q]);
  }

  /** The cached sector is what the file holds there. */
  lemma CacheIsView(g: Geometry, s: FileState, q: nat, o: nat, t: nat, a: nat, n: nat)
    requires Base(g, s) && CachesSector(g, s, q, o) && a + n <= 512 && t == 512 * (g.csize * q + o)
    ensures t + 512 <= |Whole(g, s)| && Whole(g, s)[t + a..t + a + n] == s.buf[a..a + n]
  {
    hide View, IsChain, Effective, CacheOk;
    ChainFacts(g, s);
    CachedSector(g, s, q, o);
    ViewPart(g, Effective(s), s.chain, q, o, a, n);
  }

  lemma CachedSector(g: Geometry, s: FileState, q: nat, o: nat)
    requires Base(g, s) && CachesSector(g, s, q, o)
    ensures s.sect < |s.disk| && Effective(s)[s.sect] == s.buf
  {
    hide Outside;
    ChainFacts(g, s);
    ClusterInDisk(g, s.chain[q]);
  }

  /** Moving the pointer forward inside the current cluster. */
  lemma Advance(g: Geometry, s: FileState, pos: nat)
    requires Base(g, s) && s.q < |s.chain| && s.clust == s.chain[s.q]
    requires 512 * (g.csize * s.q) < pos <= 512 * (g.csize * s.q + g.csize) && pos <= s.size
    requires pos % 512 != 0 ==> 0 <= pos / 512 - g.csize * s.q && CachesSector(g, s, s.q, pos / 512 - g.csize * s.q)
    ensures Inv(g, s.(pos := pos)) && Whole(g, s.(pos := pos)) == Whole(g, s)
  {
  }

  // ---------- finding the current cluster

  lemma CursorFree(g: Geometry, s: FileState, clust: nat, q: nat)
    requires Base(g, s)
    ensures Base(g, s.(clust := clust, q := q)) && Whole(g, s.(clust := clust, q := q)) == Whole(g, s)
  {
  }

  /** Place in the chain of the cluster holding the byte at a sector-aligned pointer. */
  function NextQ(g: Geometry, s: FileState): int {
    if s.pos == 0 then 0 else if s.pos / 512 == g.csize * s.q + g.csize then s.q + 1 else s.q
  }

  /** At a sector boundary: where the pointer is, and that the code's test for a cluster
      boundary finds it. */
  lemma AtBoundary(g: Geometry, s: FileState)
    requires Inv(g, s) && s.pos % 512 == 0
    ensures var q, i := NextQ(g, s), s.pos / 512;
      && 0 <= i - g.csize * q < g.csize
      && i % g.csize == i - g.csize * q
      && (i % g.csize == 0 <==> s.pos == 0 || q == s.q + 1)
      && q <= |s.chain|
      && (s.pos < s.size ==> q < |s.chain|)
      && s.pos == 512 * i
      && (q == s.q && s.pos > 0 ==> s.clust == s.chain[q])
  {
    var q, i := NextQ(g, s), s.pos / 512;
    assert s.pos == 512 * i;
    ModIs(i, g.csize, q, i - g.csize * q);
    if q == |s.chain| {
      assert s.size <= 512 * (g.csize * q);
    }
  }

  /** Sector offset in the cluster. */
  function Csect(g: Geometry, pos: nat): nat
    requires g.csize != 0
  {
    pos / 512 % g.csize
  }

  /** Before a sector-aligned byte of the file is read: which cluster holds it, and how to get there. */
  lemma Following(g: Geometry, s: FileState)
    requires Inv(g, s) && s.pos % 512 == 0 && s.pos < s.size
    ensures Csect(g, s.pos) == 0 && s.pos == 0 ==>
      && s.chain != []
      && AtSector(g, s.(clust := s.chain[0], q := 0), 0, 0) && Base(g, s.(clust := s.chain[0], q := 0))
      && SameFile(s, s.(clust := s.chain[0], q := 0))
    ensures Csect(g, s.pos) == 0 && s.pos > 0 ==>
      && 2 <= s.clust < |s.fat|
      && AtSector(g, s.(clust := s.fat[s.clust], q := s.q + 1), s.q + 1, 0)
      && Base(g, s.(clust := s.fat[s.clust], q := s.q + 1))
      && SameFile(s, s.(clust := s.fat[s.clust], q := s.q + 1))
    ensures Csect(g, s.pos) != 0 ==> AtSector(g, s, s.q, Csect(g, s.pos)) && SameFile(s, s)
  {
    AtBoundary(g, s);
    if s.pos > 0 && NextQ(g, s) == s.q + 1 {
      assert s.fat[s.chain[s.q]] == s.chain[s.q + 1];
    }
  }

  // ---------- the same file before and after

  /** Cursor and cache aside, the same file on the same volume. */
  ghost predicate SameFile(s: FileState, s': FileState) {
    s'.fat == s.fat && s'.chain == s.chain && s'.size == s.size && Effective(s') == Effective(s)
  }

  /** Clean or dirty, a cache already holding sector o of cluster q may be taken to do so. */
  lemma Recognised(g: Geometry, s: FileState, q: nat, o: nat)
    requires Base(g, s) && q < |s.chain| && o < g.csize && s.sect == ClusterSector(g, s.chain[q]) + o
    ensures Base(g, s.(bq := q, bo := o)) && CachesSector(g, s.(bq := q, bo := o), q, o)
  {
  }

  /** A sector outside the file's clusters is not one of its sectors. */
  lemma SectorRange(g: Geometry, s: FileState, q: nat, o: nat)
    requires Base(g, s) && q < |s.chain| && o < g.csize
    ensures 2 <= s.chain[q] < g.nFatent
    ensures g.database <= ClusterSector(g, s.chain[q]) && ClusterSector(g, s.chain[q]) + g.csize <= |s.disk|
  {
    ClusterInDisk(g, s.chain[q]);
  }

  /** Bytes of n sectors from t on, with the dirty cache copied over the sector it holds. */
  function Overlaid(bytes: seq<Byte>, n: nat, t: nat, dirty: bool, sect: nat, buf: Sector): (r: seq<Byte>)
    requires |bytes| == 512 * n
    ensures |r| == 512 * n
  {
    if dirty && t <= sect < t + n then Put(bytes, 512 * (sect - t), buf) else bytes
  }

  /** Sectors read directly, overlaid by the dirty cache, are the file's bytes. */
  lemma DirectIs(g: Geometry, s: FileState, q: nat, o: nat, n: nat, t: nat)
    requires Base(g, s) && AtSector(g, s, q, o) && o + n <= g.csize && t == ClusterSector(g, s.chain[q]) + o
    ensures t + n <= |s.disk| && s.pos + 512 * n <= |Whole(g, s)|
    ensures |Join(s.disk[t..t + n])| == 512 * n
    ensures Whole(g, s)[s.pos..s.pos + 512 * n] == Overlaid(Join(s.disk[t..t + n]), n, t, s.dirty, s.sect, s.buf)
  {
    hide View, Join, IsChain, Outside;
    ChainFacts(g, s);
    ViewSlice(g, Effective(s), s.chain, q, o, n);
    var ws := s.disk[t..t + n];
    JoinLen<Byte>(ws, 512);
    if s.dirty && t <= s.sect < t + n {
      var j := s.sect - t;
      assert Effective(s)[t..t + n] == ws[j := s.buf];
      assert Put<Byte>(ws[j], 0, s.buf) == s.buf;
      JoinPatch<Byte>(ws, 512, j, 0, s.buf);
    } else {
      assert Effective(s)[t..t + n] == ws;
    }
  }

  /** Where n bytes from a pointer inside a sector end; cq stands for csize * q. */
  lemma InSectorArith(cq: int, csize: int, o: int, pos: int, n: int)
    requires 0 <= cq && 0 <= o < csize && 512 * (cq + o) <= pos < 512 * (cq + o) + 512 && 0 < n && pos % 512 + n <= 512
    ensures pos / 512 == cq + o && pos == 512 * (cq + o) + pos % 512
    ensures 512 * cq < pos + n <= 512 * (cq + csize)
    ensures (pos + n) % 512 != 0 ==> (pos + n) / 512 == cq + o
  {
  }

  lemma CopyPos(g: Geometry, s: FileState, o: nat, n: nat)
    requires Base(g, s) && InSector(g, s, s.q, o) && 0 < n && s.pos % 512 + n <= 512 && s.pos + n <= s.size
    ensures Inv(g, s.(pos := s.pos + n)) && SameFile(s, s.(pos := s.pos + n))
    ensures s.pos == 512 * (g.csize * s.q + o) + s.pos % 512
  {
    hide View, IsChain, CacheOk, Whole;
    var cq := g.csize * s.q;
    InSectorArith(cq, g.csize, o, s.pos, n);
    AdvanceBy(g, s, cq, o, s.pos + n);
  }

  lemma AdvanceBy(g: Geometry, s: FileState, cq: nat, o: nat, pos: nat)
    requires Base(g, s) && InSector(g, s, s.q, o) && cq == g.csize * s.q
    requires 512 * cq < pos <= 512 * (cq + g.csize) && pos <= s.size && (pos % 512 != 0 ==> pos / 512 == cq + o)
    ensures Inv(g, s.(pos := pos)) && Whole(g, s.(pos := pos)) == Whole(g, s)
  {
    hide View, IsChain, CacheOk;
    Advance(g, s, pos);
  }

  /** Bytes copied out of the cached sector are the file's. */
  lemma CopyOutKeeps(g: Geometry, s: FileState, o: nat, n: nat)
    requires Base(g, s) && InSector(g, s, s.q, o) && 0 < n && s.pos % 512 + n <= 512 && s.pos + n <= s.size
    ensures Inv(g, s.(pos := s.pos + n)) && SameFile(s, s.(pos := s.pos + n))
    ensures Contents(g, s.(pos := s.pos + n))[s.pos..s.pos + n] == s.buf[s.pos % 512..s.pos % 512 + n]
  {
    hide View, IsChain, CacheOk;
    CopyPos(g, s, o, n);
    CacheIsView(g, s, s.q, o, s.pos - s.pos % 512, s.pos % 512, n);
    var w := Whole(g, s);
    assert w[..s.size][s.pos..s.pos + n] == w[s.pos..s.pos + n];
  }

  /** Whole sectors read past the cache are the file's. */
  lemma DirectKeeps(g: Geometry, s: FileState, o: nat, n: nat, t: nat)
    requires Base(g, s) && AtSector(g, s, s.q, o) && 0 < n && o + n <= g.csize && s.pos + 512 * n <= s.size
    requires t == ClusterSector(g, s.chain[s.q]) + o
    ensures Inv(g, s.(pos := s.pos + 512 * n)) && SameFile(s, s.(pos := s.pos + 512 * n))
    ensures t + n <= |s.disk| && |Join(s.disk[t..t + n])| == 512 * n
    ensures Contents(g, s.(pos := s.pos + 512 * n))[s.pos..s.pos + 512 * n]
         == Overlaid(Join(s.disk[t..t + n]), n, t, s.dirty, s.sect, s.buf)
  {
    hide View, IsChain, Join, Overlaid;
    DirectIs(g, s, s.q, o, n, t);
    Advance(g, s, s.pos + 512 * n);
    var w := Whole(g, s);
    assert w[..s.size][s.pos..s.pos + 512 * n] == w[s.pos..s.pos + 512 * n];
  }

  lemma StartOfSector(g: Geometry, s: FileState, o: nat)
    requires AtSector(g, s, s.q, o) && CachesSector(g, s, s.q, o)
    ensures InSector(g, s, s.q, o)
  {
  }

  /** Inside a sector, the cursor says which one. */
  lemma CursorInSector(g: Geometry, s: FileState)
    requires Inv(g, s) && s.pos % 512 != 0
    ensures 0 <= s.pos / 512 - g.csize * s.q && InSector(g, s, s.q, s.pos / 512 - g.csize * s.q)
  {
  }

  lemma AtSectorRange(g: Geometry, s: FileState, o: nat)
    requires Base(g, s) && AtSector(g, s, s.q, o)
    ensures s.pos % 512 == 0 && o < g.csize && s.q < |s.chain| && s.clust == s.chain[s.q] && 2 <= s.clust < g.nFatent
    ensures g.database <= ClusterSector(g, s.clust) && ClusterSector(g, s.clust) + g.csize <= |s.disk|
  {
    ClusterInDisk(g, s.clust);
  }

  /** A write to a sector outside the file's and the free clusters, the cache being clean. */
  lemma WriteElsewhere(g: Geometry, s: FileState, t: nat, w: Sector)
    requires Base(g, s) && !s.dirty && t < |s.disk| && Outside(g, s.fat, s.chain, t)
    ensures Base(g, s.(disk := s.disk[t := w])) && Contents(g, s.(disk := s.disk[t := w])) == Contents(g, s)
    ensures CursorOk(g, s) ==> CursorOk(g, s.(disk := s.disk[t := w]))
  {
    hide View, Outside;
    var s' := s.(disk := s.disk[t := w]);
    ChainFacts(g, s);
    forall k | 0 <= k < |s.chain| ensures Cluster(g, s.disk, s.chain[k]) == Cluster(g, s'.disk, s.chain[k]) {
      ElsewhereCluster(g, s, t, w, k);
    }
    ViewSame(g, s.disk, s'.disk, s.chain);
  }

  lemma ElsewhereCluster(g: Geometry, s: FileState, t: nat, w: Sector, k: nat)
    requires Base(g, s) && t < |s.disk| && Outside(g, s.fat, s.chain, t) && k < |s.chain|
    ensures 2 <= s.chain[k] < g.nFatent
    ensures Cluster(g, s.disk, s.chain[k]) == Cluster(g, s.disk[t := w], s.chain[k])
  {
    assert s.chain[k] in s.chain;
    ClusterSame(g, s.disk, s.disk[t := w], s.chain[k]);
  }
}
