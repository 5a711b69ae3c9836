/** What seeking does to an open file, as steps on its state. */
module FatFileSeek {
  import opened Basics
  import opened FatGeometry
  import opened FatChains
  import opened FatEntries
  import opened FatData
  import opened FatFileState
  import opened FatFileWrite

  /** Bytes in a cluster. */
  function Bcs(g: Geometry): nat {
    512 * g.csize
  }

  /** The quotient the code computes is the place of the cluster. */
  lemma DivIs(b: nat, q: nat, x: int)
    requires 0 < b && b * q <= x < b * q + b
    ensures x / b == q && x % b == x - b * q
  {
    ModIs(x, b, q, x - b * q);
    var k := x / b;
    assert x == b * k + x % b;
    if k < q {
      MulMono(b, k + 1, q);
    } else if q < k {
      MulMono(b, q + 1, k);
    }
  }

  lemma BcsTimes(g: Geometry, q: int)
    ensures Bcs(g) * q == 512 * (g.csize * q)
  {
  }

  /** Offset at which cluster q of a file starts. */
  function StartOf(g: Geometry, q: int): int {
    512 * (g.csize * q)
  }

  lemma Starts(g: Geometry, q: nat)
    requires g.Valid()
    ensures 0 <= StartOf(g, q) && Bcs(g) > 0 && StartOf(g, q + 1) == StartOf(g, q) + Bcs(g)
    ensures StartOf(g, q) % 512 == 0 && StartOf(g, q + 1) % 512 == 0 && StartOf(g, 0) == 0
  {
    MulMono(g.csize, 0, q);
    StartsArith(g.csize, g.csize * q, g.csize * (q + 1));
  }

  lemma StartsArith(c: nat, cq: nat, next: nat)
    requires c > 0 && next == cq + c
    ensures 512 * next == 512 * cq + 512 * c && 512 * cq % 512 == 0 && 512 * next % 512 == 0
  {
  }

  /** Number of the cluster holding the byte at x, and where that cluster starts. */
  function ClusterNo(g: Geometry, x: int): int
    requires g.Valid()
  {
    x / Bcs(g)
  }

  function ClusterStart(g: Geometry, x: int): int
    requires g.Valid()
  {
    x - x % Bcs(g)
  }

  /** The test for starting from the current cluster, and where that cluster starts. */
  lemma Shortcut(g: Geometry, s: FileState, ofs: nat)
    requires Inv(g, s) && s.pos > 0 && ofs > 0
    ensures g.Valid()
    ensures ClusterNo(g, ofs - 1) >= ClusterNo(g, s.pos - 1) <==> ofs > StartOf(g, s.q)
    ensures ClusterStart(g, s.pos - 1) == StartOf(g, s.q) && 0 <= StartOf(g, s.q) < s.pos
    ensures AtCluster(g, s) && s.clust != 0
  {
    BcsTimes(g, s.q);
    ShortcutArith(Bcs(g), s.q, s.pos, ofs);
    MulMono(g.csize, 0, s.q);
  }

  lemma ShortcutArith(b: nat, q: nat, pos: nat, ofs: nat)
    requires 0 < b && b * q < pos <= b * q + b && ofs > 0
    ensures (ofs - 1) / b >= (pos - 1) / b <==> ofs > b * q
    ensures (pos - 1) - (pos - 1) % b == b * q
  {
    DivIs(b, q, pos - 1);
    var k, r := (ofs - 1) / b, (ofs - 1) % b;
    assert ofs - 1 == b * k + r && 0 <= r < b;
    if k >= q {
      MulMono(b, q, k);
    } else {
      MulMono(b, k + 1, q);
    }
  }

  /** The current cluster is cluster q of the chain. */
  ghost predicate AtCluster(g: Geometry, s: FileState) {
    s.q < |s.chain| && s.clust == s.chain[s.q]
  }

  /** Following the chain one cluster further. */
  lemma SeekFollow(g: Geometry, s: FileState)
    requires Base(g, s) && AtCluster(g, s)
    ensures 2 <= s.clust < |s.fat|
    ensures s.q + 1 < |s.chain| ==>
      var s' := s.(clust := s.fat[s.clust], q := s.q + 1);
      && 2 <= s.fat[s.clust] < |s.fat| && s.clust != LastOr0(s.chain)
      && AtCluster(g, s') && Base(g, s') && SameFile(s, s')
    ensures s.q + 1 == |s.chain| ==> s.clust == LastOr0(s.chain)
  {
    if s.q + 1 < |s.chain| {
      assert s.fat[s.chain[s.q]] == s.chain[s.q + 1];
    }
  }

  /** The cluster just linked becomes the current one. */
  lemma SeekExtend(g: Geometry, s: FileState, s1: FileState, r: U32, eoc: U32)
    requires Base(g, s) && Base(g, s1) && 2 <= r < |s.fat| && s.fat[r] == 0 && eoc >= |s.fat|
    requires OnlyFatDiffers(g, s.disk, s1.disk) && s1 == Extended(s, r, eoc, s1.disk)
    ensures var s2 := s1.(clust := r, q := |s.chain|);
      && AtCluster(g, s2) && Base(g, s2) && Grows(g, s, s2) && Contents(g, s2) == Contents(g, s)
  {
    hide Base, Grows, Contents, SameFile, OnlyFatDiffers;
    BaseFits(g, s);
    BaseFits(g, s1);
    ExtendContents(g, s, r, eoc, s1.disk);
    ExtendGrows(g, s, r, eoc, s1.disk);
    var s2 := s1.(clust := r, q := |s.chain|);
    CursorFree(g, s1, r, |s.chain|);
    CursorSame(s1, r, |s.chain|);
    GrowsSame(g, s1, s2);
    GrowsTrans(g, s, s1, s2);
  }

  lemma CursorSame(s: FileState, clust: nat, q: nat)
    ensures SameFile(s, s.(clust := clust, q := q))
  {
  }

  /** The pointer set inside the current cluster, or at its end; the file grows to it. */
  function Set(s: FileState, pos: nat): FileState {
    s.(pos := pos, size := Max(s.size, pos))
  }

  lemma SetKeeps(g: Geometry, s: FileState, pos: nat)
    requires Base(g, s) && AtCluster(g, s) && 512 * (g.csize * s.q) < pos <= 512 * (g.csize * s.q + g.csize)
    ensures Base(g, Set(s, pos)) && Grows(g, s, Set(s, pos)) && Contents(g, s) <= Contents(g, Set(s, pos))
    ensures pos <= s.size ==> SameFile(s, Set(s, pos))
  {
    hide IsChain, View, CacheOk;
    MulMono(g.csize, s.q + 1, |s.chain|);
    SetCache(g, s, pos);
    GrowsRefl(g, s);
    assert Whole(g, Set(s, pos)) == Whole(g, s);
  }

  lemma SetCache(g: Geometry, s: FileState, pos: nat)
    requires CacheOk(g, s)
    ensures CacheOk(g, Set(s, pos))
  {
  }

  lemma SetArith(cq: int, csize: int, pos: int)
    requires 0 <= cq && 0 < csize && 512 * cq < pos <= 512 * (cq + csize) && pos % 512 != 0
    ensures 0 <= pos / 512 - cq < csize
  {
  }

  /** Which sector of the current cluster the pointer is in, and when the cursor is then right. */
  lemma SetCursor(g: Geometry, s: FileState)
    requires g.csize > 0 && AtCluster(g, s) && 512 * (g.csize * s.q) < s.pos <= 512 * (g.csize * s.q + g.csize)
    ensures s.pos % 512 != 0 ==> 0 <= s.pos / 512 - g.csize * s.q < g.csize
    ensures s.pos % 512 != 0 && CachesSector(g, s, s.q, s.pos / 512 - g.csize * s.q) ==> CursorOk(g, s)
    ensures s.pos % 512 == 0 ==> CursorOk(g, s)
  {
    if s.pos % 512 != 0 {
      SetArith(g.csize * s.q, g.csize, s.pos);
    }
  }

  /** Pointer zero. */
  lemma RewindKeeps(g: Geometry, s: FileState)
    requires Base(g, s)
    ensures Inv(g, s.(pos := 0)) && SameFile(s, s.(pos := 0))
  {
  }

  /** A byte of the file behind the current cluster: the chain goes on. */
  lemma MoreClusters(g: Geometry, s: FileState, target: nat)
    requires Base(g, s) && AtCluster(g, s)
    ensures g.Valid() && s.q < |s.chain|
    ensures target <= s.size && target > StartOf(g, s.q) + Bcs(g) ==> s.q + 1 < |s.chain|
  {
    if s.q + 1 == |s.chain| {
      assert g.csize * |s.chain| == g.csize * s.q + g.csize;
    }
  }

  /** The sector holding the pointer, as an offset in the current cluster. */
  lemma SeekOffset(g: Geometry, s: FileState, pos: nat)
    requires Base(g, s) && AtCluster(g, s) && StartOf(g, s.q) < pos <= StartOf(g, s.q) + Bcs(g)
    ensures 512 * (g.csize * s.q) < pos <= 512 * (g.csize * s.q + g.csize)
    ensures (pos - StartOf(g, s.q)) / 512 == pos / 512 - g.csize * s.q
    ensures (pos - StartOf(g, s.q)) % 512 == pos % 512
    ensures 2 <= s.clust < g.nFatent
    ensures ClusterSector(g, s.clust) + g.csize < 0x1_0000_0000
  {
    OffsetArith(g.csize * s.q, pos - StartOf(g, s.q));
    ClusterInDisk(g, s.clust);
  }

  lemma OffsetArith(cq: int, ofs: int)
    ensures ofs / 512 == (512 * cq + ofs) / 512 - cq && ofs % 512 == (512 * cq + ofs) % 512
  {
  }
}
