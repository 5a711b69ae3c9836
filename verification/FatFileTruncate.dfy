/** What truncating does to an open file, as a step on its state. */
module FatFileTruncate {
  import opened FatGeometry
  import opened FatChains
  import opened FatEntries
  import opened FatAlloc
  import opened FatData
  import opened FatFileState
  import opened FatFileWrite

  /** The FAT after the chain is cut to its first k clusters. */
  function CutFat(fat: Fat, ch: seq<nat>, k: nat, eoc: U32): (r: Fat)
    requires k <= |ch|
    ensures |r| == |fat|
  {
    if k == |ch| then fat
    else if k == 0 then Unlinked(Ended(fat, 0, eoc), ch[0])
    else Unlinked(Ended(fat, ch[k - 1], eoc), ch[k])
  }

  /** Exactly the tail is freed; the head is a whole chain; no other entry changes. */
  ghost predicate CutTo(fat: Fat, fat': Fat, ch: seq<nat>, k: nat)
    requires k <= |ch|
  {
    && |fat'| == |fat|
    && IsChain(fat', ch[..k])
    && (forall c :: 2 <= c < |fat| && c !in ch ==> fat'[c] == fat[c])
    && (forall c :: c in ch[k..] ==> 2 <= c < |fat| && fat'[c] == 0)
  }

  lemma CutFatKeeps(fat: Fat, ch: seq<nat>, k: nat, eoc: U32)
    requires IsChain(fat, ch) && k <= |ch| && eoc >= |fat| && !HasOne(fat)
    ensures CutTo(fat, CutFat(fat, ch, k, eoc), ch, k)
    ensures !HasOne(CutFat(fat, ch, k, eoc))
  {
    hide Visited, Unlinked, HasOne, CutTo;
    if k == |ch| {
      CutNone(fat, ch);
    } else if k == 0 {
      CutAll(fat, ch);
    } else {
      CutSome(fat, ch, k, eoc);
    }
    CutNoOne(fat, CutFat(fat, ch, k, eoc), ch, k);
  }

  lemma CutNone(fat: Fat, ch: seq<nat>)
    requires IsChain(fat, ch)
    ensures CutTo(fat, fat, ch, |ch|)
  {
    assert ch[..|ch|] == ch;
  }

  lemma CutAll(fat: Fat, ch: seq<nat>)
    requires IsChain(fat, ch) && ch != []
    ensures CutTo(fat, Unlinked(fat, ch[0]), ch, 0)
  {
    hide Visited, Unlinked;
    VisitedChain(fat, ch);
    UnlinkedIs(fat, ch[0], ch);
    assert ch[0..] == ch;
  }

  lemma CutSome(fat: Fat, ch: seq<nat>, k: nat, eoc: U32)
    requires IsChain(fat, ch) && 0 < k < |ch| && eoc >= |fat|
    ensures CutTo(fat, Unlinked(Ended(fat, ch[k - 1], eoc), ch[k]), ch, k)
  {
    hide Visited, Unlinked;
    CutChain(fat, ch, k, eoc);
    assert ch[k - 1] in ch;
    assert forall c :: c in ch[k..] ==> c in ch;
  }

  lemma CutNoOne(fat: Fat, fat': Fat, ch: seq<nat>, k: nat)
    requires k <= |ch| && CutTo(fat, fat', ch, k) && !HasOne(fat)
    ensures !HasOne(fat')
  {
    assert ch == ch[..k] + ch[k..];
    forall c | 2 <= c < |fat| ensures fat'[c] != 1 {
      if c in ch[..k] { UsedInChain(fat', ch[..k], c); }
    }
  }

  lemma UnlinkedIs(fat: Fat, c: nat, vs: seq<nat>)
    requires Visited(fat, c).0 == vs
    ensures forall i :: 0 <= i < |vs| ==> vs[i] < |fat|
    ensures Unlinked(fat, c) == Zeroed(fat, vs)
  {
    VisitedIsPath(fat, c);
  }

  /** The clusters of the file and the free ones stay the same, taken together. */
  lemma CutOwned(g: Geometry, fat: Fat, ch: seq<nat>, k: nat, eoc: U32, t: int)
    requires IsChain(fat, ch) && k <= |ch| && eoc >= |fat| && !HasOne(fat)
    ensures Outside(g, CutFat(fat, ch, k, eoc), ch[..k], t) <==> Outside(g, fat, ch, t)
  {
    hide CutFat, IsChain;
    CutFatKeeps(fat, ch, k, eoc);
    assert ch == ch[..k] + ch[k..];
    HeadInUse(fat, ch, k, eoc);
    var fat' := CutFat(fat, ch, k, eoc);
    forall c | 2 <= c < |fat|
      ensures (c in ch[..k] || fat'[c] == 0) <==> (c in ch || fat[c] == 0)
    {
    }
  }

  lemma HeadInUse(fat: Fat, ch: seq<nat>, k: nat, eoc: U32)
    requires IsChain(fat, ch) && k <= |ch| && eoc >= |fat| && !HasOne(fat)
    ensures forall c :: c in ch ==> 2 <= c < |fat|
  {
  }

  // ---------- the open file

  /** Clusters left when the file ends at the pointer. */
  function Kept(s: FileState): nat {
    if s.pos == 0 then 0 else s.q + 1
  }

  /** n clusters hold size bytes, and fewer do not. */
  predicate JustHolds(g: Geometry, n: nat, size: nat) {
    size <= 512 * (g.csize * n) && (n > 0 ==> 512 * (g.csize * (n - 1)) < size)
  }

  lemma KeptJustHolds(g: Geometry, s: FileState)
    requires Inv(g, s)
    ensures JustHolds(g, Kept(s), s.pos)
  {
    hide IsChain, CacheOk;
    if s.pos > 0 { MulNext(g.csize, s.q); }
  }

  lemma MulNext(c: nat, q: nat)
    ensures c * (q + 1) == c * q + c
  {
  }

  /** The file cut off at the pointer, and its dirty cache written back; d is the disk after the
      FAT changed. */
  function Truncated(s: FileState, eoc: U32, d: Disk): FileState
    requires Kept(s) <= |s.chain|
  {
    s.(fat := CutFat(s.fat, s.chain, Kept(s), eoc), chain := s.chain[..Kept(s)], size := s.pos,
       disk := if s.dirty && s.sect < |d| then d[s.sect := s.buf] else d, dirty := false)
  }

  ghost predicate CanTruncate(g: Geometry, s: FileState, eoc: U32, d: Disk) {
    && Inv(g, s) && !HasOne(s.fat) && eoc >= |s.fat| && g.Fits(d) && OnlyFatDiffers(g, s.disk, d)
  }

  lemma KeptInChain(g: Geometry, s: FileState)
    requires Inv(g, s)
    ensures Kept(s) <= |s.chain| && s.pos <= 512 * (g.csize * Kept(s))
  {
  }

  lemma TruncatedInv(g: Geometry, s: FileState, eoc: U32, d: Disk)
    requires CanTruncate(g, s, eoc, d)
    ensures Kept(s) <= |s.chain|
    ensures Inv(g, Truncated(s, eoc, d))
  {
    hide IsChain, CutFat, CutTo, Outside, HasOne, Mirrored;
    KeptInChain(g, s);
    CutFatKeeps(s.fat, s.chain, Kept(s), eoc);
    CutOwned(g, s.fat, s.chain, Kept(s), eoc, s.sect);
    CutChainIs(s.fat, CutFat(s.fat, s.chain, Kept(s), eoc), s.chain, Kept(s));
    TruncatedCache(g, s, eoc, d);
  }

  lemma CutChainIs(fat: Fat, fat': Fat, ch: seq<nat>, k: nat)
    requires k <= |ch| && CutTo(fat, fat', ch, k)
    ensures IsChain(fat', ch[..k])
  {
  }

  lemma TruncatedCache(g: Geometry, s: FileState, eoc: U32, d: Disk)
    requires CanTruncate(g, s, eoc, d) && Kept(s) <= |s.chain|
    requires Outside(g, CutFat(s.fat, s.chain, Kept(s), eoc), s.chain[..Kept(s)], s.sect) <==>
      Outside(g, s.fat, s.chain, s.sect)
    ensures CacheOk(g, Truncated(s, eoc, d))
  {
    hide IsChain, CutFat, Outside, HasOne, Mirrored;
    assert s.sect != 0 ==> !g.InFat(s.sect);
  }

  lemma TruncatedContents(g: Geometry, s: FileState, eoc: U32, d: Disk)
    requires CanTruncate(g, s, eoc, d)
    ensures Kept(s) <= |s.chain| && Base(g, Truncated(s, eoc, d))
    ensures Contents(g, Truncated(s, eoc, d)) == Contents(g, s)[..s.pos]
  {
    hide IsChain, CutFat, Outside, HasOne, Mirrored, View;
    TruncatedInv(g, s, eoc, d);
    var s' := Truncated(s, eoc, d);
    ChainFacts(g, s);
    ChainFacts(g, s');
    ViewNoFat(g, Effective(s), s'.disk, s'.chain);
    ViewPrefix(g, Effective(s), s.chain, Kept(s));
    assert Whole(g, s') <= Whole(g, s);
  }

  /** Truncating touches nothing but the FAT. */
  lemma TruncatedConfined(g: Geometry, s: FileState, eoc: U32, d: Disk)
    requires CanTruncate(g, s, eoc, d) && Kept(s) <= |s.chain|
    ensures var s' := Truncated(s, eoc, d);
      g.Fits(Effective(s)) && g.Fits(Effective(s')) && OnlyFatDiffers(g, Effective(s), Effective(s'))
  {
    hide IsChain, CutFat, Outside, HasOne;
    var s' := Truncated(s, eoc, d);
    var e, e' := Effective(s), Effective(s');
    if Mirrored(g, e) && g.nFats == 2 {
      forall t | g.InFat1(t) ensures Twins(g, s.disk, t) { assert Twins(g, e, t); }
      forall t | g.InFat1(t) ensures Twins(g, e', t) { assert Twins(g, d, t); }
    }
  }

  /** What the removal of the tail at the current cluster is, and that it succeeds. */
  lemma TruncateRemoves(g: Geometry, s: FileState, eoc: U32)
    requires Inv(g, s) && s.pos < s.size && eoc >= |s.fat|
    ensures s.chain != [] && 2 <= s.chain[0] < |s.fat| && Kept(s) <= |s.chain|
    ensures s.pos == 0 ==>
      && Kept(s) == 0
      && CutFat(s.fat, s.chain, 0, eoc) == Unlinked(Ended(s.fat, 0, eoc), s.chain[0])
      && Visited(Ended(s.fat, 0, eoc), s.chain[0]).1
    ensures s.pos > 0 ==>
      && 2 <= s.clust < |s.fat| && s.fat[s.clust] != 0 && s.chain[..Kept(s)] != []
      && s.chain[..Kept(s)][0] == s.chain[0]
    ensures s.pos > 0 && s.fat[s.clust] < |s.fat| ==>
      && 2 <= s.fat[s.clust]
      && CutFat(s.fat, s.chain, Kept(s), eoc) == Unlinked(Ended(s.fat, s.clust, eoc), s.fat[s.clust])
      && Visited(Ended(s.fat, s.clust, eoc), s.fat[s.clust]).1
    ensures s.pos > 0 && s.fat[s.clust] >= |s.fat| ==> CutFat(s.fat, s.chain, Kept(s), eoc) == s.fat
  {
    hide Visited, Unlinked, CacheOk, Outside;
    KeptInChain(g, s);
    if s.pos == 0 {
      VisitedChain(s.fat, s.chain);
    } else if s.q + 1 < |s.chain| {
      CutChain(s.fat, s.chain, s.q + 1, eoc);
    }
  }
}
