/** Cluster chains as values: what the entries of a FAT mean, and what
    allocating and freeing clusters does to every chain of a volume. */
module FatChains {
  import opened FatGeometry

  type Fat = seq<U32>

  // ---------- counting free clusters

  /** Number of free clusters below hi. */
  function Free(fat: Fat, hi: nat): (n: nat)
    requires hi <= |fat|
    ensures n <= if hi < 2 then 0 else hi - 2
  {
    if hi <= 2 then 0 else Free(fat, hi - 1) + (if fat[hi - 1] == 0 then 1 else 0)
  }

  lemma {:induction false} FreeSet(fat: Fat, hi: nat, c: nat, v: U32)
    requires 2 <= c < |fat| && hi <= |fat|
    ensures Free(fat[c := v], hi) ==
            Free(fat, hi) + (if c < hi && v == 0 then 1 else 0) - (if c < hi && fat[c] == 0 then 1 else 0)
  {
    if hi > 2 {
      FreeSet(fat, hi - 1, c, v);
    }
  }

  /** A cluster that is in use leaves room below the count's upper bound. */
  lemma {:induction false} FreeBelow(fat: Fat, hi: nat, c: nat)
    requires 2 <= c < hi <= |fat| && fat[c] != 0
    ensures Free(fat, hi) < hi - 2
  {
    if c < hi - 1 {
      FreeBelow(fat, hi - 1, c);
    }
  }

  lemma {:induction false} FreeZero(fat: Fat, hi: nat, c: nat)
    requires 2 <= c < hi <= |fat| && fat[c] == 0
    ensures Free(fat, hi) > 0
  {
    if c < hi - 1 {
      FreeZero(fat, hi - 1, c);
    }
  }

  lemma {:induction false} NoneFree(fat: Fat, hi: nat)
    requires hi <= |fat| && forall c :: 2 <= c < hi ==> fat[c] != 0
    ensures Free(fat, hi) == 0
  {
    if hi > 2 {
      NoneFree(fat, hi - 1);
    }
  }

  // ---------- chains

  /** ch is a whole chain: linked in order and ended by a value at or above the number of entries. */
  ghost predicate IsChain(fat: Fat, ch: seq<nat>) {
    && (forall i :: 0 <= i < |ch| ==> 2 <= ch[i] < |fat|)
    && (forall i :: 0 <= i < |ch| - 1 ==> fat[ch[i]] == ch[i + 1])
    && (ch != [] ==> fat[ch[|ch| - 1]] >= |fat|)
  }

  lemma Suffix(fat: Fat, ch: seq<nat>, k: nat)
    requires IsChain(fat, ch) && k <= |ch|
    ensures IsChain(fat, ch[k..])
  {
  }

  lemma LinkInRange(fat: Fat, ch: seq<nat>, i: nat)
    requires IsChain(fat, ch) && i < |ch|
    ensures i + 1 < |ch| <==> fat[ch[i]] < |fat|
  {
    if i + 1 < |ch| {
      assert fat[ch[i]] == ch[i + 1];
    }
  }

  /** Two chains that meet have the same rest, so the same distance to the end. */
  lemma {:induction false} Meet(fat: Fat, a: seq<nat>, b: seq<nat>, i: nat, j: nat)
    requires IsChain(fat, a) && IsChain(fat, b) && i < |a| && j < |b| && a[i] == b[j]
    ensures a[i..] == b[j..]
    decreases |a| - i
  {
    if i + 1 < |a| && j + 1 < |b| {
      Meet(fat, a, b, i + 1, j + 1);
      assert a[i..] == [a[i]] + a[i + 1..] && b[j..] == [b[j]] + b[j + 1..];
    } else {
      LinkInRange(fat, a, i);
      LinkInRange(fat, b, j);
    }
  }

  /** A chain that ends visits no cluster twice. */
  lemma Acyclic(fat: Fat, ch: seq<nat>, i: nat, j: nat)
    requires IsChain(fat, ch) && i < |ch| && j < |ch| && ch[i] == ch[j]
    ensures i == j
  {
    Meet(fat, ch, ch, i, j);
    assert |ch[i..]| == |ch[j..]|;
  }

  // ---------- freeing

  /** The clusters remove_chain frees from c on, in order, and whether it ends without meeting
      an entry of value 1. It stops at a free cluster or when a link leaves the range. */
  function Visited(fat: Fat, c: nat): (r: (seq<nat>, bool))
    decreases |fat| - Free(fat, |fat|)
  {
    if !(2 <= c < |fat|) || fat[c] == 0 then ([], true)
    else if fat[c] == 1 then ([], false)
    else
      FreeSet(fat, |fat|, c, 0);
      var (rest, ok) := Visited(fat[c := 0], fat[c]);
      ([c] + rest, ok)
  }

  /** The FAT with the entries of the listed clusters zeroed. */
  function Zeroed(fat: Fat, cs: seq<nat>): (r: Fat)
    requires forall i :: 0 <= i < |cs| ==> cs[i] < |fat|
    ensures |r| == |fat|
    ensures forall c :: 0 <= c < |fat| ==> r[c] == if c in cs then 0 else fat[c]
  {
    seq(|fat|, c requires 0 <= c < |fat| => if c in cs then 0 else fat[c])
  }

  /** On any FAT, cyclic and cross-linked ones included, what is freed is a path of
      links from c through clusters in use, each visited once. */
  lemma {:induction false} VisitedIsPath(fat: Fat, c: nat)
    ensures var vs := Visited(fat, c).0;
      && (vs != [] ==> vs[0] == c)
      && (forall i :: 0 <= i < |vs| ==> 2 <= vs[i] < |fat| && fat[vs[i]] > 1)
      && (forall i :: 0 <= i < |vs| - 1 ==> vs[i + 1] == fat[vs[i]])
      && (forall i, j :: 0 <= i < j < |vs| ==> vs[i] != vs[j])
    decreases |fat| - Free(fat, |fat|)
  {
    if 2 <= c < |fat| && fat[c] > 1 {
      FreeSet(fat, |fat|, c, 0);
      var fat' := fat[c := 0];
      VisitedIsPath(fat', fat[c]);
      var rest := Visited(fat', fat[c]).0;
      assert forall i :: 0 <= i < |rest| ==> rest[i] != c;
      assert Visited(fat, c).0 == [c] + rest;
    }
  }

  /** What the loop of remove_chain makes of the FAT. */
  function Unlinked(fat: Fat, c: nat): (r: Fat)
    ensures |r| == |fat|
  {
    VisitedIsPath(fat, c);
    Zeroed(fat, Visited(fat, c).0)
  }

  /** From the head of a chain, exactly the chain is freed. */
  lemma {:induction false} VisitedChain(fat: Fat, ch: seq<nat>)
    requires IsChain(fat, ch) && ch != []
    ensures Visited(fat, ch[0]) == (ch, true)
    decreases |ch|
  {
    var c := ch[0];
    var fat' := fat[c := 0];
    if |ch| > 1 {
      forall i | 1 <= i < |ch|
        ensures ch[i] != c
      {
        if ch[i] == c { Acyclic(fat, ch, i, 0); }
      }
      assert IsChain(fat', ch[1..]);
      VisitedChain(fat', ch[1..]);
    }
    assert ch == [c] + ch[1..];
  }

  // ---------- every chain of a volume

  /** The chains of a volume, by file. */
  type Chains = map<nat, seq<nat>>

  /** Every chain is whole, no cluster is in two of them, and every cluster in use is in one of
      them or among the lost ones (bad-cluster marks and clusters already lost). No entry has the
      value 1, which no FAT writes. */
  ghost predicate WellFormed(fat: Fat, chains: Chains, lost: set<nat>) {
    && WholeAndApart(fat, chains)
    && Accounted(fat, chains, lost)
    && (forall c :: 2 <= c < |fat| ==> fat[c] != 1)
  }

  ghost predicate WholeAndApart(fat: Fat, chains: Chains) {
    && (forall i :: i in chains ==> chains[i] != [] && IsChain(fat, chains[i]))
    && (forall i, j :: i in chains && j in chains && i != j ==> Apart(chains[i], chains[j]))
  }

  ghost predicate Accounted(fat: Fat, chains: Chains, lost: set<nat>) {
    forall c :: 2 <= c < |fat| && fat[c] != 0 && c !in lost ==> InSome(chains, c)
  }

  ghost predicate Apart(a: seq<nat>, b: seq<nat>) {
    forall x :: x in a ==> x !in b
  }

  ghost predicate InSome(chains: Chains, c: nat) {
    exists i :: i in chains && c in chains[i]
  }

  /** What a call of create_chain or remove_chain, as write, seek and truncate make it, does to a volume. */
  datatype Op =
    | Create(i: nat, r: U32)     // create_chain(0) gave file i the cluster r
    | Stretch(i: nat, r: U32)    // create_chain(last cluster of file i) gave r
    | Cut(i: nat, k: nat)        // remove_chain(k-th cluster of file i, the one before it)
    | Remove(i: nat)             // remove_chain(first cluster of file i, 0)

  predicate Enabled(fat: Fat, chains: Chains, op: Op) {
    match op
    case Create(i, r) => i !in chains && 2 <= r < |fat| && fat[r] == 0
    case Stretch(i, r) => i in chains && InFat(fat, chains[i]) && 2 <= r < |fat| && fat[r] == 0
    case Cut(i, k) => i in chains && InFat(fat, chains[i]) && 0 < k < |chains[i]|
    case Remove(i) => i in chains && InFat(fat, chains[i])
  }

  predicate InFat(fat: Fat, ch: seq<nat>) {
    ch != [] && forall k :: 0 <= k < |ch| ==> ch[k] < |fat|
  }

  /** The FAT with the free cluster r made last after clst (0: of a new chain). */
  function Linked(fat: Fat, clst: nat, r: U32, eoc: U32): (f: Fat)
    requires 2 <= r < |fat|
    ensures |f| == |fat|
  {
    if 2 <= clst < |fat| then fat[r := eoc][clst := r] else fat[r := eoc]
  }

  /** The FAT remove_chain starts its loop on: the cluster before the removed part is made the last one. */
  function Ended(fat: Fat, pclst: nat, eoc: U32): (r: Fat)
    ensures |r| == |fat|
  {
    if 2 <= pclst < |fat| then fat[pclst := eoc] else fat
  }

  /** The FAT after the call; eoc is the end mark at this entry width. */
  function FatAfter(fat: Fat, chains: Chains, op: Op, eoc: U32): (r: Fat)
    requires Enabled(fat, chains, op)
    ensures |r| == |fat|
  {
    match op
    case Create(_, r) => Linked(fat, 0, r, eoc)
    case Stretch(i, r) => Linked(fat, chains[i][|chains[i]| - 1], r, eoc)
    case Cut(i, k) => Unlinked(Ended(fat, chains[i][k - 1], eoc), chains[i][k])
    case Remove(i) => Unlinked(Ended(fat, 0, eoc), chains[i][0])
  }

  /** What the call is meant to do: one chain gets a new last cluster, loses its tail or goes. */
  function ChainsAfter(fat: Fat, chains: Chains, op: Op): Chains
    requires Enabled(fat, chains, op)
  {
    match op
    case Create(i, r) => chains[i := [r]]
    case Stretch(i, r) => chains[i := chains[i] + [r]]
    case Cut(i, k) => chains[i := chains[i][..k]]
    case Remove(i) => chains - {i}
  }

  lemma ChainFrame(fat: Fat, fat': Fat, ch: seq<nat>)
    requires IsChain(fat, ch) && |fat'| == |fat|
    requires forall x :: x in ch ==> x < |fat| && fat'[x] == fat[x]
    ensures IsChain(fat', ch)
  {
  }

  lemma UsedInChain(fat: Fat, ch: seq<nat>, x: nat)
    requires IsChain(fat, ch) && x in ch
    ensures 2 <= x < |fat| && fat[x] >= 2
  {
    var i :| 0 <= i < |ch| && ch[i] == x;
    if i + 1 < |ch| {
      assert fat[ch[i]] == ch[i + 1];
    }
  }

  lemma FreeNotInChain(fat: Fat, ch: seq<nat>, r: nat)
    requires IsChain(fat, ch) && r < |fat| && fat[r] == 0
    ensures r !in ch
  {
    if r in ch {
      UsedInChain(fat, ch, r);
    }
  }

  lemma StretchedChain(fat: Fat, ch: seq<nat>, r: U32, eoc: U32)
    requires IsChain(fat, ch) && ch != [] && 2 <= r < |fat| && fat[r] == 0 && eoc >= |fat|
    ensures IsChain(fat[r := eoc][ch[|ch| - 1] := r], ch + [r])
  {
    var last := ch[|ch| - 1];
    var fat' := fat[r := eoc][last := r];
    var ch' := ch + [r];
    FreeNotInChain(fat, ch, r);
    forall i | 0 <= i < |ch'| - 1
      ensures fat'[ch'[i]] == ch'[i + 1]
    {
      if i < |ch| - 1 {
        if ch[i] == last { Acyclic(fat, ch, i, |ch| - 1); }
        assert ch[i] in ch;
      }
    }
  }

  /** Cutting a chain before its k-th cluster: the head is a whole chain, exactly the tail is freed. */
  lemma CutChain(fat: Fat, ch: seq<nat>, k: nat, eoc: U32)
    requires IsChain(fat, ch) && 0 < k < |ch| && eoc >= |fat|
    ensures var fat1 := fat[ch[k - 1] := eoc];
      && Visited(fat1, ch[k]) == (ch[k..], true)
      && Unlinked(fat1, ch[k]) == Zeroed(fat1, ch[k..])
      && IsChain(Unlinked(fat1, ch[k]), ch[..k])
  {
    var p := ch[k - 1];
    var fat1 := fat[p := eoc];
    var tail := ch[k..];
    forall i | 0 <= i < |ch| && ch[i] == p ensures i == k - 1 { Acyclic(fat, ch, i, k - 1); }
    Suffix(fat, ch, k);
    ChainFrame(fat, fat1, tail);
    VisitedChain(fat1, tail);
    CutHead(fat, ch, k, eoc);
  }

  lemma CutHead(fat: Fat, ch: seq<nat>, k: nat, eoc: U32)
    requires IsChain(fat, ch) && 0 < k < |ch| && eoc >= |fat|
    ensures IsChain(Zeroed(fat[ch[k - 1] := eoc], ch[k..]), ch[..k])
  {
    forall i | 0 <= i < |ch| && ch[i] == ch[k - 1] ensures i == k - 1 { Acyclic(fat, ch, i, k - 1); }
    HeadApart(fat, ch, k);
  }

  lemma HeadApart(fat: Fat, ch: seq<nat>, k: nat)
    requires IsChain(fat, ch) && k <= |ch|
    ensures forall i :: 0 <= i < k ==> ch[i] !in ch[k..]
  {
    hide IsChain;
    var tail := ch[k..];
    forall i | 0 <= i < k ensures ch[i] !in tail {
      if ch[i] in tail {
        var j :| 0 <= j < |tail| && tail[j] == ch[i];
        Acyclic(fat, ch, i, k + j);
      }
    }
  }

  /** fat' is fat with one chain, was, replaced by a whole chain over its own clusters and clusters
      that were free; clusters it gives up are free, and the entries of all others are as before. */
  ghost predicate Replaced(fat: Fat, fat': Fat, was: seq<nat>, ch: seq<nat>) {
    && |fat'| == |fat| && IsChain(fat', ch)
    && (forall x :: x in ch ==> x in was || (x < |fat| && fat[x] == 0))
    && (forall c :: 2 <= c < |fat| && c !in was && c !in ch ==> fat'[c] == fat[c])
    && (forall c :: 2 <= c < |fat| && c in was && c !in ch ==> fat'[c] == 0)
  }

  lemma ReplacedRefl(fat: Fat, ch: seq<nat>)
    requires IsChain(fat, ch)
    ensures Replaced(fat, fat, ch, ch)
  {
  }

  lemma ReplacedTrans(fat: Fat, fat': Fat, fat'': Fat, a: seq<nat>, b: seq<nat>, c: seq<nat>)
    requires IsChain(fat, a) && Replaced(fat, fat', a, b) && Replaced(fat', fat'', b, c)
    ensures Replaced(fat, fat'', a, c)
  {
    assert forall i :: 0 <= i < |c| ==> c[i] in c;
    assert forall x :: x in c ==> 2 <= x < |fat|;
    hide IsChain;
  }

  /** The clusters of the chain and the free ones are the same, taken together. */
  lemma ReplacedOwned(fat: Fat, fat': Fat, was: seq<nat>, ch: seq<nat>, c: nat)
    requires Replaced(fat, fat', was, ch) && 2 <= c < |fat|
    ensures (c in ch || fat'[c] == 0) <==> (c in was || fat[c] == 0)
  {
  }

  /** Number of clusters below hi that are in ch or free. */
  ghost function Owned(fat: Fat, ch: seq<nat>, hi: nat): nat
    requires hi <= |fat|
  {
    if hi <= 2 then 0 else Owned(fat, ch, hi - 1) + (if hi - 1 in ch || fat[hi - 1] == 0 then 1 else 0)
  }

  lemma {:induction false} OwnedSame(fat: Fat, fat': Fat, was: seq<nat>, ch: seq<nat>, hi: nat)
    requires Replaced(fat, fat', was, ch) && hi <= |fat|
    ensures Owned(fat', ch, hi) == Owned(fat, was, hi)
  {
    hide Replaced;
    assert |fat'| == |fat| by { SameSize(fat, fat', was, ch); }
    if hi > 2 {
      ReplacedOwned(fat, fat', was, ch, hi - 1);
      OwnedSame(fat, fat', was, ch, hi - 1);
    }
  }

  lemma SameSize(fat: Fat, fat': Fat, was: seq<nat>, ch: seq<nat>)
    requires Replaced(fat, fat', was, ch)
    ensures |fat'| == |fat|
  {
  }

  /** Number of elements of ch in 2..hi. */
  function Members(ch: seq<nat>, hi: nat): nat {
    if hi <= 2 then 0 else Members(ch, hi - 1) + (if hi - 1 in ch then 1 else 0)
  }

  lemma {:induction false} MembersAdd(ch: seq<nat>, x: nat, hi: nat)
    requires x !in ch && 2 <= x
    ensures Members(ch + [x], hi) == Members(ch, hi) + (if x < hi then 1 else 0)
  {
    if hi > 2 {
      MembersAdd(ch, x, hi - 1);
    }
  }

  lemma {:induction false} NoMembers(hi: nat)
    ensures Members([], hi) == 0
  {
    if hi > 2 {
      NoMembers(hi - 1);
    }
  }

  lemma {:induction false} MembersAll(ch: seq<nat>, hi: nat)
    requires (forall i :: 0 <= i < |ch| ==> 2 <= ch[i] < hi) && forall i, j :: 0 <= i < j < |ch| ==> ch[i] != ch[j]
    ensures Members(ch, hi) == |ch|
    decreases |ch|
  {
    if ch == [] {
      NoMembers(hi);
    } else {
      var k := |ch| - 1;
      MembersAll(ch[..k], hi);
      MembersAdd(ch[..k], ch[k], hi);
      assert ch[..k] + [ch[k]] == ch;
    }
  }

  lemma {:induction false} OwnedSplit(fat: Fat, ch: seq<nat>, hi: nat)
    requires IsChain(fat, ch) && hi <= |fat|
    ensures Owned(fat, ch, hi) == Members(ch, hi) + Free(fat, hi)
  {
    hide IsChain;
    if hi > 2 {
      OwnedSplit(fat, ch, hi - 1);
      if hi - 1 in ch { UsedInChain(fat, ch, hi - 1); }
    }
  }

  /** The clusters of a chain and the free ones are counted apart. */
  lemma OwnedCount(fat: Fat, ch: seq<nat>)
    requires IsChain(fat, ch)
    ensures Owned(fat, ch, |fat|) == |ch| + Free(fat, |fat|)
  {
    OwnedSplit(fat, ch, |fat|);
    forall i, j | 0 <= i < j < |ch| ensures ch[i] != ch[j] {
      if ch[i] == ch[j] { Acyclic(fat, ch, i, j); }
    }
    MembersAll(ch, |fat|);
  }

  /** Replacing a chain keeps the number of its clusters and the free ones together. */
  lemma OwnedKept(fat: Fat, fat': Fat, was: seq<nat>, ch: seq<nat>)
    requires IsChain(fat, was) && Replaced(fat, fat', was, ch)
    ensures |fat'| == |fat| && |ch| + Free(fat', |fat'|) == |was| + Free(fat, |fat|)
  {
    OwnedCount(fat, was);
    OwnedCount(fat', ch);
    OwnedSame(fat, fat', was, ch, |fat|);
  }

  /** The chains of a volume with the one of file i set; a file without clusters has none. */
  function WithChain(chains: Chains, i: nat, ch: seq<nat>): Chains {
    if ch == [] then chains - {i} else chains[i := ch]
  }

  function ChainAt(chains: Chains, i: nat): seq<nat> {
    if i in chains then chains[i] else []
  }

  /** Replacing one chain keeps every chain of a volume whole and apart, and loses no cluster. */
  lemma KeepsReplaced(fat: Fat, fat': Fat, chains: Chains, lost: set<nat>, i: nat, ch: seq<nat>)
    requires WellFormed(fat, chains, lost) && Replaced(fat, fat', ChainAt(chains, i), ch)
    ensures WellFormed(fat', WithChain(chains, i, ch), lost)
  {
    hide IsChain, Accounted, Apart;
    KeepsWhole(fat, fat', chains, i, ch);
    KeepsAccounted(fat, fat', chains, lost, i, ch);
    forall c | 2 <= c < |fat| ensures fat'[c] != 1 {
      if c in ch { UsedInChain(fat', ch, c); }
    }
  }

  lemma KeepsWhole(fat: Fat, fat': Fat, chains: Chains, i: nat, ch: seq<nat>)
    requires WholeAndApart(fat, chains) && Replaced(fat, fat', ChainAt(chains, i), ch)
    ensures WholeAndApart(fat', WithChain(chains, i, ch))
  {
    hide IsChain, Apart, Replaced;
    forall j | j in chains && j != i
      ensures IsChain(fat', chains[j]) && Apart(chains[j], ch) && Apart(ch, chains[j])
    {
      NoneApart(chains[j]);
      OtherChain(fat, fat', ChainAt(chains, i), ch, chains[j]);
    }
    ReplacedWhole(fat, fat', ChainAt(chains, i), ch);
  }

  lemma NoneApart(ch: seq<nat>)
    ensures Apart([], ch)
  {
  }

  lemma ReplacedWhole(fat: Fat, fat': Fat, was: seq<nat>, ch: seq<nat>)
    requires Replaced(fat, fat', was, ch)
    ensures IsChain(fat', ch)
  {
  }

  lemma KeepsAccounted(fat: Fat, fat': Fat, chains: Chains, lost: set<nat>, i: nat, ch: seq<nat>)
    requires Accounted(fat, chains, lost) && Replaced(fat, fat', ChainAt(chains, i), ch)
    ensures Accounted(fat', WithChain(chains, i, ch), lost)
  {
    hide IsChain;
    var chains' := WithChain(chains, i, ch);
    forall c | 2 <= c < |fat| && fat'[c] != 0 && c !in lost
      ensures InSome(chains', c)
    {
      if c in ch {
        assert c in chains'[i];
      } else {
        assert InSome(chains, c);
        var j :| j in chains && c in chains[j];
        assert c in chains'[j];
      }
    }
  }

  lemma OtherChain(fat: Fat, fat': Fat, was: seq<nat>, ch: seq<nat>, other: seq<nat>)
    requires IsChain(fat, other) && Apart(was, other)
    requires Replaced(fat, fat', was, ch)
    ensures IsChain(fat', other) && Apart(other, ch) && Apart(ch, other)
  {
    forall x | x in ch ensures x !in other {
      if x !in was {
        FreeNotInChain(fat, other, x);
      }
    }
    ChainFrame(fat, fat', other);
  }

  lemma ChainOf(fat: Fat, chains: Chains, lost: set<nat>, i: nat)
    requires WellFormed(fat, chains, lost) && i in chains
    ensures chains[i] != [] && IsChain(fat, chains[i])
  {
  }

  lemma CreateReplaces(fat: Fat, r: U32, eoc: U32)
    requires 2 <= r < |fat| && fat[r] == 0 && eoc >= |fat|
    ensures Replaced(fat, Linked(fat, 0, r, eoc), [], [r])
  {
  }

  /** Every step keeps every chain of the volume whole and apart, and loses no cluster. */
  lemma StepKeeps(fat: Fat, chains: Chains, lost: set<nat>, op: Op, eoc: U32)
    requires WellFormed(fat, chains, lost) && Enabled(fat, chains, op) && eoc >= |fat|
    ensures WellFormed(FatAfter(fat, chains, op, eoc), ChainsAfter(fat, chains, op), lost)
  {
    hide WellFormed, IsChain, Unlinked, Replaced, InFat;
    var fat' := FatAfter(fat, chains, op, eoc);
    match op
    case Create(i, r) =>
      CreateReplaces(fat, r, eoc);
      KeepsReplaced(fat, fat', chains, lost, i, [r]);
    case Stretch(i, r) =>
      ChainOf(fat, chains, lost, i);
      StretchReplaces(fat, chains[i], r, eoc);
      KeepsReplaced(fat, fat', chains, lost, i, chains[i] + [r]);
    case Cut(i, k) =>
      ChainOf(fat, chains, lost, i);
      CutReplaces(fat, chains[i], k, eoc);
      KeepsReplaced(fat, fat', chains, lost, i, chains[i][..k]);
    case Remove(i) =>
      ChainOf(fat, chains, lost, i);
      RemoveReplaces(fat, chains[i]);
      KeepsReplaced(fat, fat', chains, lost, i, []);
  }

  lemma RemoveReplaces(fat: Fat, ch: seq<nat>)
    requires IsChain(fat, ch) && ch != []
    ensures Replaced(fat, Unlinked(fat, ch[0]), ch, [])
  {
    VisitedChain(fat, ch);
  }

  lemma StretchReplaces(fat: Fat, ch: seq<nat>, r: U32, eoc: U32)
    requires IsChain(fat, ch) && ch != [] && 2 <= r < |fat| && fat[r] == 0 && eoc >= |fat|
    ensures Replaced(fat, fat[r := eoc][ch[|ch| - 1] := r], ch, ch + [r])
  {
    StretchedChain(fat, ch, r, eoc);
  }

  lemma CutReplaces(fat: Fat, ch: seq<nat>, k: nat, eoc: U32)
    requires IsChain(fat, ch) && 0 < k < |ch| && eoc >= |fat|
    ensures Replaced(fat, Unlinked(fat[ch[k - 1] := eoc], ch[k]), ch, ch[..k])
  {
    CutChain(fat, ch, k, eoc);
    assert ch == ch[..k] + ch[k..];
    assert ch[..k][k - 1] == ch[k - 1];
  }

  datatype Volume = Volume(fat: Fat, chains: Chains)

  /** A run: each step enabled where it is taken. */
  ghost predicate Reaches(v: Volume, ops: seq<Op>, eoc: U32, v': Volume)
    decreases |ops|
  {
    if ops == [] then v == v'
    else
      && Enabled(v.fat, v.chains, ops[0])
      && var next := Volume(FatAfter(v.fat, v.chains, ops[0], eoc), ChainsAfter(v.fat, v.chains, ops[0]));
         Reaches(next, ops[1..], eoc, v')
  }

  /** Over every run, all chains stay whole, acyclic and apart, and no cluster is lost. */
  lemma {:induction false} RunKeeps(v: Volume, ops: seq<Op>, eoc: U32, v': Volume, lost: set<nat>)
    requires WellFormed(v.fat, v.chains, lost) && eoc >= |v.fat| && Reaches(v, ops, eoc, v')
    ensures WellFormed(v'.fat, v'.chains, lost)
    decreases |ops|
  {
    if ops != [] {
      StepKeeps(v.fat, v.chains, lost, ops[0], eoc);
      var next := Volume(FatAfter(v.fat, v.chains, ops[0], eoc), ChainsAfter(v.fat, v.chains, ops[0]));
      RunKeeps(next, ops[1..], eoc, v', lost);
    }
  }
}
