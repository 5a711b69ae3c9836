/** The pointer-chase buffer of the benchmark: one cycle through all slots (build_perm and k_chase in
    baremetal/programs/perf_baseline.c). */
module PermCycle {

  /** c is a cycle of b: each element leads to the next, the last to the first. */
  ghost predicate IsCycle(b: seq<nat>, c: seq<nat>) {
    && c != []
    && (forall t :: 0 <= t < |c| ==> c[t] < |b|)
    && (forall t :: 0 <= t < |c| - 1 ==> b[c[t]] == c[t + 1])
    && b[c[|c| - 1]] == c[0]
  }

  ghost predicate NoDup(c: seq<nat>) {
    forall s, t :: 0 <= s < t < |c| ==> c[s] != c[t]
  }

  ghost predicate Apart(c: seq<nat>, d: seq<nat>) {
    forall s, t :: 0 <= s < |c| && 0 <= t < |d| ==> c[s] != d[t]
  }

  function Total(cs: seq<seq<nat>>): nat {
    if cs == [] then 0 else Total(cs[..|cs| - 1]) + |cs[|cs| - 1]|
  }

  /** b consists of separate cycles, the one of number p starting with p, that have all slots. */
  ghost predicate Cycles(b: seq<nat>, cs: seq<seq<nat>>) {
    && (forall p :: 0 <= p < |cs| ==> IsCycle(b, cs[p]) && cs[p][0] == p && NoDup(cs[p]))
    && (forall p, q :: 0 <= p < q < |cs| ==> Apart(cs[p], cs[q]))
    && Total(cs) == |b|
  }

  lemma {:induction false} Identity(n: nat)
    ensures Total(seq(n, p => [p])) == n
  {
    if n > 0 {
      Identity(n - 1);
      assert seq(n, p => [p])[..n - 1] == seq(n - 1, p => [p]);
    }
  }

  lemma {:induction false} TotalUpdate(cs: seq<seq<nat>>, j: nat, c: seq<nat>)
    requires j < |cs|
    ensures Total(cs[j := c]) == Total(cs) - |cs[j]| + |c|
    decreases |cs|
  {
    var n := |cs| - 1;
    if j == n {
      assert cs[j := c][..n] == cs[..n];
    } else {
      TotalUpdate(cs[..n], j, c);
      assert cs[j := c][..n] == cs[..n][j := c];
    }
  }

  /** The cycle that swapping b[i] and b[j] makes of the cycles that start with i and j. */
  function Merged(ci: seq<nat>, cj: seq<nat>): seq<nat>
    requires ci != [] && cj != []
  {
    [cj[0]] + ci[1..] + [ci[0]] + cj[1..]
  }

  function Swapped(b: seq<nat>, i: nat, j: nat): seq<nat>
    requires i < |b| && j < |b|
  {
    b[i := b[j]][j := b[i]]
  }

  /** Where an element of the merged cycle leads. */
  lemma MergedNext(b: seq<nat>, ci: seq<nat>, cj: seq<nat>, t: nat)
    requires IsCycle(b, ci) && IsCycle(b, cj) && NoDup(ci) && NoDup(cj) && Apart(ci, cj)
    requires t < |Merged(ci, cj)|
    ensures
      var m, b' := Merged(ci, cj), Swapped(b, ci[0], cj[0]);
      m[t] < |b'| && b'[m[t]] == if t + 1 < |m| then m[t + 1] else m[0]
  {
    var n := |ci|;
    if t == 0 {
    } else if t < n {
      assert Merged(ci, cj)[t] == ci[t];
    } else if t == n {
      assert Merged(ci, cj)[t] == ci[0];
    } else {
      assert Merged(ci, cj)[t] == cj[t - n];
    }
  }

  lemma MergedCycle(b: seq<nat>, ci: seq<nat>, cj: seq<nat>)
    requires IsCycle(b, ci) && IsCycle(b, cj) && NoDup(ci) && NoDup(cj) && Apart(ci, cj)
    ensures IsCycle(Swapped(b, ci[0], cj[0]), Merged(ci, cj)) && NoDup(Merged(ci, cj))
  {
    var m := Merged(ci, cj);
    forall t | 0 <= t < |m|
      ensures m[t] < |b| && Swapped(b, ci[0], cj[0])[m[t]] == if t + 1 < |m| then m[t + 1] else m[0]
    {
      MergedNext(b, ci, cj, t);
    }
    MergedElements(ci, cj);
  }

  lemma MergedElements(ci: seq<nat>, cj: seq<nat>)
    requires ci != [] && cj != [] && NoDup(ci) && NoDup(cj) && Apart(ci, cj)
    ensures NoDup(Merged(ci, cj)) && |Merged(ci, cj)| == |ci| + |cj|
    ensures forall t :: 0 <= t < |ci| + |cj| ==> Merged(ci, cj)[t] in ci || Merged(ci, cj)[t] in cj
  {
    var m, n := Merged(ci, cj), |ci|;
    assert forall t :: 0 <= t < |m| ==>
      m[t] == if t == 0 then cj[0] else if t < n then ci[t] else if t == n then ci[0] else cj[t - n];
  }

  /** Other cycles are not touched. */
  lemma OtherCycle(b: seq<nat>, c: seq<nat>, i: nat, j: nat)
    requires IsCycle(b, c) && i < |b| && j < |b| && i !in c && j !in c
    ensures IsCycle(Swapped(b, i, j), c)
  {
    assert forall t :: 0 <= t < |c| ==> c[t] in c;
  }

  /** A swap of the last cycle's head with a lower one merges the two cycles. */
  lemma SwapMerges(b: seq<nat>, cs: seq<seq<nat>>, j: nat)
    requires Cycles(b, cs) && j < |cs| - 1 < |b|
    ensures var i := |cs| - 1;
      Cycles(Swapped(b, i, j), cs[..i][j := Merged(cs[i], cs[j])])
  {
    hide IsCycle, Merged, Total, Swapped;
    var i := |cs| - 1;
    HeadsOf(b, cs, i, j);
    var m := Merged(cs[i], cs[j]);
    var cs' := cs[..i][j := m];
    var b' := Swapped(b, i, j);
    ApartBack(cs[j], cs[i]);
    MergedCycle(b, cs[i], cs[j]);
    MergedElements(cs[i], cs[j]);
    forall p | 0 <= p < i && p != j ensures IsCycle(b', cs[p]) && cs'[p] == cs[p] {
      HeadsApart(b, cs, p, i);
      HeadsApart(b, cs, p, j);
      OtherCycle(b, cs[p], i, j);
    }
    forall p, q | 0 <= p < q < i ensures Apart(cs'[p], cs'[q]) {
      if p == j {
        ApartMerged(cs[i], cs[j], cs[q], true);
      } else if q == j {
        ApartMerged(cs[i], cs[j], cs[p], false);
      }
    }
    MergedHead(cs[i], cs[j]);
    TotalSplit(cs, i);
    TotalUpdate(cs[..i], j, m);
    SwappedSize(b, i, j);
  }

  lemma SwappedSize(b: seq<nat>, i: nat, j: nat)
    requires i < |b| && j < |b|
    ensures |Swapped(b, i, j)| == |b|
  {
  }

  lemma MergedHead(ci: seq<nat>, cj: seq<nat>)
    requires ci != [] && cj != []
    ensures Merged(ci, cj) != [] && Merged(ci, cj)[0] == cj[0]
  {
  }

  lemma TotalSplit(cs: seq<seq<nat>>, i: nat)
    requires |cs| == i + 1
    ensures Total(cs) == Total(cs[..i]) + |cs[i]|
  {
  }

  lemma HeadsOf(b: seq<nat>, cs: seq<seq<nat>>, i: nat, j: nat)
    requires Cycles(b, cs) && i < |cs| && j < |cs|
    ensures cs[i] != [] && cs[j] != [] && cs[i][0] == i < |b| && cs[j][0] == j < |b|
  {
  }

  lemma HeadsApart(b: seq<nat>, cs: seq<seq<nat>>, p: nat, q: nat)
    requires Cycles(b, cs) && p < |cs| && q < |cs| && p != q
    ensures q !in cs[p] && Apart(cs[p], cs[q])
  {
    if p < q { assert Apart(cs[p], cs[q]); } else { assert Apart(cs[q], cs[p]); }
    assert cs[q][0] == q;
  }

  lemma ApartBack(c: seq<nat>, d: seq<nat>)
    requires Apart(c, d)
    ensures Apart(d, c)
  {
  }

  lemma ApartMerged(ci: seq<nat>, cj: seq<nat>, c: seq<nat>, first: bool)
    requires ci != [] && cj != [] && (Apart(ci, c) || Apart(c, ci)) && (Apart(cj, c) || Apart(c, cj))
    ensures if first then Apart(Merged(ci, cj), c) else Apart(c, Merged(ci, cj))
  {
    var m, n := Merged(ci, cj), |ci|;
    assert forall t :: 0 <= t < |m| ==>
      m[t] == if t == 0 then cj[0] else if t < n then ci[t] else if t == n then ci[0] else cj[t - n];
  }

  /** build_perm: for every choice of j < i, one cycle through all slots. */
  method BuildPerm(b: array<nat>, choice: nat -> nat) returns (ghost lap: seq<nat>)
    requires b.Length >= 1
    modifies b
    ensures IsCycle(b[..], lap) && NoDup(lap) && |lap| == b.Length && lap[0] == 0
  {
    hide IsCycle, Merged, Swapped, Total, Apart, NoDup;
    var n := b.Length;
    for k := 0 to n
      invariant forall p :: 0 <= p < k ==> b[p] == p
    {
      b[k] := k;
    }
    ghost var cs: seq<seq<nat>> := seq(n, p => [p]);
    Start(b[..], cs);
    var i := n - 1;
    while i > 0
      invariant 0 <= i < n && |cs| == i + 1 && Cycles(b[..], cs)
    {
      var j := choice(i) % i;
      SwapMerges(b[..], cs, j);
      HeadsOf(b[..], cs, i, j);
      cs := cs[..i][j := Merged(cs[i], cs[j])];
      ghost var was := b[..];
      var t := b[i];
      b[i] := b[j];
      b[j] := t;
      SwapIs(was, b[..], i, j);
      i := i - 1;
    }
    lap := cs[0];
    Single(b[..], cs);
  }

  lemma SwapIs(b: seq<nat>, b': seq<nat>, i: nat, j: nat)
    requires i < |b| && j < |b| && b' == b[i := b[j]][j := b[i]]
    ensures b' == Swapped(b, i, j)
  {
  }

  lemma Start(b: seq<nat>, cs: seq<seq<nat>>)
    requires (forall p :: 0 <= p < |b| ==> b[p] == p) && cs == seq(|b|, p => [p])
    ensures Cycles(b, cs)
  {
    Identity(|b|);
  }

  lemma Single(b: seq<nat>, cs: seq<seq<nat>>)
    requires Cycles(b, cs) && |cs| == 1
    ensures IsCycle(b, cs[0]) && NoDup(cs[0]) && |cs[0]| == |b| && cs[0][0] == 0
  {
    TotalSplit(cs, 0);
    assert cs[..0] == [];
    assert Total([]) == 0;
  }

  // ---------- the chase

  /** The slot after t steps from slot x. */
  function Walk(b: seq<nat>, x: nat, t: nat): nat
    requires x < |b| && forall i :: 0 <= i < |b| ==> b[i] < |b|
    ensures Walk(b, x, t) < |b|
  {
    if t == 0 then x else b[Walk(b, x, t - 1)]
  }

  lemma {:induction false} WalkFollows(b: seq<nat>, lap: seq<nat>, t: nat)
    requires IsCycle(b, lap) && t <= |lap| && forall i :: 0 <= i < |b| ==> b[i] < |b|
    ensures Walk(b, lap[0], t) == if t < |lap| then lap[t] else lap[0]
  {
    if t > 0 {
      WalkFollows(b, lap, t - 1);
    }
  }

  /** A list of n different numbers below n has all of them. */
  lemma {:induction false} AllThere(c: seq<nat>, n: nat)
    requires NoDup(c) && |c| == n && forall t :: 0 <= t < n ==> c[t] < n
    ensures forall x :: 0 <= x < n ==> x in c
    decreases n
  {
    if n > 0 {
      var last := n - 1;
      if last in c {
        var k :| 0 <= k < n && c[k] == last;
        var d := c[..k] + c[k + 1..];
        assert forall t :: 0 <= t < |d| ==> d[t] == c[if t < k then t else t + 1];
        AllThere(d, n - 1);
        assert forall x :: x in d ==> x in c;
      } else {
        Pigeon(c, n - 1);
      }
    }
  }

  /** More than n different numbers are not all below n. */
  lemma {:induction false} Pigeon(c: seq<nat>, n: nat)
    requires NoDup(c) && |c| > n
    ensures exists t :: 0 <= t < |c| && c[t] >= n
    decreases n
  {
    if n == 0 {
      assert c[0] >= 0;
    } else if n - 1 in c {
      var k :| 0 <= k < |c| && c[k] == n - 1;
      var d := c[..k] + c[k + 1..];
      assert forall t :: 0 <= t < |d| ==> d[t] == c[if t < k then t else t + 1];
      Pigeon(d, n - 1);
      var t :| 0 <= t < |d| && d[t] >= n - 1;
      assert c[if t < k then t else t + 1] >= n;
    } else {
      Pigeon(c, n - 1);
      var t :| 0 <= t < |c| && c[t] >= n - 1;
      assert c[t] in c;
    }
  }

  /** From slot 0 the chase comes to every slot exactly once, and after n steps to 0 again. */
  lemma OneLap(b: seq<nat>, lap: seq<nat>, x: nat)
    requires IsCycle(b, lap) && NoDup(lap) && |lap| == |b| && lap[0] == 0 && x < |b|
    ensures forall i :: 0 <= i < |b| ==> b[i] < |b|
    ensures Walk(b, 0, |b|) == 0
    ensures exists t :: 0 <= t < |b| && Walk(b, 0, t) == x
    ensures forall s, t :: 0 <= s < t < |b| ==> Walk(b, 0, s) != Walk(b, 0, t)
  {
    AllThere(lap, |b|);
    forall i | 0 <= i < |b| ensures b[i] < |b| {
      assert i in lap;
      var t :| 0 <= t < |lap| && lap[t] == i;
      assert b[lap[t]] == if t + 1 < |lap| then lap[t + 1] else lap[0];
    }
    forall t | 0 <= t <= |lap| ensures Walk(b, 0, t) == if t < |lap| then lap[t] else 0 {
      WalkFollows(b, lap, t);
    }
    assert x in lap;
    var t :| 0 <= t < |lap| && lap[t] == x;
    assert Walk(b, 0, t) == x;
  }

  /** The sum of the slots visited in t steps. */
  function Visits(b: seq<nat>, t: nat): nat
    requires b != [] && forall i :: 0 <= i < |b| ==> b[i] < |b|
  {
    if t == 0 then 0 else Visits(b, t - 1) + Walk(b, 0, t)
  }

  /** k_chase. */
  method Chase(b: array<nat>, steps: nat) returns (idx: nat, acc: nat)
    requires b.Length >= 1 && forall i :: 0 <= i < b.Length ==> b[i] < b.Length
    ensures idx == Walk(b[..], 0, steps) && acc == Visits(b[..], steps) % 0x1_0000_0000_0000_0000
  {
    idx, acc := 0, 0;
    for i := 0 to steps
      invariant idx == Walk(b[..], 0, i) && acc == Visits(b[..], i) % 0x1_0000_0000_0000_0000
    {
      idx := b[idx];
      acc := (acc + idx) % 0x1_0000_0000_0000_0000;
    }
  }
}
