/** Sequences and numbers. */
module Basics {
  /** s with ws written over it at k. */
  function Put<T>(s: seq<T>, k: nat, ws: seq<T>): (r: seq<T>)
    requires k + |ws| <= |s|
    ensures |r| == |s|
  {
    s[..k] + ws + s[k + |ws|..]
  }

  lemma SubSlice<T>(v: seq<T>, t: nat, e: nat, a: nat, n: nat)
    requires t + a + n <= e <= |v|
    ensures v[t..e][a..a + n] == v[t + a..t + a + n]
  {
    var x, y := v[t..e][a..a + n], v[t + a..t + a + n];
    forall i | 0 <= i < n ensures x[i] == y[i] {
      assert x[i] == v[t..e][a + i] == v[t + a + i];
    }
  }

  function Pow256(n: nat): (p: nat)
    ensures p > 0
  {
    if n == 0 then 1 else 256 * Pow256(n - 1)
  }

  lemma MulAway(n: nat, d: int)
    requires n > 0
    ensures d > 0 ==> n * d >= n
    ensures d < 0 ==> n * d <= 0 - n
  {
  }

  lemma ModIs(a: int, n: nat, q: int, r: int)
    requires n > 0 && 0 <= r < n && a == n * q + r
    ensures a % n == r
  {
    var d := a / n - q;
    assert a % n == r - n * d;
    MulAway(n, d);
  }
}
