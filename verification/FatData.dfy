/** The bytes of a file: the sectors of its clusters, in chain order. */
module FatData {
  import opened Basics
  import opened FatGeometry

  // ---------- pieces of equal size laid end to end

  function Join<T>(ps: seq<seq<T>>): (r: seq<T>) {
    if ps == [] then [] else Join(ps[..|ps| - 1]) + ps[|ps| - 1]
  }

  ghost predicate Each<T>(ps: seq<seq<T>>, n: nat) {
    forall k :: 0 <= k < |ps| ==> |ps[k]| == n
  }

  lemma {:induction false} JoinLen<T>(ps: seq<seq<T>>, n: nat)
    requires Each(ps, n)
    ensures |Join(ps)| == n * |ps|
  {
    if ps != [] {
      JoinLen(ps[..|ps| - 1], n);
      assert n * |ps| == n * (|ps| - 1) + n;
    }
  }

  lemma {:induction false} JoinConcat<T>(a: seq<seq<T>>, b: seq<seq<T>>)
    ensures Join(a + b) == Join(a) + Join(b)
    decreases |b|
  {
    if b == [] {
      assert a + b == a;
    } else {
      var c := a + b;
      assert c[..|c| - 1] == a + b[..|b| - 1];
      JoinConcat(a, b[..|b| - 1]);
    }
  }

  /** Join, split around pieces i..i+m. */
  lemma JoinSplit<T>(ps: seq<seq<T>>, n: nat, i: nat, m: nat)
    requires Each(ps, n) && i + m <= |ps|
    ensures |Join(ps[..i])| == n * i && |Join(ps[i..i + m])| == n * m
    ensures Join(ps) == Join(ps[..i]) + Join(ps[i..i + m]) + Join(ps[i + m..])
  {
    var a, b, c := ps[..i], ps[i..i + m], ps[i + m..];
    assert ps == a + b + c;
    JoinConcat(a + b, c);
    JoinConcat(a, b);
    JoinLen(a, n);
    JoinLen(b, n);
  }

  lemma JoinOne<T>(p: seq<T>)
    ensures Join([p]) == p
  {
    assert [p][..0] == [];
  }

  lemma PutMiddle<T>(x: seq<T>, y: seq<T>, z: seq<T>, o: nat, w: seq<T>)
    requires o + |w| <= |y|
    ensures Put(x + y + z, |x| + o, w) == x + Put(y, o, w) + z
  {
  }

  lemma SliceMiddle<T>(x: seq<T>, y: seq<T>, z: seq<T>, o: nat, m: nat)
    requires o + m <= |y|
    ensures (x + y + z)[|x| + o..|x| + o + m] == y[o..o + m]
  {
  }

  lemma SlicePutIn<T>(d: seq<T>, s: nat, n: nat, o: nat, ws: seq<T>)
    requires s + n <= |d| && o + |ws| <= n
    ensures Put(d, s + o, ws)[s..s + n] == Put(d[s..s + n], o, ws)
  {
    var x, y := Put(d, s + o, ws)[s..s + n], Put(d[s..s + n], o, ws);
    forall i | 0 <= i < n ensures x[i] == y[i] {
      assert x[i] == Put(d, s + o, ws)[s + i];
    }
  }

  lemma SlicePutOut<T>(d: seq<T>, k: nat, ws: seq<T>, s: nat, n: nat)
    requires s + n <= |d| && k + |ws| <= |d| && (s + n <= k || k + |ws| <= s)
    ensures Put(d, k, ws)[s..s + n] == d[s..s + n]
  {
    var x, y := Put(d, k, ws)[s..s + n], d[s..s + n];
    forall i | 0 <= i < n ensures x[i] == y[i] {
      assert x[i] == Put(d, k, ws)[s + i];
    }
  }

  /** Elements o..o+m of piece q. */
  lemma JoinPart<T>(ps: seq<seq<T>>, n: nat, q: nat, o: nat, m: nat)
    requires Each(ps, n) && q < |ps| && o + m <= n
    ensures n * q + n <= |Join(ps)|
    ensures Join(ps)[n * q + o..n * q + o + m] == ps[q][o..o + m]
  {
    JoinSplit(ps, n, q, 1);
    JoinOne(ps[q]);
    assert ps[q..q + 1] == [ps[q]];
    SliceMiddle(Join(ps[..q]), ps[q], Join(ps[q + 1..]), o, m);
  }

  /** Writing pieces ws over the pieces y between x and z. */
  lemma JoinOver<T>(x: seq<seq<T>>, y: seq<seq<T>>, z: seq<seq<T>>, y': seq<seq<T>>, o: nat, w: seq<T>)
    requires o + |w| <= |Join(y)| && Join(y') == Put(Join(y), o, w)
    ensures |Join(x)| + o + |w| <= |Join(x + y + z)|
    ensures Join(x + y' + z) == Put(Join(x + y + z), |Join(x)| + o, w)
  {
    hide Join, Put;
    JoinConcat(x + y, z);
    JoinConcat(x, y);
    JoinConcat(x + y', z);
    JoinConcat(x, y');
    PutMiddle(Join(x), Join(y), Join(z), o, w);
  }

  /** Writing w into piece q at offset o. */
  lemma JoinPatch<T>(ps: seq<seq<T>>, n: nat, q: nat, o: nat, w: seq<T>)
    requires Each(ps, n) && q < |ps| && o + |w| <= n
    ensures n * q + n <= |Join(ps)|
    ensures Join(ps[q := Put(ps[q], o, w)]) == Put(Join(ps), n * q + o, w)
  {
    hide Join, Put;
    var p := Put(ps[q], o, w);
    JoinOne(ps[q]);
    JoinOne(p);
    JoinLen(ps[..q], n);
    assert ps == ps[..q] + [ps[q]] + ps[q + 1..];
    assert ps[q := p] == ps[..q] + [p] + ps[q + 1..];
    JoinOver(ps[..q], [ps[q]], ps[q + 1..], [p], o, w);
    JoinPart(ps, n, q, 0, n);
  }

  /** Writing whole pieces. */
  lemma JoinPut<T>(ps: seq<seq<T>>, n: nat, i: nat, ws: seq<seq<T>>)
    requires Each(ps, n) && Each(ws, n) && i + |ws| <= |ps|
    ensures n * i + |Join(ws)| <= |Join(ps)|
    ensures Join(Put(ps, i, ws)) == Put(Join(ps), n * i, Join(ws))
  {
    hide Join, Put;
    var m := |ws|;
    var x, y, z := ps[..i], ps[i..i + m], ps[i + m..];
    PutParts(ps, i, ws);
    JoinLen(x, n);
    JoinLen(y, n);
    JoinLen(ws, n);
    PutAll(Join(y), Join(ws));
    JoinOver(x, y, z, ws, 0, Join(ws));
  }

  lemma PutParts<T>(s: seq<T>, i: nat, ws: seq<T>)
    requires i + |ws| <= |s|
    ensures s == s[..i] + s[i..i + |ws|] + s[i + |ws|..] && Put(s, i, ws) == s[..i] + ws + s[i + |ws|..]
  {
  }

  lemma PutAll<T>(s: seq<T>, ws: seq<T>)
    requires |ws| == |s|
    ensures Put(s, 0, ws) == ws
  {
  }

  /** Reading whole pieces. */
  lemma JoinSlice<T>(ps: seq<seq<T>>, n: nat, i: nat, m: nat)
    requires Each(ps, n) && i + m <= |ps|
    ensures n * i + n * m <= |Join(ps)|
    ensures Join(ps)[n * i..n * i + n * m] == Join(ps[i..i + m])
  {
    JoinSplit(ps, n, i, m);
    SliceMiddle(Join(ps[..i]), Join(ps[i..i + m]), Join(ps[i + m..]), 0, n * m);
  }

  // ---------- clusters of a file

  /** First sector of cluster c (clst2sect for a cluster in range). */
  function ClusterSector(g: Geometry, c: int): int {
    g.database + g.csize * (c - 2)
  }

  lemma MulMono(k: nat, a: int, b: int)
    requires a <= b
    ensures k * a <= k * b
  {
  }

  lemma ClusterInDisk(g: Geometry, c: nat)
    requires g.Valid() && 2 <= c < g.nFatent
    ensures g.database <= ClusterSector(g, c)
    ensures ClusterSector(g, c) + g.csize <= g.database + g.csize * (g.nFatent - 2) < 0x1_0000_0000
  {
    MulMono(g.csize, c - 1, g.nFatent - 2);
    MulMono(g.csize, 0, c - 2);
  }

  lemma ClustersApart(g: Geometry, c: nat, c': nat)
    requires g.Valid() && c < c'
    ensures ClusterSector(g, c) + g.csize <= ClusterSector(g, c')
  {
    MulMono(g.csize, c - 1, c' - 2);
  }

  /** Every cluster is one of the volume's. */
  ghost predicate InVolume(g: Geometry, ch: seq<nat>) {
    forall k :: 0 <= k < |ch| ==> 2 <= ch[k] < g.nFatent
  }

  ghost predicate NoDup(ch: seq<nat>) {
    forall i, j :: 0 <= i < j < |ch| ==> ch[i] != ch[j]
  }

  /** The csize sectors of cluster c. */
  function Cluster(g: Geometry, d: Disk, c: nat): (r: seq<Sector>)
    requires g.Valid() && g.Fits(d) && 2 <= c < g.nFatent
    ensures |r| == g.csize
  {
    ClusterInDisk(g, c);
    d[ClusterSector(g, c)..ClusterSector(g, c) + g.csize]
  }

  ghost function Clusters(g: Geometry, d: Disk, ch: seq<nat>): (r: seq<seq<Sector>>)
    requires g.Valid() && g.Fits(d) && InVolume(g, ch)
    ensures Each(r, g.csize) && |r| == |ch|
    ensures forall k :: 0 <= k < |ch| ==> r[k] == Cluster(g, d, ch[k])
  {
    seq(|ch|, k requires 0 <= k < |ch| => Cluster(g, d, ch[k]))
  }

  /** All bytes of a file's clusters, in chain order. */
  ghost function View(g: Geometry, d: Disk, ch: seq<nat>): (r: seq<Byte>)
    requires g.Valid() && g.Fits(d) && InVolume(g, ch)
    ensures |r| == 512 * (g.csize * |ch|)
  {
    var secs: seq<Sector> := Join(Clusters(g, d, ch));
    JoinLen(Clusters(g, d, ch), g.csize);
    JoinLen(secs, 512);
    Join(secs)
  }

  /** Sectors o..o+n of cluster q of the file. */
  lemma ViewSlice(g: Geometry, d: Disk, ch: seq<nat>, q: nat, o: nat, n: nat)
    requires g.Valid() && g.Fits(d) && InVolume(g, ch) && q < |ch| && o + n <= g.csize
    ensures var s := ClusterSector(g, ch[q]) + o;
      && 0 <= s && s + n <= |d|
      && 512 * (g.csize * q + o) + 512 * n <= |View(g, d, ch)|
      && View(g, d, ch)[512 * (g.csize * q + o)..512 * (g.csize * q + o) + 512 * n] == Join(d[s..s + n])
  {
    hide Join;
    ClusterInDisk(g, ch[q]);
    var cs := Clusters(g, d, ch);
    var secs: seq<Sector> := Join(cs);
    var t, i := ClusterSector(g, ch[q]), g.csize * q + o;
    JoinPart(cs, g.csize, q, o, n);
    SubSlice(d, t, t + g.csize, o, n);
    assert secs[i..i + n] == d[t + o..t + o + n];
    JoinRun(secs, i, n);
  }

  /** Sectors i..i+n, as bytes. */
  lemma JoinRun(secs: seq<Sector>, i: nat, n: nat)
    requires i + n <= |secs|
    ensures 512 * i + 512 * n <= |Join(secs)| && Join(secs)[512 * i..512 * i + 512 * n] == Join(secs[i..i + n])
  {
    hide Join;
    JoinSlice(secs, 512, i, n);
  }

  /** Bytes a..a+n of sector o of cluster q of the file. */
  lemma ViewPart(g: Geometry, d: Disk, ch: seq<nat>, q: nat, o: nat, a: nat, n: nat)
    requires g.Valid() && g.Fits(d) && InVolume(g, ch) && q < |ch| && o < g.csize && a + n <= 512
    ensures var s := ClusterSector(g, ch[q]) + o;
      && 0 <= s < |d|
      && 512 * (g.csize * q + o) + 512 <= |View(g, d, ch)|
      && View(g, d, ch)[512 * (g.csize * q + o) + a..512 * (g.csize * q + o) + a + n] == d[s][a..a + n]
  {
    ViewSlice(g, d, ch, q, o, 1);
    var s, t := ClusterSector(g, ch[q]) + o, 512 * (g.csize * q + o);
    assert d[s..s + 1] == [d[s]];
    JoinOne(d[s]);
    SubSlice(View(g, d, ch), t, t + 512, a, n);
  }

  /** Writing sectors inside cluster c leaves the other clusters alone. */
  lemma ClusterPut(g: Geometry, d: Disk, c: nat, o: nat, ws: seq<Sector>, c': nat)
    requires g.Valid() && g.Fits(d) && 2 <= c < g.nFatent && 2 <= c' < g.nFatent && o + |ws| <= g.csize
    ensures 0 <= ClusterSector(g, c) && ClusterSector(g, c) + o + |ws| <= |d|
    ensures var d' := Put(d, ClusterSector(g, c) + o, ws);
      Cluster(g, d', c') == if c' == c then Put(Cluster(g, d, c), o, ws) else Cluster(g, d, c')
  {
    hide Put, ClusterSector, Geometry.Valid;
    ClusterInDisk(g, c);
    ClusterInDisk(g, c');
    var s, s' := ClusterSector(g, c), ClusterSector(g, c');
    if c == c' {
      SlicePutIn(d, s, g.csize, o, ws);
    } else {
      if c < c' {
        ClustersApart(g, c, c');
      } else {
        ClustersApart(g, c', c);
      }
      SlicePutOut(d, s + o, ws, s', g.csize);
    }
  }

  /** Writing sectors inside cluster q of the file writes their bytes at that place of the file. */
  lemma ViewPut(g: Geometry, d: Disk, ch: seq<nat>, q: nat, o: nat, ws: seq<Sector>)
    requires g.Valid() && g.Fits(d) && InVolume(g, ch) && NoDup(ch) && q < |ch| && o + |ws| <= g.csize
    ensures var s := ClusterSector(g, ch[q]) + o;
      && 0 <= s && s + |ws| <= |d|
      && 512 * (g.csize * q + o) + |Join(ws)| <= |View(g, d, ch)|
      && View(g, Put(d, s, ws), ch) == Put(View(g, d, ch), 512 * (g.csize * q + o), Join(ws))
  {
    hide Join, Cluster;
    ClusterInDisk(g, ch[q]);
    var s := ClusterSector(g, ch[q]) + o;
    var cs := Clusters(g, d, ch);
    var cs' := Clusters(g, Put(d, s, ws), ch);
    forall k | 0 <= k < |ch|
      ensures cs'[k] == if k == q then Put(cs[q], o, ws) else cs[k]
    {
      ClusterPut(g, d, ch[q], o, ws, ch[k]);
    }
    assert cs' == cs[q := Put(cs[q], o, ws)];
    JoinPatch(cs, g.csize, q, o, ws);
    var secs: seq<Sector> := Join(cs);
    JoinPut(secs, 512, g.csize * q + o, ws);
    assert Put<seq<Byte>>(secs, g.csize * q + o, ws) == Put<Sector>(secs, g.csize * q + o, ws);
  }

  lemma PutInPut<T>(v: seq<T>, t: nat, e: nat, a: nat, bytes: seq<T>)
    requires t + a + |bytes| <= e <= |v|
    ensures Put(v, t, Put(v[t..e], a, bytes)) == Put(v, t + a, bytes)
  {
    var w := Put(v[t..e], a, bytes);
    var x, y := Put(v, t, w), Put(v, t + a, bytes);
    assert |x| == |v| == |y|;
    forall i | 0 <= i < |v| ensures x[i] == y[i] {
      if t <= i < e {
        assert x[i] == w[i - t];
        if t + a <= i < t + a + |bytes| {
          assert w[i - t] == bytes[i - t - a];
        } else {
          assert w[i - t] == v[t..e][i - t];
        }
      }
    }
  }

  /** Writing bytes into sector o of cluster q of the file. */
  lemma ViewPatch(g: Geometry, d: Disk, ch: seq<nat>, q: nat, o: nat, a: nat, bytes: seq<Byte>)
    requires g.Valid() && g.Fits(d) && InVolume(g, ch) && NoDup(ch) && q < |ch| && o < g.csize && a + |bytes| <= 512
    ensures var s := ClusterSector(g, ch[q]) + o;
      && 0 <= s < |d|
      && 512 * (g.csize * q + o) + 512 <= |View(g, d, ch)|
      && View(g, d[s := Put(d[s], a, bytes)], ch) == Put(View(g, d, ch), 512 * (g.csize * q + o) + a, bytes)
  {
    hide View, Join, Put;
    ViewPart(g, d, ch, q, o, 0, 512);
    var s, t := ClusterSector(g, ch[q]) + o, 512 * (g.csize * q + o);
    var v := View(g, d, ch);
    assert d[s][0..512] == d[s];
    var w: Sector := Put(d[s], a, bytes);
    ViewPut(g, d, ch, q, o, [w]);
    JoinOne<Byte>(w);
    PutOne(d, s, w);
    PutInPut(v, t, t + 512, a, bytes);
  }

  lemma PutOne<T>(d: seq<T>, s: nat, w: T)
    requires s < |d|
    ensures Put(d, s, [w]) == d[s := w]
  {
  }

  /** A new last cluster leaves the bytes before it alone. */
  lemma ViewAppend(g: Geometry, d: Disk, ch: seq<nat>, r: nat)
    requires g.Valid() && g.Fits(d) && InVolume(g, ch + [r])
    ensures InVolume(g, ch)
    ensures View(g, d, ch) <= View(g, d, ch + [r])
  {
    hide Join;
    assert forall k :: 0 <= k < |ch| ==> ch[k] == (ch + [r])[k];
    assert (ch + [r])[|ch|] == r;
    var cs, c := Clusters(g, d, ch), Cluster(g, d, r);
    assert Clusters(g, d, ch + [r]) == cs + [c];
    JoinConcat(cs, [c]);
    var a: seq<Sector>, b: seq<Sector> := Join(cs), Join([c]);
    JoinConcat<Byte>(a, b);
  }

  /** The bytes of a file depend on its own clusters only. */
  lemma ViewSame(g: Geometry, d: Disk, d': Disk, ch: seq<nat>)
    requires g.Valid() && g.Fits(d) && g.Fits(d') && InVolume(g, ch)
    requires forall k :: 0 <= k < |ch| ==> Cluster(g, d, ch[k]) == Cluster(g, d', ch[k])
    ensures View(g, d, ch) == View(g, d', ch)
  {
    assert Clusters(g, d, ch) == Clusters(g, d', ch);
  }

  lemma ClusterSame(g: Geometry, d: Disk, d': Disk, c: nat)
    requires g.Valid() && g.Fits(d) && g.Fits(d') && 2 <= c < g.nFatent
    requires forall s :: ClusterSector(g, c) <= s < ClusterSector(g, c) + g.csize && 0 <= s < |d| && s < |d'| ==>
      d[s] == d'[s]
    ensures Cluster(g, d, c) == Cluster(g, d', c)
  {
    ClusterInDisk(g, c);
    var s := ClusterSector(g, c);
    var x, y := d[s..s + g.csize], d'[s..s + g.csize];
    forall i | 0 <= i < g.csize ensures x[i] == y[i] {
      assert x[i] == d[s + i] && y[i] == d'[s + i];
    }
  }

  /** The first clusters hold the first bytes. */
  lemma ViewPrefix(g: Geometry, d: Disk, ch: seq<nat>, k: nat)
    requires g.Valid() && g.Fits(d) && InVolume(g, ch) && k <= |ch|
    ensures InVolume(g, ch[..k]) && View(g, d, ch[..k]) <= View(g, d, ch)
  {
    hide Join;
    var cs := Clusters(g, d, ch);
    assert Clusters(g, d, ch[..k]) == cs[..k];
    assert cs == cs[..k] + cs[k..];
    JoinConcat(cs[..k], cs[k..]);
    var a: seq<Sector>, b: seq<Sector> := Join(cs[..k]), Join(cs[k..]);
    JoinConcat<Byte>(a, b);
  }
}
