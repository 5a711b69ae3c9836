/** Entry sets in a directory: writing them, finding a file by its long name, and reading names
    back (fatfs/ff.c, dir_register, dir_find, dir_read). A directory is a sequence of 32-byte
    entries. */
module LfnDirectory {
  import opened FatGeometry
  import opened Lfn

  /** Rotates a byte right by one bit. */
  function Ror(s: Byte): Byte {
    var s: int := s;
    s / 2 + 128 * (s % 2)
  }

  function Plus(s: Byte, c: Byte): Byte {
    var s: int, c: int := s, c;
    (s + c) % 256
  }

  /** The checksum of a short name: what is there is rotated, and the next byte added, modulo 256. */
  function Sum(name: seq<Byte>): Byte {
    if name == [] then 0 else Plus(Ror(Sum(name[..|name| - 1])), name[|name| - 1])
  }

  function SumSfn(e: Entry): Byte {
    Sum(e[..11])
  }

  /** sum_sfn: (sum >> 1) + (sum << 7) + c, cut to eight bits. */
  method ComputeSum(name: seq<Byte>) returns (sum: Byte)
    requires |name| == 11
    ensures sum == Sum(name)
  {
    sum := 0;
    for i := 0 to 11
      invariant sum == Sum(name[..i])
    {
      var s: int, c: int := sum, name[i];
      sum := (s / 2 + s * 128 + c) % 256;
      assert name[..i + 1][..i] == name[..i];
      ShiftsRotate(s, c);
    }
    assert name[..11] == name;
  }

  /** The two shifts make a rotation. */
  lemma ShiftsRotate(s: Byte, c: Byte)
    ensures
      var si: int, ci: int := s, c;
      (si / 2 + si * 128 + ci) % 256 == Plus(Ror(s), c)
  {
    var si: int, ci: int := s, c;
    var h, b := si / 2, si % 2;
    assert si / 2 + si * 128 + ci == 256 * h + (h + 128 * b + ci);
    Wraps(h, h + 128 * b + ci);
  }

  lemma Wraps(h: int, x: int)
    ensures (256 * h + x) % 256 == x % 256
  {
  }

  /** Short names that differ in one byte have different sums. */
  lemma {:induction false} SumDetects(a: seq<Byte>, b: seq<Byte>, i: nat)
    requires i < |a| == |b| && a[i] != b[i] && forall j :: 0 <= j < |a| && j != i ==> a[j] == b[j]
    ensures Sum(a) != Sum(b)
    decreases |a|
  {
    hide Ror, Plus;
    var n := |a| - 1;
    if i == n {
      assert a[..n] == b[..n];
      PlusInjective(Ror(Sum(a[..n])), a[n], Ror(Sum(b[..n])), b[n]);
    } else {
      SumDetects(a[..n], b[..n], i);
      RorInjective(Sum(a[..n]), Sum(b[..n]));
      PlusInjective(Ror(Sum(a[..n])), a[n], Ror(Sum(b[..n])), b[n]);
    }
  }

  lemma PlusInjective(s: Byte, c: Byte, t: Byte, d: Byte)
    requires (s == t) != (c == d)
    ensures Plus(s, c) != Plus(t, d)
  {
  }

  lemma RorInjective(s: Byte, t: Byte)
    requires s != t
    ensures Ror(s) != Ror(t)
  {
  }

  // ---------- the entries of one name

  /** The shape of entry k of a name, as the readers see it. */
  lemma PartShape(e: Entry, name: seq<Unit>, k: nat, sum: Byte)
    requires Storable(name) && IsPart(e, name, k, sum)
    ensures Order(e[0]) == k && e[0] % 64 == k && k <= 5 && 13 * (k - 1) < |name|
    ensures IsLast(e[0]) <==> k == Count(|name|)
    ensures k == Count(|name|) <==> |name| <= 13 * k
    ensures Terminator(e, 0) == if |name| < 13 * k then |name| - 13 * (k - 1) else 13
    ensures FilledUp(e) && e[26] == 0 && e[27] == 0
  {
    PartEnds(|name|, k);
    PartTerminator(e, name, k);
  }

  lemma PartTerminator(e: Entry, name: seq<Unit>, k: nat)
    requires Storable(name) && HasUnits(e, name, k, 13) && 13 * (k - 1) < |name|
    ensures Terminator(e, 0) == if |name| < 13 * k then |name| - 13 * (k - 1) else 13
    ensures FilledUp(e)
  {
    hide UnitAt;
    var from := 13 * (k - 1);
    var t := if |name| < 13 * k then |name| - from else 13;
    assert forall i :: 0 <= i < 13 ==> UnitAt(e, i) == Filled(name, from + i);
    assert Terminator(e, 0) == t by {
      if t < 13 { assert UnitAt(e, t) == 0; }
    }
  }

  /** The searched name agrees with the stored one at place p; at the end of the stored name this
      says that the searched one ends too. */
  predicate SameAt(up: Unit -> Unit, name: seq<Unit>, b: NameBuf, p: nat) {
    p < 65 && up(Filled(name, p)) == up(b[p])
  }

  /** All places of entry k agree. */
  ghost predicate SamePart(up: Unit -> Unit, name: seq<Unit>, b: NameBuf, k: nat) {
    forall p :: 13 * (k - 1) <= p <= |name| && 0 <= p && (p < 13 * k || k == Count(|name|)) ==> SameAt(up, name, b, p)
  }

  /** Upper-casing keeps the terminator apart. */
  ghost predicate Casing(up: Unit -> Unit) {
    forall x :: up(x) == 0 <==> x == 0
  }

  lemma PartAgrees(up: Unit -> Unit, b: NameBuf, beyond: Unit, e: Entry, name: seq<Unit>, k: nat, sum: Byte)
    requires Storable(name) && IsPart(e, name, k, sum) && Casing(up)
    ensures Agrees(up, b, beyond, e) <==> SamePart(up, name, b, k)
  {
    hide UnitAt, Terminator;
    PartShape(e, name, k, sum);
    var from := 13 * (k - 1);
    forall i | 0 <= i < 13 ensures UnitAt(e, i) == Filled(name, from + i) {
    }
    if Agrees(up, b, beyond, e) {
      forall p | from <= p <= |name| && (p < 13 * k || k == Count(|name|)) ensures SameAt(up, name, b, p) {
        if p < 13 * k {
          assert up(UnitAt(e, p - from)) == up(b[from + (p - from)]);
        }
      }
    }
    if SamePart(up, name, b, k) {
      forall i | 0 <= i < Used(e) ensures up(UnitAt(e, i)) == up(b[from + i]) {
        assert SameAt(up, name, b, from + i);
      }
      if |name| == 13 * k { assert SameAt(up, name, b, |name|); }
    }
  }

  /** Equal but for case. */
  ghost predicate SameName(up: Unit -> Unit, a: seq<Unit>, b: seq<Unit>) {
    |a| == |b| && forall i :: 0 <= i < |a| ==> up(a[i]) == up(b[i])
  }

  /** All entries agree exactly when the names are equal but for case. */
  lemma AllParts(up: Unit -> Unit, name: seq<Unit>, b: NameBuf)
    requires Storable(name) && Casing(up)
    ensures (forall k :: 1 <= k <= Count(|name|) ==> SamePart(up, name, b, k)) <==> SameName(up, name, NameOf(b))
  {
    if forall k :: 1 <= k <= Count(|name|) ==> SamePart(up, name, b, k) {
      forall p | 0 <= p <= |name| ensures SameAt(up, name, b, p) {
        PlaceOf(|name|, p);
        assert SamePart(up, name, b, Place(|name|, p));
      }
      PlacesName(up, name, b);
    }
    if SameName(up, name, NameOf(b)) {
      forall p | 0 <= p <= |name| ensures SameAt(up, name, b, p) {
        SamePlace(up, name, b, p);
      }
    }
  }

  /** The entry that place p of a name of n units belongs to. */
  function Place(n: nat, p: nat): nat {
    if p == n then Count(n) else p / 13 + 1
  }

  lemma PlaceOf(n: nat, p: nat)
    requires 1 <= n && p <= n
    ensures var k := Place(n, p); 1 <= k <= Count(n) && 13 * (k - 1) <= p && (p < 13 * k || k == Count(n))
  {
  }

  lemma PlacesName(up: Unit -> Unit, name: seq<Unit>, b: NameBuf)
    requires Storable(name) && Casing(up) && forall p :: 0 <= p <= |name| ==> SameAt(up, name, b, p)
    ensures SameName(up, name, NameOf(b))
  {
    forall p | 0 <= p < |name| ensures b[p] != 0 && up(name[p]) == up(b[p]) {
      assert SameAt(up, name, b, p);
      assert up(name[p]) != 0;
    }
    assert SameAt(up, name, b, |name|);
    assert b[|name|] == 0;
    assert Length(b) == |name|;
  }

  lemma SamePlace(up: Unit -> Unit, name: seq<Unit>, b: NameBuf, p: nat)
    requires Storable(name) && SameName(up, name, NameOf(b)) && p <= |name|
    ensures SameAt(up, name, b, p)
  {
    assert NameOf(b)[..] == b[..Length(b)];
    if p < |name| { assert up(name[p]) == up(NameOf(b)[p]); }
  }

  // ---------- finding

  /** Where dir_find is in an entry set: the order expected next (0xFF: none), the checksum of the
      set, and where it starts (-1: nowhere). */
  datatype Track = Track(ord: Byte, sum: Byte, blk: int)

  const LOST: Track := Track(0xFF, 0xFF, -1)

  /** What is searched for: the name buffer, and the short name with its flags. */
  datatype Query = Query(up: Unit -> Unit, name: NameBuf, beyond: Unit, fn: seq<Byte>, noLfn: bool, loss: bool)

  predicate IsVolume(attr: Byte) {
    (attr / 8) % 2 == 1
  }

  function Attr(e: Entry): Byte {
    e[11] % 64
  }

  /** An LFN entry at place i. */
  ghost function Tracked(q: Query, e: Entry, i: nat, t: Track): Track {
    var last := IsLast(e[0]);
    var et := if last then Order(e[0]) else e[0];
    var ord, sum, blk := if last then et else t.ord, if last then e[13] else t.sum, if last then i else t.blk;
    var next: int := if et == ord && sum == e[13] && Agrees(q.up, q.name, q.beyond, e) then ord - 1 else 0xFF;
    Track(next % 256, sum, blk)
  }

  datatype Look = End | Hit(blk: int) | On(t: Track)

  /** One round of dir_find. */
  ghost function Examine(q: Query, e: Entry, i: nat, t: Track): Look {
    if e[0] == 0 then End
    else if e[0] == 0xE5 || (IsVolume(Attr(e)) && Attr(e) != AM_LFN) then On(t.(ord := 0xFF, blk := -1))
    else if Attr(e) == AM_LFN then On(if q.noLfn then t else Tracked(q, e, i, t))
    else if t.ord == 0 && t.sum == SumSfn(e) then Hit(t.blk)
    else if !q.loss && e[..11] == q.fn then Hit(t.blk)
    else On(t.(ord := 0xFF, blk := -1))
  }

  datatype Result = NoFile | Found(at: nat, blk: int)

  /** The search from place i on. */
  ghost function Search(q: Query, es: seq<Entry>, i: nat, t: Track): Result
    requires i <= |es|
    decreases |es| - i
  {
    if i == |es| then NoFile
    else match Examine(q, es[i], i, t)
      case End => NoFile
      case Hit(blk) => Found(i, blk)
      case On(t') => Search(q, es, i + 1, t')
  }

  /** dir_find. */
  method DirFind(q: Query, es: seq<Entry>) returns (r: Result)
    ensures r == Search(q, es, 0, LOST)
  {
    hide Agrees;
    var t := LOST;
    var i := 0;
    while i < |es|
      invariant 0 <= i <= |es| && Search(q, es, i, t) == Search(q, es, 0, LOST)
    {
      var e := es[i];
      var et := e[0];
      if et == 0 {
        return NoFile;
      }
      var attr := Attr(e);
      if et == 0xE5 || (IsVolume(attr) && attr != AM_LFN) {
        t := t.(ord := 0xFF, blk := -1);
      } else if attr == AM_LFN {
        if !q.noLfn {
          if IsLast(et) {
            et := Order(et);
            t := Track(et, e[13], i);
          }
          var ok := et == t.ord && t.sum == e[13];
          if ok {
            ok := CmpLfn(q.up, q.name, q.beyond, e);
          }
          var next: int := if ok then t.ord - 1 else 0xFF;
          t := t.(ord := next % 256);
        }
      } else {
        if t.ord == 0 && t.sum == SumSfn(e) {
          return Found(i, t.blk);
        }
        if !q.loss && e[..11] == q.fn {
          return Found(i, t.blk);
        }
        t := t.(ord := 0xFF, blk := -1);
      }
      i := i + 1;
    }
    return NoFile;
  }

  ghost predicate PartOf(es: seq<Entry>, at: nat, name: seq<Unit>, j: nat) {
    var c := Count(|name|);
    j < c && at + c < |es| && IsPart(es[at + j], name, c - j, SumSfn(es[at + c]))
  }

  /** The entry set of a name at place at: its entries, the highest first, then the short entry
      with the checksum they carry. */
  ghost predicate IsSet(es: seq<Entry>, at: nat, name: seq<Unit>) {
    var c := Count(|name|);
    && at + c < |es|
    && (forall j :: 0 <= j < c ==> PartOf(es, at, name, j))
    && es[at + c][0] != 0 && es[at + c][0] != 0xE5 && !IsVolume(Attr(es[at + c]))
  }

  /** Entries c, c-1 .. c-j+1 agree with the searched name. */
  ghost predicate TopParts(up: Unit -> Unit, name: seq<Unit>, b: NameBuf, j: nat) {
    forall k :: 1 <= k <= Count(|name|) && Count(|name|) - j < k ==> SamePart(up, name, b, k)
  }

  /** Inside a set: the next order while everything agreed, else none. */
  lemma TrackPart(q: Query, e: Entry, i: nat, t: Track, name: seq<Unit>, j: nat, sum: Byte, at: nat)
    requires Storable(name) && Casing(q.up) && j < Count(|name|) && IsPart(e, name, Count(|name|) - j, sum)
    requires j > 0 ==> t == Track(if TopParts(q.up, name, q.name, j) then Count(|name|) - j else 0xFF, sum, at)
    requires j == 0 ==> at == i
    ensures Tracked(q, e, i, t) == Track(if TopParts(q.up, name, q.name, j + 1)
      then Count(|name|) - j - 1 else 0xFF, sum, at)
  {
    hide Agrees, SamePart, TopParts, Count;
    var c := Count(|name|);
    PartShape(e, name, c - j, sum);
    PartAgrees(q.up, q.name, q.beyond, e, name, c - j, sum);
    TopNext(q.up, name, q.name, j);
  }

  lemma TopNext(up: Unit -> Unit, name: seq<Unit>, b: NameBuf, j: nat)
    requires j < Count(|name|)
    ensures TopParts(up, name, b, j + 1) <==> TopParts(up, name, b, j) && SamePart(up, name, b, Count(|name|) - j)
    ensures TopParts(up, name, b, 0)
  {
    hide SamePart, Count;
  }

  /** The search runs through the entries of a set, whatever it tracked before. */
  lemma {:induction false} SearchSet(q: Query, es: seq<Entry>, at: nat, name: seq<Unit>, t: Track, j: nat)
    requires Storable(name) && Casing(q.up) && !q.noLfn && IsSet(es, at, name) && j <= Count(|name|)
    requires j > 0 ==> t == Track(if TopParts(q.up, name, q.name, j)
      then Count(|name|) - j else 0xFF, SumSfn(es[at + Count(|name|)]), at)
    ensures var c := Count(|name|);
      Search(q, es, at + j, t) ==
        Search(q, es, at + c, Track(if TopParts(q.up, name, q.name, c) then 0 else 0xFF, SumSfn(es[at + c]), at))
    decreases Count(|name|) - j
  {
    hide Tracked, TopParts, Sum, IsPart;
    var c := Count(|name|);
    var sum := SumSfn(es[at + c]);
    if j < c {
      var e := es[at + j];
      assert PartOf(es, at, name, j);
      LfnKind(e, name, c - j, sum);
      TrackPart(q, e, at + j, t, name, j, sum, at);
      SearchSet(q, es, at, name, Tracked(q, e, at + j, t), j + 1);
    }
  }

  /** A set is accepted for exactly the names that are equal but for case (and for its short name,
      when one is searched for), wherever it is and whatever was tracked before it. */
  lemma FindSet(q: Query, es: seq<Entry>, at: nat, name: seq<Unit>, t: Track)
    requires Storable(name) && Casing(q.up) && !q.noLfn && IsSet(es, at, name)
    ensures var s := at + Count(|name|);
      var long := SameName(q.up, name, NameOf(q.name));
      var short := !q.loss && es[s][..11] == q.fn;
      && (long || short ==> Search(q, es, at, t) == Found(s, at))
      && (!long && !short ==> Search(q, es, at, t) == Search(q, es, s + 1, Track(0xFF, SumSfn(es[s]), -1)))
  {
    hide SamePart, Tracked, Sum;
    var c := Count(|name|);
    SearchSet(q, es, at, name, t, 0);
    AllParts(q.up, name, q.name);
    assert TopParts(q.up, name, q.name, c) <==> SameName(q.up, name, NameOf(q.name));
  }

  /** What the search tracks when it gets from place i to place at; or where it stops before. */
  ghost function TrackTo(q: Query, es: seq<Entry>, i: nat, t: Track, at: nat): Look
    requires i <= at <= |es|
    decreases at - i
  {
    if i == at then On(t)
    else match Examine(q, es[i], i, t)
      case End => End
      case Hit(blk) => Hit(blk)
      case On(t') => TrackTo(q, es, i + 1, t', at)
  }

  lemma {:induction false} SearchVia(q: Query, es: seq<Entry>, i: nat, t: Track, at: nat)
    requires i <= at <= |es| && TrackTo(q, es, i, t, at).On?
    ensures Search(q, es, i, t) == Search(q, es, at, TrackTo(q, es, i, t, at).t)
    decreases at - i
  {
    hide Examine;
    if i < at {
      SearchVia(q, es, i + 1, Examine(q, es[i], i, t).t, at);
    }
  }

  lemma {:induction false} SearchAfter(q: Query, es: seq<Entry>, i: nat, t: Track)
    requires i <= |es|
    ensures Search(q, es, i, t).Found? ==> i <= Search(q, es, i, t).at
    decreases |es| - i
  {
    hide Examine;
    if i < |es| && Examine(q, es[i], i, t).On? {
      SearchAfter(q, es, i + 1, Examine(q, es[i], i, t).t);
    }
  }

  /** A search that gets as far as a set finds it exactly for the names equal but for case, or for
      its short name. */
  lemma FindInDirectory(q: Query, es: seq<Entry>, at: nat, name: seq<Unit>)
    requires Storable(name) && Casing(q.up) && !q.noLfn && IsSet(es, at, name) && TrackTo(q, es, 0, LOST, at).On?
    ensures var s := at + Count(|name|);
      var r := Search(q, es, 0, LOST);
      (r.Found? && r.at == s) <==> SameName(q.up, name, NameOf(q.name)) || (!q.loss && es[s][..11] == q.fn)
  {
    hide SameName, Examine;
    SearchVia(q, es, 0, LOST, at);
    FindSet(q, es, at, name, TrackTo(q, es, 0, LOST, at).t);
    var s := at + Count(|name|);
    SearchAfter(q, es, s + 1, Track(0xFF, SumSfn(es[s]), -1));
  }

  // ---------- reading

  datatype ReadResult = NoMore(b: NameBuf) | Item(at: nat, blk: int, b: NameBuf)

  /** attr without AM_ARC is AM_VOL. */
  predicate IsLabel(attr: Byte) {
    attr == 0x08 || attr == 0x28
  }

  /** dir_read skips deleted entries, dot entries and volume labels. */
  predicate Skipped(e: Entry) {
    e[0] == 0xE5 || e[0] == 0x2E || IsLabel(Attr(e))
  }

  /** An LFN entry at place i: its units are picked only when it is the expected one. */
  ghost function ReadTracked(e: Entry, i: nat, t: Track, b: NameBuf): (Track, NameBuf) {
    var last := IsLast(e[0]);
    var et := if last then Order(e[0]) else e[0];
    var ord, sum, blk := if last then et else t.ord, if last then e[13] else t.sum, if last then i else t.blk;
    var tried := et == ord && sum == e[13];
    var next: int := if tried && Pickable(e) then ord - 1 else 0xFF;
    (Track(next % 256, sum, blk), if tried then Picked(b, e) else b)
  }

  /** The next item from place i on: blk is -1 when it has no valid long name. */
  ghost function Reading(es: seq<Entry>, i: nat, t: Track, b: NameBuf): ReadResult
    requires i <= |es|
    decreases |es| - i
  {
    if i == |es| || es[i][0] == 0 then NoMore(b)
    else if Skipped(es[i]) then Reading(es, i + 1, t.(ord := 0xFF), b)
    else if Attr(es[i]) == AM_LFN then
      var (t', b') := ReadTracked(es[i], i, t, b);
      Reading(es, i + 1, t', b')
    else Item(i, if t.ord != 0 || t.sum != SumSfn(es[i]) then -1 else t.blk, b)
  }

  /** dir_read. */
  method DirRead(es: seq<Entry>, from: nat, blk: int, buf: array<Unit>) returns (r: ReadResult)
    requires from <= |es| && buf.Length == 65
    modifies buf
    ensures r == Reading(es, from, Track(0xFF, 0xFF, blk), old(buf[..])) && r.b == buf[..]
  {
    hide Pickable, Picked, Sum;
    var t := Track(0xFF, 0xFF, blk);
    var i := from;
    while i < |es|
      invariant from <= i <= |es|
      invariant Reading(es, i, t, buf[..]) == Reading(es, from, Track(0xFF, 0xFF, blk), old(buf[..]))
    {
      var e := es[i];
      if e[0] == 0 {
        return NoMore(buf[..]);
      }
      if Skipped(e) {
        t := t.(ord := 0xFF);
      } else if Attr(e) == AM_LFN {
        t := ReadEntry(e, i, t, buf);
      } else {
        return Item(i, if t.ord != 0 || t.sum != SumSfn(e) then -1 else t.blk, buf[..]);
      }
      i := i + 1;
    }
    return NoMore(buf[..]);
  }

  /** The LFN branch of dir_read. */
  method ReadEntry(e: Entry, i: nat, t0: Track, buf: array<Unit>) returns (t: Track)
    requires buf.Length == 65
    modifies buf
    ensures (t, buf[..]) == ReadTracked(e, i, t0, old(buf[..]))
  {
    hide Pickable, Picked;
    var et := e[0];
    t := t0;
    if IsLast(et) {
      et := Order(et);
      t := Track(et, e[13], i);
    }
    var ok := et == t.ord && t.sum == e[13];
    if ok {
      ok := PickLfn(buf, e);
    }
    var next: int := if ok then t.ord - 1 else 0xFF;
    t := t.(ord := next % 256);
  }

  /** The buffer holds the filled name from place p on. */
  ghost predicate HoldsFrom(b: NameBuf, name: seq<Unit>, p: nat) {
    forall i :: p <= i <= |name| && i < 65 ==> b[i] == Filled(name, i)
  }

  lemma PartPicked(b: NameBuf, e: Entry, name: seq<Unit>, k: nat, sum: Byte)
    requires Storable(name) && IsPart(e, name, k, sum)
    requires k < Count(|name|) ==> HoldsFrom(b, name, 13 * k)
    ensures Pickable(e) && HoldsFrom(Picked(b, e), name, 13 * (k - 1))
  {
    hide UnitAt, Terminator;
    PartShape(e, name, k, sum);
    var from := 13 * (k - 1);
    forall i | 0 <= i < 13 ensures UnitAt(e, i) == Filled(name, from + i) {
    }
    var b' := Picked(b, e);
    forall i | from <= i <= |name| && i < 65 ensures b'[i] == Filled(name, i) {
      assert b'[i] == PickedAt(b, e, i);
    }
  }

  lemma ReadPart(e: Entry, i: nat, t: Track, b: NameBuf, name: seq<Unit>, j: nat, sum: Byte, at: nat)
    requires Storable(name) && j < Count(|name|) && IsPart(e, name, Count(|name|) - j, sum)
    requires j > 0 ==> t == Track(Count(|name|) - j, sum, at) && HoldsFrom(b, name, 13 * (Count(|name|) - j))
    requires j == 0 ==> at == i
    ensures var (t', b') := ReadTracked(e, i, t, b);
      t' == Track(Count(|name|) - j - 1, sum, at) && HoldsFrom(b', name, 13 * (Count(|name|) - j - 1))
  {
    hide Pickable, Picked, HoldsFrom, HasUnits;
    PartShape(e, name, Count(|name|) - j, sum);
    PartPicked(b, e, name, Count(|name|) - j, sum);
  }

  lemma {:induction false} ReadParts(es: seq<Entry>, at: nat, name: seq<Unit>, t: Track, b: NameBuf, j: nat)
    requires Storable(name) && IsSet(es, at, name) && j <= Count(|name|) && es[at + Count(|name|)][0] != 0x2E
    requires j > 0 ==>
      && t == Track(Count(|name|) - j, SumSfn(es[at + Count(|name|)]), at)
      && HoldsFrom(b, name, 13 * (Count(|name|) - j))
    ensures var r := Reading(es, at + j, t, b);
      r.Item? && r.at == at + Count(|name|) && r.blk == at && HoldsFrom(r.b, name, 0)
    decreases Count(|name|) - j
  {
    hide ReadTracked, Sum, HoldsFrom, IsPart;
    var c := Count(|name|);
    if j < c {
      var e := es[at + j];
      assert PartOf(es, at, name, j);
      LfnKind(e, name, c - j, SumSfn(es[at + c]));
      ReadPart(e, at + j, t, b, name, j, SumSfn(es[at + c]), at);
      var (t', b') := ReadTracked(e, at + j, t, b);
      ReadParts(es, at, name, t', b', j + 1);
    }
  }

  /** Readers take the entries of a set for LFN entries. */
  lemma LfnKind(e: Entry, name: seq<Unit>, k: nat, sum: Byte)
    requires Storable(name) && IsPart(e, name, k, sum)
    ensures e[0] != 0 && e[0] != 0xE5 && !Skipped(e) && Attr(e) == AM_LFN && IsVolume(Attr(e))
  {
    PartShape(e, name, k, sum);
  }

  /** Reading a directory from a set on, or from anything that ends before it, gives its name back. */
  lemma ReadSet(es: seq<Entry>, at: nat, name: seq<Unit>, t: Track, b: NameBuf)
    requires Storable(name) && IsSet(es, at, name) && es[at + Count(|name|)][0] != 0x2E
    ensures var r := Reading(es, at, t, b);
      r.Item? && r.at == at + Count(|name|) && r.blk == at && NameOf(r.b) == name
  {
    ReadParts(es, at, name, t, b, 0);
    HeldName(Reading(es, at, t, b).b, name);
  }

  lemma HeldName(b: NameBuf, name: seq<Unit>)
    requires Storable(name) && HoldsFrom(b, name, 0)
    ensures NameOf(b) == name
  {
    assert b[|name|] == 0;
    assert forall i :: 0 <= i < |name| ==> b[i] == name[i] != 0;
    assert Length(b) == |name|;
  }

  // ---------- writing

  /** Slots of the directory: separate places of 32 bytes. */
  ghost predicate Slots(slots: seq<array<Byte>>) {
    && (forall i :: 0 <= i < |slots| ==> slots[i].Length == 32)
    && (forall i, j :: 0 <= i < j < |slots| ==> slots[i] != slots[j])
  }

  ghost function Directory(slots: seq<array<Byte>>): (es: seq<Entry>)
    requires Slots(slots)
    reads slots
    ensures |es| == |slots|
  {
    seq<Entry>(|slots|, i requires 0 <= i < |slots| reads slots => slots[i][..])
  }

  /** The short entry of dir_register: cleared, the name, and the case flags. */
  method PutSfn(dir: array<Byte>, fn: seq<Byte>, flags: Byte)
    requires dir.Length == 32 && |fn| == 11
    modifies dir
    ensures dir[..] == fn + [0, flags] + seq(19, i => 0)
    ensures dir[..11] == fn && dir[11] == 0
  {
    forall i | 0 <= i < 32 { dir[i] := 0; }
    forall i | 0 <= i < 11 { dir[i] := fn[i]; }
    dir[12] := flags;
  }

  ghost predicate Written(es: seq<Entry>, name: seq<Unit>, sum: Byte, j: nat) {
    j < |es| && j < Count(|name|) && IsPart(es[j], name, Count(|name|) - j, sum)
  }

  /** The loop of dir_register: the entries of the name, the highest first. */
  method PutParts(lfn: NameBuf, slots: seq<array<Byte>>, sum: Byte)
    requires Slots(slots) && Storable(NameOf(lfn)) && |slots| == Count(|NameOf(lfn)|) + 1
    modifies slots
    ensures forall j :: 0 <= j < Count(|NameOf(lfn)|) ==> Written(Directory(slots), NameOf(lfn), sum, j)
  {
    hide IsPart;
    ghost var name := NameOf(lfn);
    var c := Count(Length(lfn));
    CountFits(name);
    var n: nat := c;
    while n > 0
      invariant n <= c
      invariant forall j :: 0 <= j < c - n ==> Written(Directory(slots), name, sum, j)
    {
      ghost var was := Directory(slots);
      PutLfn(lfn, slots[c - n], n, sum);
      ghost var es := Directory(slots);
      assert es[c - n] == slots[c - n][..];
      forall j | 0 <= j < c - n ensures Written(es, name, sum, j) {
        assert Written(was, name, sum, j) && es[j] == slots[j][..] == was[j];
      }
      n := n - 1;
    }
  }

  lemma CountFits(name: seq<Unit>)
    requires Storable(name)
    ensures 1 <= Count(|name|) <= 5
  {
  }

  /** The last part of dir_register: writes the set of a name into the slots allocated for it. */
  method Register(lfn: NameBuf, fn: seq<Byte>, flags: Byte, slots: seq<array<Byte>>)
    requires Slots(slots) && Storable(NameOf(lfn)) && |slots| == Count(|NameOf(lfn)|) + 1
    requires |fn| == 11 && fn[0] != 0 && fn[0] != 0xE5
    modifies slots
    ensures IsSet(Directory(slots), 0, NameOf(lfn))
    ensures Directory(slots)[Count(|NameOf(lfn)|)] == fn + [0, flags] + seq(19, i => 0)
  {
    hide IsPart, Storable, Sum;
    var c := Count(Length(lfn));
    ghost var name := NameOf(lfn);
    var sum := ComputeSum(fn);
    PutParts(lfn, slots, sum);
    ghost var was := Directory(slots);
    PutSfn(slots[c], fn, flags);
    ghost var es := Directory(slots);
    assert es[c] == slots[c][..];
    assert es[c][..11] == fn;
    forall j | 0 <= j < c ensures PartOf(es, 0, name, j) {
      assert Written(was, name, sum, j) && es[j] == slots[j][..] == was[j];
    }
  }

  /** A set is one wherever it lies in a directory. */
  lemma SetInDirectory(es: seq<Entry>, at: nat, set0: seq<Entry>, name: seq<Unit>)
    requires IsSet(set0, 0, name) && at + |set0| <= |es| && es[at..at + |set0|] == set0
    ensures IsSet(es, at, name)
  {
    hide IsPart, Sum;
    var c := Count(|name|);
    assert forall j :: 0 <= j < |set0| ==> es[at + j] == set0[j];
    forall j | 0 <= j < c ensures PartOf(es, at, name, j) {
      assert PartOf(set0, 0, name, j);
    }
  }
}
