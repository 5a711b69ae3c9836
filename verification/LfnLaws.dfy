/** What dir_find and dir_read answer for every directory, said of the bytes of its entries
    (fatfs/ff.c). */
module LfnLaws {
  import opened FatGeometry
  import opened Lfn
  import opened LfnDirectory

  // ---------- entries

  /** The end mark has not come before place n. */
  ghost predicate Open(es: seq<Entry>, n: nat) {
    forall i :: 0 <= i < n && i < |es| ==> es[i][0] != 0
  }

  /** An entry of a file or directory: not deleted, and without the volume bit. */
  predicate Plain(e: Entry) {
    e[0] != 0xE5 && e[11] / 8 % 2 == 0
  }

  predicate IsLong(e: Entry) {
    e[0] != 0 && e[0] != 0xE5 && e[11] % 64 == 0x0F
  }

  /** The highest entry of a set, which comes first. */
  predicate Begins(e: Entry) {
    e[0] / 64 % 2 == 1
  }

  function OrderOf(e: Entry): int {
    e[0] % 64 + e[0] / 128 * 128
  }

  /** Who goes through the directory: a search, or a reader. */
  datatype Walker = Finding(q: Query) | Picking

  /** A long-name entry that suits the walker: it has the name searched for, or a readable part. */
  ghost predicate Suits(w: Walker, e: Entry) {
    && IsLong(e)
    && match w
       case Finding(q) => !q.noLfn && Agrees(q.up, q.name, q.beyond, e)
       case Picking => e[0] != 0x2E && Pickable(e)
  }

  /** From place lo on: the entry at p suits, has this order and checksum, and is the first of its set
      or comes right behind the next higher one. */
  ghost predicate Chained(w: Walker, es: seq<Entry>, lo: nat, p: int, ord: int, sum: Byte)
    decreases p
  {
    && lo <= p < |es| && Suits(w, es[p]) && OrderOf(es[p]) == ord && es[p][13] == sum
    && (Begins(es[p]) || Chained(w, es, lo, p - 1, ord + 1, sum))
  }

  /** The entries right before place p are a whole set with this checksum but for n of them. */
  ghost predicate Matched(w: Walker, es: seq<Entry>, lo: nat, p: nat, n: nat, sum: Byte) {
    Chained(w, es, lo, p - 1, n + 1, sum)
  }

  /** The first entry of the long-name entries right before place p, or -1. */
  function SetStart(es: seq<Entry>, lo: nat, p: nat): int
    requires p <= |es|
  {
    if p <= lo || !IsLong(es[p - 1]) then -1
    else if Begins(es[p - 1]) then p - 1 else SetStart(es, lo, p - 1)
  }

  // ---------- finding

  /** The entry at p answers the search: by its short name, or by the set in front of it. */
  ghost predicate Hits(q: Query, es: seq<Entry>, p: nat)
    requires p < |es|
  {
    && Plain(es[p])
    && ((!q.loss && es[p][..11] == q.fn) || Matched(Finding(q), es, 0, p, 0, SumSfn(es[p])))
  }

  ghost predicate FirstHit(q: Query, es: seq<Entry>, at: nat) {
    at < |es| && Open(es, at + 1) && Hits(q, es, at) && forall p :: 0 <= p < at ==> !Hits(q, es, p)
  }

  function BlockAt(q: Query, es: seq<Entry>, p: nat): int
    requires p <= |es|
  {
    if q.noLfn then -1 else SetStart(es, 0, p)
  }

  /** What is tracked is what the entries before place p say. */
  ghost predicate Tracks(w: Walker, es: seq<Entry>, lo: nat, p: nat, t: Track) {
    forall n: nat, s: Byte :: n < 0xFF ==> (t.ord == n && t.sum == s <==> Matched(w, es, lo, p, n, s))
  }

  lemma TracksNone(w: Walker, es: seq<Entry>, lo: nat, p: nat, t: Track)
    requires t.ord == 0xFF && (p <= lo || p > |es| || !Suits(w, es[p - 1]))
    ensures Tracks(w, es, lo, p, t)
  {
  }

  /** A long-name entry, as either walker tracks it. */
  function Next(fine: bool, e: Entry, i: nat, t: Track): Track {
    var t1 := if Begins(e) then Track(OrderOf(e), e[13], i) else t;
    if fine && OrderOf(e) == t1.ord && t1.sum == e[13] then t1.(ord := (t1.ord + 255) % 256) else t1.(ord := 0xFF)
  }

  lemma OrderSmall(e: Entry)
    ensures 0 <= OrderOf(e) < 0xC0 && IsLast(e[0]) == Begins(e)
    ensures OrderOf(e) == if IsLast(e[0]) then Order(e[0]) else e[0]
  {
  }

  lemma NextTracks(w: Walker, es: seq<Entry>, lo: nat, i: nat, t: Track, fine: bool)
    requires lo <= i < |es| && Tracks(w, es, lo, i, t) && (fine <==> Suits(w, es[i]))
    ensures Tracks(w, es, lo, i + 1, Next(fine, es[i], i, t))
  {
    hide Suits, OrderOf, Begins;
    var e := es[i];
    OrderSmall(e);
    var p, t' := i + 1, Next(fine, e, i, t);
    forall n: nat, s: Byte | n < 0xFF ensures t'.ord == n && t'.sum == s <==> Matched(w, es, lo, p, n, s) {
      if n + 1 < 0xFF {
        assert Chained(w, es, lo, i - 1, n + 2, s) == Matched(w, es, lo, i, n + 1, s);
      }
    }
  }

  // ---------- finding

  lemma TrackedNext(q: Query, es: seq<Entry>, i: nat, t: Track)
    requires i < |es| && IsLong(es[i]) && !q.noLfn
    ensures Tracked(q, es[i], i, t) == Next(Suits(Finding(q), es[i]), es[i], i, t)
  {
    hide Agrees, OrderOf, Begins, IsLast, Order;
    OrderSmall(es[i]);
  }

  lemma Kinds(e: Entry)
    ensures Plain(e) <==> e[0] != 0xE5 && !IsVolume(Attr(e))
    ensures IsLong(e) <==> e[0] != 0 && e[0] != 0xE5 && Attr(e) == AM_LFN
    ensures Attr(e) == AM_LFN ==> IsVolume(Attr(e))
  {
    Bits(e[11]);
  }

  lemma Bits(a: Byte)
    ensures (a % 64) / 8 % 2 == a / 8 % 2 && (a % 64 == 0x0F ==> a / 8 % 2 == 1)
  {
    var h, m, r := a / 64, a % 64 / 8, a % 8;
    assert a == 8 * (8 * h + m) + r;
    assert a / 8 == 2 * (4 * h) + m;
  }

  /** What the rounds of the search do with each kind of entry. */
  lemma ExamineIs(q: Query, es: seq<Entry>, i: nat, t: Track)
    requires i < |es| && es[i][0] != 0 && Tracks(Finding(q), es, 0, i, t) && t.blk == BlockAt(q, es, i)
    ensures Examine(q, es[i], i, t) ==
      if Hits(q, es, i) then Hit(BlockAt(q, es, i))
      else if IsLong(es[i]) then On(if q.noLfn then t else Tracked(q, es[i], i, t))
      else On(t.(ord := 0xFF, blk := -1))
  {
    hide Tracked, Sum, SetStart, Matched, Attr, IsVolume, Plain, IsLong;
    var s := SumSfn(es[i]);
    Kinds(es[i]);
    assert t.ord == 0 && t.sum == s <==> Matched(Finding(q), es, 0, i, 0, s);
  }

  lemma ExamineEnd(q: Query, e: Entry, i: nat, t: Track)
    requires e[0] == 0
    ensures Examine(q, e, i, t) == End
  {
  }

  lemma StepTracks(q: Query, es: seq<Entry>, i: nat, t: Track)
    requires i < |es| && es[i][0] != 0 && Tracks(Finding(q), es, 0, i, t) && t.blk == BlockAt(q, es, i)
    requires Examine(q, es[i], i, t).On?
    ensures var t' := Examine(q, es[i], i, t).t; Tracks(Finding(q), es, 0, i + 1, t') && t'.blk == BlockAt(q, es, i + 1)
  {
    hide Examine, Agrees, Hits, Tracked, Sum, Tracks;
    ExamineIs(q, es, i, t);
    if !IsLong(es[i]) {
      TracksNone(Finding(q), es, 0, i + 1, t.(ord := 0xFF, blk := -1));
    } else if q.noLfn {
      NoneTracked(q, es, i, t);
    } else {
      TrackedNext(q, es, i, t);
      NextTracks(Finding(q), es, 0, i, t, Suits(Finding(q), es[i]));
    }
  }

  lemma NoneTracked(q: Query, es: seq<Entry>, i: nat, t: Track)
    requires i < |es| && q.noLfn && Tracks(Finding(q), es, 0, i, t)
    ensures Tracks(Finding(q), es, 0, i + 1, t)
  {
    var p := i + 1;
    forall n: nat, s: Byte | n < 0xFF ensures t.ord == n && t.sum == s <==> Matched(Finding(q), es, 0, p, n, s) {
      assert !Matched(Finding(q), es, 0, i, n, s);
    }
  }

  lemma {:induction false} SearchFrom(q: Query, es: seq<Entry>, i: nat, t: Track)
    requires i <= |es| && Open(es, i) && Tracks(Finding(q), es, 0, i, t) && t.blk == BlockAt(q, es, i)
    requires forall p :: 0 <= p < i ==> !Hits(q, es, p)
    ensures var r := Search(q, es, i, t);
      if r.Found? then FirstHit(q, es, r.at) && r.blk == BlockAt(q, es, r.at)
      else forall p :: 0 <= p < |es| && Open(es, p + 1) ==> !Hits(q, es, p)
    decreases |es| - i
  {
    hide Examine, Hits, Tracks, BlockAt;
    if i < |es| && es[i][0] == 0 {
      ExamineEnd(q, es[i], i, t);
    } else if i < |es| {
      ExamineIs(q, es, i, t);
      if Examine(q, es[i], i, t).On? {
        StepTracks(q, es, i, t);
        SearchFrom(q, es, i + 1, Examine(q, es[i], i, t).t);
      }
    }
  }

  /** dir_find answers for every directory: the first plain entry before the end mark that has the
      short name searched for, or the set of the long name right in front of it; and where the
      long-name entries in front of it begin. */
  lemma SearchExact(q: Query, es: seq<Entry>)
    ensures var r := Search(q, es, 0, LOST);
      if r.Found? then FirstHit(q, es, r.at) && r.blk == BlockAt(q, es, r.at)
      else forall p :: 0 <= p < |es| && Open(es, p + 1) ==> !Hits(q, es, p)
  {
    hide Hits;
    TracksNone(Finding(q), es, 0, 0, LOST);
    SearchFrom(q, es, 0, LOST);
  }

  // ---------- reading

  /** An entry dir_read gives: not deleted, no dot entry, no volume label, no long-name entry. */
  predicate Listed(e: Entry) {
    e[0] != 0xE5 && e[0] != 0x2E && e[11] % 32 != 8 && e[11] % 64 != 0x0F
  }

  ghost predicate NextItem(es: seq<Entry>, lo: nat, at: nat) {
    lo <= at < |es| && Open(es[lo..], at + 1 - lo) && Listed(es[at]) && forall p :: lo <= p < at ==> !Listed(es[p])
  }

  /** The place of the set of a long name right in front of the entry at p, or -1 if there is none. */
  ghost function NameStart(es: seq<Entry>, lo: nat, p: nat): int
    requires p < |es|
  {
    if Matched(Picking, es, lo, p, 0, SumSfn(es[p])) then SetStart(es, lo, p) else -1
  }

  lemma ListedKinds(e: Entry)
    requires e[0] != 0
    ensures Listed(e) <==> !Skipped(e) && Attr(e) != AM_LFN
    ensures Suits(Picking, e) <==> !Skipped(e) && Attr(e) == AM_LFN && Pickable(e)
  {
    hide Pickable;
    LabelBits(e[11]);
  }

  lemma LabelBits(a: Byte)
    ensures a % 64 == 0x08 || a % 64 == 0x28 <==> a % 32 == 8
  {
    var h, m := a / 64, a % 64;
    assert a == 32 * (2 * h + m / 32) + m % 32;
  }

  lemma ReadNext(es: seq<Entry>, i: nat, t: Track, b: NameBuf)
    requires i < |es| && IsLong(es[i]) && es[i][0] != 0x2E
    ensures ReadTracked(es[i], i, t, b).0 == Next(Suits(Picking, es[i]), es[i], i, t)
  {
    hide Pickable, Picked, OrderOf, Begins, IsLast, Order;
    OrderSmall(es[i]);
  }

  /** Whatever is tracked began where the long-name entries did. */
  ghost predicate BlockTracked(es: seq<Entry>, lo: nat, i: nat, t: Track) {
    i <= |es| && (t.ord != 0xFF ==> t.blk == SetStart(es, lo, i))
  }

  lemma NextBlock(es: seq<Entry>, lo: nat, i: nat, t: Track, fine: bool)
    requires lo <= i < |es| && IsLong(es[i]) && BlockTracked(es, lo, i, t)
    ensures BlockTracked(es, lo, i + 1, Next(fine, es[i], i, t))
  {
    OrderSmall(es[i]);
  }

  lemma {:induction false} ReadFrom(es: seq<Entry>, lo: nat, i: nat, t: Track, b: NameBuf)
    requires lo <= i <= |es| && Open(es[lo..], i - lo) && Tracks(Picking, es, lo, i, t) && BlockTracked(es, lo, i, t)
    requires forall p :: lo <= p < i ==> !Listed(es[p])
    ensures var r := Reading(es, i, t, b);
      if r.Item? then NextItem(es, lo, r.at) && r.blk == NameStart(es, lo, r.at)
      else forall p :: lo <= p < |es| && Open(es[lo..], p + 1 - lo) ==> !Listed(es[p])
    decreases |es| - i
  {
    hide Listed, Skipped, Suits, Tracks, ReadTracked, Sum, Picked, Attr, SetStart, BlockTracked;
    if i < |es| && es[i][0] == 0 {
      assert es[lo..][i - lo][0] == 0;
    } else if i < |es| {
      var e := es[i];
      ListedKinds(e);
      ReadStep(es, lo, i, t, b);
      if Skipped(e) {
        ReadFrom(es, lo, i + 1, t.(ord := 0xFF), b);
      } else if Attr(e) == AM_LFN {
        var (t', b') := ReadTracked(e, i, t, b);
        ReadFrom(es, lo, i + 1, t', b');
      }
    }
  }

  /** What one round of the reader keeps, and what it gives. */
  lemma ReadStep(es: seq<Entry>, lo: nat, i: nat, t: Track, b: NameBuf)
    requires lo <= i < |es| && es[i][0] != 0 && Tracks(Picking, es, lo, i, t) && BlockTracked(es, lo, i, t)
    ensures var e, lost := es[i], t.(ord := 0xFF);
      if Skipped(e) then Tracks(Picking, es, lo, i + 1, lost) && BlockTracked(es, lo, i + 1, lost)
      else if Attr(e) == AM_LFN then
        var t' := ReadTracked(e, i, t, b).0;
        Tracks(Picking, es, lo, i + 1, t') && BlockTracked(es, lo, i + 1, t')
      else (if t.ord != 0 || t.sum != SumSfn(e) then -1 else t.blk) == NameStart(es, lo, i)
  {
    hide Pickable, Sum, ReadTracked, Skipped, Attr, SetStart;
    var e := es[i];
    ListedKinds(e);
    Kinds(e);
    if Skipped(e) {
      TracksNone(Picking, es, lo, i + 1, t.(ord := 0xFF));
    } else if Attr(e) == AM_LFN {
      SkippedKinds(e);
      ReadNext(es, i, t, b);
      NextTracks(Picking, es, lo, i, t, Suits(Picking, e));
      NextBlock(es, lo, i, t, Suits(Picking, e));
    } else {
      var s := SumSfn(e);
      assert t.ord == 0 && t.sum == s <==> Matched(Picking, es, lo, i, 0, s);
    }
  }

  lemma SkippedKinds(e: Entry)
    requires !Skipped(e)
    ensures e[0] != 0xE5 && e[0] != 0x2E
  {
  }

  /** dir_read answers for every directory: the next listed entry before the end mark, and where the
      set of its long name begins if a whole one is right in front of it. */
  lemma ReadExact(es: seq<Entry>, from: nat, blk: int, b: NameBuf)
    requires from <= |es|
    ensures var r := Reading(es, from, Track(0xFF, 0xFF, blk), b);
      if r.Item? then NextItem(es, from, r.at) && r.blk == NameStart(es, from, r.at)
      else forall p :: from <= p < |es| && Open(es[from..], p + 1 - from) ==> !Listed(es[p])
  {
    hide Listed, NameStart;
    var t := Track(0xFF, 0xFF, blk);
    TracksNone(Picking, es, from, from, t);
    ReadFrom(es, from, from, t, b);
  }

  // ---------- bytes

  /** The checksum of README.TXT. */
  lemma SumKnown()
    ensures Sum([0x52, 0x45, 0x41, 0x44, 0x4D, 0x45, 0x20, 0x20, 0x54, 0x58, 0x54]) == 0x73
  {
    hide Sum;
    var n: seq<Byte> := [0x52, 0x45, 0x41, 0x44, 0x4D, 0x45, 0x20, 0x20, 0x54, 0x58, 0x54];
    SumNone();
    SumNext(n[..0], 0x52, 0);
    assert n[..1] == n[..0] + [0x52];
    SumNext(n[..1], 0x45, 0x52);
    assert n[..2] == n[..1] + [0x45];
    SumNext(n[..2], 0x41, 0x6E);
    assert n[..3] == n[..2] + [0x41];
    SumNext(n[..3], 0x44, 0x78);
    assert n[..4] == n[..3] + [0x44];
    SumNext(n[..4], 0x4D, 0x80);
    assert n[..5] == n[..4] + [0x4D];
    SumNext(n[..5], 0x45, 0x8D);
    assert n[..6] == n[..5] + [0x45];
    SumNext(n[..6], 0x20, 0x0B);
    assert n[..7] == n[..6] + [0x20];
    SumNext(n[..7], 0x20, 0xA5);
    assert n[..8] == n[..7] + [0x20];
    SumNext(n[..8], 0x54, 0xF2);
    assert n[..9] == n[..8] + [0x54];
    SumNext(n[..9], 0x58, 0xCD);
    assert n[..10] == n[..9] + [0x58];
    SumNext(n[..10], 0x54, 0x3E);
    assert n == n[..10] + [0x54];
  }

  lemma SumNone()
    ensures Sum([]) == 0
  {
  }

  lemma SumNext(name: seq<Byte>, c: Byte, s: Byte)
    requires Sum(name) == s
    ensures Sum(name + [c]) == (s / 2 + 128 * (s % 2) + c) % 256
  {
    assert (name + [c])[..|name|] == name;
  }

  /** The fixed bytes of entry ord of a name. */
  lemma PartBytes(e: Entry, name: seq<Unit>, ord: nat, sum: Byte)
    requires Storable(name) && IsPart(e, name, ord, sum)
    ensures e[0] == ord + (if |name| <= 13 * ord then 0x40 else 0) && 13 * (ord - 1) < |name|
    ensures e[11] == 0x0F && e[12] == 0 && e[13] == sum && e[26] == 0 && e[27] == 0
  {
    PartShape(e, name, ord, sum);
  }

  /** What a long-name entry must be to be taken at all: no cluster, and behind a first zero unit t only
      filling. */
  lemma LongShape(w: Walker, e: Entry) returns (t: nat)
    requires Suits(w, e)
    ensures e[11] % 64 == 0x0F && e[26] == 0 && e[27] == 0 && t <= 13
    ensures forall i :: 0 <= i < 13 ==>
      var at := [1, 3, 5, 7, 9, 14, 16, 18, 20, 22, 24, 28, 30][i];
      if i < t then e[at] != 0 || e[at + 1] != 0 else if i == t then e[at] == 0 && e[at + 1] == 0
      else e[at] == 0xFF && e[at + 1] == 0xFF
  {
    t := Terminator(e, 0);
    var table := [1, 3, 5, 7, 9, 14, 16, 18, 20, 22, 24, 28, 30];
    forall i | 0 <= i < 13
      ensures
        var at := table[i];
        if i < t then e[at] != 0 || e[at + 1] != 0 else if i == t then e[at] == 0 && e[at + 1] == 0
        else e[at] == 0xFF && e[at + 1] == 0xFF
    {
      UnitBytes(e, i);
      assert i > t ==> UnitAt(e, i) == 0xFFFF;
    }
  }

  lemma UnitBytes(e: Entry, i: nat)
    requires i < 13
    ensures
      var at := [1, 3, 5, 7, 9, 14, 16, 18, 20, 22, 24, 28, 30][i];
      && (UnitAt(e, i) == 0 <==> e[at] == 0 && e[at + 1] == 0)
      && (UnitAt(e, i) == 0xFFFF <==> e[at] == 0xFF && e[at + 1] == 0xFF)
  {
    OfsTable();
    assert seq(13, j requires 0 <= j < 13 => Ofs(j))[i] == Ofs(i);
  }

  /** Its unit i: the low byte first, at the place the table gives. */
  lemma PartUnit(e: Entry, name: seq<Unit>, ord: nat, sum: Byte, i: nat)
    requires IsPart(e, name, ord, sum) && i < 13
    ensures
      var at := [1, 3, 5, 7, 9, 14, 16, 18, 20, 22, 24, 28, 30][i];
      var p := 13 * (ord - 1) + i;
      var u := if p < |name| then name[p] else if p == |name| then 0 else 0xFFFF;
      e[at] == u % 256 && e[at + 1] == u / 256
  {
    OfsTable();
    assert seq(13, j requires 0 <= j < 13 => Ofs(j))[i] == Ofs(i);
    assert UnitAt(e, i) == Filled(name, 13 * (ord - 1) + i);
  }
}
