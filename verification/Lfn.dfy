/** Long file names in directory entries (fatfs/ff.c, put_lfn, pick_lfn, cmp_lfn, sum_sfn). */
module Lfn {
  import opened FatGeometry

  type Unit = x: int | 0 <= x < 0x1_0000
  type Entry = b: seq<Byte> | |b| == 32 witness seq(32, i => 0)

  const MAX_LFN: nat := 64
  const LLEF: Byte := 0x40
  const AM_LFN: Byte := 0x0F

  /** A name buffer: a name, its terminator, and whatever lies behind it. */
  type NameBuf = b: seq<Unit> | |b| == 65 witness seq(65, i => 0)

  /** Where unit i of an entry is. */
  function Ofs(i: nat): (o: nat)
    requires i < 13
    ensures 1 <= o <= 30
  {
    if i < 5 then 1 + 2 * i else if i < 11 then 14 + 2 * (i - 5) else 28 + 2 * (i - 11)
  }

  lemma OfsTable()
    ensures seq(13, i requires 0 <= i < 13 => Ofs(i)) == [1, 3, 5, 7, 9, 14, 16, 18, 20, 22, 24, 28, 30]
  {
  }

  function UnitAt(e: Entry, i: nat): Unit
    requires i < 13
  {
    var lo: int, hi: int := e[Ofs(i)], e[Ofs(i) + 1];
    lo + 256 * hi
  }

  /** The length of the name in a buffer, if it has a terminator. */
  function Length(b: seq<Unit>): (n: nat)
    ensures n <= |b| && (forall i :: 0 <= i < n ==> b[i] != 0) && (n < |b| ==> b[n] == 0)
  {
    if b == [] || b[0] == 0 then 0
    else
      var m := Length(b[1..]);
      assert forall i :: 0 < i < 1 + m ==> b[i] == b[1..][i - 1];
      1 + m
  }

  function NameOf(b: seq<Unit>): seq<Unit> {
    b[..Length(b)]
  }

  /** A name that can be stored. */
  predicate Storable(name: seq<Unit>) {
    1 <= |name| <= MAX_LFN && forall i :: 0 <= i < |name| ==> name[i] != 0 && name[i] != 0xFFFF
  }

  /** Entries needed for a name of n units. */
  function Count(n: nat): nat {
    (n + 12) / 13
  }

  /** Unit i of a name with its terminator and the filling behind it. */
  function Filled(name: seq<Unit>, i: nat): Unit {
    if i < |name| then name[i] else if i == |name| then 0 else 0xFFFF
  }

  /** e is entry ord of the name: its units, the order with the last-entry flag on the highest
      only, the checksum, and the fixed fields. */
  ghost predicate IsPart(e: Entry, name: seq<Unit>, ord: nat, sum: Byte) {
    && 1 <= ord <= Count(|name|)
    && HasUnits(e, name, ord, 13)
    && e[0] == (if ord == Count(|name|) then ord + LLEF else ord)
    && Fixed(e, sum)
  }

  /** The two bytes of a unit. */
  method PutUnit(dir: array<Byte>, i: nat, u: Unit)
    requires dir.Length == 32 && i < 13
    modifies dir
    ensures UnitAt(dir[..], i) == u
    ensures forall j :: 0 <= j < 13 && j != i ==> UnitAt(dir[..], j) == old(UnitAt(dir[..], j))
    ensures forall k :: k in {0, 11, 12, 13, 26, 27} ==> dir[k] == old(dir[k])
  {
    dir[Ofs(i)] := u % 256;
    dir[Ofs(i) + 1] := u / 256;
  }

  /** Where the name ends relative to an entry. */
  lemma PartEnds(n: nat, ord: nat)
    requires 1 <= ord <= Count(n)
    ensures 13 * (ord - 1) < n
    ensures n <= 13 * ord <==> ord == Count(n)
  {
  }

  /** The units of an entry are those of the filled name. */
  ghost predicate HasUnits(e: Entry, name: seq<Unit>, ord: nat, n: nat) {
    1 <= ord && n <= 13 && forall i :: 0 <= i < n ==> UnitAt(e, i) == Filled(name, 13 * (ord - 1) + i)
  }

  predicate Fixed(e: Entry, sum: Byte) {
    e[11] == AM_LFN && e[12] == 0 && e[13] == sum && e[26] == 0 && e[27] == 0
  }

  /** The loop of put_lfn: gives the last unit and the place in the name behind it. */
  method FillUnits(lfn: NameBuf, dir: array<Byte>, ord: Byte, ghost sum: Byte) returns (chr: Unit, ni: nat)
    requires dir.Length == 32 && Storable(NameOf(lfn)) && 1 <= ord <= Count(|NameOf(lfn)|) && Fixed(dir[..], sum)
    modifies dir
    ensures HasUnits(dir[..], NameOf(lfn), ord, 13) && Fixed(dir[..], sum)
    ensures chr == 0xFFFF <==> |NameOf(lfn)| < 13 * ord
    ensures chr != 0xFFFF ==> ni == 13 * ord
  {
    ghost var name := NameOf(lfn);
    PartEnds(|name|, ord);
    ni := (ord - 1) * 13;
    var di := 0;
    chr := 0;
    while di < 13
      invariant 0 <= di <= 13 && HasUnits(dir[..], name, ord, di) && Fixed(dir[..], sum)
      invariant chr == 0xFFFF <==> |name| < 13 * (ord - 1) + di
      invariant chr != 0xFFFF ==> ni == 13 * (ord - 1) + di
    {
      if chr != 0xFFFF {
        chr := lfn[ni];
        ni := ni + 1;
      }
      PutUnit(dir, di, chr);
      if chr == 0 {
        chr := 0xFFFF;
      }
      di := di + 1;
    }
  }

  /** put_lfn. */
  method PutLfn(lfn: NameBuf, dir: array<Byte>, ord: Byte, sum: Byte)
    requires dir.Length == 32 && Storable(NameOf(lfn)) && 1 <= ord <= Count(|NameOf(lfn)|)
    modifies dir
    ensures IsPart(dir[..], NameOf(lfn), ord, sum)
  {
    ghost var name := NameOf(lfn);
    PartEnds(|name|, ord);
    dir[13] := sum;
    dir[11] := AM_LFN;
    dir[12] := 0;
    dir[26], dir[27] := 0, 0;
    var chr, ni := FillUnits(lfn, dir, ord, sum);
    var o: Byte := ord;
    if chr == 0xFFFF || lfn[ni] == 0 {
      o := ord + LLEF;
    }
    ghost var was := dir[..];
    dir[0] := o;
    assert forall i :: 0 <= i < 13 ==> UnitAt(dir[..], i) == UnitAt(was, i);
  }

  // ---------- reading entries

  predicate IsLast(b: Byte) {
    (b / 64) % 2 == 1
  }

  /** The order byte without the last-entry flag. */
  function Order(b: Byte): Byte {
    if IsLast(b) then b - 64 else b
  }

  /** Place of an entry's units in the name: 32-bit arithmetic, so order 0 is far beyond any name. */
  function Start(ord: Byte): nat {
    if ord == 0 then 0xFFFF_FFF3 else (ord - 1) * 13
  }

  /** The first zero unit of an entry, or 13. */
  function Terminator(e: Entry, from: nat): (t: nat)
    requires from <= 13
    ensures from <= t <= 13 && (forall i :: from <= i < t ==> UnitAt(e, i) != 0) && (t < 13 ==> UnitAt(e, t) == 0)
    decreases 13 - from
  {
    if from == 13 || UnitAt(e, from) == 0 then from else Terminator(e, from + 1)
  }

  /** Units of the entry that belong to the name, its terminator included. */
  function Used(e: Entry): (n: nat)
    ensures n <= 13
  {
    var t := Terminator(e, 0);
    if t < 13 then t + 1 else 13
  }

  /** Behind the terminator there is only filling. */
  ghost predicate FilledUp(e: Entry) {
    forall i :: Used(e) <= i < 13 ==> UnitAt(e, i) == 0xFFFF
  }

  /** What cmp_lfn tests. beyond is what lies behind the 65 units of the buffer, which its last test
      can reach. */
  ghost predicate Agrees(up: Unit -> Unit, b: NameBuf, beyond: Unit, e: Entry) {
    var ni := Start(e[0] % 64);
    && e[26] == 0 && e[27] == 0
    && ni + Used(e) <= 65
    && (forall i :: 0 <= i < Used(e) ==> up(UnitAt(e, i)) == up(b[ni + i]))
    && FilledUp(e)
    && (IsLast(e[0]) && Terminator(e, 0) == 13 ==> (if ni + 13 < 65 then b[ni + 13] else beyond) == 0)
  }

  lemma UsedIs(e: Entry, di: nat)
    requires di < 13 && forall i :: 0 <= i < di ==> UnitAt(e, i) != 0
    ensures di < Used(e)
    ensures UnitAt(e, di) == 0 ==> Used(e) == di + 1 && Terminator(e, 0) == di
  {
  }

  lemma AllUsed(e: Entry)
    requires forall i :: 0 <= i < 13 ==> UnitAt(e, i) != 0
    ensures Used(e) == 13 && Terminator(e, 0) == 13
  {
  }

  /** cmp_lfn. */
  method CmpLfn(up: Unit -> Unit, b: NameBuf, beyond: Unit, e: Entry) returns (r: bool)
    ensures r == Agrees(up, b, beyond, e)
  {
    hide Used, Terminator, UnitAt, Start;
    if e[26] != 0 || e[27] != 0 {
      return false;
    }
    var start := Start(e[0] % 64);
    var ni := start;
    var pchr: Unit := 1;
    for di := 0 to 13
      invariant pchr != 0 ==> ni == start + di && (forall i :: 0 <= i < di ==> UnitAt(e, i) != 0)
      invariant pchr == 0 ==> ni == start + Used(e) && Used(e) <= di && Terminator(e, 0) < 13
      invariant di == 0 ==> pchr != 0
      invariant di > 0 ==> ni <= 65
      invariant forall i :: 0 <= i < di && i < Used(e) ==> start + i < 65 && up(UnitAt(e, i)) == up(b[start + i])
      invariant forall i :: Used(e) <= i < di ==> UnitAt(e, i) == 0xFFFF
    {
      var chr := UnitAt(e, di);
      if pchr != 0 {
        UsedIs(e, di);
        if ni >= MAX_LFN + 1 || up(chr) != up(b[ni]) {
          return false;
        }
        ni := ni + 1;
        pchr := chr;
      } else {
        if chr != 0xFFFF {
          return false;
        }
      }
    }
    if pchr != 0 {
      AllUsed(e);
    }
    if IsLast(e[0]) && pchr != 0 && (if ni < 65 then b[ni] else beyond) != 0 {
      return false;
    }
    return true;
  }

  /** What pick_lfn tests. */
  ghost predicate Pickable(e: Entry) {
    var ni := Start(Order(e[0]));
    && e[26] == 0 && e[27] == 0
    && ni + Used(e) <= 65 && FilledUp(e)
    && (IsLast(e[0]) && Terminator(e, 0) == 13 ==> ni + 13 < 65)
  }

  function PickedAt(b: NameBuf, e: Entry, k: nat): Unit
    requires k < 65
  {
    var ni := Start(Order(e[0]));
    if ni <= k < ni + Used(e) then UnitAt(e, k - ni)
    else if k == ni + 13 && IsLast(e[0]) && Terminator(e, 0) == 13 then 0 else b[k]
  }

  /** The buffer after pick_lfn: the entry's units as far as they fit, and a terminator behind a
      last entry without one. */
  function Picked(b: NameBuf, e: Entry): NameBuf {
    if e[26] != 0 || e[27] != 0 then b else seq<Unit>(65, k requires 0 <= k < 65 => PickedAt(b, e, k))
  }

  /** pick_lfn. */
  method PickLfn(buf: array<Unit>, e: Entry) returns (ok: bool)
    requires buf.Length == 65
    modifies buf
    ensures ok == Pickable(e) && buf[..] == Picked(old(buf[..]), e)
  {
    hide Used, Terminator, UnitAt, Start;
    if e[26] != 0 || e[27] != 0 {
      return false;
    }
    var start := Start(Order(e[0]));
    var ni := start;
    var pchr: Unit := 1;
    for di := 0 to 13
      invariant pchr != 0 ==> ni == start + di && (forall i :: 0 <= i < di ==> UnitAt(e, i) != 0)
      invariant pchr == 0 ==> ni == start + Used(e) && Used(e) <= di && Terminator(e, 0) < 13
      invariant di == 0 ==> pchr != 0
      invariant di > 0 ==> ni <= 65
      invariant forall k :: 0 <= k < 65 ==> buf[k] == if start <= k < ni then UnitAt(e, k - start) else old(buf[k])
      invariant forall i :: Used(e) <= i < di ==> UnitAt(e, i) == 0xFFFF
    {
      var chr := UnitAt(e, di);
      if pchr != 0 {
        UsedIs(e, di);
        if ni >= MAX_LFN + 1 {
          return false;
        }
        buf[ni] := chr;
        ni := ni + 1;
        pchr := chr;
      } else {
        if chr != 0xFFFF {
          return false;
        }
      }
    }
    if pchr != 0 {
      AllUsed(e);
    }
    if IsLast(e[0]) && pchr != 0 {
      if ni >= MAX_LFN + 1 {
        return false;
      }
      buf[ni] := 0;
    }
    return true;
  }
}
