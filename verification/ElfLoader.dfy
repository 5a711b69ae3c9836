/** Loading and relocating a program (baremetal/programs/loader.c, load_elf). */
module ElfLoader {
  import opened Basics
  import opened FatGeometry
  import opened ElfFile

  // ---------- memory

  function Zeros(n: nat): (r: Bytes)
    ensures |r| == n
  {
    seq(n, i => 0)
  }

  /** Places lo..hi and lo'..hi' do not meet. */
  predicate Disjoint(lo: nat, hi: nat, lo': nat, hi': nat) {
    hi <= lo' || hi' <= lo || lo == hi || lo' == hi'
  }

  lemma PutReads(m: Memory, a: nat, data: Bytes, b: nat, n: nat)
    requires a + |data| <= SPACE && b + n <= SPACE
    ensures Put(m, a, data)[a..a + |data|] == data
    ensures Disjoint(a, a + |data|, b, b + n) ==> Put(m, a, data)[b..b + n] == m[b..b + n]
  {
    var s := Put(m, a, data);
    assert forall i :: 0 <= i < SPACE && (i < a || a + |data| <= i) ==> s[i] == m[i];
  }

  // ---------- segments

  function SegmentSize(s: Segment): U32 {
    if s.memsz > s.filesz then s.memsz else s.filesz
  }

  /** The bytes of a segment: those of the file, then zeros. */
  function Content(file: Bytes, s: Segment): Option<Bytes> {
    var zeros := Zeros(SegmentSize(s) - s.filesz);
    if s.filesz == 0 then Some(zeros)
    else match ReadAt(file, s.offset, s.filesz)
      case None => None
      case Some(d) => Some(d + zeros)
  }

  lemma ContentSize(file: Bytes, s: Segment)
    ensures Content(file, s).Some? ==> |Content(file, s).value| == SegmentSize(s)
  {
  }

  /** The place of a segment does not meet b..b + n. */
  predicate Misses(s: Segment, delta: int, b: nat, n: nat) {
    Disjoint(Add32(s.vaddr, delta), Add32(s.vaddr, delta) + SegmentSize(s), b, b + n)
  }

  /** Memory with the segments loaded in order; None when one cannot be read. */
  function Loaded(m: Memory, file: Bytes, ss: seq<Segment>, delta: int): Option<Memory>
    decreases |ss|
  {
    if ss == [] then Some(m)
    else
      ContentSize(file, ss[0]);
      match Content(file, ss[0])
      case None => None
      case Some(d) => Loaded(Put(m, Add32(ss[0].vaddr, delta), d), file, ss[1..], delta)
  }

  predicate SegmentsApart(ss: seq<Segment>, delta: int) {
    forall i, j :: 0 <= i < j < |ss| ==> Misses(ss[j], delta, Add32(ss[i].vaddr, delta), SegmentSize(ss[i]))
  }

  /** Memory that meets none of the segments stays as it is. */
  lemma {:induction false} LoadedElsewhere(m: Memory, file: Bytes, ss: seq<Segment>, delta: int, b: nat, n: nat)
    requires Loaded(m, file, ss, delta).Some? && b + n <= SPACE
    requires forall i :: 0 <= i < |ss| ==> Misses(ss[i], delta, b, n)
    ensures Loaded(m, file, ss, delta).value[b..b + n] == m[b..b + n]
    decreases |ss|
  {
    hide Put, Content, Add32;
    if ss != [] {
      ContentSize(file, ss[0]);
      var d := Content(file, ss[0]).value;
      PutReads(m, Add32(ss[0].vaddr, delta), d, b, n);
      LoadedElsewhere(Put(m, Add32(ss[0].vaddr, delta), d), file, ss[1..], delta, b, n);
    }
  }

  /** Each segment has the bytes of the file, and zeros behind them up to its size in memory. */
  lemma {:induction false} LoadedContents(m: Memory, file: Bytes, ss: seq<Segment>, delta: int, i: nat)
    requires Loaded(m, file, ss, delta).Some? && SegmentsApart(ss, delta) && i < |ss|
    ensures Content(file, ss[i]).Some?
    ensures var a := Add32(ss[i].vaddr, delta);
      Loaded(m, file, ss, delta).value[a..a + SegmentSize(ss[i])] == Content(file, ss[i]).value
    decreases |ss|
  {
    hide Put, Content, Add32, SegmentSize;
    ContentSize(file, ss[0]);
    var d := Content(file, ss[0]).value;
    var a0 := Add32(ss[0].vaddr, delta);
    if i == 0 {
      PutReads(m, a0, d, a0, |d|);
      assert forall j :: 0 <= j < |ss[1..]| ==> ss[1..][j] == ss[j + 1];
      LoadedElsewhere(Put(m, a0, d), file, ss[1..], delta, a0, |d|);
    } else {
      assert forall j :: 0 <= j < |ss[1..]| ==> ss[1..][j] == ss[j + 1];
      LoadedContents(Put(m, a0, d), file, ss[1..], delta, i - 1);
    }
  }

  /** The part of a segment in memory that is not in the file is zero. */
  lemma BssZero(file: Bytes, s: Segment)
    requires Content(file, s).Some?
    ensures |Content(file, s).value| == SegmentSize(s)
    ensures forall i :: s.filesz <= i < SegmentSize(s) ==> Content(file, s).value[i] == 0
    ensures s.offset + s.filesz <= |file| ==> Content(file, s).value[..s.filesz] == file[s.offset..s.offset + s.filesz]
  {
    ContentSize(file, s);
  }

  // ---------- relocation

  const ABS32: U32 := 1
  const ABS64: U32 := 2
  const PCREL32: U32 := 3
  const PC32: U32 := 4
  const PC64: U32 := 5
  const CALL18: U32 := 6

  const TWO64: nat := 0x1_0000_0000_0000_0000

  /** Bytes of the relocated field. */
  function Width(kind: U32): nat {
    if kind == ABS64 || kind == PC64 then 8 else if 1 <= kind <= 6 then 4 else 0
  }

  /** Where the field is after loading. */
  function Place(r: Rela, delta: int): U32 {
    Add32(r.offset, delta)
  }

  function Field(m: Memory, a: nat, w: nat): nat
    requires a + w <= SPACE
  {
    Dec(m[a..a + w])
  }

  /** One relocation: absolute fields move by delta, all others are left alone. */
  function Patched(m: Memory, r: Rela, delta: int): Memory
  {
    var a := Place(r, delta);
    if r.kind == ABS32 then Put(m, a, Enc((Field(m, a, 4) + delta) % 0x1_0000_0000, 4))
    else if r.kind == ABS64 then Put(m, a, Enc((Field(m, a, 8) + delta) % TWO64, 8))
    else m
  }

  function Relocated(m: Memory, rs: seq<Rela>, delta: int): Memory
    decreases |rs|
  {
    if rs == [] then m else Relocated(Patched(m, rs[0], delta), rs[1..], delta)
  }

  /** The field is what its kind says of a target (symbol plus addend) and of its own place. */
  predicate Says(field: nat, kind: U32, target: int, place: int) {
    if kind == ABS32 then field == target % 0x1_0000_0000
    else if kind == ABS64 then field == target % TWO64
    else if kind == PCREL32 then field == (target - place + 4) % 0x1_0000_0000
    else if kind == PC32 then field == (target - place) % 0x1_0000_0000
    else if kind == PC64 then field == (target - place) % TWO64
    else if kind == CALL18 then field % 0x4_0000 == ((target - place) / 4) % 0x4_0000
    else true
  }

  /** The field in memory at a says so. */
  predicate Means(m: Memory, a: nat, kind: U32, target: int, place: int)
    requires a + Width(kind) <= SPACE
  {
    Says(Field(m, a, Width(kind)), kind, target, place)
  }

  lemma SumMod(x: int, d: int, n: nat)
    requires n == 0x1_0000_0000 || n == TWO64
    ensures (x % n + d) % n == (x + d) % n
  {
    if n == 0x1_0000_0000 { SumMod32(x, d); } else { SumMod64(x, d); }
  }

  lemma SumMod32(x: int, d: int)
    ensures (x % 0x1_0000_0000 + d) % 0x1_0000_0000 == (x + d) % 0x1_0000_0000
  {
  }

  lemma SumMod64(x: int, d: int)
    ensures (x % TWO64 + d) % TWO64 == (x + d) % TWO64
  {
  }

  /** A patched field means the same with its target and its place moved. */
  lemma PatchMeans(m: Memory, r: Rela, delta: int, target: int)
    requires Means(m, Place(r, delta), r.kind, target, r.offset)
    ensures Means(Patched(m, r, delta), Place(r, delta), r.kind, target + delta, r.offset + delta)
  {
    hide Put, Enc, Dec, Add32;
    var a := Place(r, delta);
    Widths();
    if r.kind == ABS32 {
      var v: nat := (Field(m, a, 4) + delta) % 0x1_0000_0000;
      SumMod(target, delta, 0x1_0000_0000);
      DecEnc(v, 4);
      PutReads(m, a, Enc(v, 4), a, 4);
    } else if r.kind == ABS64 {
      var v: nat := (Field(m, a, 8) + delta) % TWO64;
      SumMod(target, delta, TWO64);
      DecEnc(v, 8);
      PutReads(m, a, Enc(v, 8), a, 8);
    }
  }

  /** Patching one field leaves the fields apart from it alone. */
  lemma PatchElsewhere(m: Memory, r: Rela, delta: int, b: nat, n: nat)
    requires b + n <= SPACE
    requires Disjoint(Place(r, delta), Place(r, delta) + Width(r.kind), b, b + n)
    ensures Patched(m, r, delta)[b..b + n] == m[b..b + n]
  {
    hide Put, Enc, Dec, Add32;
    var a := Place(r, delta);
    if r.kind == ABS32 {
      PutReads(m, a, Enc((Field(m, a, 4) + delta) % 0x1_0000_0000, 4), b, n);
    } else if r.kind == ABS64 {
      PutReads(m, a, Enc((Field(m, a, 8) + delta) % TWO64, 8), b, n);
    }
  }

  predicate FieldMisses(r: Rela, delta: int, b: nat, n: nat) {
    Disjoint(Place(r, delta), Place(r, delta) + Width(r.kind), b, b + n)
  }

  lemma {:induction false} RelocatedElsewhere(m: Memory, rs: seq<Rela>, delta: int, b: nat, n: nat)
    requires b + n <= SPACE && forall i :: 0 <= i < |rs| ==> FieldMisses(rs[i], delta, b, n)
    ensures Relocated(m, rs, delta)[b..b + n] == m[b..b + n]
    decreases |rs|
  {
    hide Patched;
    if rs != [] {
      PatchElsewhere(m, rs[0], delta, b, n);
      RelocatedElsewhere(Patched(m, rs[0], delta), rs[1..], delta, b, n);
    }
  }

  predicate FieldsApart(rs: seq<Rela>, delta: int) {
    forall i, j :: 0 <= i < j < |rs| ==> FieldMisses(rs[j], delta, Place(rs[i], delta), Width(rs[i].kind))
  }

  lemma SameMeans(m: Memory, m': Memory, a: nat, kind: U32, target: int, place: int)
    requires a + Width(kind) <= SPACE && m'[a..a + Width(kind)] == m[a..a + Width(kind)]
    requires Means(m, a, kind, target, place)
    ensures Means(m', a, kind, target, place)
  {
  }

  /** Relocation preserves meaning: fields that were right for the link addresses are right with all
      symbols and places moved by delta. syms[i] is the symbol of relocation i. */
  lemma {:induction false} MeaningKept(m: Memory, rs: seq<Rela>, delta: int, syms: seq<int>, i: nat)
    requires FieldsApart(rs, delta) && |syms| == |rs| && i < |rs|
    requires Means(m, Place(rs[i], delta), rs[i].kind, syms[i] + rs[i].addend, rs[i].offset)
    ensures
      var r := rs[i];
      Means(Relocated(m, rs, delta), Place(r, delta), r.kind, syms[i] + r.addend + delta, r.offset + delta)
    decreases |rs|
  {
    hide Means, Patched, Add32;
    var r := rs[i];
    var a, w := Place(r, delta), Width(r.kind);
    var m1 := Patched(m, rs[0], delta);
    assert forall j :: 0 <= j < |rs[1..]| ==> rs[1..][j] == rs[j + 1];
    if i == 0 {
      PatchMeans(m, r, delta, syms[0] + r.addend);
      RelocatedElsewhere(m1, rs[1..], delta, a, w);
      SameMeans(m1, Relocated(m1, rs[1..], delta), a, r.kind, syms[i] + r.addend + delta, r.offset + delta);
    } else {
      MissesBack(rs[0], r, delta);
      PatchElsewhere(m, rs[0], delta, a, w);
      SameMeans(m, m1, a, r.kind, syms[i] + r.addend, r.offset);
      MeaningKept(m1, rs[1..], delta, syms[1..], i - 1);
    }
  }

  lemma MissesBack(r: Rela, s: Rela, delta: int)
    requires FieldMisses(s, delta, Place(r, delta), Width(r.kind))
    ensures FieldMisses(r, delta, Place(s, delta), Width(s.kind))
  {
  }

  /** A 64-bit field moves by load base minus link base if and only if that fits in 32 signed bits;
      the loader keeps no more of it. */
  lemma Abs64Exact(m: Memory, r: Rela, loadBase: U32, linkBase: U32, target: int)
    requires r.kind == ABS64 && Means(m, Place(r, Delta(loadBase, linkBase)), ABS64, target, r.offset)
    ensures
      var d := Delta(loadBase, linkBase);
      var moved := Means(Patched(m, r, d), Place(r, d), ABS64, target + (loadBase - linkBase), r.offset);
      moved <==> -0x8000_0000 <= loadBase - linkBase < 0x8000_0000
  {
    hide Patched, Add32, Field;
    var d := Delta(loadBase, linkBase);
    PatchMeans(m, r, d, target);
    FarApart(target + d, target + (loadBase - linkBase));
  }

  /** A program linked at 0x90000000, loaded where the loader puts it, at 0x04000000: a 64-bit
      pointer to its start does not move there. */
  lemma FarLoadFails(r: Rela, d: int, m: Memory)
    requires r == Rela(0x9000_0000, ABS64, 0) && d == Delta(0x0400_0000, 0x9000_0000)
    requires m == Put(Zeros(SPACE), 0x0400_0000, Enc(0x9000_0000, 8))
    ensures Place(r, d) == 0x0400_0000 && Means(m, 0x0400_0000, ABS64, 0x9000_0000, r.offset)
    ensures !Means(Patched(m, r, d), 0x0400_0000, ABS64, 0x0400_0000, r.offset)
  {
    hide Patched, Put, Enc, Dec;
    Widths();
    DecEnc(0x9000_0000, 8);
    PutReads(Zeros(SPACE), 0x0400_0000, Enc(0x9000_0000, 8), 0, 0);
    Abs64Exact(m, r, 0x0400_0000, 0x9000_0000, 0x9000_0000);
  }

  lemma FarApart(x: int, y: int)
    requires x - y == 0 || x - y == 0x1_0000_0000 || y - x == 0x1_0000_0000
    ensures x % TWO64 == y % TWO64 <==> x == y
  {
  }

  // ---------- the loaded program

  /** The relocations the loader applies. */
  function Fixups(file: Bytes, eh: Ehdr, delta: int): seq<Rela> {
    if delta != 0 && eh.shoff != 0 then Relas(file, eh, 0) else []
  }

  function DeltaOf(file: Bytes, eh: Ehdr, loadBase: U32): int {
    Delta(loadBase, LinkBase(Segments(file, eh, 0), 0xFFFF_FFFF))
  }

  /** Memory with the program in it; None when a segment cannot be read. */
  function Program(m: Memory, file: Bytes, eh: Ehdr, loadBase: U32): Option<Memory> {
    var delta := DeltaOf(file, eh, loadBase);
    match Loaded(m, file, Segments(file, eh, 0), delta)
    case None => None
    case Some(l) => Some(Relocated(l, Fixups(file, eh, delta), delta))
  }

  /** Bytes of a segment that are in no relocated field are those of the file, or zero behind them. */
  lemma ProgramContents(m: Memory, file: Bytes, eh: Ehdr, loadBase: U32, k: nat, from: nat, n: nat)
    requires Program(m, file, eh, loadBase).Some? && k < |Segments(file, eh, 0)|
    requires SegmentsApart(Segments(file, eh, 0), DeltaOf(file, eh, loadBase))
    requires from + n <= SegmentSize(Segments(file, eh, 0)[k])
    requires
      var a := Add32(Segments(file, eh, 0)[k].vaddr, DeltaOf(file, eh, loadBase)) + from;
      var rs := Fixups(file, eh, DeltaOf(file, eh, loadBase));
      forall j :: 0 <= j < |rs| ==> FieldMisses(rs[j], DeltaOf(file, eh, loadBase), a, n)
    ensures
      var s := Segments(file, eh, 0)[k];
      var a := Add32(s.vaddr, DeltaOf(file, eh, loadBase)) + from;
      && Content(file, s).Some? && |Content(file, s).value| == SegmentSize(s)
      && Program(m, file, eh, loadBase).value[a..a + n] == Content(file, s).value[from..from + n]
  {
    hide Relocated, Loaded, Content, Add32, Segments, SegmentsApart, DeltaOf, FieldMisses, Fixups, SegmentSize;
    var ss, d := Segments(file, eh, 0), DeltaOf(file, eh, loadBase);
    var a0 := Add32(ss[k].vaddr, d);
    var l := Loaded(m, file, ss, d).value;
    LoadedContents(m, file, ss, d, k);
    ContentSize(file, ss[k]);
    RelocatedElsewhere(l, Fixups(file, eh, d), d, a0 + from, n);
    SubSlice(l, a0, a0 + SegmentSize(ss[k]), from, n);
  }

  /** BSS is zero in the loaded program, if no relocated field is in it. */
  lemma BssStaysZero(m: Memory, file: Bytes, eh: Ehdr, loadBase: U32, k: nat)
    requires Program(m, file, eh, loadBase).Some? && k < |Segments(file, eh, 0)|
    requires SegmentsApart(Segments(file, eh, 0), DeltaOf(file, eh, loadBase))
    requires Segments(file, eh, 0)[k].filesz <= Segments(file, eh, 0)[k].memsz
    requires
      var s := Segments(file, eh, 0)[k];
      var a := Add32(s.vaddr, DeltaOf(file, eh, loadBase)) + s.filesz;
      var rs := Fixups(file, eh, DeltaOf(file, eh, loadBase));
      forall j :: 0 <= j < |rs| ==> FieldMisses(rs[j], DeltaOf(file, eh, loadBase), a, s.memsz - s.filesz)
    ensures
      var s := Segments(file, eh, 0)[k];
      var a := Add32(s.vaddr, DeltaOf(file, eh, loadBase));
      Program(m, file, eh, loadBase).value[a + s.filesz..a + s.memsz] == Zeros(s.memsz - s.filesz)
  {
    hide Program, Content, Add32, Segments, SegmentsApart, DeltaOf, FieldMisses, Fixups;
    var s := Segments(file, eh, 0)[k];
    ProgramContents(m, file, eh, loadBase, k, s.filesz, s.memsz - s.filesz);
    BssZero(file, s);
    assert Content(file, s).value[s.filesz..s.memsz] == Zeros(s.memsz - s.filesz);
  }

  /** The field of r lies in segment s, also when the segment has been moved. */
  predicate InSegment(r: Rela, s: Segment, delta: int) {
    && s.vaddr <= r.offset && r.offset + Width(r.kind) <= s.vaddr + SegmentSize(s)
    && Add32(s.vaddr, delta) + SegmentSize(s) <= 0x1_0000_0000
  }

  /** The field of r in the bytes of segment s. */
  function LinkedField(file: Bytes, r: Rela, s: Segment): nat
    requires Content(file, s).Some? && s.vaddr <= r.offset && r.offset + Width(r.kind) <= s.vaddr + SegmentSize(s)
  {
    ContentSize(file, s);
    var at := r.offset - s.vaddr;
    Dec(Content(file, s).value[at..at + Width(r.kind)])
  }

  lemma PlaceInSegment(r: Rela, s: Segment, delta: int)
    requires InSegment(r, s, delta)
    ensures Width(r.kind) > 0 ==> Place(r, delta) == Add32(s.vaddr, delta) + (r.offset - s.vaddr)
  {
    if Width(r.kind) > 0 { AddMore(s.vaddr, delta, r.offset - s.vaddr); }
  }

  lemma AddMore(v: U32, d: int, x: nat)
    requires Add32(v, d) + x < 0x1_0000_0000
    ensures Add32(v + x, d) == Add32(v, d) + x
  {
  }

  /** In the loaded program every relocated field that the linker made right for the link addresses
      is right with its symbol and its place moved by delta, also when delta is 0. */
  lemma ProgramMeans(m: Memory, file: Bytes, eh: Ehdr, loadBase: U32, i: nat, k: nat, sym: int)
    requires Program(m, file, eh, loadBase).Some? && eh.shoff != 0
    requires i < |Relas(file, eh, 0)| && k < |Segments(file, eh, 0)|
    requires SegmentsApart(Segments(file, eh, 0), DeltaOf(file, eh, loadBase))
    requires FieldsApart(Relas(file, eh, 0), DeltaOf(file, eh, loadBase))
    requires InSegment(Relas(file, eh, 0)[i], Segments(file, eh, 0)[k], DeltaOf(file, eh, loadBase))
    requires Content(file, Segments(file, eh, 0)[k]).Some?
    requires
      var r := Relas(file, eh, 0)[i];
      Says(LinkedField(file, r, Segments(file, eh, 0)[k]), r.kind, sym + r.addend, r.offset)
    ensures
      var r, d := Relas(file, eh, 0)[i], DeltaOf(file, eh, loadBase);
      Means(Program(m, file, eh, loadBase).value, Place(r, d), r.kind, sym + r.addend + d, r.offset + d)
  {
    hide Relocated, Loaded, Content, Add32, Segments, SegmentsApart, FieldsApart, DeltaOf, Relas, SegmentSize, Says,
      InSegment, LinkedField;
    var ss, d, rs := Segments(file, eh, 0), DeltaOf(file, eh, loadBase), Relas(file, eh, 0);
    var r := rs[i];
    var l := Loaded(m, file, ss, d).value;
    LinkedMeans(m, file, ss, d, r, k, sym + r.addend);
    if d == 0 {
      NoRelas(l, d);
    } else {
      MeaningKept(l, rs, d, seq(|rs|, j => sym), i);
    }
  }

  /** Loading puts the linker's field in its place. */
  lemma LinkedMeans(m: Memory, file: Bytes, ss: seq<Segment>, d: int, r: Rela, k: nat, target: int)
    requires Loaded(m, file, ss, d).Some? && SegmentsApart(ss, d) && k < |ss| && InSegment(r, ss[k], d)
    requires Content(file, ss[k]).Some? && Says(LinkedField(file, r, ss[k]), r.kind, target, r.offset)
    ensures Means(Loaded(m, file, ss, d).value, Place(r, d), r.kind, target, r.offset)
  {
    hide Loaded, Content, Add32, SegmentsApart, SegmentSize, Dec;
    var s := ss[k];
    var l := Loaded(m, file, ss, d).value;
    var at, w := r.offset - s.vaddr, Width(r.kind);
    var a0 := Add32(s.vaddr, d);
    ContentSize(file, s);
    if w > 0 {
      LoadedContents(m, file, ss, d, k);
      PlaceInSegment(r, s, d);
      SubSlice(l, a0, a0 + SegmentSize(s), at, w);
    }
  }

  // ---------- the loader

  /** memcpy into memory. */
  method Store(mem: array<Byte>, a: nat, data: Bytes)
    requires mem.Length == SPACE && a + |data| <= SPACE
    modifies mem
    ensures mem[..] == Put(old(mem[..]), a, data)
  {
    forall i | 0 <= i < |data| { mem[a + i] := data[i]; }
  }

  lemma PutTwice(m: Memory, a: nat, d: Bytes, e: Bytes)
    requires a + |d| + |e| <= SPACE
    ensures Put(Put(m, a, d), a + |d|, e) == Put(m, a, d + e)
    ensures Put(m, a, []) == m
  {
    assert m[..a] + m[a..] == m;
  }

  /** The lowest address of a PT_LOAD segment. */
  method FindLinkBase(file: Bytes, eh: Ehdr) returns (low: U32)
    ensures low == LinkBase(Segments(file, eh, 0), 0xFFFF_FFFF)
  {
    hide SegmentAt;
    low := 0xFFFF_FFFF;
    var i := 0;
    while i < eh.phnum
      invariant 0 <= i <= eh.phnum
      invariant LinkBase(Segments(file, eh, i), low) == LinkBase(Segments(file, eh, 0), 0xFFFF_FFFF)
    {
      var s := SegmentAt(file, eh, i);
      if s.Some? {
        ghost var rest := Segments(file, eh, i + 1);
        assert ([s.value] + rest)[1..] == rest;
        if s.value.vaddr < low {
          low := s.value.vaddr;
        }
      }
      i := i + 1;
    }
  }

  /** One segment: its bytes from the file, then zeros. */
  method LoadSegment(file: Bytes, s: Segment, mem: array<Byte>, delta: int) returns (ok: bool)
    requires mem.Length == SPACE
    modifies mem
    ensures ok == Content(file, s).Some?
    ensures ok ==> |Content(file, s).value| == SegmentSize(s)
    ensures ok ==> mem[..] == Put(old(mem[..]), Add32(s.vaddr, delta), Content(file, s).value)
  {
    hide Put, Add32;
    ContentSize(file, s);
    var dest := Add32(s.vaddr, delta);
    ghost var m: Memory := mem[..];
    PutTwice(m, dest, [], []);
    var data: Bytes := [];
    if s.filesz > 0 {
      var r := ReadAt(file, s.offset, s.filesz);
      if r.None? {
        return false;
      }
      data := r.value;
      Store(mem, dest, data);
    }
    PutTwice(m, dest, data, Zeros(SegmentSize(s) - s.filesz));
    if s.memsz > s.filesz {
      Store(mem, dest + s.filesz, Zeros(s.memsz - s.filesz));
    }
    assert s.memsz <= s.filesz ==> data + Zeros(0) == data;
    assert [] + Zeros(SegmentSize(s) - s.filesz) == Zeros(SegmentSize(s) - s.filesz);
    return true;
  }

  /** All PT_LOAD segments. */
  method LoadSegments(file: Bytes, eh: Ehdr, mem: array<Byte>, delta: int) returns (ok: bool)
    requires mem.Length == SPACE
    modifies mem
    ensures ok == Loaded(old(mem[..]), file, Segments(file, eh, 0), delta).Some?
    ensures ok ==> mem[..] == Loaded(old(mem[..]), file, Segments(file, eh, 0), delta).value
  {
    hide SegmentAt, Put, Content, Add32;
    ghost var goal := Loaded(mem[..], file, Segments(file, eh, 0), delta);
    var i := 0;
    while i < eh.phnum
      invariant 0 <= i <= eh.phnum
      invariant Loaded(mem[..], file, Segments(file, eh, i), delta) == goal
    {
      var s := SegmentAt(file, eh, i);
      if s.Some? {
        ghost var ss := Segments(file, eh, i);
        assert ss[1..] == Segments(file, eh, i + 1);
        var read := LoadSegment(file, s.value, mem, delta);
        if !read {
          return false;
        }
      }
      i := i + 1;
    }
    return true;
  }

  /** One relocation in place. */
  method Patch(mem: array<Byte>, r: Rela, delta: int)
    requires mem.Length == SPACE
    modifies mem
    ensures mem[..] == Patched(old(mem[..]), r, delta)
  {
    hide Put, Enc, Dec, Add32;
    var loc := Place(r, delta);
    if r.kind == ABS32 {
      var was: nat := Dec(mem[loc..loc + 4]);
      assert mem[loc..loc + 4] == mem[..][loc..loc + 4];
      Store(mem, loc, Enc((was + delta) % 0x1_0000_0000, 4));
    } else if r.kind == ABS64 {
      var was: nat := Dec(mem[loc..loc + 8]);
      assert mem[loc..loc + 8] == mem[..][loc..loc + 8];
      Store(mem, loc, Enc((was + delta) % TWO64, 8));
    }
  }

  /** The relocations of one section, up to the first that cannot be read. */
  method RelocateSection(file: Bytes, sh: Section, n: nat, mem: array<Byte>, delta: int)
    requires mem.Length == SPACE
    modifies mem
    ensures mem[..] == Relocated(old(mem[..]), Entries(file, sh, 0, n), delta)
  {
    hide ReadAt, RelaOf, Patched, Add32;
    ghost var goal := Relocated(mem[..], Entries(file, sh, 0, n), delta);
    var j := 0;
    while j < n
      invariant 0 <= j <= n
      invariant Relocated(mem[..], Entries(file, sh, j, n), delta) == goal
    {
      var b := ReadAt(file, Add32(sh.offset, j * sh.entsize), 12);
      if b.None? {
        break;
      }
      TwelveBytes(file, Add32(sh.offset, j * sh.entsize));
      ghost var rs := Entries(file, sh, j, n);
      assert rs[1..] == Entries(file, sh, j + 1, n);
      Patch(mem, RelaOf(b.value), delta);
      j := j + 1;
    }
  }

  lemma TwelveBytes(file: Bytes, at: U32)
    ensures ReadAt(file, at, 12).Some? ==> |ReadAt(file, at, 12).value| == 12
  {
  }

  lemma {:induction false} RelocatedConcat(m: Memory, a: seq<Rela>, b: seq<Rela>, delta: int)
    ensures Relocated(m, a + b, delta) == Relocated(Relocated(m, a, delta), b, delta)
    decreases |a|
  {
    hide Patched;
    if a == [] {
      assert a + b == b;
    } else {
      assert (a + b)[1..] == a[1..] + b;
      RelocatedConcat(Patched(m, a[0], delta), a[1..], b, delta);
    }
  }

  /** The relocations of all loaded sections. */
  method Relocate(file: Bytes, eh: Ehdr, mem: array<Byte>, delta: int)
    requires mem.Length == SPACE
    modifies mem
    ensures mem[..] == Relocated(old(mem[..]), Relas(file, eh, 0), delta)
  {
    hide SectionAt, Applies, Entries, Relocated;
    ghost var goal := Relocated(mem[..], Relas(file, eh, 0), delta);
    var i := 0;
    while i < eh.shnum
      invariant 0 <= i <= eh.shnum
      invariant Relocated(mem[..], Relas(file, eh, i), delta) == goal
    {
      RelocatedConcat(mem[..], SectionRelas(file, eh, i), Relas(file, eh, i + 1), delta);
      NoRelas(mem[..], delta);
      var sh := SectionAt(file, eh, i);
      if sh.Some? && Applies(file, eh, sh.value) {
        RelocateSection(file, sh.value, EntryCount(sh.value), mem, delta);
      }
      i := i + 1;
    }
    NoRelas(mem[..], delta);
  }

  lemma NoRelas(m: Memory, delta: int)
    ensures Relocated(m, [], delta) == m
  {
  }

  datatype Outcome = Entry(pc: U32) | Failed(error: LoadError)

  /** load_elf: memory with the program in it, or the error; the entry point moved by delta. */
  method LoadElf(file: Bytes, mem: array<Byte>, loadBase: U32) returns (r: Outcome)
    requires mem.Length == SPACE
    modifies mem
    ensures ReadHeader(file).Bad? ==> r == Failed(ReadHeader(file).error) && mem[..] == old(mem[..])
    ensures ReadHeader(file).Good? ==>
      var eh := ReadHeader(file).eh;
      var program := Program(old(mem[..]), file, eh, loadBase);
      if LinkBase(Segments(file, eh, 0), 0xFFFF_FFFF) == 0xFFFF_FFFF then r == Failed(NoLoad) && mem[..] == old(mem[..])
      else if program.None? then r == Failed(SegmentRead)
      else r == Entry(Add32(eh.entry, DeltaOf(file, eh, loadBase))) && mem[..] == program.value
  {
    hide Segments, LinkBase, Relas, Loaded, Relocated, Delta, ReadHeader, Add32;
    var h := ReadHeader(file);
    if h.Bad? {
      return Failed(h.error);
    }
    var eh := h.eh;
    var low := FindLinkBase(file, eh);
    if low == 0xFFFF_FFFF {
      return Failed(NoLoad);
    }
    var delta := Delta(loadBase, low);
    var ok := LoadSegments(file, eh, mem, delta);
    if !ok {
      return Failed(SegmentRead);
    }
    NoRelas(mem[..], delta);
    if delta != 0 && eh.shoff != 0 {
      Relocate(file, eh, mem, delta);
    }
    return Entry(Add32(eh.entry, delta));
  }
}
