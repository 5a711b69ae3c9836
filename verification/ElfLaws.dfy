/** What the loader takes from an ELF file, and what it makes of it, said of the bytes of the file
    (baremetal/programs/loader.c, klausscpu_elf.h). */
module ElfLaws {
  import opened Basics
  import opened FatGeometry
  import opened ElfFile
  import opened ElfLoader

  // ---------- words

  /** The little-endian word at a place of the file. */
  function Word32(file: Bytes, at: nat): int
    requires at + 4 <= |file|
  {
    var b0: int, b1: int, b2: int, b3: int := file[at], file[at + 1], file[at + 2], file[at + 3];
    b0 + 0x100 * b1 + 0x1_0000 * b2 + 0x100_0000 * b3
  }

  function Signed32(v: int): int {
    if v < 0x8000_0000 then v else v - 0x1_0000_0000
  }

  lemma DecFour(b: Bytes)
    requires |b| == 4
    ensures Dec(b) == Word32(b, 0)
  {
    var b0: int, b1: int, b2: int, b3: int := b[0], b[1], b[2], b[3];
    assert Dec(b[1..][1..][1..][1..]) == 0;
    assert Dec(b[1..][1..][1..]) == b3;
    assert Dec(b[1..][1..]) == b2 + 0x100 * b3;
    assert Dec(b[1..]) == b1 + 0x100 * b2 + 0x1_0000 * b3;
  }

  lemma WordIs(file: Bytes, a: nat, n: nat, at: nat)
    requires a + n <= |file| && at + 4 <= n
    ensures Word(file[a..a + n], at) == Word32(file, a + at)
  {
    hide Dec;
    var b := file[a..a + n];
    DecFour(b[at..at + 4]);
    SubSlice(file, a, a + n, at, 4);
  }

  // ---------- headers, as they are written

  function Le4(v: U32): (b: Bytes)
    ensures |b| == 4
  {
    [v % 0x100, v / 0x100 % 0x100, v / 0x1_0000 % 0x100, v / 0x100_0000]
  }

  function Le2(v: U32): (b: Bytes)
    ensures |b| == 2
  {
    [v % 0x100, v / 0x100 % 0x100]
  }

  /** Words one after the other. */
  function Fields(ws: seq<U32>): (b: Bytes)
    ensures |b| == 4 * |ws|
  {
    if ws == [] then [] else Le4(ws[0]) + Fields(ws[1..])
  }

  lemma Le4Reads(v: U32)
    ensures Dec(Le4(v)) == v
  {
    hide Dec;
    DecFour(Le4(v));
    var v1 := v / 0x100;
    var v2 := v1 / 0x100;
    assert v == v % 0x100 + 0x100 * v1 && v1 == v1 % 0x100 + 0x100 * v2 && v2 == v2 % 0x100 + 0x100 * (v2 / 0x100);
    assert v2 == v / 0x1_0000 && v2 / 0x100 == v / 0x100_0000;
  }

  lemma {:induction false} FieldAt(ws: seq<U32>, i: nat)
    requires i < |ws|
    ensures Fields(ws)[4 * i..4 * i + 4] == Le4(ws[i])
    decreases i
  {
    hide Le4;
    if i > 0 {
      FieldAt(ws[1..], i - 1);
      var b := Fields(ws);
      assert b[4..] == Fields(ws[1..]) && b[4..] == b[4..|b|];
      SubSlice(b, 4, |b|, 4 * (i - 1), 4);
    }
  }

  lemma FieldReads(ws: seq<U32>, i: nat)
    requires i < |ws|
    ensures Word(Fields(ws), 4 * i) == ws[i]
  {
    hide Dec, Fields, Le4;
    FieldAt(ws, i);
    Le4Reads(ws[i]);
  }

  /** A program header reads back as it is written in struct order. */
  lemma PhdrReads(kind: U32, offset: U32, vaddr: U32, paddr: U32, filesz: U32, memsz: U32, flags: U32, align: U32)
    ensures SegmentOf(Fields([kind, offset, vaddr, paddr, filesz, memsz, flags, align])) ==
      if kind == 1 then Some(Segment(offset, vaddr, filesz, memsz)) else None
  {
    hide Word, Fields;
    var ws := [kind, offset, vaddr, paddr, filesz, memsz, flags, align];
    FieldReads(ws, 0);
    FieldReads(ws, 1);
    FieldReads(ws, 2);
    FieldReads(ws, 4);
    FieldReads(ws, 5);
  }

  /** A section header. */
  lemma ShdrReads(name: U32, kind: U32, flags: U32, addr: U32, offset: U32, size: U32, link: U32, info: U32, align: U32,
                  entsize: U32)
    ensures SectionOf(Fields([name, kind, flags, addr, offset, size, link, info, align, entsize])) ==
      Section(kind, flags, offset, size, info, entsize)
  {
    hide Word, Fields;
    var ws := [name, kind, flags, addr, offset, size, link, info, align, entsize];
    FieldReads(ws, 1);
    FieldReads(ws, 2);
    FieldReads(ws, 4);
    FieldReads(ws, 5);
    FieldReads(ws, 7);
    FieldReads(ws, 9);
  }

  /** A relocation: the kind is the low byte of r_info, the addend is signed. */
  lemma RelaReads(offset: U32, info: U32, addend: U32)
    ensures RelaOf(Fields([offset, info, addend])) == Rela(offset, info % 0x100, Signed32(addend))
  {
    hide Word, Fields, Le4;
    var ws := [offset, info, addend];
    FieldReads(ws, 0);
    FieldReads(ws, 2);
    FieldAt(ws, 1);
    LowByte(info);
    assert Fields(ws)[4..8][0] == Fields(ws)[4];
  }

  lemma LowByte(v: U32)
    ensures Le4(v)[0] == v % 0x100
  {
  }

  lemma DecTwo(v: U32)
    requires v < 0x1_0000
    ensures Dec(Le2(v)) == v
  {
    var b := Le2(v);
    assert Dec(b[1..][1..]) == 0;
    assert Dec(b[1..]) == v / 0x100;
  }

  /** The ELF header in struct order: e_type and e_machine; e_version to e_flags; the sizes and counts. */
  function EhdrBytes(ident: Bytes, kind: U32, machine: U32, words: seq<U32>, halves: seq<U32>): Bytes
    requires |words| == 5 && |halves| == 6
  {
    ident + (Le2(kind) + Le2(machine)) + Fields(words)
    + (Le2(halves[0]) + Le2(halves[1]) + Le2(halves[2]) + Le2(halves[3]) + Le2(halves[4]) + Le2(halves[5]))
  }

  lemma HeaderParts(ident: Bytes, kind: U32, machine: U32, words: seq<U32>, halves: seq<U32>, rest: Bytes)
    requires |ident| == 16 && |words| == 5 && |halves| == 6
    ensures var file := EhdrBytes(ident, kind, machine, words, halves) + rest;
      && |file| >= 52 && file[..16] == ident && file[18..20] == Le2(machine) && file[20..40] == Fields(words)
      && file[42..44] == Le2(halves[1]) && file[44..46] == Le2(halves[2])
      && file[46..48] == Le2(halves[3]) && file[48..50] == Le2(halves[4])
  {
    hide Fields, Le2;
    var file := EhdrBytes(ident, kind, machine, words, halves) + rest;
    var two, f := Le2(kind) + Le2(machine), Fields(words);
    var h := Le2(halves[0]) + Le2(halves[1]) + Le2(halves[2]) + Le2(halves[3]) + Le2(halves[4]) + Le2(halves[5]);
    assert file == ident + two + f + h + rest;
    assert file[..16] == ident && file[16..20] == two && file[20..40] == f && file[40..52] == h;
    assert two[2..4] == Le2(machine) && h[2..4] == Le2(halves[1]) && h[4..6] == Le2(halves[2]);
    assert h[6..8] == Le2(halves[3]) && h[8..10] == Le2(halves[4]);
    SubSlice(file, 16, 20, 2, 2);
    SubSlice(file, 40, 52, 2, 2);
    SubSlice(file, 40, 52, 4, 2);
    SubSlice(file, 40, 52, 6, 2);
    SubSlice(file, 40, 52, 8, 2);
  }

  lemma HeaderWords(file: Bytes, words: seq<U32>, i: nat)
    requires |words| == 5 && |file| >= 52 && file[20..40] == Fields(words) && i < 5
    ensures Word(file, 20 + 4 * i) == words[i] && file[20 + 4 * i] == words[i] % 0x100
  {
    hide Dec, Fields, Le4;
    FieldAt(words, i);
    Le4Reads(words[i]);
    SubSlice(file, 20, 40, 4 * i, 4);
    LowByte(words[i]);
    assert file[20 + 4 * i..20 + 4 * i + 4][0] == file[20 + 4 * i];
  }

  /** The ELF header reads back as it is written in struct order, after the checks in their order. */
  lemma EhdrReads(ident: Bytes, kind: U32, machine: U32, words: seq<U32>, halves: seq<U32>, rest: Bytes)
    requires |ident| == 16 && |words| == 5 && |halves| == 6
    requires machine < 0x1_0000 && forall i :: 0 <= i < 6 ==> halves[i] < 0x1_0000
    ensures ReadHeader(EhdrBytes(ident, kind, machine, words, halves) + rest) ==
      if ident[..4] != [0x7F, 0x45, 0x4C, 0x46] then Bad(BadMagic)
      else if machine != 0x4B43 then Bad(BadMachine)
      else if words[4] % 0x100 != 3 then Bad(BadAbi)
      else Good(Ehdr(words[1], words[2], words[3], halves[1], halves[2], halves[3], halves[4]))
  {
    hide Word, Dec, Fields, Le2, EhdrBytes;
    var file := EhdrBytes(ident, kind, machine, words, halves) + rest;
    HeaderParts(ident, kind, machine, words, halves, rest);
    HeaderWords(file, words, 1);
    HeaderWords(file, words, 2);
    HeaderWords(file, words, 3);
    HeaderWords(file, words, 4);
    DecTwo(machine);
    DecTwo(halves[1]);
    DecTwo(halves[2]);
    DecTwo(halves[3]);
    DecTwo(halves[4]);
    assert file[..16][..4] == file[..4];
  }

  lemma TooShort(file: Bytes)
    ensures ReadHeader(file) == Bad(HeaderRead) <==> |file| < 52
  {
    hide Word, Half;
  }

  // ---------- what is loaded

  /** Where program header i is. */
  function PhdrAt(eh: Ehdr, i: nat): int {
    (eh.phoff + i * eh.phentsize) % 0x1_0000_0000
  }

  /** Program header i is in the file and of type 1. */
  predicate IsLoad(file: Bytes, eh: Ehdr, i: nat) {
    i < eh.phnum && PhdrAt(eh, i) + 32 <= |file| && Word32(file, PhdrAt(eh, i)) == 1
  }

  function SegmentIn(file: Bytes, eh: Ehdr, i: nat): Segment
    requires IsLoad(file, eh, i)
  {
    var a := PhdrAt(eh, i);
    WordIs(file, a, 32, 4);
    WordIs(file, a, 32, 8);
    WordIs(file, a, 32, 16);
    WordIs(file, a, 32, 20);
    Segment(Word32(file, a + 4), Word32(file, a + 8), Word32(file, a + 16), Word32(file, a + 20))
  }

  lemma SegmentAtIs(file: Bytes, eh: Ehdr, i: nat)
    requires i < eh.phnum
    ensures SegmentAt(file, eh, i) == if IsLoad(file, eh, i) then Some(SegmentIn(file, eh, i)) else None
  {
    hide Word;
    var a := PhdrAt(eh, i);
    if a + 32 <= |file| {
      WordIs(file, a, 32, 0);
      WordIs(file, a, 32, 4);
      WordIs(file, a, 32, 8);
      WordIs(file, a, 32, 16);
      WordIs(file, a, 32, 20);
    }
  }

  /** Every such header is loaded. */
  lemma {:induction false} SegmentListed(file: Bytes, eh: Ehdr, from: nat, i: nat) returns (k: nat)
    requires from <= i && IsLoad(file, eh, i)
    ensures k < |Segments(file, eh, from)| && Segments(file, eh, from)[k] == SegmentIn(file, eh, i)
    decreases i - from
  {
    hide SegmentAt, IsLoad, SegmentIn;
    LoadIn(file, eh, i);
    SegmentAtIs(file, eh, from);
    if from == i {
      k := 0;
    } else {
      k := SegmentListed(file, eh, from + 1, i);
      if SegmentAt(file, eh, from).Some? { k := k + 1; }
    }
  }

  lemma LoadIn(file: Bytes, eh: Ehdr, i: nat)
    requires IsLoad(file, eh, i)
    ensures i < eh.phnum
  {
  }

  /** Nothing else is. */
  lemma {:induction false} SegmentFrom(file: Bytes, eh: Ehdr, from: nat, k: nat) returns (i: nat)
    requires from <= eh.phnum && k < |Segments(file, eh, from)|
    ensures from <= i && IsLoad(file, eh, i) && Segments(file, eh, from)[k] == SegmentIn(file, eh, i)
    decreases eh.phnum - from
  {
    hide SegmentAt, IsLoad, SegmentIn;
    if from < eh.phnum {
      SegmentAtIs(file, eh, from);
      if SegmentAt(file, eh, from).None? {
        i := SegmentFrom(file, eh, from + 1, k);
      } else if k == 0 {
        i := from;
      } else {
        i := SegmentFrom(file, eh, from + 1, k - 1);
      }
    }
  }

  // ---------- what is relocated

  function ShdrAt(eh: Ehdr, i: nat): int {
    (eh.shoff + i * eh.shentsize) % 0x1_0000_0000
  }

  predicate HasShdr(file: Bytes, eh: Ehdr, i: nat) {
    i < eh.shnum && ShdrAt(eh, i) + 40 <= |file|
  }

  /** Word w of section header i. */
  function ShdrWord(file: Bytes, eh: Ehdr, i: nat, w: nat): int
    requires HasShdr(file, eh, i) && w < 10
  {
    Word32(file, ShdrAt(eh, i) + 4 * w)
  }

  /** Section i holds relocations of a section that is loaded: its type is 4, its entries have a size,
      and bit 1 of the flags of the section its info names is set. */
  predicate RelocatesLoaded(file: Bytes, eh: Ehdr, i: nat) {
    && HasShdr(file, eh, i) && ShdrWord(file, eh, i, 1) == 4 && ShdrWord(file, eh, i, 9) != 0
    && 1 <= ShdrWord(file, eh, i, 7) < eh.shnum
    && HasShdr(file, eh, ShdrWord(file, eh, i, 7)) && ShdrWord(file, eh, ShdrWord(file, eh, i, 7), 2) % 4 >= 2
  }

  /** Where its entry j is. */
  function RelaPlace(file: Bytes, eh: Ehdr, i: nat, j: nat): int
    requires HasShdr(file, eh, i)
  {
    (ShdrWord(file, eh, i, 4) + j * ShdrWord(file, eh, i, 9)) % 0x1_0000_0000
  }

  predicate RelaThere(file: Bytes, eh: Ehdr, i: nat, j: nat)
    requires HasShdr(file, eh, i)
  {
    RelaPlace(file, eh, i, j) + 12 <= |file|
  }

  /** It has an entry j, and the entries up to it are in the file. */
  predicate HasRela(file: Bytes, eh: Ehdr, i: nat, j: nat)
    requires RelocatesLoaded(file, eh, i)
  {
    j < ShdrWord(file, eh, i, 5) / ShdrWord(file, eh, i, 9) && forall m :: 0 <= m <= j ==> RelaThere(file, eh, i, m)
  }

  function RelaIn(file: Bytes, eh: Ehdr, i: nat, j: nat): Rela
    requires HasShdr(file, eh, i) && RelaThere(file, eh, i, j)
  {
    var a := RelaPlace(file, eh, i, j);
    WordIs(file, a, 12, 0);
    Rela(Word32(file, a), file[a + 4], Signed32(Word32(file, a + 8)))
  }

  lemma SectionAtIs(file: Bytes, eh: Ehdr, i: nat)
    requires i < eh.shnum
    ensures SectionAt(file, eh, i).Some? <==> HasShdr(file, eh, i)
    ensures HasShdr(file, eh, i) ==>
      var sh := SectionAt(file, eh, i).value;
      && sh.kind == ShdrWord(file, eh, i, 1) && sh.flags == ShdrWord(file, eh, i, 2)
      && sh.offset == ShdrWord(file, eh, i, 4) && sh.size == ShdrWord(file, eh, i, 5)
      && sh.info == ShdrWord(file, eh, i, 7) && sh.entsize == ShdrWord(file, eh, i, 9)
  {
    hide Word, Word32;
    var a := ShdrAt(eh, i);
    if a + 40 <= |file| {
      WordIs(file, a, 40, 4);
      WordIs(file, a, 40, 8);
      WordIs(file, a, 40, 16);
      WordIs(file, a, 40, 20);
      WordIs(file, a, 40, 28);
      WordIs(file, a, 40, 36);
    }
  }

  lemma AllocBit(flags: U32)
    ensures IsAlloc(flags) <==> flags % 4 >= 2
  {
    assert flags == 4 * (flags / 4) + flags % 4;
  }

  lemma AppliesIs(file: Bytes, eh: Ehdr, i: nat)
    requires i < eh.shnum && HasShdr(file, eh, i)
    ensures Applies(file, eh, SectionAt(file, eh, i).value) <==> RelocatesLoaded(file, eh, i)
  {
    hide SectionAt, ShdrWord, IsAlloc;
    SectionAtIs(file, eh, i);
    var sh := SectionAt(file, eh, i).value;
    if 0 < sh.info < eh.shnum {
      SectionAtIs(file, eh, sh.info);
      if HasShdr(file, eh, sh.info) { AllocBit(SectionAt(file, eh, sh.info).value.flags); }
    }
  }

  /** Entry j as the loader reads it. */
  lemma EntryIs(file: Bytes, eh: Ehdr, i: nat, j: nat)
    requires HasShdr(file, eh, i)
    ensures
      var sh := SectionAt(file, eh, i).value;
      var r := ReadAt(file, Add32(sh.offset, j * sh.entsize), 12);
      && (r.Some? <==> RelaThere(file, eh, i, j))
      && (r.Some? ==> |r.value| == 12 && RelaOf(r.value) == RelaIn(file, eh, i, j))
  {
    hide SectionAt, ShdrWord, Word, Word32;
    SectionAtIs(file, eh, i);
    var a := RelaPlace(file, eh, i, j);
    if a + 12 <= |file| {
      WordIs(file, a, 12, 0);
      WordIs(file, a, 12, 8);
    }
  }

  /** Entry j is in the list of the section's entries from m on. */
  lemma {:induction false} EntryListed(file: Bytes, eh: Ehdr, i: nat, m: nat, j: nat, n: nat)
    requires HasShdr(file, eh, i) && m <= j < n && forall x :: 0 <= x <= j ==> RelaThere(file, eh, i, x)
    ensures var es := Entries(file, SectionAt(file, eh, i).value, m, n);
      j - m < |es| && es[j - m] == RelaIn(file, eh, i, j)
    decreases j - m
  {
    hide SectionAt, ReadAt, RelaOf, RelaIn, RelaThere, Add32;
    EntryIs(file, eh, i, m);
    if m < j {
      EntryListed(file, eh, i, m + 1, j, n);
    }
  }

  /** And nothing else is. */
  lemma {:induction false} EntryFrom(file: Bytes, eh: Ehdr, i: nat, m: nat, n: nat, k: nat)
    requires HasShdr(file, eh, i) && m <= n && forall x :: 0 <= x < m ==> RelaThere(file, eh, i, x)
    requires k < |Entries(file, SectionAt(file, eh, i).value, m, n)|
    ensures m + k < n && forall x :: 0 <= x <= m + k ==> RelaThere(file, eh, i, x)
    ensures Entries(file, SectionAt(file, eh, i).value, m, n)[k] == RelaIn(file, eh, i, m + k)
    decreases k
  {
    hide SectionAt, ReadAt, RelaOf, RelaIn, RelaThere, Add32;
    if m < n {
      EntryIs(file, eh, i, m);
      if k > 0 {
        EntryFrom(file, eh, i, m + 1, n, k - 1);
      }
    }
  }

  lemma CountIs(file: Bytes, eh: Ehdr, i: nat)
    requires HasShdr(file, eh, i) && ShdrWord(file, eh, i, 9) != 0
    ensures EntryCount(SectionAt(file, eh, i).value) == ShdrWord(file, eh, i, 5) / ShdrWord(file, eh, i, 9)
  {
    hide SectionAt, ShdrWord;
    SectionAtIs(file, eh, i);
  }

  /** Every relocation of a loaded section is in the list. */
  lemma {:induction false} RelaListed(file: Bytes, eh: Ehdr, from: nat, i: nat, j: nat) returns (n: nat)
    requires from <= i && RelocatesLoaded(file, eh, i) && HasRela(file, eh, i, j)
    ensures n < |Relas(file, eh, from)| && Relas(file, eh, from)[n] == RelaIn(file, eh, i, j)
    decreases i - from
  {
    hide SectionAt, Entries, Applies, RelaIn, RelaThere, ShdrWord;
    if from == i {
      SectionAtIs(file, eh, i);
      AppliesIs(file, eh, i);
      CountIs(file, eh, i);
      EntryListed(file, eh, i, 0, j, EntryCount(SectionAt(file, eh, i).value));
      n := j;
    } else {
      n := RelaListed(file, eh, from + 1, i, j);
      n := |SectionRelas(file, eh, from)| + n;
    }
  }

  /** And nothing else is. */
  lemma {:induction false} RelaFrom(file: Bytes, eh: Ehdr, from: nat, n: nat) returns (i: nat, j: nat)
    requires from <= eh.shnum && n < |Relas(file, eh, from)|
    ensures RelocatesLoaded(file, eh, i) && HasRela(file, eh, i, j)
    ensures Relas(file, eh, from)[n] == RelaIn(file, eh, i, j)
    decreases eh.shnum - from
  {
    hide SectionAt, Entries, Applies, RelaIn, RelaThere, ShdrWord;
    if from < eh.shnum {
      SectionAtIs(file, eh, from);
      var here := SectionRelas(file, eh, from);
      if n < |here| {
        AppliesIs(file, eh, from);
        CountIs(file, eh, from);
        EntryFrom(file, eh, from, 0, EntryCount(SectionAt(file, eh, from).value), n);
        i, j := from, n;
      } else {
        i, j := RelaFrom(file, eh, from + 1, n - |here|);
      }
    }
  }

  // ---------- one relocation

  /** The 64 bits at a place. */
  function Word64(b: Bytes, at: nat): int
    requires at + 8 <= |b|
  {
    Word32(b, at) + 0x1_0000_0000 * Word32(b, at + 4)
  }

  lemma DecStep(b: Bytes)
    requires b != []
    ensures var b0: int := b[0]; Dec(b) == b0 + 256 * Dec(b[1..])
  {
  }

  lemma DecEight(b: Bytes)
    requires |b| == 8
    ensures Dec(b) == Word64(b, 0)
  {
    hide Dec;
    DecStep(b);
    DecStep(b[1..]);
    DecStep(b[2..]);
    DecStep(b[3..]);
    assert b[1..][1..] == b[2..] && b[2..][1..] == b[3..] && b[3..][1..] == b[4..];
    DecFour(b[4..]);
  }

  lemma FieldFour(m: Memory, a: nat)
    requires a + 4 <= SPACE
    ensures Field(m, a, 4) == Word32(m, a)
  {
    hide Dec;
    DecFour(m[a..a + 4]);
  }

  lemma FieldEight(m: Memory, a: nat)
    requires a + 8 <= SPACE
    ensures Field(m, a, 8) == Word64(m, a)
  {
    hide Dec, Word32;
    var b := m[a..a + 8];
    DecEight(b);
    SameWord(m, a, b, 0);
    SameWord(m, a, b, 4);
  }

  lemma SameWord(m: Memory, a: nat, b: Bytes, x: nat)
    requires a + 8 <= SPACE && b == m[a..a + 8] && x <= 4
    ensures Word32(b, x) == Word32(m, a + x)
  {
  }

  /** A relocation of kind 1 adds delta to 32 bits, one of kind 2 to 64 bits, at its place; one of any
      other kind changes nothing; and no other byte changes. */
  lemma PatchedBytes(m: Memory, r: Rela, d: int)
    ensures var m', a := Patched(m, r, d), (r.offset + d) % 0x1_0000_0000;
      && (r.kind == 1 ==> Word32(m', a) == (Word32(m, a) + d) % 0x1_0000_0000)
      && (r.kind == 2 ==> Word64(m', a) == (Word64(m, a) + d) % 0x1_0000_0000_0000_0000)
      && (r.kind != 1 && r.kind != 2 ==> m' == m)
      && (forall x :: 0 <= x < a || a + (if r.kind == 1 then 4 else 8) <= x < SPACE ==> m'[x] == m[x])
  {
    hide Dec, Enc, Word32, Word64, Field;
    var m', a := Patched(m, r, d), Place(r, d);
    Widths();
    if r.kind == 1 {
      FieldFour(m, a);
      FieldFour(m', a);
      var v: nat := (Field(m, a, 4) + d) % 0x1_0000_0000;
      DecEnc(v, 4);
      FieldPut(m, a, Enc(v, 4));
    } else if r.kind == 2 {
      FieldEight(m, a);
      FieldEight(m', a);
      var v: nat := (Field(m, a, 8) + d) % TWO64;
      DecEnc(v, 8);
      FieldPut(m, a, Enc(v, 8));
    }
  }

  lemma FieldPut(m: Memory, a: nat, data: Bytes)
    requires a + |data| <= SPACE
    ensures var m' := Put(m, a, data);
      Field(m', a, |data|) == Dec(data) && forall x :: 0 <= x < a || a + |data| <= x < SPACE ==> m'[x] == m[x]
  {
    hide Dec;
    assert Put(m, a, data)[a..a + |data|] == data;
  }

  // ---------- the loaded program

  /** In the loaded program every field that a relocation of a loaded section names is right, with its
      symbol and its place moved by delta, if the linker made it right for the link addresses: for
      every section i, entry j and program header h of the file. */
  lemma FieldsRight(m: Memory, file: Bytes, eh: Ehdr, loadBase: U32, i: nat, j: nat, h: nat, sym: int)
    requires Program(m, file, eh, loadBase).Some? && eh.shoff != 0
    requires RelocatesLoaded(file, eh, i) && HasRela(file, eh, i, j) && IsLoad(file, eh, h)
    requires SegmentsApart(Segments(file, eh, 0), DeltaOf(file, eh, loadBase))
    requires FieldsApart(Relas(file, eh, 0), DeltaOf(file, eh, loadBase))
    requires InSegment(RelaIn(file, eh, i, j), SegmentIn(file, eh, h), DeltaOf(file, eh, loadBase))
    requires Content(file, SegmentIn(file, eh, h)).Some?
    requires
      var r := RelaIn(file, eh, i, j);
      Says(LinkedField(file, r, SegmentIn(file, eh, h)), r.kind, sym + r.addend, r.offset)
    ensures
      var r, d := RelaIn(file, eh, i, j), DeltaOf(file, eh, loadBase);
      Means(Program(m, file, eh, loadBase).value, Place(r, d), r.kind, sym + r.addend + d, r.offset + d)
  {
    hide Program, Segments, Relas, SegmentsApart, FieldsApart, InSegment, Content, Says, LinkedField, Means, DeltaOf,
      RelaIn, SegmentIn, IsLoad, RelocatesLoaded, HasRela;
    var n := RelaListed(file, eh, 0, i, j);
    var k := SegmentListed(file, eh, 0, h);
    ProgramMeans(m, file, eh, loadBase, n, k, sym);
  }

  /** Bytes of program header h that are in no field such a relocation names are those of the file up
      to its size there, and zero behind. */
  lemma BytesKept(m: Memory, file: Bytes, eh: Ehdr, loadBase: U32, h: nat, x: nat)
    requires Program(m, file, eh, loadBase).Some? && IsLoad(file, eh, h)
    requires SegmentsApart(Segments(file, eh, 0), DeltaOf(file, eh, loadBase))
    requires x < SegmentSize(SegmentIn(file, eh, h))
    requires
      var d := DeltaOf(file, eh, loadBase);
      forall i, j :: RelocatesLoaded(file, eh, i) && HasRela(file, eh, i, j) ==>
        FieldMisses(RelaIn(file, eh, i, j), d, Add32(SegmentIn(file, eh, h).vaddr, d) + x, 1)
    ensures
      var s := SegmentIn(file, eh, h);
      var a := Add32(s.vaddr, DeltaOf(file, eh, loadBase)) + x;
      && (x < s.filesz ==> s.offset + x < |file|)
      && Program(m, file, eh, loadBase).value[a] == if x < s.filesz then file[s.offset + x] else 0
  {
    hide Program, Segments, Relas, SegmentsApart, FieldMisses, Add32, DeltaOf, RelaIn, SegmentIn, IsLoad,
      RelocatesLoaded, HasRela, SegmentSize;
    var d := DeltaOf(file, eh, loadBase);
    var s := SegmentIn(file, eh, h);
    var a := Add32(s.vaddr, d) + x;
    var k := SegmentListed(file, eh, 0, h);
    var rs := Fixups(file, eh, d);
    forall n | 0 <= n < |rs| ensures FieldMisses(rs[n], d, a, 1) {
      var i, j := RelaFrom(file, eh, 0, n);
    }
    ProgramContents(m, file, eh, loadBase, k, x, 1);
    ContentAt(file, s, x);
    var p := Program(m, file, eh, loadBase).value;
    assert p[a..a + 1][0] == p[a];
  }

  lemma ContentAt(file: Bytes, s: Segment, x: nat)
    requires Content(file, s).Some? && x < SegmentSize(s)
    ensures |Content(file, s).value| == SegmentSize(s) && (x < s.filesz ==> s.offset + x < |file|)
    ensures Content(file, s).value[x..x + 1][0] == if x < s.filesz then file[s.offset + x] else 0
  {
    ContentSize(file, s);
  }
}
