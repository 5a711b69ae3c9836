/** What the loader reads from an ELF file, and what loading it means (baremetal/programs/loader.c,
    klausscpu_elf.h). Memory is what a pointer can reach from a 32-bit
    address by adding a 32-bit size. */
module ElfFile {
  import opened Basics
  import opened FatGeometry

  type Bytes = seq<Byte>

  const SPACE: nat := 0x2_0000_0000

  type Memory = m: Bytes | |m| == SPACE witness seq(SPACE, i => 0)

  datatype Option<T> = None | Some(value: T)

  // ---------- little-endian numbers

  function Dec(b: Bytes): (v: nat)
    ensures v < Pow256(|b|)
  {
    if b == [] then 0
    else
      var b0: int := b[0];
      b0 + 256 * Dec(b[1..])
  }

  function Enc(v: nat, n: nat): (b: Bytes)
    ensures |b| == n
  {
    if n == 0 then [] else [v % 256] + Enc(v / 256, n - 1)
  }

  lemma {:induction false} DecEnc(v: nat, n: nat)
    requires v < Pow256(n)
    ensures Dec(Enc(v, n)) == v
  {
    if n > 0 {
      DecEnc(v / 256, n - 1);
      assert Enc(v, n)[1..] == Enc(v / 256, n - 1);
    }
  }

  lemma Widths()
    ensures Pow256(2) == 0x1_0000 && Pow256(4) == 0x1_0000_0000 && Pow256(8) == 0x1_0000_0000_0000_0000
  {
    assert Pow256(3) == 0x100_0000;
    assert Pow256(5) == 0x100_0000_0000;
    assert Pow256(6) == 0x1_0000_0000_0000;
    assert Pow256(7) == 0x100_0000_0000_0000;
  }

  function Word(b: Bytes, at: nat): U32
    requires at + 4 <= |b|
  {
    Widths();
    Dec(b[at..at + 4])
  }

  function Half(b: Bytes, at: nat): U32
    requires at + 2 <= |b|
  {
    Widths();
    Dec(b[at..at + 2])
  }

  // ---------- the file

  /** fread_at: all of the bytes or a failure. */
  function ReadAt(file: Bytes, offset: U32, len: nat): Option<Bytes> {
    if offset + len <= |file| then Some(file[offset..offset + len]) else None
  }

  function Add32(a: int, b: int): U32 {
    (a + b) % 0x1_0000_0000
  }

  const PT_LOAD: U32 := 1
  const SHT_RELA: U32 := 4
  const EM_KLAUSSCPU: U32 := 0x4B43
  const ABI_VERSION: U32 := 3

  datatype Ehdr = Ehdr(entry: U32, phoff: U32, shoff: U32, phentsize: U32, phnum: U32, shentsize: U32, shnum: U32)

  datatype LoadError = HeaderRead | BadMagic | BadMachine | BadAbi | NoLoad | SegmentRead

  datatype Header = Good(eh: Ehdr) | Bad(error: LoadError)

  /** The ELF header and the checks made of it. */
  function ReadHeader(file: Bytes): Header {
    if |file| < 52 then Bad(HeaderRead)
    else if file[..4] != [0x7F, 0x45, 0x4C, 0x46] then Bad(BadMagic)
    else if Half(file, 18) != EM_KLAUSSCPU then Bad(BadMachine)
    else if file[36] != ABI_VERSION then Bad(BadAbi)
    else Good(Ehdr(Word(file, 24), Word(file, 28), Word(file, 32),
                   Half(file, 42), Half(file, 44), Half(file, 46), Half(file, 48)))
  }

  datatype Segment = Segment(offset: U32, vaddr: U32, filesz: U32, memsz: U32)

  /** An Elf32_Phdr. */
  function SegmentOf(b: Bytes): Option<Segment>
    requires |b| == 32
  {
    if Word(b, 0) != PT_LOAD then None
    else Some(Segment(Word(b, 4), Word(b, 8), Word(b, 16), Word(b, 20)))
  }

  /** Program header i, if it can be read and is a PT_LOAD. */
  function SegmentAt(file: Bytes, eh: Ehdr, i: nat): Option<Segment> {
    match ReadAt(file, Add32(eh.phoff, i * eh.phentsize), 32)
    case None => None
    case Some(b) => SegmentOf(b)
  }

  /** The PT_LOAD segments from i on. */
  function Segments(file: Bytes, eh: Ehdr, i: nat): seq<Segment>
    requires i <= eh.phnum
    decreases eh.phnum - i
  {
    if i == eh.phnum then []
    else match SegmentAt(file, eh, i)
      case None => Segments(file, eh, i + 1)
      case Some(s) => [s] + Segments(file, eh, i + 1)
  }

  /** The lowest address, 0xFFFFFFFF for none. */
  function LinkBase(ss: seq<Segment>, low: U32): U32 {
    if ss == [] then low else LinkBase(ss[1..], if ss[0].vaddr < low then ss[0].vaddr else low)
  }

  lemma {:induction false} LinkBaseLowest(ss: seq<Segment>, low: U32)
    ensures LinkBase(ss, low) <= low
    ensures LinkBase(ss, low) == low || exists i :: 0 <= i < |ss| && LinkBase(ss, low) == ss[i].vaddr
    ensures forall i :: 0 <= i < |ss| ==> LinkBase(ss, low) <= ss[i].vaddr
    decreases |ss|
  {
    if ss != [] {
      var l := if ss[0].vaddr < low then ss[0].vaddr else low;
      LinkBaseLowest(ss[1..], l);
      assert forall i :: 0 < i < |ss| ==> ss[i] == ss[1..][i - 1];
      if LinkBase(ss, low) != low && LinkBase(ss, low) != ss[0].vaddr {
        var i :| 0 <= i < |ss[1..]| && LinkBase(ss, low) == ss[1..][i].vaddr;
        assert ss[i + 1].vaddr == LinkBase(ss, low);
      }
    }
  }

  /** (s32)(load_base - link_base). */
  function Delta(loadBase: U32, linkBase: U32): (d: int)
    ensures -0x8000_0000 <= d < 0x8000_0000
    ensures Add32(linkBase, d) == loadBase
    ensures d == loadBase - linkBase <==> -0x8000_0000 <= loadBase - linkBase < 0x8000_0000
  {
    var d := (loadBase - linkBase) % 0x1_0000_0000;
    if d < 0x8000_0000 then d else d - 0x1_0000_0000
  }

  datatype Rela = Rela(offset: U32, kind: U32, addend: int)

  function RelaOf(b: Bytes): Rela
    requires |b| == 12
  {
    var a := Word(b, 8);
    var lo: int := b[4];
    Rela(Word(b, 0), lo, if a < 0x8000_0000 then a else a - 0x1_0000_0000)
  }

  datatype Section = Section(kind: U32, flags: U32, offset: U32, size: U32, info: U32, entsize: U32)

  function SectionAt(file: Bytes, eh: Ehdr, i: nat): Option<Section> {
    match ReadAt(file, Add32(eh.shoff, i * eh.shentsize), 40)
    case None => None
    case Some(b) => Some(SectionOf(b))
  }

  /** An Elf32_Shdr. */
  function SectionOf(b: Bytes): Section
    requires |b| == 40
  {
    Section(Word(b, 4), Word(b, 8), Word(b, 16), Word(b, 20), Word(b, 28), Word(b, 36))
  }

  /** SHF_ALLOC. */
  predicate IsAlloc(flags: U32) {
    (flags / 2) % 2 == 1
  }

  /** A relocation section of a loaded section. */
  predicate Applies(file: Bytes, eh: Ehdr, sh: Section) {
    && sh.kind == SHT_RELA && sh.entsize != 0 && 0 < sh.info < eh.shnum
    && var t := SectionAt(file, eh, sh.info); t.Some? && IsAlloc(t.value.flags)
  }

  /** Its entries from j of n on, up to the first that cannot be read. */
  function Entries(file: Bytes, sh: Section, j: nat, n: nat): seq<Rela>
    requires j <= n
    decreases n - j
  {
    if j == n then []
    else match ReadAt(file, Add32(sh.offset, j * sh.entsize), 12)
      case None => []
      case Some(b) => [RelaOf(b)] + Entries(file, sh, j + 1, n)
  }

  /** sh_size / sh_entsize. */
  function EntryCount(sh: Section): nat {
    if sh.entsize == 0 then 0 else sh.size / sh.entsize
  }

  function SectionRelas(file: Bytes, eh: Ehdr, i: nat): seq<Rela> {
    match SectionAt(file, eh, i)
    case None => []
    case Some(sh) => if Applies(file, eh, sh) then Entries(file, sh, 0, EntryCount(sh)) else []
  }

  /** The relocations of all loaded sections from i on, in the order the loader applies them. */
  function Relas(file: Bytes, eh: Ehdr, i: nat): seq<Rela>
    requires i <= eh.shnum
    decreases eh.shnum - i
  {
    if i == eh.shnum then [] else SectionRelas(file, eh, i) + Relas(file, eh, i + 1)
  }
}
