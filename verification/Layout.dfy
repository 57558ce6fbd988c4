/**
 * The ELF structures the library reads, decoded from their bytes, and the
 * offset wrappers it keeps about them.  Field offsets are those of the System V
 * gABI, chapter 4 ("ELF Header", "Sections", "Symbol Table") and chapter 5
 * ("Program Header"); all fields are little-endian.
 */
module Layout {
  import opened Bytes

  const PT_LOAD := 1
  const PT_NOTE := 4
  const SHT_SYMTAB := 2
  const SHT_STRTAB := 3
  const STT_SECTION := 3
  const STT_FILE := 4
  const PF_W := 2
  const PF_R := 4
  const EHDR_LEN := 0x40
  const TWO64 := 0x1_0000_0000_0000_0000

  /** ELFCLASS32 or ELFCLASS64: fixes every size, offset and integer width. */
  datatype Class = Class32 | Class64 {
    /** 2 to the width of Elf32_Off / Elf64_Off. */
    function Modulus(): nat { if Class32? then 0x1_0000_0000 else TWO64 }
    function EhdrSize(): nat { if Class32? then 52 else 64 }
    function PhdrSize(): nat { if Class32? then 32 else 56 }
    function ShdrSize(): nat { if Class32? then 40 else 64 }
    function SymSize(): nat { if Class32? then 16 else 24 }
  }

  /** The fields of Elf32_Ehdr / Elf64_Ehdr the library uses. */
  datatype Ehdr = Ehdr(phoff: nat, shoff: nat, phentsize: nat, phnum: nat,
                       shentsize: nat, shnum: nat, shstrndx: nat)

  datatype Phdr = Phdr(ptype: nat, flags: nat, offset: nat, vaddr: nat,
                       paddr: nat, filesz: nat, memsz: nat, align: nat)

  /** The fields of Elf32_Shdr / Elf64_Shdr the library uses. */
  datatype Shdr = Shdr(shtype: nat, offset: nat, size: nat, link: nat, entsize: nat)

  /** The fields of Elf32_Sym / Elf64_Sym the library uses. */
  datatype Sym = Sym(name: nat, info: nat, shndx: nat, value: nat, size: nat)

  // ----- decoding -----

  function U(s: seq<byte>, off: nat, n: nat): (r: nat)
    requires off + n <= |s|
    ensures r < Pow256(n)
  {
    FieldBound(s[off..off + n]);
    LE(s[off..off + n])
  }

  /** A field whose bytes but the first are zero. */
  lemma SmallField(s: seq<byte>, off: nat, n: nat)
    requires 0 < n && off + n <= |s|
    requires forall i :: off < i < off + n ==> s[i] == 0
    ensures U(s, off, n) == s[off]
  {
    var f := s[off..off + n];
    LEZero(f[1..]);
  }

  function DecodeEhdr(c: Class, s: seq<byte>): (e: Ehdr)
    requires |s| == EHDR_LEN
    ensures e.phoff < c.Modulus() && e.shoff < c.Modulus()
    ensures e.phentsize < 0x1_0000 && e.phnum < 0x1_0000
    ensures e.shentsize < 0x1_0000 && e.shnum < 0x1_0000 && e.shstrndx < 0x1_0000
  {
    match c
    case Class32 => Ehdr(U(s, 28, 4), U(s, 32, 4), U(s, 42, 2), U(s, 44, 2), U(s, 46, 2), U(s, 48, 2), U(s, 50, 2))
    case Class64 => Ehdr(U(s, 32, 8), U(s, 40, 8), U(s, 54, 2), U(s, 56, 2), U(s, 58, 2), U(s, 60, 2), U(s, 62, 2))
  }

  function DecodePhdr(c: Class, s: seq<byte>): (p: Phdr)
    requires |s| == c.PhdrSize()
    ensures p.offset < c.Modulus() && p.vaddr < c.Modulus()
    ensures p.filesz < c.Modulus() && p.memsz < c.Modulus()
  {
    match c
    case Class32 =>
      Phdr(U(s, 0, 4), U(s, 24, 4), U(s, 4, 4), U(s, 8, 4), U(s, 12, 4), U(s, 16, 4), U(s, 20, 4), U(s, 28, 4))
    case Class64 =>
      Phdr(U(s, 0, 4), U(s, 4, 4), U(s, 8, 8), U(s, 16, 8), U(s, 24, 8), U(s, 32, 8), U(s, 40, 8), U(s, 48, 8))
  }

  function DecodeShdr(c: Class, s: seq<byte>): (h: Shdr)
    requires |s| == c.ShdrSize()
    ensures h.link < 0x1_0000_0000
    ensures h.offset < c.Modulus() && h.size < c.Modulus() && h.entsize < c.Modulus()
  {
    match c
    case Class32 => Shdr(U(s, 4, 4), U(s, 16, 4), U(s, 20, 4), U(s, 24, 4), U(s, 36, 4))
    case Class64 => Shdr(U(s, 4, 4), U(s, 24, 8), U(s, 32, 8), U(s, 40, 4), U(s, 56, 8))
  }

  function DecodeSym(c: Class, s: seq<byte>): (y: Sym)
    requires |s| == c.SymSize()
    ensures y.name < 0x1_0000_0000 && y.info < 0x100 && y.shndx < 0x1_0000
    ensures y.value < c.Modulus() && y.size < c.Modulus()
  {
    match c
    case Class32 => Sym(U(s, 0, 4), U(s, 12, 1), U(s, 14, 2), U(s, 4, 4), U(s, 8, 4))
    case Class64 => Sym(U(s, 0, 4), U(s, 4, 1), U(s, 6, 2), U(s, 8, 8), U(s, 16, 8))
  }

  /** get_ehdr32 / get_ehdr64. */
  function EhdrAt(c: Class, m: seq<byte>): (e: Ehdr)
    requires EHDR_LEN <= |m|
    ensures e.phoff < c.Modulus() && e.shoff < c.Modulus()
    ensures e.phentsize < 0x1_0000 && e.phnum < 0x1_0000
    ensures e.shentsize < 0x1_0000 && e.shnum < 0x1_0000 && e.shstrndx < 0x1_0000
  {
    DecodeEhdr(c, m[..EHDR_LEN])
  }

  /** get_phdr32_ent / get_phdr64_ent at the wrapper's header offset. */
  function PhdrAt(c: Class, m: seq<byte>, off: nat): (p: Phdr)
    requires off + c.PhdrSize() <= |m|
    ensures p.offset < c.Modulus() && p.vaddr < c.Modulus()
    ensures p.filesz < c.Modulus() && p.memsz < c.Modulus()
  {
    DecodePhdr(c, m[off..off + c.PhdrSize()])
  }

  /** get_shdr32_ent / get_shdr64_ent at the wrapper's header offset. */
  function ShdrAt(c: Class, m: seq<byte>, off: nat): (h: Shdr)
    requires off + c.ShdrSize() <= |m|
    ensures h.link < 0x1_0000_0000
    ensures h.offset < c.Modulus() && h.size < c.Modulus() && h.entsize < c.Modulus()
  {
    DecodeShdr(c, m[off..off + c.ShdrSize()])
  }

  /** get_sym32_ent / get_sym64_ent at the wrapper's symbol offset. */
  function SymAt(c: Class, m: seq<byte>, off: nat): (y: Sym)
    requires off + c.SymSize() <= |m|
    ensures y.name < 0x1_0000_0000 && y.info < 0x100 && y.shndx < 0x1_0000
    ensures y.value < c.Modulus() && y.size < c.Modulus()
  {
    DecodeSym(c, m[off..off + c.SymSize()])
  }

  // ----- encoding a 64-bit program header -----

  function EncodePhdr64(p: Phdr): (s: seq<byte>)
    ensures |s| == Class64.PhdrSize()
  {
    EncodeLE(p.ptype, 4) + EncodeLE(p.flags, 4) + EncodeLE(p.offset, 8) + EncodeLE(p.vaddr, 8)
    + EncodeLE(p.paddr, 8) + EncodeLE(p.filesz, 8) + EncodeLE(p.memsz, 8) + EncodeLE(p.align, 8)
  }

  ghost predicate FitsPhdr64(p: Phdr)
  {
    && p.ptype < 0x1_0000_0000 && p.flags < 0x1_0000_0000
    && p.offset < TWO64 && p.vaddr < TWO64 && p.paddr < TWO64
    && p.filesz < TWO64 && p.memsz < TWO64 && p.align < TWO64
  }

  /** The bytes of a stored field load as the stored value. */
  lemma FieldIs(s: seq<byte>, off: nat, v: nat, n: nat)
    requires off + n <= |s| && s[off..off + n] == EncodeLE(v, n)
    requires v < Pow256(n)
    ensures U(s, off, n) == v
  {
    LoadStored(v, n);
  }

  lemma EightFields(s: seq<byte>, e0: seq<byte>, e1: seq<byte>, e2: seq<byte>, e3: seq<byte>,
                    e4: seq<byte>, e5: seq<byte>, e6: seq<byte>, e7: seq<byte>)
    requires |e0| == |e1| == 4 && |e2| == |e3| == |e4| == |e5| == |e6| == |e7| == 8
    requires s == e0 + e1 + e2 + e3 + e4 + e5 + e6 + e7
    ensures |s| == 56 && s[0..4] == e0 && s[4..8] == e1 && s[8..16] == e2 && s[16..24] == e3
    ensures s[24..32] == e4 && s[32..40] == e5 && s[40..48] == e6 && s[48..56] == e7
  {
  }

  /** A program header written field by field decodes to itself. */
  lemma PhdrRoundTrip(p: Phdr)
    requires FitsPhdr64(p)
    ensures DecodePhdr(Class64, EncodePhdr64(p)) == p
  {
    var e0, e1, e2, e3 := EncodeLE(p.ptype, 4), EncodeLE(p.flags, 4), EncodeLE(p.offset, 8), EncodeLE(p.vaddr, 8);
    var e4, e5, e6, e7 := EncodeLE(p.paddr, 8), EncodeLE(p.filesz, 8), EncodeLE(p.memsz, 8), EncodeLE(p.align, 8);
    var s := EncodePhdr64(p);
    assert s == e0 + e1 + e2 + e3 + e4 + e5 + e6 + e7;
    hide EncodePhdr64, EncodeLE, U;
    EightFields(s, e0, e1, e2, e3, e4, e5, e6, e7);
    FieldIs(s, 0, p.ptype, 4);
    FieldIs(s, 4, p.flags, 4);
    FieldIs(s, 8, p.offset, 8);
    FieldIs(s, 16, p.vaddr, 8);
    FieldIs(s, 24, p.paddr, 8);
    FieldIs(s, 32, p.filesz, 8);
    FieldIs(s, 40, p.memsz, 8);
    FieldIs(s, 48, p.align, 8);
  }

  // ----- tables -----

  /** File offset of entry k of a table. */
  function EntryOff(base: nat, ent: nat, k: nat): nat
  {
    base + k * ent
  }

  lemma EntryOffStep(base: nat, ent: nat, k: nat)
    ensures EntryOff(base, ent, k + 1) == EntryOff(base, ent, k) + ent
  {
  }

  lemma {:induction false} EntryOffMono(base: nat, ent: nat, j: nat, k: nat)
    requires j < k
    ensures EntryOff(base, ent, j) + ent <= EntryOff(base, ent, k)
  {
    EntryOffStep(base, ent, k - 1);
    if j < k - 1 {
      EntryOffMono(base, ent, j, k - 1);
    }
  }

  /** phdr32_t / phdr64_t without the back pointer. */
  datatype PhdrRef = PhdrRef(idx: nat, p_offset: nat, mem_offset: nat)

  /** shdr32_t / shdr64_t without the back pointer. */
  datatype ShdrRef = ShdrRef(idx: nat, sh_offset: nat, mem_offset: nat)

  /** sym32_t / sym64_t without the back pointer; name is the duplicated C string. */
  datatype SymRef = SymRef(idx: nat, sh_offset: nat, mem_offset: nat, sym_offset: nat, name: seq<byte>)
}
