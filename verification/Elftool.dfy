/** elftool_t: the buffer, its length and class, and the three wrapper lists. */
module Elftool {
  import opened Bytes
  import opened Layout
  import opened Lists

  class Elf {
    var length: nat
    var mem: array<byte>
    var elfclass: byte
    var endian: byte
    const phdr: List<PhdrRef>
    const shdr: List<ShdrRef>
    const syms: List<SymRef>
    var shstrtab: Option<ShdrRef>
    var strtab: Option<ShdrRef>

    ghost predicate Valid()
      reads this, phdr, phdr.spine, shdr, shdr.spine, syms, syms.spine
    {
      && length == mem.Length
      && phdr.Valid() && shdr.Valid() && syms.Valid()
    }

    /** The class every `elfclass == ELFCLASS32` test picks. */
    function Cls(): Class
      reads this
    {
      if elfclass == 1 then Class32 else Class64
    }

    /** A zeroed elftool_t around a loaded buffer. */
    constructor (m: array<byte>)
      ensures Valid() && mem == m && length == m.Length
      ensures phdr.spine == [] && shdr.spine == [] && syms.spine == []
      ensures shstrtab == None && strtab == None
      ensures fresh(phdr) && fresh(shdr) && fresh(syms)
    {
      length, mem := m.Length, m;
      elfclass, endian := 0, 0;
      phdr := new List();
      shdr := new List();
      syms := new List();
      shstrtab, strtab := None, None;
    }
  }
}
