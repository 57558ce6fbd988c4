/** What a symbol query resolves to. */
module QuerySpec {
  import opened Bytes
  import opened Layout
  import opened ParseSpec
  import opened WriteSpec

  predicate SymRefsIn(m: seq<byte>, syms: seq<SymRef>)
  {
    forall i :: 0 <= i < |syms| ==> syms[i].sym_offset + Class64.SymSize() <= |m|
  }

  /** strncmp(name, sym->name, strlen(name)) == 0: the query is a prefix of the symbol's name. */
  predicate Matches(name: seq<byte>, s: SymRef)
  {
    name <= s.name
  }

  /** The first symbol that matches and has a nonzero value and size. */
  function FirstSymbol(m: seq<byte>, syms: seq<SymRef>, name: seq<byte>): (r: Option<SymRef>)
    requires SymRefsIn(m, syms)
    ensures r.Some? ==> r.value in syms && Matches(name, r.value) && r.value.sym_offset + Class64.SymSize() <= |m|
    ensures r.Some? ==> var y := SymAt(Class64, m, r.value.sym_offset); y.value != 0 && y.size != 0
    ensures r.None? ==> forall i :: 0 <= i < |syms| && Matches(name, syms[i]) ==>
                          var y := SymAt(Class64, m, syms[i].sym_offset); y.value == 0 || y.size == 0
  {
    if syms == [] then None
    else
      var y := SymAt(Class64, m, syms[0].sym_offset);
      if Matches(name, syms[0]) && y.value != 0 && y.size != 0 then Some(syms[0])
      else FirstSymbol(m, syms[1..], name)
  }

  /** The segment test: strictly above the start, strictly below the end. */
  predicate Contains(p: Phdr, addr: nat)
    requires p.vaddr < TWO64 && p.memsz < TWO64
  {
    p.ptype == PT_LOAD && p.vaddr < addr < AddW(Class64, p.vaddr, p.memsz)
  }

  /** The first wrapper whose segment contains the address. */
  function FindSegment(m: seq<byte>, ps: seq<PhdrRef>, addr: nat): (r: Option<PhdrRef>)
    requires PhdrRefsIn(Class64, m, ps)
    ensures r.Some? ==> r.value in ps && Contains(PhdrAt(Class64, m, r.value.p_offset), addr)
    ensures r.None? ==> forall i :: 0 <= i < |ps| ==> !Contains(PhdrAt(Class64, m, ps[i].p_offset), addr)
  {
    if ps == [] then None
    else if Contains(PhdrAt(Class64, m, ps[0].p_offset), addr) then Some(ps[0])
    else FindSegment(m, ps[1..], addr)
  }

  datatype Place = NotFound | Uninitialised | At(off: nat)

  /** The file offset the query computes from a segment that contains the address. */
  function Translate(p: Phdr, addr: nat): Place
    requires p.vaddr < TWO64 && p.memsz < TWO64 && p.offset < TWO64 && p.filesz < TWO64
    requires Contains(p, addr) && addr < TWO64
  {
    if addr - p.vaddr > AddW(Class64, p.offset, p.filesz) then Uninitialised
    else At(AddW(Class64, p.offset, addr - p.vaddr))
  }

  /** The file offset of an address. */
  function Locate(m: seq<byte>, ps: seq<PhdrRef>, addr: nat): Place
    requires PhdrRefsIn(Class64, m, ps) && addr < TWO64
  {
    match FindSegment(m, ps, addr)
    case None => NotFound
    case Some(w) => Translate(PhdrAt(Class64, m, w.p_offset), addr)
  }

  /** The symbol a query is about, and where its content is. */
  datatype Resolution = Resolution(place: Place, size: nat, addr: nat)

  function Resolve(m: seq<byte>, ps: seq<PhdrRef>, syms: seq<SymRef>, name: seq<byte>): Resolution
    requires PhdrRefsIn(Class64, m, ps) && SymRefsIn(m, syms)
  {
    match FirstSymbol(m, syms, name)
    case None => Resolution(NotFound, 0, 0)
    case Some(s) =>
      var y := SymAt(Class64, m, s.sym_offset);
      Resolution(Locate(m, ps, y.value), y.size, y.value)
  }
}
