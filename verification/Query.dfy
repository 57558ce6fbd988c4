/** elftool_query.c: reading and overwriting a symbol's content, on 64-bit binaries. */
module Query {
  import opened Bytes
  import opened Layout
  import opened Lists
  import opened Elftool
  import opened ParseSpec
  import opened WriteSpec
  import opened QuerySpec

  datatype Op = Read | Write

  /**
   * elftool_sym_query_t.  sym_content is split in two: data is what it points at when a
   * WRITE is requested, content_at the buffer offset it points at after a READ.
   */
  class Request {
    const op: Op
    const data: seq<byte>
    var content_at: nat
    var sym_size: nat
    var sym_vaddr: nat

    constructor (o: Op, d: seq<byte>, size: nat)
      ensures op == o && data == d && sym_size == size
    {
      op, data, sym_size := o, d, size;
      content_at, sym_vaddr := 0, 0;
    }
  }

  /** The binary holds buffer m and the two lists. */
  ghost predicate Sees(bin: Elf, m: seq<byte>, ps: seq<PhdrRef>, syms: seq<SymRef>)
    reads bin, bin.mem, bin.phdr, bin.phdr.spine, bin.shdr, bin.shdr.spine, bin.syms, bin.syms.spine
  {
    bin.Valid() && bin.mem[..] == m && bin.phdr.Contents() == ps && bin.syms.Contents() == syms
  }

  /** The outer loop of elftool_sym_query_by_name. */
  method FindSymbol(bin: Elf, name: seq<byte>, ghost m: seq<byte>, ghost ps: seq<PhdrRef>, ghost syms: seq<SymRef>)
    returns (r: Option<SymRef>)
    requires Sees(bin, m, ps, syms) && SymRefsIn(m, syms)
    ensures r == FirstSymbol(m, syms, name)
  {
    hide SymAt;
    var mem := bin.mem[..];
    var head := bin.syms.head;
    ghost var i := 0;
    while head != null
      invariant i <= |syms| && head == NodeAt(bin.syms.spine, i)
      invariant FirstSymbol(m, syms, name) == FirstSymbol(m, syms[i..], name)
      decreases |syms| - i
    {
      assert syms[i..][0] == head.content && syms[i..][1..] == syms[i + 1..];
      if Matches(name, head.content) {
        var y := SymAt(Class64, mem, head.content.sym_offset);
        if y.value != 0 && y.size != 0 {
          return Some(head.content);
        }
      }
      head := head.next;
      i := i + 1;
    }
    r := None;
  }

  /** The inner loop of elftool_sym_query_by_name. */
  method FindPlace(bin: Elf, addr: nat, ghost m: seq<byte>, ghost ps: seq<PhdrRef>, ghost syms: seq<SymRef>)
    returns (r: Place)
    requires Sees(bin, m, ps, syms) && PhdrRefsIn(Class64, m, ps) && addr < TWO64
    ensures r == Locate(m, ps, addr)
  {
    hide PhdrAt;
    var mem := bin.mem[..];
    var head := bin.phdr.head;
    ghost var i := 0;
    while head != null
      invariant i <= |ps| && head == NodeAt(bin.phdr.spine, i)
      invariant FindSegment(m, ps, addr) == FindSegment(m, ps[i..], addr)
      decreases |ps| - i
    {
      assert ps[i..][0] == head.content && ps[i..][1..] == ps[i + 1..];
      var p := PhdrAt(Class64, mem, head.content.p_offset);
      if p.ptype == PT_LOAD && p.vaddr < addr && addr < AddW(Class64, p.vaddr, p.memsz) {
        if addr - p.vaddr > AddW(Class64, p.offset, p.filesz) {
          return Uninitialised;
        }
        return At(AddW(Class64, p.offset, addr - p.vaddr));
      }
      head := head.next;
      i := i + 1;
    }
    r := NotFound;
  }

  /** Both loops of elftool_sym_query_by_name. */
  method ResolveSymbol(bin: Elf, name: seq<byte>, ghost m: seq<byte>, ghost ps: seq<PhdrRef>, ghost syms: seq<SymRef>)
    returns (q: Resolution)
    requires Sees(bin, m, ps, syms) && PhdrRefsIn(Class64, m, ps) && SymRefsIn(m, syms)
    ensures q == Resolve(m, ps, syms, name)
  {
    hide SymAt, FirstSymbol, Locate;
    var mem := bin.mem[..];
    var s := FindSymbol(bin, name, m, ps, syms);
    if s.None? {
      q := Resolution(NotFound, 0, 0);
    } else {
      var y := SymAt(Class64, mem, s.value.sym_offset);
      var place := FindPlace(bin, y.value, m, ps, syms);
      q := Resolution(place, y.size, y.value);
    }
  }

  /** elftool_sym_query_by_name. */
  method SymQueryByName(bin: Elf, q: Request, name: seq<byte>,
                        ghost m: seq<byte>, ghost ps: seq<PhdrRef>, ghost syms: seq<SymRef>)
    returns (r: Code)
    requires Sees(bin, m, ps, syms) && PhdrRefsIn(Class64, m, ps) && SymRefsIn(m, syms)
    requires q.op.Write? ==> |q.data| == q.sym_size
    modifies bin.mem, q
    ensures bin.Valid() && bin.mem == old(bin.mem)
    ensures var found := Resolve(m, ps, syms, name);
            match found.place
            case At(off) =>
              if q.op.Read? then
                && r == Success && Sees(bin, m, ps, syms)
                && q.sym_size == found.size && q.content_at == off && q.sym_vaddr == found.addr
              else if old(q.sym_size) != found.size then
                r == EINVAL && Sees(bin, m, ps, syms)
              else if off + found.size > |m| then
                r == Undefined
              else
                && r == Success && Sees(bin, Splice(m, off, q.data), ps, syms)
                && q.sym_vaddr == found.addr && q.sym_size == old(q.sym_size)
            case _ => r == EINVAL && Sees(bin, m, ps, syms)
    ensures r == EINVAL ==>
              q.sym_size == old(q.sym_size) && q.content_at == old(q.content_at) && q.sym_vaddr == old(q.sym_vaddr)
    ensures q.op.Write? ==> q.sym_size == old(q.sym_size) && q.content_at == old(q.content_at)
  {
    hide Resolve, Splice, ContentsOf, Linked;
    var found := ResolveSymbol(bin, name, m, ps, syms);
    if !found.place.At? {
      return EINVAL;
    }
    if q.op.Read? {
      q.sym_size := found.size;
      q.content_at := found.place.off;
    } else {
      if q.sym_size != found.size {
        return EINVAL;
      }
      if found.place.off + found.size > bin.length {
        return Undefined;   // the copy runs past the buffer
      }
      Copy(bin.mem, found.place.off, q.data);
    }
    q.sym_vaddr := found.addr;
    r := Success;
  }
}
