/** elftool_transform.c: injecting code as a new segment. */
module Transform {
  import opened Bytes
  import opened Layout
  import opened Lists
  import opened Elftool
  import opened ParseSpec
  import opened ParseFrame
  import opened WriteSpec
  import opened InjectSpec

  /** elftool_transform_t. */
  class Request {
    const code: seq<byte>
    var code_file_offset: nat
    var phdr_file_offset: nat
    var virtual_addr: nat

    constructor (c: seq<byte>)
      ensures code == c
    {
      code := c;
      code_file_offset, phdr_file_offset, virtual_addr := 0, 0, 0;
    }
  }

  /** The binary holds buffer m and the program header list ps. */
  ghost predicate Sees(bin: Elf, m: seq<byte>, ps: seq<PhdrRef>)
    reads bin, bin.mem, bin.phdr, bin.phdr.spine, bin.shdr, bin.shdr.spine, bin.syms, bin.syms.spine
  {
    bin.Valid() && bin.mem[..] == m && bin.phdr.Contents() == ps
  }

  lemma PrefixCopied(part: seq<byte>, m: seq<byte>)
    requires |m| <= |part| && part[0..|m|] == m
    ensures forall i :: 0 <= i < |m| ==> part[i] == m[i]
  {
    assert forall i :: 0 <= i < |m| ==> part[i] == part[0..|m|][i];
  }

  /** elftool_append_code: the padding keeps whatever malloc returned. */
  method AppendCode(bin: Elf, t: Request, ghost m: seq<byte>, ghost ps: seq<PhdrRef>) returns (ghost g: seq<byte>)
    requires Sees(bin, m, ps) && |m| + 0xfff + |t.code| < TWO64
    modifies bin`length, bin`mem, t`code_file_offset
    ensures Sees(bin, g, ps) && fresh(bin.mem) && Appended(m, g, t.code)
    ensures t.code_file_offset == PageUp(|m|)
  {
    hide PageUp, Splice, Appended, ContentsOf, Linked;
    PageUpMeaning(bin.length);
    var offset := PageUp(bin.length);
    var new_mem := new byte[offset + |t.code|];
    Copy(new_mem, 0, bin.mem[..]);
    PrefixCopied(new_mem[..], m);
    SpliceAppended(m, new_mem[..], t.code);
    Copy(new_mem, offset, t.code);
    g := new_mem[..];
    t.code_file_offset := offset;
    bin.length := offset + |t.code|;
    bin.mem := new_mem;
  }

  /** elftool_get_available_phdr_offset: the first wrapper whose header is a PT_NOTE. */
  method GetAvailablePhdr(bin: Elf, t: Request, ghost m: seq<byte>, ghost ps: seq<PhdrRef>) returns (r: Code)
    requires Sees(bin, m, ps) && PhdrRefsIn(Class64, m, ps)
    modifies t`phdr_file_offset
    ensures r == if FirstNote(m, ps).Some? then Success else EINVAL
    ensures r == Success ==> t.phdr_file_offset == FirstNote(m, ps).value.p_offset
  {
    hide PhdrAt;
    var mem := bin.mem[..];
    var head := bin.phdr.head;
    ghost var i := 0;
    while head != null
      invariant i <= |ps| && head == NodeAt(bin.phdr.spine, i)
      invariant FirstNote(m, ps) == FirstNote(m, ps[i..])
      decreases |ps| - i
    {
      assert ps[i..][0] == head.content && ps[i..][1..] == ps[i + 1..];
      if PhdrAt(Class64, mem, head.content.p_offset).ptype == PT_NOTE {
        t.phdr_file_offset := head.content.p_offset;
        return Success;
      }
      head := head.next;
      i := i + 1;
    }
    r := EINVAL;
  }

  /** get_vaddr: the page behind the PT_LOAD with the greatest p_vaddr. */
  method GetVaddr(bin: Elf, ghost m: seq<byte>, ghost ps: seq<PhdrRef>) returns (r: Code, vaddr: nat)
    requires Sees(bin, m, ps) && PhdrRefsIn(Class64, m, ps)
    ensures r == if HighestLoad(m, ps).Some? then Success else MinusOne
    ensures r == Success ==> vaddr == NextVaddr(PhdrAt(Class64, m, HighestLoad(m, ps).value.p_offset))
  {
    hide PhdrAt;
    var mem := bin.mem[..];
    var last: Option<PhdrRef> := None;
    var head := bin.phdr.head;
    ghost var i := 0;
    while head != null
      invariant i <= |ps| && head == NodeAt(bin.phdr.spine, i)
      invariant last == HighestLoad(m, ps[..i])
      decreases |ps| - i
    {
      assert ps[..i + 1][..i] == ps[..i] && ps[..i + 1][i] == head.content;
      var p := PhdrAt(Class64, mem, head.content.p_offset);
      if p.ptype == PT_LOAD && (last.None? || PhdrAt(Class64, mem, last.value.p_offset).vaddr < p.vaddr) {
        last := Some(head.content);
      }
      head := head.next;
      i := i + 1;
    }
    assert ps[..i] == ps;
    if last.None? {
      r, vaddr := MinusOne, 0;
    } else {
      r, vaddr := Success, NextVaddr(PhdrAt(Class64, mem, last.value.p_offset));
    }
  }

  /** The eight stores through get_phdr64_ent(&new_phdr). */
  method StorePhdr(mem: array<byte>, slot: nat, p: Phdr)
    requires slot + 56 <= mem.Length
    modifies mem
    ensures mem[..] == Splice(old(mem[..]), slot, EncodePhdr64(p))
  {
    ghost var m := mem[..];
    ghost var e0, e1, e2, e3 := EncodeLE(p.ptype, 4), EncodeLE(p.flags, 4), EncodeLE(p.offset, 8), EncodeLE(p.vaddr, 8);
    ghost var e4, e5, e6, e7 := EncodeLE(p.paddr, 8), EncodeLE(p.filesz, 8), EncodeLE(p.memsz, 8), EncodeLE(p.align, 8);
    assert EncodePhdr64(p) == e0 + e1 + e2 + e3 + e4 + e5 + e6 + e7;
    hide EncodeLE, Splice, EncodePhdr64;
    Copy(mem, slot, EncodeLE(p.ptype, 4));
    Copy(mem, slot + 4, EncodeLE(p.flags, 4));
    SpliceJoin(m, slot, e0, e1);
    Copy(mem, slot + 8, EncodeLE(p.offset, 8));
    SpliceJoin(m, slot, e0 + e1, e2);
    Copy(mem, slot + 16, EncodeLE(p.vaddr, 8));
    SpliceJoin(m, slot, e0 + e1 + e2, e3);
    Copy(mem, slot + 24, EncodeLE(p.paddr, 8));
    SpliceJoin(m, slot, e0 + e1 + e2 + e3, e4);
    Copy(mem, slot + 32, EncodeLE(p.filesz, 8));
    SpliceJoin(m, slot, e0 + e1 + e2 + e3 + e4, e5);
    Copy(mem, slot + 40, EncodeLE(p.memsz, 8));
    SpliceJoin(m, slot, e0 + e1 + e2 + e3 + e4 + e5, e6);
    Copy(mem, slot + 48, EncodeLE(p.align, 8));
    SpliceJoin(m, slot, e0 + e1 + e2 + e3 + e4 + e5 + e6, e7);
  }

  /** The last block of elftool_transform_segment_injection: rewrite the header, push its wrapper. */
  method AddSegment(bin: Elf, t: Request, vaddr: nat, ghost m: seq<byte>, ghost g: seq<byte>, ghost ps: seq<PhdrRef>)
    requires Sees(bin, g, ps) && EHDR_LEN <= |m| && Appended(m, g, t.code)
    requires t.code_file_offset == PageUp(|m|) && t.phdr_file_offset + 56 <= |m|
    modifies bin.mem, bin.phdr, bin.phdr.spine
    ensures bin.Valid()
    ensures Injected(m, bin.mem[..], t.code, t.phdr_file_offset, vaddr)
    ensures bin.phdr.Contents() == ps + [NewRef(m, t.phdr_file_offset)]
  {
    hide EhdrAt, EncodePhdr64, Splice;
    RewriteSlot(m, g, t.code, t.phdr_file_offset, vaddr);
    EhdrFrame(Class64, m, g);
    hide Injected, Appended, PageUp;
    var idx := (EhdrAt(Class64, bin.mem[..]).phnum + 0xffff) % 0x1_0000;
    var ref := PhdrRef(idx, t.phdr_file_offset, t.code_file_offset);
    StorePhdr(bin.mem, t.phdr_file_offset, NewSegment(t.code_file_offset, vaddr, |t.code|));
    bin.phdr.Append(ref);
  }

  /** elftool_transform_segment_injection on a 64-bit binary: find the place, then add the segment. */
  method InjectSegment64(bin: Elf, t: Request, ghost m: seq<byte>, ghost ps: seq<PhdrRef>) returns (r: Code)
    requires Sees(bin, m, ps) && EHDR_LEN <= |m| && |m| + 0xfff + |t.code| < TWO64
    requires PhdrRefsIn(Class64, m, ps)
    modifies bin`length, bin`mem, t, bin.phdr, bin.phdr.spine
    ensures bin.Valid()
    ensures Outcome(m, ps, t.code, r, bin.mem[..], bin.phdr.Contents(), t.code_file_offset, t.virtual_addr)
    ensures r == Success ==> t.phdr_file_offset == FirstNote(m, ps).value.p_offset
  {
    hide PhdrAt, EhdrAt, FirstNote, HighestLoad, NextVaddr, PageUp, Injected, Outcome;
    ghost var g;
    r, g := FindPlace(bin, t, m, ps);
    if r == Success {
      NoteSlotInside(m, ps);
      AddSegment(bin, t, t.virtual_addr, m, g, ps);
      OutcomeOfSuccess(m, ps, t.code, bin.mem[..], t.virtual_addr);
    } else {
      OutcomeOfFailure(m, ps, t.code, g, t.virtual_addr);
    }
  }

  method FindPlace(bin: Elf, t: Request, ghost m: seq<byte>, ghost ps: seq<PhdrRef>)
    returns (r: Code, ghost g: seq<byte>)
    requires Sees(bin, m, ps) && EHDR_LEN <= |m| && |m| + 0xfff + |t.code| < TWO64
    requires PhdrRefsIn(Class64, m, ps)
    modifies bin`length, bin`mem, t
    ensures Sees(bin, g, ps) && fresh(bin.mem) && Appended(m, g, t.code) && t.code_file_offset == PageUp(|m|)
    ensures r == (if FirstNote(m, ps).None? then EINVAL else if HighestLoad(m, ps).None? then MinusOne else Success)
    ensures r == Success ==>
              && t.phdr_file_offset == FirstNote(m, ps).value.p_offset
              && t.virtual_addr == NextVaddr(PhdrAt(Class64, m, HighestLoad(m, ps).value.p_offset))
  {
    hide PhdrAt, EhdrAt, FirstNote, HighestLoad, NextVaddr, PageUp;
    g := AppendCode(bin, t, m, ps);
    AppendFrame(m, g, ps);
    hide Appended, Sees;
    r := GetAvailablePhdr(bin, t, g, ps);
    if r == Success {
      var vaddr;
      r, vaddr := GetVaddr(bin, g, ps);
      t.virtual_addr := vaddr;
    }
  }

  /** elftool_transform_segment_injection. */
  method InjectSegment(bin: Elf, t: Request, ghost m: seq<byte>, ghost ps: seq<PhdrRef>) returns (r: Code)
    requires Sees(bin, m, ps) && EHDR_LEN <= |m| && |m| + 0xfff + |t.code| < TWO64
    requires bin.elfclass != 1 ==> PhdrRefsIn(Class64, m, ps)
    modifies bin`length, bin`mem, t, bin.phdr, bin.phdr.spine
    ensures bin.Valid()
    ensures bin.elfclass == 1 ==> r == ENOSYS && Sees(bin, m, ps)
    ensures bin.elfclass != 1 ==>
              Outcome(m, ps, t.code, r, bin.mem[..], bin.phdr.Contents(), t.code_file_offset, t.virtual_addr)
    ensures r == Success ==> t.phdr_file_offset == FirstNote(m, ps).value.p_offset
  {
    hide Outcome;
    if bin.elfclass == 1 {
      r := ENOSYS;
    } else {
      r := InjectSegment64(bin, t, m, ps);
    }
  }
}
